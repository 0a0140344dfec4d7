/**
 The interpolation parser (pkg/util/interpolate/interpolate.go). Strings are sequences of bytes,
 written as characters.
 */
module Interpolate {

  datatype Variable = Variable(name: string, default: string, hasDefault: bool)

  datatype Part = Lit(text: string) | Var(v: Variable)

  /** The two dialects: variables are written `${...}` or `%{...}`. */
  datatype Syntax = Dollar | Percent {
    function Sigil(): char {
      if Dollar? then '$' else '%'
    }

    function VarBegin(): string {
      [Sigil(), '{']
    }
  }

  // ---------------------------------------------------------------------------
  // The grammar
  // ---------------------------------------------------------------------------

  datatype Scan = Scan(text: string, end: nat)

  /** A default value from `k`: the text up to a closing brace or the end; a backslash takes the next byte as it is. */
  function ScanDefault(s: string, k: nat): (r: Scan)
    requires k <= |s|
    ensures k <= r.end <= |s| && (r.end < |s| ==> s[r.end] == '}')
    decreases |s| - k
  {
    if k == |s| then Scan("", k)
    else if s[k] == '\\' then
      if k + 1 == |s| then Scan("", k + 1)
      else
        var r := ScanDefault(s, k + 2);
        Scan([s[k + 1]] + r.text, r.end)
    else if s[k] == '}' then Scan("", k)
    else
      var r := ScanDefault(s, k + 1);
      Scan([s[k]] + r.text, r.end)
  }

  datatype VarScan = Closed(v: Variable, end: nat) | Open

  function WithName(prefix: string, r: VarScan): VarScan {
    match r
    case Closed(v, end) => Closed(v.(name := prefix + v.name), end)
    case Open => Open
  }

  /** What follows the opening of a variable. */
  function ScanVar(s: string, k: nat): (r: VarScan)
    requires k <= |s|
    ensures r.Closed? ==> k < r.end <= |s|
    ensures r.Closed? && !r.v.hasDefault ==> r.v.default == ""
    decreases |s| - k
  {
    if k == |s| then Open
    else if s[k] == '\\' then
      if k + 1 == |s| then Open else WithName([s[k + 1]], ScanVar(s, k + 2))
    else if s[k] == '-' then
      var d := ScanDefault(s, k + 1);
      if d.end == |s| then Open else Closed(Variable("", d.text, true), d.end + 1)
    else if s[k] == '}' then Closed(Variable("", "", false), k + 1)
    else WithName([s[k]], ScanVar(s, k + 1))
  }

  /** Literal bytes and variables, in order. */
  datatype Tokens = End | Byte(b: char, tail: Tokens) | Placeholder(v: Variable, tail: Tokens)

  predicate Opens(x: Syntax, s: string, k: nat) {
    k + 1 < |s| && s[k] == x.Sigil() && s[k + 1] == '{'
  }

  /** The string from `k` as tokens; a variable that is never closed is literal. */
  function Scanned(x: Syntax, s: string, k: nat): Tokens
    requires k <= |s|
    decreases |s| - k
  {
    if k == |s| then End
    else if s[k] == '\\' then
      if k + 1 == |s| then Byte('\\', End) else Byte(s[k + 1], Scanned(x, s, k + 2))
    else if Opens(x, s, k) then
      match ScanVar(s, k + 2)
      case Closed(v, end) => Placeholder(v, Scanned(x, s, end))
      case Open => Byte(s[k], Byte(s[k + 1], Scanned(x, s, k + 2)))
    else Byte(s[k], Scanned(x, s, k + 1))
  }

  function Flush(out: seq<Part>, lit: string): seq<Part> {
    if lit == "" then out else out + [Lit(lit)]
  }

  /** Adjacent literal bytes become one literal part. */
  function Glue(out: seq<Part>, lit: string, ts: Tokens): seq<Part>
    decreases ts
  {
    match ts
    case End => Flush(out, lit)
    case Byte(b, tail) => Glue(out, lit + [b], tail)
    case Placeholder(v, tail) => Glue(Flush(out, lit) + [Var(v)], "", tail)
  }

  function Parsed(x: Syntax, s: string): seq<Part> {
    Glue([], "", Scanned(x, s, 0))
  }

  // ---------------------------------------------------------------------------
  // The parser
  // ---------------------------------------------------------------------------

  class Parser {
    const syntax: Syntax
    const input: string
    var out: seq<Part>
    var pos: nat
    var litBuf: string
    var varBuf: string
    var defBuf: string

    ghost predicate Valid()
      reads this
    {
      pos <= |input|
    }

    /** What the parse will return, given what has been read so far. */
    ghost function Outcome(): seq<Part>
      requires Valid()
      reads this
    {
      Glue(out, litBuf, Scanned(syntax, input, pos))
    }

    constructor (x: Syntax, s: string)
      ensures Valid() && syntax == x && input == s && Outcome() == Parsed(x, s)
    {
      syntax, input, out, pos := x, s, [], 0;
      litBuf, varBuf, defBuf := "", "", "";
    }

    predicate HasNext()
      reads this
    {
      pos < |input|
    }

    method NextByte() returns (b: char)
      requires HasNext()
      modifies this`pos
      ensures pos == old(pos) + 1 && b == input[old(pos)]
    {
      pos := pos + 1;
      b := input[pos - 1];
    }

    method NextToken(token: string) returns (found: bool)
      requires Valid()
      modifies this`pos
      ensures Valid()
      ensures found <==> old(pos) + |token| <= |input| && input[old(pos)..old(pos) + |token|] == token
      ensures pos == old(pos) + if found then |token| else 0
    {
      found := pos + |token| <= |input| && input[pos..pos + |token|] == token;
      if found {
        pos := pos + |token|;
      }
    }

    method NextIs(c: char) returns (found: bool)
      requires HasNext()
      modifies this`pos
      ensures found <==> input[old(pos)] == c
      ensures pos == old(pos) + if found then 1 else 0
    {
      found := NextToken([c]);
    }

    /** The bytes up to the first of the given ones, but at least one byte. */
    method NextBytesUntilAnyOf(stops: set<char>) returns (r: string)
      requires HasNext()
      modifies this`pos
      ensures old(pos) < pos <= |input| && r == input[old(pos)..pos]
      ensures forall k | old(pos) < k < pos :: input[k] !in stops
      ensures pos < |input| ==> input[pos] in stops
    {
      var start := pos;
      pos := pos + 1;
      while pos < |input|
        invariant start < pos <= |input|
        invariant forall k | start < k < pos :: input[k] !in stops
      {
        if input[pos] in stops {
          return input[start..pos];
        }
        pos := pos + 1;
      }
      return input[start..pos];
    }

    method AppendBuffer()
      modifies this`out, this`litBuf
      ensures out == Flush(old(out), old(litBuf)) && litBuf == ""
    {
      if |litBuf| > 0 {
        out := out + [Lit(litBuf)];
        litBuf := "";
      }
    }

    method AppendVariable(v: Variable)
      modifies this`out, this`litBuf
      ensures out == Flush(old(out), old(litBuf)) + [Var(v)] && litBuf == ""
    {
      AppendBuffer();
      out := out + [Var(v)];
    }

    /** Reads a default value; a closing brace is left for the caller. */
    method ParseDefault()
      requires Valid() && defBuf == ""
      modifies this`pos, this`defBuf
      ensures Valid()
      ensures Scan(defBuf, pos) == ScanDefault(input, old(pos))
    {
      ghost var all := ScanDefault(input, pos);
      while HasNext()
        invariant old(pos) <= pos <= |input|
        invariant all == After(defBuf, ScanDefault(input, pos))
        decreases |input| - pos
      {
        ghost var at := pos;
        var escape := NextIs('\\');
        if escape {
          if HasNext() {
            EscapedDefault(defBuf, input, at);
            var b := NextByte();
            defBuf := defBuf + [b];
          }
          continue;
        }
        var end := NextIs('}');
        if end {
          pos := pos - 1;
          return;
        }
        var r := NextBytesUntilAnyOf({'}', '\\'});
        PlainDefault(defBuf, input, at, pos);
        defBuf := defBuf + r;
      }
    }

    /** Reads a variable after its opening, or takes the opening as literal and goes back to just after it. */
    method ParseVariable()
      requires Valid()
      modifies this
      ensures Valid() && pos >= old(pos)
      ensures match ScanVar(input, old(pos))
              case Closed(v, end) =>
                out == Flush(old(out), old(litBuf)) + [Var(v)] && litBuf == "" && pos == end
              case Open =>
                out == old(out) && litBuf == old(litBuf) + syntax.VarBegin() && pos == old(pos)
    {
      var start, def := pos, false;
      varBuf, defBuf := "", "";
      ghost var all := ScanVar(input, pos);
      while HasNext()
        invariant start <= pos <= |input|
        invariant out == old(out) && litBuf == old(litBuf)
        invariant !def ==> defBuf == "" && all == WithName(varBuf, ScanVar(input, pos))
        invariant def ==> all == if pos == |input| then Open else Closed(Variable(varBuf, defBuf, true), pos + 1)
        invariant def && pos < |input| ==> input[pos] == '}'
        decreases |input| - pos
      {
        ghost var at := pos;
        var escape := NextIs('\\');
        if escape {
          if HasNext() {
            EscapedName(varBuf, input, at);
            var b := NextByte();
            varBuf := varBuf + [b];
          }
          continue;
        }
        var dash := NextIs('-');
        if dash {
          def := true;
          DashedName(varBuf, input, at);
          ParseDefault();
          continue;
        }
        var end := NextIs('}');
        if end {
          ClosedName(varBuf, input, at);
          AppendVariable(Variable(varBuf, defBuf, def));
          return;
        }
        var r := NextBytesUntilAnyOf({'}', '-', '\\'});
        PlainName(varBuf, input, at, pos);
        varBuf := varBuf + r;
      }
      litBuf := litBuf + syntax.VarBegin();
      pos := start;
    }

    method ParseBackslash()
      requires 0 < pos <= |input| && input[pos - 1] == '\\'
      modifies this`pos, this`litBuf
      ensures Valid() && pos >= old(pos)
      ensures Glue(out, litBuf, Scanned(syntax, input, pos)) ==
              Glue(out, old(litBuf), Scanned(syntax, input, old(pos) - 1))
    {
      if !HasNext() {
        litBuf := litBuf + "\\";
        return;
      }
      var b := NextByte();
      litBuf := litBuf + [b];
    }

    method Parse()
      requires Valid()
      modifies this
      ensures out == old(Outcome())
    {
      while HasNext()
        invariant Valid() && Outcome() == old(Outcome())
        decreases |input| - pos
      {
        ghost var at, before, lit := pos, out, litBuf;
        var escape := NextIs('\\');
        if escape {
          ParseBackslash();
          continue;
        }
        var begin := NextToken(syntax.VarBegin());
        assert begin <==> Opens(syntax, input, at);
        if begin {
          ParseVariable();
          GlueOpening(syntax, before, lit, input, at);
          continue;
        }
        var r := NextBytesUntilAnyOf({syntax.Sigil(), '\\'});
        PlainBytes(syntax, out, lit, input, at, pos);
        litBuf := litBuf + r;
      }
      AppendBuffer();
    }
  }

  method ParseString(x: Syntax, s: string) returns (parts: seq<Part>)
    ensures parts == Parsed(x, s)
  {
    var p := new Parser(x, s);
    p.Parse();
    parts := p.out;
  }

  function After(text: string, r: Scan): Scan {
    Scan(text + r.text, r.end)
  }

  lemma AfterTwice(a: string, b: string, r: Scan)
    ensures After(a, After(b, r)) == After(a + b, r)
  {
    assert a + (b + r.text) == a + b + r.text;
  }

  lemma Rename(a: string, b: string, r: VarScan)
    ensures WithName(a, WithName(b, r)) == WithName(a + b, r)
  {
    if r.Closed? {
      assert a + (b + r.v.name) == a + b + r.v.name;
    }
  }

  lemma EscapedDefault(text: string, s: string, k: nat)
    requires k + 1 < |s| && s[k] == '\\'
    ensures After(text, ScanDefault(s, k)) == After(text + [s[k + 1]], ScanDefault(s, k + 2))
  {
    AfterTwice(text, [s[k + 1]], ScanDefault(s, k + 2));
  }

  lemma EscapedName(name: string, s: string, k: nat)
    requires k + 1 < |s| && s[k] == '\\'
    ensures WithName(name, ScanVar(s, k)) == WithName(name + [s[k + 1]], ScanVar(s, k + 2))
  {
    Rename(name, [s[k + 1]], ScanVar(s, k + 2));
  }

  lemma DashedName(name: string, s: string, k: nat)
    requires k < |s| && s[k] == '-'
    ensures var d := ScanDefault(s, k + 1);
            WithName(name, ScanVar(s, k)) ==
            if d.end == |s| then Open else Closed(Variable(name, d.text, true), d.end + 1)
  {
    assert name + "" == name;
  }

  lemma ClosedName(name: string, s: string, k: nat)
    requires k < |s| && s[k] == '}'
    ensures WithName(name, ScanVar(s, k)) == Closed(Variable(name, "", false), k + 1)
  {
    assert name + "" == name;
  }

  /** The two outcomes of reading a variable at `k`, in terms of the parts so far. */
  lemma GlueOpening(x: Syntax, out: seq<Part>, lit: string, s: string, k: nat)
    requires Opens(x, s, k)
    ensures Glue(out, lit, Scanned(x, s, k)) ==
            match ScanVar(s, k + 2)
            case Closed(v, end) => Glue(Flush(out, lit) + [Var(v)], "", Scanned(x, s, end))
            case Open => Glue(out, lit + x.VarBegin(), Scanned(x, s, k + 2))
  {
    if ScanVar(s, k + 2).Open? {
      assert lit + [s[k]] + [s[k + 1]] == lit + x.VarBegin();
    }
  }

  lemma {:induction false} PlainDefault(text: string, s: string, k: nat, m: nat)
    requires k <= m <= |s| && forall i | k <= i < m :: s[i] != '\\' && s[i] != '}'
    ensures After(text, ScanDefault(s, k)) == After(text + s[k..m], ScanDefault(s, m))
    decreases m - k
  {
    if k < m {
      AfterTwice(text, [s[k]], ScanDefault(s, k + 1));
      PlainDefault(text + [s[k]], s, k + 1, m);
      assert text + [s[k]] + s[k + 1..m] == text + s[k..m];
    } else {
      assert text + s[k..m] == text;
    }
  }

  lemma {:induction false} PlainName(name: string, s: string, k: nat, m: nat)
    requires k <= m <= |s| && forall i | k <= i < m :: s[i] != '\\' && s[i] != '}' && s[i] != '-'
    ensures WithName(name, ScanVar(s, k)) == WithName(name + s[k..m], ScanVar(s, m))
    decreases m - k
  {
    if k < m {
      Rename(name, [s[k]], ScanVar(s, k + 1));
      PlainName(name + [s[k]], s, k + 1, m);
      assert name + [s[k]] + s[k + 1..m] == name + s[k..m];
    } else {
      assert name + s[k..m] == name;
    }
  }

  lemma {:induction false} PlainBytes(x: Syntax, out: seq<Part>, lit: string, s: string, k: nat, m: nat)
    requires k < m <= |s| && s[k] != '\\' && !Opens(x, s, k)
    requires forall i | k < i < m :: s[i] != '\\' && s[i] != x.Sigil()
    ensures Glue(out, lit, Scanned(x, s, k)) == Glue(out, lit + s[k..m], Scanned(x, s, m))
    decreases m - k
  {
    if k + 1 < m {
      PlainBytes(x, out, lit + [s[k]], s, k + 1, m);
      assert lit + [s[k]] + s[k + 1..m] == lit + s[k..m];
    } else {
      assert [s[k]] == s[k..m];
    }
  }

  // ---------------------------------------------------------------------------
  // Rendering
  // ---------------------------------------------------------------------------

  function Substitute(parts: seq<Part>, mapping: Variable -> string): string {
    if parts == [] then ""
    else
      Substitute(parts[..|parts| - 1], mapping) + Rendered(parts[|parts| - 1], mapping)
  }

  function Rendered(p: Part, mapping: Variable -> string): string {
    match p
    case Lit(text) => text
    case Var(v) => mapping(v)
  }

  method Interpolate(parts: seq<Part>, mapping: Variable -> string) returns (buf: string)
    ensures buf == Substitute(parts, mapping)
  {
    buf := "";
    for i := 0 to |parts|
      invariant buf == Substitute(parts[..i], mapping)
    {
      assert parts[..i + 1][..i] == parts[..i];
      match parts[i] {
        case Lit(text) => buf := buf + text;
        case Var(v) => buf := buf + mapping(v);
      }
    }
    assert parts[..|parts|] == parts;
  }

  /** A variable as it is written when nothing in it needs an escape. */
  function Written(x: Syntax, v: Variable): string {
    x.VarBegin() + Body(v)
  }

  function Body(v: Variable): string {
    v.name + Ending(v)
  }

  function Ending(v: Variable): string {
    if v.hasDefault then "-" + v.default + "}" else "}"
  }

  /** Rendering each variable as it is written. */
  function AsWritten(x: Syntax): Variable -> string {
    v => Written(x, v)
  }

  function WrittenTokens(x: Syntax, ts: Tokens): string {
    match ts
    case End => ""
    case Byte(b, tail) => [b] + WrittenTokens(x, tail)
    case Placeholder(v, tail) => Written(x, v) + WrittenTokens(x, tail)
  }

  lemma SubstituteSnoc(xs: seq<Part>, p: Part, mapping: Variable -> string)
    ensures Substitute(xs + [p], mapping) == Substitute(xs, mapping) + Rendered(p, mapping)
  {
    assert (xs + [p])[..|xs|] == xs;
  }

  lemma SubstituteOne(p: Part, mapping: Variable -> string)
    ensures Substitute([p], mapping) == Rendered(p, mapping)
  {
    assert [p][..0] == [];
  }

  lemma SubstituteFlush(out: seq<Part>, lit: string, mapping: Variable -> string)
    ensures Substitute(Flush(out, lit), mapping) == Substitute(out, mapping) + lit
  {
    if lit != "" {
      SubstituteSnoc(out, Lit(lit), mapping);
    }
  }

  lemma Regroup(a: string, b: string, c: string, d: string)
    ensures a + (b + c) + d == a + b + (c + d) == a + b + c + d
    ensures c == "" ==> a + b + c + d == a + (b + d)
  {
  }

  lemma {:induction false} GlueWritten(x: Syntax, out: seq<Part>, lit: string, ts: Tokens)
    ensures Substitute(Glue(out, lit, ts), AsWritten(x)) ==
            Substitute(out, AsWritten(x)) + lit + WrittenTokens(x, ts)
    decreases ts
  {
    var w := AsWritten(x);
    match ts {
      case End =>
        SubstituteFlush(out, lit, w);
      case Byte(b, tail) =>
        GlueWritten(x, out, lit + [b], tail);
        Regroup(Substitute(out, w), lit, [b], WrittenTokens(x, tail));
      case Placeholder(v, tail) =>
        GlueWritten(x, Flush(out, lit) + [Var(v)], "", tail);
        SubstituteSnoc(Flush(out, lit), Var(v), w);
        SubstituteFlush(out, lit, w);
        Regroup(Substitute(out, w) + lit, Written(x, v), "", WrittenTokens(x, tail));
    }
  }

  /** No backslash escapes anything: only the last byte may be one. */
  ghost predicate NoEscapes(s: string) {
    forall i | 0 <= i < |s| - 1 :: s[i] != '\\'
  }

  lemma {:induction false} DefaultWritten(s: string, k: nat)
    requires k <= |s| && NoEscapes(s) && ScanDefault(s, k).end < |s|
    ensures s[k..] == ScanDefault(s, k).text + s[ScanDefault(s, k).end..]
    decreases |s| - k
  {
    if s[k] != '}' {
      DefaultWritten(s, k + 1);
      assert s[k..] == [s[k]] + s[k + 1..];
    }
  }

  lemma Assoc(a: string, b: string, c: string)
    ensures a + (b + c) == a + b + c
  {
  }

  lemma DefaultClosed(s: string, k: nat)
    requires k <= |s| && NoEscapes(s) && ScanDefault(s, k).end < |s|
    ensures var d := ScanDefault(s, k);
            s[k..] == d.text + (['}'] + s[d.end + 1..])
  {
    DefaultWritten(s, k);
    Drop(s, ScanDefault(s, k).end);
  }

  lemma DashWritten(s: string, k: nat)
    requires k < |s| && s[k] == '-' && NoEscapes(s) && ScanVar(s, k).Closed?
    ensures var r := ScanVar(s, k);
            s[k..] == Body(r.v) + s[r.end..]
  {
    var d := ScanDefault(s, k + 1);
    DefaultClosed(s, k + 1);
    Drop(s, k);
    DashAssoc(d.text, s[d.end + 1..]);
  }

  lemma DashAssoc(d: string, rest: string)
    ensures ['-'] + (d + (['}'] + rest)) == Body(Variable("", d, true)) + rest
  {
    assert Body(Variable("", d, true)) == "-" + d + "}";
  }

  lemma NameCons(c: char, v: Variable)
    ensures Body(v.(name := [c] + v.name)) == [c] + Body(v)
  {
    Assoc([c], v.name, Ending(v));
  }

  lemma {:induction false} VarWritten(s: string, k: nat)
    requires k <= |s| && NoEscapes(s) && ScanVar(s, k).Closed?
    ensures var r := ScanVar(s, k);
            s[k..] == Body(r.v) + s[r.end..]
    decreases |s| - k
  {
    if s[k] == '-' {
      DashWritten(s, k);
    } else {
      Drop(s, k);
      if s[k] == '}' {
        assert Body(ScanVar(s, k).v) == "}";
      } else {
        var q := ScanVar(s, k + 1);
        VarWritten(s, k + 1);
        NameCons(s[k], q.v);
        Assoc([s[k]], Body(q.v), s[q.end..]);
      }
    }
  }

  lemma OpeningWritten(x: Syntax, s: string, k: nat)
    requires NoEscapes(s) && Opens(x, s, k)
    ensures s[k..] == x.VarBegin() + s[k + 2..]
    ensures var r := ScanVar(s, k + 2);
            r.Closed? ==> s[k..] == Written(x, r.v) + s[r.end..]
  {
    assert s[k..] == x.VarBegin() + s[k + 2..];
    if ScanVar(s, k + 2).Closed? {
      VarWritten(s, k + 2);
      var r := ScanVar(s, k + 2);
      assert x.VarBegin() + (Body(r.v) + s[r.end..]) == x.VarBegin() + Body(r.v) + s[r.end..];
    }
  }

  lemma Drop(s: string, k: nat)
    requires k < |s|
    ensures s[k..] == [s[k]] + s[k + 1..]
  {
  }

  lemma {:induction false} TokensWritten(x: Syntax, s: string, k: nat)
    requires k <= |s| && NoEscapes(s)
    ensures WrittenTokens(x, Scanned(x, s, k)) == s[k..]
    decreases |s| - k
  {
    if k < |s| {
      if s[k] == '\\' {
        assert k == |s| - 1 && s[k..] == ['\\'];
      } else if !Opens(x, s, k) {
        TokensWritten(x, s, k + 1);
        Drop(s, k);
      } else {
        OpeningWritten(x, s, k);
        match ScanVar(s, k + 2) {
          case Closed(_, end) =>
            TokensWritten(x, s, end);
          case Open =>
            TokensWritten(x, s, k + 2);
            Drop(s, k);
            Drop(s, k + 1);
        }
      }
    }
  }

  /** A backslash stands before `end`, at `k` or later. */
  ghost predicate Escapes(s: string, k: nat, end: int) {
    exists i :: k <= i < end && i < |s| && s[i] == '\\'
  }

  /** A text loses a byte for each escape in it. */
  lemma {:induction false} DefaultShrinks(s: string, k: nat)
    requires k <= |s| && ScanDefault(s, k).end < |s|
    ensures var r := ScanDefault(s, k);
            |r.text| <= r.end - k && (Escapes(s, k, r.end) ==> |r.text| < r.end - k)
    decreases |s| - k
  {
    if s[k] == '\\' {
      DefaultShrinks(s, k + 2);
    } else if s[k] != '}' {
      DefaultShrinks(s, k + 1);
    }
  }

  lemma {:induction false} VarShrinks(s: string, k: nat)
    requires k <= |s| && ScanVar(s, k).Closed?
    ensures var r := ScanVar(s, k);
            |Body(r.v)| <= r.end - k && (Escapes(s, k, r.end) ==> |Body(r.v)| < r.end - k)
    decreases |s| - k
  {
    if s[k] == '\\' {
      VarShrinks(s, k + 2);
    } else if s[k] == '-' {
      DefaultShrinks(s, k + 1);
    } else if s[k] != '}' {
      VarShrinks(s, k + 1);
    }
  }

  lemma {:induction false} TokensShrink(x: Syntax, s: string, k: nat)
    requires k <= |s|
    ensures var n := |WrittenTokens(x, Scanned(x, s, k))|;
            n <= |s| - k && (Escapes(s, k, |s| - 1) ==> n < |s| - k)
    decreases |s| - k
  {
    if k < |s| {
      if s[k] == '\\' {
        if k + 1 < |s| {
          TokensShrink(x, s, k + 2);
        }
      } else if !Opens(x, s, k) {
        TokensShrink(x, s, k + 1);
      } else {
        match ScanVar(s, k + 2) {
          case Closed(_, end) =>
            VarShrinks(s, k + 2);
            TokensShrink(x, s, end);
          case Open =>
            TokensShrink(x, s, k + 2);
        }
      }
    }
  }

  /**
   A string is reproduced by writing its parse out again, unclosed variables included, exactly when no backslash in it
   escapes anything.
   */
  lemma ParseKeepsTextExactly(x: Syntax, s: string)
    ensures Substitute(Parsed(x, s), AsWritten(x)) == s <==> NoEscapes(s)
  {
    GlueWritten(x, [], "", Scanned(x, s, 0));
    assert "" + "" + WrittenTokens(x, Scanned(x, s, 0)) == WrittenTokens(x, Scanned(x, s, 0));
    assert s[0..] == s;
    if NoEscapes(s) {
      TokensWritten(x, s, 0);
    } else {
      TokensShrink(x, s, 0);
      var i :| 0 <= i < |s| - 1 && s[i] == '\\';
      assert Escapes(s, 0, |s| - 1);
    }
  }

  // ---------------------------------------------------------------------------
  // Parsing undoes printing
  // ---------------------------------------------------------------------------

  function Escaped(t: string, special: set<char>): string {
    if t == "" then ""
    else EscapedByte(t[0], special) + Escaped(t[1..], special)
  }

  function LiteralSpecial(x: Syntax): set<char> {
    {x.Sigil(), '\\'}
  }

  const NAME_SPECIAL: set<char> := {'\\', '-', '}'}
  const DEFAULT_SPECIAL: set<char> := {'\\', '}'}

  function PrintDefault(v: Variable): string {
    (if v.hasDefault then "-" + Escaped(v.default, DEFAULT_SPECIAL) else "") + "}"
  }

  function PrintPart(x: Syntax, p: Part): string {
    match p
    case Lit(text) => Escaped(text, LiteralSpecial(x))
    case Var(v) => x.VarBegin() + Escaped(v.name, NAME_SPECIAL) + PrintDefault(v)
  }

  function Print(x: Syntax, parts: seq<Part>): string {
    if parts == [] then "" else PrintPart(x, parts[0]) + Print(x, parts[1..])
  }

  /** No empty and no adjacent literals, and a default only where one is declared. */
  ghost predicate Normal(parts: seq<Part>) {
    parts == [] ||
    (&& NormalPart(parts[0])
     && (parts[0].Lit? && |parts| > 1 ==> parts[1].Var?)
     && Normal(parts[1..]))
  }

  predicate NormalPart(p: Part) {
    match p
    case Lit(text) => text != ""
    case Var(v) => !v.hasDefault ==> v.default == ""
  }

  /** One byte as it is printed. */
  function EscapedByte(c: char, special: set<char>): string {
    if c in special then ['\\', c] else [c]
  }

  /** The text `t`, escaped, stands between `k` and `end`. */
  ghost predicate EscapedAt(s: string, k: nat, t: string, special: set<char>, end: nat)
    decreases |t|
  {
    if t == "" then k == end <= |s|
    else if t[0] in special then
      k + 1 < |s| && s[k] == '\\' && s[k + 1] == t[0] && EscapedAt(s, k + 2, t[1..], special, end)
    else k < |s| && s[k] == t[0] && EscapedAt(s, k + 1, t[1..], special, end)
  }

  lemma Shorter(s: string, k: nat, c: char, rest: string)
    requires k <= |s| && s[k..] == [c] + rest
    ensures k < |s| && s[k] == c && s[k + 1..] == rest
  {
    assert s[k..][0] == c;
    assert s[k + 1..] == s[k..][1..] == rest;
  }

  lemma Suffix(s: string, k: nat, t: string, rest: string)
    requires k <= |s| && s[k..] == t + rest
    ensures k <= |s| - |rest| && s[|s| - |rest|..] == rest
  {
    assert s[|s| - |rest|..] == s[k..][|t|..];
  }

  lemma {:induction false} EscapedStands(s: string, k: nat, t: string, special: set<char>, rest: string)
    requires k <= |s| && s[k..] == Escaped(t, special) + rest
    ensures |rest| <= |s| && EscapedAt(s, k, t, special, |s| - |rest|)
    decreases |t|
  {
    if t == "" {
      assert Escaped(t, special) + rest == rest;
    } else {
      var tail := Escaped(t[1..], special);
      if t[0] in special {
        assert s[k..] == ['\\'] + ([t[0]] + (tail + rest));
        Shorter(s, k, '\\', [t[0]] + (tail + rest));
        Shorter(s, k + 1, t[0], tail + rest);
        EscapedStands(s, k + 2, t[1..], special, rest);
      } else {
        assert s[k..] == [t[0]] + (tail + rest);
        Shorter(s, k, t[0], tail + rest);
        EscapedStands(s, k + 1, t[1..], special, rest);
      }
    }
  }

  lemma {:induction false} PrintedDefault(s: string, k: nat, d: string, end: nat)
    requires EscapedAt(s, k, d, DEFAULT_SPECIAL, end) && end < |s| && s[end] == '}'
    ensures k <= |s| && ScanDefault(s, k) == Scan(d, end)
    decreases |d|
  {
    if d != "" {
      PrintedDefault(s, if d[0] in DEFAULT_SPECIAL then k + 2 else k + 1, d[1..], end);
      assert d == [d[0]] + d[1..];
    }
  }

  lemma {:induction false} PrintedName(s: string, k: nat, n: string, end: nat)
    requires EscapedAt(s, k, n, NAME_SPECIAL, end)
    ensures k <= |s| && end <= |s| && ScanVar(s, k) == WithName(n, ScanVar(s, end))
    decreases |n|
  {
    if n == "" {
      NoName(ScanVar(s, end));
    } else {
      PrintedName(s, if n[0] in NAME_SPECIAL then k + 2 else k + 1, n[1..], end);
      Rename([n[0]], n[1..], ScanVar(s, end));
      assert n == [n[0]] + n[1..];
    }
  }

  lemma NoName(r: VarScan)
    ensures WithName("", r) == r
  {
    if r.Closed? {
      assert "" + r.v.name == r.v.name;
    }
  }

  lemma {:induction false} PrintedLiteral(x: Syntax, out: seq<Part>, lit: string, s: string, k: nat, t: string, end: nat)
    requires EscapedAt(s, k, t, LiteralSpecial(x), end)
    ensures k <= |s| && end <= |s|
    ensures Glue(out, lit, Scanned(x, s, k)) == Glue(out, lit + t, Scanned(x, s, end))
    decreases |t|
  {
    if t == "" {
      assert lit + t == lit;
    } else {
      var next := if t[0] in LiteralSpecial(x) then k + 2 else k + 1;
      PrintedLiteral(x, out, lit + [t[0]], s, next, t[1..], end);
      LiteralToken(x, out, lit, s, k, t[0]);
      assert lit + [t[0]] + t[1..] == lit + t;
    }
  }

  lemma LiteralToken(x: Syntax, out: seq<Part>, lit: string, s: string, k: nat, c: char)
    requires if c in LiteralSpecial(x) then k + 1 < |s| && s[k] == '\\' && s[k + 1] == c else k < |s| && s[k] == c
    ensures var next := if c in LiteralSpecial(x) then k + 2 else k + 1;
            Glue(out, lit, Scanned(x, s, k)) == Glue(out, lit + [c], Scanned(x, s, next))
  {
  }

  lemma PrintedEnding(s: string, k: nat, v: Variable, rest: string)
    requires k <= |s| && s[k..] == PrintDefault(v) + rest && NormalPart(Var(v))
    ensures |rest| <= |s| && ScanVar(s, k) == Closed(v.(name := ""), |s| - |rest|)
  {
    if v.hasDefault {
      var d := Escaped(v.default, DEFAULT_SPECIAL);
      assert s[k..] == ['-'] + (d + (['}'] + rest));
      Shorter(s, k, '-', d + (['}'] + rest));
      EscapedStands(s, k + 1, v.default, DEFAULT_SPECIAL, ['}'] + rest);
      Suffix(s, k + 1, d, ['}'] + rest);
      Shorter(s, |s| - |rest| - 1, '}', rest);
      PrintedDefault(s, k + 1, v.default, |s| - |rest| - 1);
    } else {
      assert s[k..] == ['}'] + rest;
      Shorter(s, k, '}', rest);
    }
  }

  lemma PrintedBody(s: string, k: nat, v: Variable, rest: string)
    requires k <= |s| && s[k..] == Escaped(v.name, NAME_SPECIAL) + (PrintDefault(v) + rest) && NormalPart(Var(v))
    ensures |rest| <= |s| && ScanVar(s, k) == Closed(v, |s| - |rest|)
  {
    var tail := PrintDefault(v) + rest;
    EscapedStands(s, k, v.name, NAME_SPECIAL, tail);
    Suffix(s, k, Escaped(v.name, NAME_SPECIAL), tail);
    PrintedName(s, k, v.name, |s| - |tail|);
    PrintedEnding(s, |s| - |tail|, v, rest);
    assert v.name + "" == v.name;
  }

  lemma OpeningFirst(c: char, n: string, d: string, rest: string)
    ensures [c, '{'] + n + d + rest == [c] + (['{'] + (n + (d + rest)))
  {
  }

  lemma PrintedOpening(x: Syntax, s: string, k: nat, v: Variable, rest: string)
    requires k <= |s| && s[k..] == PrintPart(x, Var(v)) + rest
    ensures Opens(x, s, k) && s[k + 2..] == Escaped(v.name, NAME_SPECIAL) + (PrintDefault(v) + rest)
  {
    var n, d := Escaped(v.name, NAME_SPECIAL), PrintDefault(v);
    OpeningFirst(x.Sigil(), n, d, rest);
    Shorter(s, k, x.Sigil(), ['{'] + (n + (d + rest)));
    Shorter(s, k + 1, '{', n + (d + rest));
  }

  lemma PrintedVariable(x: Syntax, s: string, k: nat, v: Variable, rest: string)
    requires k <= |s| && s[k..] == PrintPart(x, Var(v)) + rest && NormalPart(Var(v))
    ensures |rest| <= |s| && Opens(x, s, k) && ScanVar(s, k + 2) == Closed(v, |s| - |rest|)
  {
    PrintedOpening(x, s, k, v, rest);
    PrintedBody(s, k + 2, v, rest);
  }

  /** The parts and the pending literal after reading one more part. */
  function PartsAfter(out: seq<Part>, lit: string, p: Part): seq<Part> {
    if p.Lit? then out else Flush(out, lit) + [p]
  }

  function LiteralAfter(lit: string, p: Part): string {
    if p.Lit? then lit + p.text else ""
  }

  lemma PrintedPart(x: Syntax, out: seq<Part>, lit: string, s: string, k: nat, p: Part, rest: string)
    requires k <= |s| && s[k..] == PrintPart(x, p) + rest && NormalPart(p)
    ensures |rest| <= |s|
    ensures Glue(out, lit, Scanned(x, s, k)) ==
            Glue(PartsAfter(out, lit, p), LiteralAfter(lit, p), Scanned(x, s, |s| - |rest|))
  {
    match p {
      case Lit(t) =>
        PrintedText(x, out, lit, s, k, t, rest);
      case Var(v) =>
        GlueVariable(x, out, lit, s, k, v, rest);
    }
  }

  lemma PrintedText(x: Syntax, out: seq<Part>, lit: string, s: string, k: nat, t: string, rest: string)
    requires k <= |s| && s[k..] == Escaped(t, LiteralSpecial(x)) + rest
    ensures |rest| <= |s|
    ensures Glue(out, lit, Scanned(x, s, k)) == Glue(out, lit + t, Scanned(x, s, |s| - |rest|))
  {
    EscapedStands(s, k, t, LiteralSpecial(x), rest);
    PrintedLiteral(x, out, lit, s, k, t, |s| - |rest|);
  }

  lemma GlueClosed(x: Syntax, out: seq<Part>, lit: string, s: string, k: nat, v: Variable, end: nat)
    requires Opens(x, s, k) && ScanVar(s, k + 2) == Closed(v, end)
    ensures Glue(out, lit, Scanned(x, s, k)) == Glue(Flush(out, lit) + [Var(v)], "", Scanned(x, s, end))
  {
  }

  lemma GlueVariable(x: Syntax, out: seq<Part>, lit: string, s: string, k: nat, v: Variable, rest: string)
    requires k <= |s| && s[k..] == PrintPart(x, Var(v)) + rest && NormalPart(Var(v))
    ensures |rest| <= |s|
    ensures Glue(out, lit, Scanned(x, s, k)) == Glue(Flush(out, lit) + [Var(v)], "", Scanned(x, s, |s| - |rest|))
  {
    PrintedVariable(x, s, k, v, rest);
    GlueClosed(x, out, lit, s, k, v, |s| - |rest|);
  }

  /** The parts are read one by one. */
  function Read(out: seq<Part>, lit: string, parts: seq<Part>): seq<Part>
    decreases |parts|
  {
    if parts == [] then Flush(out, lit)
    else Read(PartsAfter(out, lit, parts[0]), LiteralAfter(lit, parts[0]), parts[1..])
  }

  lemma NormalTail(parts: seq<Part>)
    requires parts != [] && Normal(parts)
    ensures NormalPart(parts[0]) && Normal(parts[1..])
  {
  }

  lemma {:induction false} PrintedParts(x: Syntax, out: seq<Part>, lit: string, s: string, k: nat, parts: seq<Part>)
    requires k <= |s| && s[k..] == Print(x, parts) && Normal(parts)
    ensures Glue(out, lit, Scanned(x, s, k)) == Read(out, lit, parts)
    decreases |parts|
  {
    if parts == [] {
      assert k == |s|;
    } else {
      var p, rest := parts[0], Print(x, parts[1..]);
      NormalTail(parts);
      Suffix(s, k, PrintPart(x, p), rest);
      PrintedPart(x, out, lit, s, k, p, rest);
      PrintedParts(x, PartsAfter(out, lit, p), LiteralAfter(lit, p), s, |s| - |rest|, parts[1..]);
    }
  }

  /** Reading the parts of a normal list keeps them apart. */
  lemma {:induction false} NormalRead(out: seq<Part>, lit: string, parts: seq<Part>)
    requires Normal(parts) && (lit != "" && parts != [] ==> parts[0].Var?)
    ensures Read(out, lit, parts) == Flush(out, lit) + parts
    decreases |parts|
  {
    if parts == [] {
      assert Flush(out, lit) + parts == Flush(out, lit);
    } else {
      NormalRead(PartsAfter(out, lit, parts[0]), LiteralAfter(lit, parts[0]), parts[1..]);
      FlushPart(out, lit, parts);
    }
  }

  lemma FlushPart(out: seq<Part>, lit: string, parts: seq<Part>)
    requires parts != [] && (lit == "" || parts[0].Var?) && (parts[0].Lit? ==> parts[0].text != "")
    ensures Flush(PartsAfter(out, lit, parts[0]), LiteralAfter(lit, parts[0])) + parts[1..] == Flush(out, lit) + parts
  {
    if lit == "" && parts[0].Lit? {
      assert lit + parts[0].text == parts[0].text;
    }
    assert Flush(out, lit) + [parts[0]] + parts[1..] == Flush(out, lit) + parts;
  }

  /** Every normal list of parts is recovered from its printed form. */
  lemma ParseUndoesPrint(x: Syntax, parts: seq<Part>)
    requires Normal(parts)
    ensures Parsed(x, Print(x, parts)) == parts
  {
    var s := Print(x, parts);
    assert s[0..] == s;
    NormalRead([], "", parts);
    PrintedParts(x, [], "", s, 0, parts);
  }

  lemma {:induction false} NormalSnoc(parts: seq<Part>, p: Part)
    requires Normal(parts) && NormalPart(p)
    requires p.Lit? && parts != [] ==> parts[|parts| - 1].Var?
    ensures Normal(parts + [p])
  {
    var all := parts + [p];
    if parts == [] {
      assert all[1..] == [];
    } else {
      NormalSnoc(parts[1..], p);
      assert all[1..] == parts[1..] + [p];
    }
  }

  lemma FlushNormal(out: seq<Part>, lit: string)
    requires Normal(out) && (lit != "" && out != [] ==> out[|out| - 1].Var?)
    ensures Normal(Flush(out, lit))
  {
    if lit != "" {
      NormalSnoc(out, Lit(lit));
    }
  }

  predicate NormalTokens(ts: Tokens) {
    match ts
    case End => true
    case Byte(_, tail) => NormalTokens(tail)
    case Placeholder(v, tail) => NormalPart(Var(v)) && NormalTokens(tail)
  }

  lemma {:induction false} GlueNormal(out: seq<Part>, lit: string, ts: Tokens)
    requires Normal(out) && NormalTokens(ts) && (out != [] ==> out[|out| - 1].Var?)
    ensures Normal(Glue(out, lit, ts))
    decreases ts
  {
    FlushNormal(out, lit);
    match ts {
      case End =>
      case Byte(b, tail) =>
        GlueNormal(out, lit + [b], tail);
      case Placeholder(v, tail) =>
        NormalSnoc(Flush(out, lit), Var(v));
        GlueNormal(Flush(out, lit) + [Var(v)], "", tail);
    }
  }

  lemma {:induction false} TokensNormal(x: Syntax, s: string, k: nat)
    requires k <= |s|
    ensures NormalTokens(Scanned(x, s, k))
    decreases |s| - k
  {
    if k + 1 < |s| {
      if s[k] == '\\' {
        TokensNormal(x, s, k + 2);
      } else if !Opens(x, s, k) {
        TokensNormal(x, s, k + 1);
      } else {
        match ScanVar(s, k + 2) {
          case Closed(_, end) => TokensNormal(x, s, end);
          case Open => TokensNormal(x, s, k + 2);
        }
      }
    }
  }

  /** Every parse is normal, so printing it and parsing again gives it back, whatever was parsed. */
  lemma ParseIsNormal(x: Syntax, s: string)
    ensures Normal(Parsed(x, s)) && Parsed(x, Print(x, Parsed(x, s))) == Parsed(x, s)
  {
    TokensNormal(x, s, 0);
    GlueNormal([], "", Scanned(x, s, 0));
    ParseUndoesPrint(x, Parsed(x, s));
  }

  /** Escaping makes any text literal: it holds no variable and renders as itself under every mapping. */
  lemma EscapedIsLiteral(x: Syntax, t: string, mapping: Variable -> string)
    ensures var parts := Parsed(x, Escaped(t, LiteralSpecial(x)));
            Substitute(parts, mapping) == t && forall p | p in parts :: p.Lit?
  {
    var parts := if t == "" then [] else [Lit(t)];
    assert Print(x, parts) == Escaped(t, LiteralSpecial(x)) by {
      if t != "" {
        assert parts[1..] == [];
      }
    }
    ParseUndoesPrint(x, parts);
    SubstituteOne(Lit(t), mapping);
  }
}
