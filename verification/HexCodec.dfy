/**
 Hexadecimal codecs of the RPC-Splitter (pkg/rpcsplitter/types/util.go and blocknumber.go). Texts are
 sequences of bytes, written as characters; `None` is an error.
 */
module HexCodec {
  import opened Wrappers

  type byte = x: int | 0 <= x < 256

  function Digit(d: int): (c: char)
    requires 0 <= d < 16
    ensures IsHex(c) && DigitValue(c) == d && IsLower(c)
  {
    if d < 10 then '0' + d as char else 'a' + (d - 10) as char
  }

  predicate IsLower(c: char) {
    '0' <= c <= '9' || 'a' <= c <= 'f'
  }

  predicate AllLower(s: string) {
    forall i | 0 <= i < |s| :: IsLower(s[i])
  }

  predicate IsHex(c: char) {
    '0' <= c <= '9' || 'a' <= c <= 'f' || 'A' <= c <= 'F'
  }

  function DigitValue(c: char): (d: int)
    requires IsHex(c)
    ensures 0 <= d < 16
  {
    if '0' <= c <= '9' then c as int - '0' as int
    else if 'a' <= c <= 'f' then c as int - 'a' as int + 10
    else c as int - 'A' as int + 10
  }

  predicate AllHex(s: string) {
    forall i | 0 <= i < |s| :: IsHex(s[i])
  }

  function Value(s: string): nat
    requires AllHex(s)
  {
    if s == "" then 0 else Value(s[..|s| - 1]) * 16 + DigitValue(s[|s| - 1])
  }

  // ---------------------------------------------------------------------------
  // Integers
  // ---------------------------------------------------------------------------

  /** The number's digits, lower case. */
  function Text(x: nat): string {
    if x < 16 then [Digit(x)] else Text(x / 16) + [Digit(x % 16)]
  }

  /** The library's parser: an optional sign and at least one digit. */
  function SetString(s: string): Option<int> {
    var signed := s != "" && (s[0] == '-' || s[0] == '+');
    var digits := if signed then s[1..] else s;
    if digits == "" || !AllHex(digits) then None
    else if signed && s[0] == '-' then Some(-(Value(digits) as int))
    else Some(Value(digits))
  }

  predicate Has0xPrefix(h: string) {
    |h| >= 2 && h[0] == '0' && (h[1] == 'x' || h[1] == 'X')
  }

  function BigIntToHex(x: int): string {
    if x == 0 then "0x0"
    else if x > 0 then "0x" + Text(x)
    else "-" + ("0x" + Text(-x))
  }

  method HexToBigInt(input: string) returns (r: Option<int>)
    ensures r == BigIntOf(input)
  {
    var h := input;
    if h == "0x0" {
      ZeroText();
      return Some(0);
    }
    var isNeg := |h| > 1 && h[0] == '-';
    if isNeg {
      h := h[1..];
    }
    if Has0xPrefix(h) {
      h := h[2..];
    }
    if |h| == 0 {
      return None;
    }
    var x := SetString(h);
    if x.None? {
      return None;
    }
    return if isNeg then Some(-x.value) else x;
  }

  /** The number a text denotes: after one minus sign and the prefix, whatever the library accepts. */
  function BigIntOf(h: string): Option<int> {
    match SetString(Unprefixed(Unsigned(h)))
    case None => None
    case Some(x) => Some(if HasMinus(h) then -x else x)
  }

  predicate HasMinus(h: string) {
    |h| > 1 && h[0] == '-'
  }

  function Unsigned(h: string): string {
    if HasMinus(h) then h[1..] else h
  }

  lemma ZeroText()
    ensures BigIntOf("0x0") == Some(0)
  {
    assert "0x0"[2..] == "0" && "0"[..0] == "";
    assert SetString("0") == Some(Value("0"));
  }

  lemma {:induction false} TextDigits(x: nat)
    ensures AllHex(Text(x)) && AllLower(Text(x)) && Text(x) != "" && Value(Text(x)) == x
    ensures x > 0 ==> Text(x)[0] != '0'
  {
    if x >= 16 {
      TextDigits(x / 16);
      assert Text(x)[..|Text(x)| - 1] == Text(x / 16);
    } else {
      assert Text(x)[..0] == "";
    }
  }

  datatype Sign = NoSign | Plus | Minus
  datatype Prefix = NoPrefix | Prefix0x | Prefix0X

  function WithSign(sign: Sign, t: string): string {
    match sign
    case NoSign => t
    case Plus => "+" + t
    case Minus => "-" + t
  }

  function WithPrefix(prefix: Prefix, t: string): string {
    match prefix
    case NoPrefix => t
    case Prefix0x => "0x" + t
    case Prefix0X => "0X" + t
  }

  function WithMinus(negated: bool, t: string): string {
    if negated then "-" + t else t
  }

  /** An optional minus sign, an optional prefix, an optional sign of the library and digits. */
  datatype Shape = Shape(negated: bool, prefix: Prefix, sign: Sign, digits: string) {
    predicate Valid() {
      digits != "" && AllHex(digits)
    }

    function Spelled(): string {
      WithMinus(negated, WithPrefix(prefix, WithSign(sign, digits)))
    }

    /** Each minus sign negates. */
    function Number(): int
      requires Valid()
    {
      if negated != sign.Minus? then Negative(Value(digits)) else Value(digits)
    }
  }

  function Negative(n: nat): int {
    -(n as int)
  }

  lemma Signed(sign: Sign, digits: string)
    requires digits != "" && AllHex(digits)
    ensures var t := WithSign(sign, digits);
            && t != "" && (t[0] == '-' <==> sign.Minus?) && !Has0xPrefix(t)
            && SetString(t) == Some(if sign.Minus? then Negative(Value(digits)) else Value(digits))
  {
    var t := WithSign(sign, digits);
    assert IsHex(digits[0]);
    if sign.NoSign? {
      assert |t| >= 2 ==> IsHex(t[1]);
    } else {
      assert t[1..] == digits;
    }
  }

  lemma Prefixed(prefix: Prefix, t: string)
    requires t != "" && !Has0xPrefix(t)
    ensures Unprefixed(WithPrefix(prefix, t)) == t
    ensures WithPrefix(prefix, t) != "" && (WithPrefix(prefix, t)[0] == '-' <==> prefix.NoPrefix? && t[0] == '-')
  {
    if !prefix.NoPrefix? {
      assert WithPrefix(prefix, t)[2..] == t;
    }
  }

  lemma Negated(negated: bool, u: string)
    requires u != "" && (u[0] == '-' ==> negated)
    ensures HasMinus(WithMinus(negated, u)) == negated && Unsigned(WithMinus(negated, u)) == u
  {
    if negated {
      assert WithMinus(negated, u)[1..] == u;
    }
  }

  lemma FromBare(h: string, t: string)
    requires Unprefixed(Unsigned(h)) == t && SetString(t).Some?
    ensures BigIntOf(h) == Some(if HasMinus(h) then -SetString(t).value else SetString(t).value)
  {
  }

  lemma PlainSpelling(p: Shape)
    requires p.Valid() && (p.negated || !p.prefix.NoPrefix? || !p.sign.Minus?)
    ensures BigIntOf(p.Spelled()) == Some(p.Number())
  {
    var t := WithSign(p.sign, p.digits);
    Signed(p.sign, p.digits);
    Prefixed(p.prefix, t);
    Negated(p.negated, WithPrefix(p.prefix, t));
    FromBare(p.Spelled(), t);
  }

  /** Every spelling of this shape is that number; the library's own minus sign may stand for the text's. */
  lemma SpelledIsNumber(p: Shape)
    requires p.Valid()
    ensures BigIntOf(p.Spelled()) == Some(p.Number())
  {
    if !p.negated && p.prefix.NoPrefix? && p.sign.Minus? {
      var q := Shape(true, NoPrefix, NoSign, p.digits);
      PlainSpelling(q);
      assert p.Spelled() == q.Spelled();
    } else {
      PlainSpelling(p);
    }
  }

  lemma MinusShape(h: string)
    ensures h == WithMinus(HasMinus(h), Unsigned(h))
  {
  }

  lemma PrefixShape(u: string) returns (prefix: Prefix)
    ensures u == WithPrefix(prefix, Unprefixed(u))
  {
    prefix := if Has0xPrefix(u) then (if u[1] == 'x' then Prefix0x else Prefix0X) else NoPrefix;
  }

  lemma SignShape(t: string) returns (sign: Sign, digits: string)
    requires SetString(t).Some?
    ensures digits != "" && AllHex(digits) && t == WithSign(sign, digits)
  {
    if t[0] == '-' || t[0] == '+' {
      sign, digits := if t[0] == '-' then Minus else Plus, t[1..];
    } else {
      sign, digits := NoSign, t;
    }
  }

  /** A text is a number only when it has this shape. */
  lemma NumberIsSpelled(h: string) returns (p: Shape)
    requires BigIntOf(h).Some?
    ensures p.Valid() && h == p.Spelled()
  {
    MinusShape(h);
    var prefix := PrefixShape(Unsigned(h));
    var sign, digits := SignShape(Unprefixed(Unsigned(h)));
    p := Shape(HasMinus(h), prefix, sign, digits);
  }

  /** Every integer is recovered from its text. */
  lemma IntegerRoundTrip(x: int)
    ensures BigIntOf(BigIntToHex(x)) == Some(x)
  {
    if x == 0 {
      ZeroText();
    } else {
      var n := if x > 0 then x else -x;
      TextDigits(n);
      SpelledIsNumber(Shape(x < 0, Prefix0x, NoSign, Text(n)));
    }
  }

  /** A quantity has the most compact representation: lower case, no leading zeros, and zero as "0x0". */
  lemma QuantityIsCompact(x: nat)
    ensures var h := BigIntToHex(x);
            && |h| >= 3 && h[..2] == "0x" && AllLower(h[2..])
            && (h[2] == '0' <==> x == 0) && (x == 0 ==> h == "0x0")
            && (x > 0 ==> BigIntToHex(Negative(x)) == "-" + h)
  {
    TextDigits(x);
    if x > 0 {
      assert ("0x" + Text(x))[2..] == Text(x);
    }
  }

  /** ASCII letters in lower case. */
  function Lower(s: string): (r: string)
    ensures |r| == |s|
  {
    seq(|s|, i requires 0 <= i < |s| => if 'A' <= s[i] <= 'Z' then (s[i] as int + 32) as char else s[i])
  }

  lemma {:induction false} LowerDigits(s: string)
    ensures AllHex(Lower(s)) <==> AllHex(s)
    ensures AllHex(s) ==> Value(Lower(s)) == Value(s)
  {
    forall i | 0 <= i < |s| ensures IsHex(Lower(s)[i]) <==> IsHex(s[i]) {
    }
    if s != "" {
      LowerDigits(s[..|s| - 1]);
      assert Lower(s)[..|s| - 1] == Lower(s[..|s| - 1]);
    }
  }

  lemma LowerPrefix(h: string)
    ensures Has0xPrefix(Lower(h)) <==> Has0xPrefix(h)
    ensures Unprefixed(Lower(h)) == Lower(Unprefixed(h))
  {
    if |h| >= 2 {
      assert Lower(h)[0] == '0' <==> h[0] == '0';
      assert Lower(h)[1] == 'x' <==> (h[1] == 'x' || h[1] == 'X');
    }
  }

  lemma LowerSigned(t: string)
    ensures SetString(Lower(t)) == SetString(t)
  {
    LowerDigits(t);
    if t != "" {
      assert Lower(t)[1..] == Lower(t[1..]);
      LowerDigits(t[1..]);
    }
  }

  lemma LowerUnsigned(h: string)
    ensures HasMinus(Lower(h)) <==> HasMinus(h)
    ensures Unsigned(Lower(h)) == Lower(Unsigned(h))
  {
    if h != "" {
      assert Lower(h)[1..] == Lower(h[1..]);
    }
  }

  lemma LowerNumber(h: string)
    ensures BigIntOf(Lower(h)) == BigIntOf(h)
  {
    LowerUnsigned(h);
    LowerPrefix(Unsigned(h));
    LowerSigned(Unprefixed(Unsigned(h)));
  }

  // ---------------------------------------------------------------------------
  // Byte strings
  // ---------------------------------------------------------------------------

  function Encode(bs: seq<byte>): (r: string)
    ensures |r| == 2 * |bs| && AllLower(r)
  {
    seq(2 * |bs|, i requires 0 <= i < 2 * |bs| =>
      if i % 2 == 0 then Digit(bs[i / 2] / 16) else Digit(bs[i / 2] % 16))
  }

  function DecodeByte(hi: char, lo: char): byte
    requires IsHex(hi) && IsHex(lo)
  {
    DigitValue(hi) * 16 + DigitValue(lo)
  }

  function Decode(s: string): (r: seq<byte>)
    requires AllHex(s) && |s| % 2 == 0
    ensures |r| == |s| / 2
  {
    seq(|s| / 2, i requires 0 <= i < |s| / 2 => DecodeByte(s[2 * i], s[2 * i + 1]))
  }

  function Unprefixed(h: string): string {
    if Has0xPrefix(h) then h[2..] else h
  }

  function Padded(u: string): (r: string)
    ensures |r| % 2 == 0
  {
    if |u| % 2 != 0 then "0" + u else u
  }

  /** What a text decodes to: the prefix is optional, and an odd number of digits gets a leading zero. */
  function BytesOf(h: string): Option<seq<byte>> {
    var even := Padded(Unprefixed(h));
    if AllHex(even) then Some(Decode(even)) else None
  }

  method BytesToHex(b: seq<byte>) returns (r: array<char>)
    ensures fresh(r) && r[..] == "0x" + Encode(b)
  {
    r := new char[|b| * 2 + 2](_ => '0');
    r[1] := 'x';
    for i := 0 to |b|
      invariant r[0] == '0' && r[1] == 'x'
      invariant forall k | 0 <= k < 2 * i :: r[k + 2] == Encode(b)[k]
    {
      r[2 * i + 2], r[2 * i + 3] := Digit(b[i] / 16), Digit(b[i] % 16);
    }
    assert forall k | 2 <= k < r.Length :: r[k] == Encode(b)[k - 2] by {
      forall k | 2 <= k < r.Length ensures r[k] == Encode(b)[k - 2] {
        assert r[(k - 2) + 2] == Encode(b)[k - 2];
      }
    }
  }

  method HexToBytes(input: string) returns (ok: bool, r: array<byte>)
    ensures fresh(r) && (ok <==> BytesOf(input).Some?)
    ensures ok ==> r[..] == BytesOf(input).value
  {
    var h := input;
    if h == "0x0" {
      r := new byte[1](_ => 0);
      ZeroByte();
      return true, r;
    }
    if Has0xPrefix(h) {
      h := h[2..];
    }
    if |h| % 2 != 0 {
      h := "0" + h;
    }
    ok, r := DecodeDigits(h);
  }

  lemma ZeroByte()
    ensures BytesOf("0x0") == Some([0])
  {
    assert "0x0"[2..] == "0" && "0" + "0" == "00";
    assert AllHex("00");
    assert Decode("00") == [0];
  }

  /** Decodes pairs of digits; fails at the first byte that is no digit. */
  method DecodeDigits(h: string) returns (ok: bool, r: array<byte>)
    requires |h| % 2 == 0
    ensures fresh(r) && (ok <==> AllHex(h))
    ensures ok ==> r[..] == Decode(h)
  {
    r := new byte[|h| / 2](_ => 0);
    for j := 0 to |h| / 2
      invariant forall k | 0 <= k < 2 * j :: IsHex(h[k])
      invariant forall k | 0 <= k < j :: r[k] == DecodeByte(h[2 * k], h[2 * k + 1])
    {
      if !IsHex(h[2 * j]) || !IsHex(h[2 * j + 1]) {
        return false, r;
      }
      r[j] := DecodeByte(h[2 * j], h[2 * j + 1]);
    }
    return true, r;
  }

  lemma DecodeEncode(bs: seq<byte>)
    ensures AllHex(Encode(bs)) && Decode(Encode(bs)) == bs
  {
    var s := Encode(bs);
    forall i | 0 <= i < |bs| ensures Decode(s)[i] == bs[i] {
      assert s[2 * i] == Digit(bs[i] / 16) && s[2 * i + 1] == Digit(bs[i] % 16);
    }
  }

  /** Every byte string is recovered from its text. */
  lemma BytesRoundTrip(bs: seq<byte>)
    ensures BytesOf("0x" + Encode(bs)) == Some(bs)
  {
    DecodeEncode(bs);
    assert ("0x" + Encode(bs))[2..] == Encode(bs);
  }

  /** The number that bytes stand for, most significant first. */
  function BigEndian(bs: seq<byte>): nat {
    if bs == [] then 0 else BigEndian(bs[..|bs| - 1]) * 256 + bs[|bs| - 1]
  }

  lemma LastTwoDigits(s: string)
    requires AllHex(s) && |s| >= 2
    ensures var n := |s| - 2;
            Value(s) == Value(s[..n]) * 256 + DecodeByte(s[n], s[n + 1])
  {
    var n := |s| - 2;
    assert s[..n + 1][..n] == s[..n] && s[..n + 1][n] == s[n];
  }

  lemma {:induction false} DecodeValue(s: string)
    requires AllHex(s) && |s| % 2 == 0
    ensures BigEndian(Decode(s)) == Value(s)
  {
    if s != "" {
      var n := |s| - 2;
      DecodeValue(s[..n]);
      assert Decode(s)[..|Decode(s)| - 1] == Decode(s[..n]);
      LastTwoDigits(s);
    }
  }

  lemma {:induction false} LeadingZero(s: string)
    requires AllHex(s)
    ensures AllHex("0" + s) && Value("0" + s) == Value(s)
  {
    var z := "0" + s;
    if s == "" {
      assert z[..0] == "";
    } else {
      LeadingZero(s[..|s| - 1]);
      assert z[..|z| - 1] == "0" + s[..|s| - 1];
    }
  }

  /** The byte decoder and the integer decoder agree: a text that decodes to bytes denotes their number. */
  lemma DecodersAgree(h: string)
    requires BytesOf(h).Some? && h != "" && h != "0x" && h != "0X"
    ensures BigIntOf(h) == Some(BigEndian(BytesOf(h).value))
  {
    var u := Unprefixed(h);
    var prefix := PrefixShape(h);
    EvenDigits(u);
    SpelledIsNumber(Shape(false, prefix, NoSign, u));
  }

  lemma EvenDigits(u: string)
    requires AllHex(Padded(u))
    ensures AllHex(u) && BigEndian(Decode(Padded(u))) == Value(u)
  {
    DecodeValue(Padded(u));
    if |u| % 2 != 0 {
      forall i | 0 <= i < |u| ensures IsHex(u[i]) {
        assert Padded(u)[i + 1] == u[i];
      }
      LeadingZero(u);
    }
  }

  /**
   After the optional prefix come any digits, the empty list included: they decode to one byte for each two of them,
   rounded up, that stand for the digits' number.
   */
  lemma BytesExactly(prefix: Prefix, u: string)
    requires !Has0xPrefix(u)
    ensures var r := BytesOf(WithPrefix(prefix, u));
            && (r.Some? <==> AllHex(u))
            && (r.Some? ==> |r.value| == (|u| + 1) / 2 && BigEndian(r.value) == Value(u))
  {
    if u == "" {
      assert Unprefixed(WithPrefix(prefix, u)) == "";
      assert AllHex("") && Decode("") == [];
    } else {
      Prefixed(prefix, u);
      if |u| % 2 != 0 {
        assert AllHex(u) ==> AllHex("0" + u);
      }
      if AllHex(Padded(u)) {
        EvenDigits(u);
      }
    }
  }

  lemma LowerBytes(u: string)
    ensures AllHex(Padded(Lower(u))) <==> AllHex(Padded(u))
    ensures AllHex(Padded(u)) ==> Decode(Padded(Lower(u))) == Decode(Padded(u))
  {
    var even := Padded(u);
    assert Padded(Lower(u)) == Lower(even) by {
      if |u| % 2 != 0 {
        assert Lower("0" + u) == "0" + Lower(u);
      }
    }
    LowerDigits(even);
    if AllHex(even) {
      forall i | 0 <= i < |even| ensures DigitValue(Lower(even)[i]) == DigitValue(even[i]) {
      }
      assert Decode(Lower(even)) == Decode(even);
    }
  }

  /** The case of letters never matters, neither of digits nor of the prefix. */
  lemma CaseIsIgnored(h: string)
    ensures BigIntOf(Lower(h)) == BigIntOf(h)
    ensures BytesOf(Lower(h)) == BytesOf(h)
  {
    LowerNumber(h);
    LowerPrefix(h);
    LowerBytes(Unprefixed(h));
  }

  /** Fills a fixed-size array from the right; on an error it is left as it was. */
  method FixedBytesUnmarshalText(input: string, output: array<byte>) returns (ok: bool)
    modifies output
    ensures ok <==> BytesOf(input).Some? && |BytesOf(input).value| <= output.Length
    ensures !ok ==> output[..] == old(output[..])
    ensures ok ==> var data := BytesOf(input).value;
                   output[..] == old(output[..])[..output.Length - |data|] + data
  {
    var decoded, data := HexToBytes(input);
    if !decoded || data.Length > output.Length {
      return false;
    }
    CopyInto(output, output.Length - data.Length, data[..]);
    return true;
  }

  method CopyInto(output: array<byte>, start: nat, data: seq<byte>)
    requires start + |data| == output.Length
    modifies output
    ensures output[..] == old(output[..])[..start] + data
  {
    for i := 0 to |data|
      invariant forall k | 0 <= k < output.Length ::
                  output[k] == if start <= k < start + i then data[k - start] else old(output[k])
    {
      output[start + i] := data[i];
    }
  }

  lemma {:induction false} ZeroPadding(zeros: seq<byte>, data: seq<byte>)
    requires forall i | 0 <= i < |zeros| :: zeros[i] == 0
    ensures BigEndian(zeros + data) == BigEndian(data)
    decreases |zeros| + |data|
  {
    if data != [] {
      ZeroPadding(zeros, data[..|data| - 1]);
      assert (zeros + data)[..|zeros + data| - 1] == zeros + data[..|data| - 1];
    } else if zeros != [] {
      ZeroPadding(zeros[..|zeros| - 1], []);
      assert (zeros + [])[..|zeros| - 1] == zeros[..|zeros| - 1] + [];
    }
  }

  // ---------------------------------------------------------------------------
  // Quoting
  // ---------------------------------------------------------------------------

  function Quote(s: string): string {
    "\"" + s + "\""
  }

  function Unquote(s: string): string {
    if |s| >= 2 && s[0] == '"' && s[|s| - 1] == '"' then s[1..|s| - 1] else s
  }

  /** A text is recovered from between double quotes, and one without them is taken as it is. */
  lemma UnquoteExactly(s: string)
    ensures Quote(s)[0] == '"' && Quote(s)[|s| + 1] == '"' && |Quote(s)| == |s| + 2 && Unquote(Quote(s)) == s
    ensures (|s| < 2 || s[0] != '"' || s[|s| - 1] != '"') ==> Unquote(s) == s
  {
    assert Quote(s)[1..|s| + 1] == s;
  }

  lemma JsonIntegerRoundTrip(x: int)
    ensures BigIntOf(Unquote(Quote(BigIntToHex(x)))) == Some(x) && BigIntOf(Unquote(BigIntToHex(x))) == Some(x)
  {
    IntegerRoundTrip(x);
    HexHead(x);
    UnquoteExactly(BigIntToHex(x));
  }

  // ---------------------------------------------------------------------------
  // Block numbers
  // ---------------------------------------------------------------------------

  const TWO63 := 0x8000_0000_0000_0000
  const TWO64 := 0x1_0000_0000_0000_0000

  /** Reinterpretation of the low 64 bits as a signed number. */
  function Wrap64(x: int): int {
    var low := x % TWO64;
    if low >= TWO63 then low - TWO64 else low
  }

  /** The library's conversion to a 64-bit integer: of the magnitude's low bits, then with the sign. */
  function Int64(x: int): int {
    if x >= 0 then Wrap64(x) else Wrap64(-Wrap64(-x))
  }

  const EARLIEST := -1
  const LATEST := -2
  const PENDING := -3

  function MarshalBlock(x: int): string {
    if Int64(x) == EARLIEST then "earliest"
    else if Int64(x) == LATEST then "latest"
    else if Int64(x) == PENDING then "pending"
    else BigIntToHex(x)
  }

  predicate IsSpace(c: char) {
    c == ' ' || '\t' <= c <= '\r'
  }

  /** The two-byte encodings of white space. */
  predicate IsSpace2(a: char, b: char) {
    a as int == 0xC2 && (b as int == 0x85 || b as int == 0xA0)
  }

  /** The three-byte encodings of white space. */
  predicate IsSpace3(a: char, b: char, c: char) {
    || (a as int == 0xE1 && b as int == 0x9A && c as int == 0x80)
    || (a as int == 0xE2 && b as int == 0x80 && (0x80 <= c as int <= 0x8A || c as int in {0xA8, 0xA9, 0xAF}))
    || (a as int == 0xE2 && b as int == 0x81 && c as int == 0x9F)
    || (a as int == 0xE3 && b as int == 0x80 && c as int == 0x80)
  }

  /** How many bytes at the start, or at the end, encode one white-space character. */
  function LeadingSpace(s: string): (n: nat)
    ensures n <= |s|
  {
    if |s| >= 1 && IsSpace(s[0]) then 1
    else if |s| >= 2 && IsSpace2(s[0], s[1]) then 2
    else if |s| >= 3 && IsSpace3(s[0], s[1], s[2]) then 3
    else 0
  }

  function TrailingSpace(s: string): (n: nat)
    ensures n <= |s|
  {
    var k := |s|;
    if k >= 1 && IsSpace(s[k - 1]) then 1
    else if k >= 2 && IsSpace2(s[k - 2], s[k - 1]) then 2
    else if k >= 3 && IsSpace3(s[k - 3], s[k - 2], s[k - 1]) then 3
    else 0
  }

  function TrimSpace(s: string): string
    decreases |s|
  {
    if LeadingSpace(s) > 0 then TrimSpace(s[LeadingSpace(s)..])
    else if TrailingSpace(s) > 0 then TrimSpace(s[..|s| - TrailingSpace(s)])
    else s
  }

  function UnmarshalBlock(input: string): Option<int> {
    var t := TrimSpace(input);
    if t == "earliest" then Some(EARLIEST)
    else if t == "latest" then Some(LATEST)
    else if t == "pending" then Some(PENDING)
    else
      match BigIntOf(input)
      case None => None
      case Some(u) => if u > TWO63 - 1 then None else Some(u)
  }

  lemma {:induction false} TrimKeepsFirst(s: string)
    requires s != "" && (s[0] == '0' || s[0] == '-')
    ensures TrimSpace(s) != "" && TrimSpace(s)[0] == s[0]
    decreases |s|
  {
    if TrailingSpace(s) > 0 {
      TrimKeepsFirst(s[..|s| - TrailingSpace(s)]);
    }
  }

  lemma HexHead(x: int)
    ensures var m := BigIntToHex(x);
            m != "" && (m[0] == '0' || m[0] == '-')
  {
  }

  predicate IsTag(t: string) {
    t == "earliest" || t == "latest" || t == "pending"
  }

  lemma NumbersAreNoTags(t: string)
    requires t != "" && (t[0] == '0' || t[0] == '-')
    ensures !IsTag(t)
  {
    assert "earliest"[0] == 'e' && "latest"[0] == 'l' && "pending"[0] == 'p';
  }

  /** A number's text is never taken for a tag. */
  lemma HexIsNoTag(x: int)
    ensures UnmarshalBlock(BigIntToHex(x)) == if x > TWO63 - 1 then None else Some(x)
  {
    var m := BigIntToHex(x);
    IntegerRoundTrip(x);
    HexHead(x);
    TrimKeepsFirst(m);
    NumbersAreNoTags(TrimSpace(m));
  }

  lemma PlainFirst(s: string)
    requires s != "" && IsPlain(s[0])
    ensures LeadingSpace(s) == 0
  {
  }

  lemma PlainLast(s: string)
    requires s != "" && IsPlain(s[|s| - 1])
    ensures TrailingSpace(s) == 0
  {
  }

  lemma TrimPlain(s: string)
    requires s != "" && IsPlain(s[0]) && IsPlain(s[|s| - 1])
    ensures TrimSpace(s) == s
  {
    PlainFirst(s);
    PlainLast(s);
  }

  /** One white-space character. */
  predicate Blank(b: string) {
    || (|b| == 1 && IsSpace(b[0]))
    || (|b| == 2 && IsSpace2(b[0], b[1]))
    || (|b| == 3 && IsSpace3(b[0], b[1], b[2]))
  }

  function Joined(bs: seq<string>): string {
    if bs == [] then "" else bs[0] + Joined(bs[1..])
  }

  lemma TrimFirst(b: string, t: string)
    requires Blank(b)
    ensures TrimSpace(b + t) == TrimSpace(t)
  {
    assert LeadingSpace(b + t) == |b|;
    assert (b + t)[|b|..] == t;
  }

  lemma TrimLast(t: string, b: string)
    requires Blank(b) && LeadingSpace(t + b) == 0
    ensures TrimSpace(t + b) == TrimSpace(t)
  {
    assert TrailingSpace(t + b) == |b|;
    assert (t + b)[..|t|] == t;
  }

  lemma {:induction false} TrimBefore(bs: seq<string>, t: string)
    requires forall i | 0 <= i < |bs| :: Blank(bs[i])
    ensures TrimSpace(Joined(bs) + t) == TrimSpace(t)
  {
    if bs == [] {
      assert Joined(bs) + t == t;
    } else {
      TrimBefore(bs[1..], t);
      TrimFirst(bs[0], Joined(bs[1..]) + t);
      assert Joined(bs) + t == bs[0] + (Joined(bs[1..]) + t);
    }
  }

  lemma {:induction false} JoinedSnoc(bs: seq<string>)
    requires bs != []
    ensures Joined(bs) == Joined(bs[..|bs| - 1]) + bs[|bs| - 1]
  {
    if |bs| == 1 {
      assert bs[1..] == [] && bs[..0] == [];
      assert Joined(bs) == bs[0] + "";
    } else {
      JoinedSnoc(bs[1..]);
      assert bs[1..][..|bs| - 2] == bs[..|bs| - 1][1..];
    }
  }

  lemma {:induction false} TrimAfter(t: string, bs: seq<string>)
    requires t != "" && IsPlain(t[0]) && forall i | 0 <= i < |bs| :: Blank(bs[i])
    ensures TrimSpace(t + Joined(bs)) == TrimSpace(t)
  {
    if bs == [] {
      assert t + Joined(bs) == t;
    } else {
      var init, b := bs[..|bs| - 1], bs[|bs| - 1];
      TrimAfter(t, init);
      JoinedSnoc(bs);
      var u := t + Joined(init);
      assert t + Joined(bs) == u + b;
      PlainFirst(u + b);
      TrimLast(u, b);
    }
  }

  predicate IsPlain(c: char) {
    'a' <= c <= 'z'
  }

  /** The tags have their names, and white space around a name is ignored. */
  lemma TagTexts(before: seq<string>, after: seq<string>)
    requires forall i | 0 <= i < |before| :: Blank(before[i])
    requires forall i | 0 <= i < |after| :: Blank(after[i])
    ensures MarshalBlock(-1) == "earliest" && MarshalBlock(-2) == "latest" && MarshalBlock(-3) == "pending"
    ensures UnmarshalBlock(Joined(before) + ("earliest" + Joined(after))) == Some(-1)
    ensures UnmarshalBlock(Joined(before) + ("latest" + Joined(after))) == Some(-2)
    ensures UnmarshalBlock(Joined(before) + ("pending" + Joined(after))) == Some(-3)
  {
    Int64Keeps(-1);
    Int64Keeps(-2);
    Int64Keeps(-3);
    TrimAround(before, "earliest", after);
    TrimAround(before, "latest", after);
    TrimAround(before, "pending", after);
  }

  lemma TrimAround(before: seq<string>, t: string, after: seq<string>)
    requires t != "" && IsPlain(t[0]) && IsPlain(t[|t| - 1])
    requires forall i | 0 <= i < |before| :: Blank(before[i])
    requires forall i | 0 <= i < |after| :: Blank(after[i])
    ensures TrimSpace(Joined(before) + (t + Joined(after))) == t
  {
    TrimBefore(before, t + Joined(after));
    TrimAfter(t, after);
    TrimPlain(t);
  }

  /** White space around a number is not ignored. */
  lemma SpacedNumberFails(x: int, b: string)
    requires Blank(b)
    ensures UnmarshalBlock(b + BigIntToHex(x)) == None
  {
    var m := BigIntToHex(x);
    HexHead(x);
    TrimFirst(b, m);
    TrimKeepsFirst(m);
    NumbersAreNoTags(TrimSpace(m));
    StrangeFirst(b + m);
  }

  lemma StrangeFirst(h: string)
    requires h != "" && !IsHex(h[0]) && h[0] != '-' && h[0] != '+'
    ensures BigIntOf(h) == None
  {
  }

  lemma TagsParse()
    ensures UnmarshalBlock("earliest") == Some(EARLIEST)
    ensures UnmarshalBlock("latest") == Some(LATEST)
    ensures UnmarshalBlock("pending") == Some(PENDING)
  {
    TrimPlain("earliest");
    TrimPlain("latest");
    TrimPlain("pending");
  }

  /** A block number is recovered from its text exactly when it is at most the largest int64 and no other number's tag. */
  lemma BlockRoundTripExactly(x: int)
    ensures UnmarshalBlock(MarshalBlock(x)) == Some(x) <==>
            x <= TWO63 - 1 && (PENDING <= Int64(x) <= EARLIEST ==> x == Int64(x))
  {
    TagsParse();
    HexIsNoTag(x);
  }

  lemma WrapKeeps(x: int)
    requires -TWO63 <= x < TWO63
    ensures Wrap64(x) == x
  {
    if x >= 0 {
      assert x % TWO64 == x;
    } else {
      assert (x + TWO64) % TWO64 == x + TWO64;
      assert x % TWO64 == x + TWO64;
    }
  }

  lemma Int64Keeps(x: int)
    requires -TWO63 <= x < TWO63
    ensures Int64(x) == x
  {
    if x >= 0 {
      WrapKeeps(x);
    } else if x > -TWO63 {
      WrapKeeps(-x);
      WrapKeeps(x);
    } else {
      assert Wrap64(TWO63) == -TWO63;
      assert Wrap64(-Wrap64(TWO63)) == -TWO63;
    }
  }

  /** In particular every int64, the three tags included. */
  lemma BlockRoundTripInt64(x: int)
    requires -TWO63 <= x < TWO63
    ensures UnmarshalBlock(MarshalBlock(x)) == Some(x)
  {
    Int64Keeps(x);
    BlockRoundTripExactly(x);
  }
}
