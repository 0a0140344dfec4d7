/**
 The structural equality of the RPC-Splitter (pkg/rpcsplitter/compare.go).

 `Cmp` follows the reflective comparison branch by branch, address shortcuts included.
 The main theorem says that, for values living in one heap, it decides equality of the
 values' pointer-free normal forms; so it is an equivalence relation.
 */
module Compare {
  import opened Wrappers

  datatype Kind = ArrayKind | SliceKind | MapKind | StructKind | StringKind | IntKind | BoolKind

  /** A Go type: its kind, its name, and the length that an array or struct type fixes. */
  datatype GoType = GoType(kind: Kind, name: nat, arity: nat)

  datatype Key = StrKey(s: string) | IntKey(i: int)

  /** A decoded value. Pointers, slices and maps carry the address they share with others. */
  datatype Value =
    | NilPtr
    | Ptr(addr: nat, elem: Value)
    | Array(name: nat, items: seq<Value>)
    | Struct(name: nat, items: seq<Value>)
    | Slice(name: nat, addr: nat, items: seq<Value>)
    | Map(name: nat, addr: nat, entries: map<Key, Value>)
    | Str(name: nat, s: string)
    | Int(name: nat, i: int)
    | Bool(name: nat, b: bool)
  {
    predicate IsPointer() {
      NilPtr? || Ptr?
    }
  }

  function TypeOf(v: Value): GoType
    requires !v.IsPointer()
  {
    match v
    case Array(name, items) => GoType(ArrayKind, name, |items|)
    case Struct(name, items) => GoType(StructKind, name, |items|)
    case Slice(name, _, _) => GoType(SliceKind, name, 0)
    case Map(name, _, _) => GoType(MapKind, name, 0)
    case Str(name, _) => GoType(StringKind, name, 0)
    case Int(name, _) => GoType(IntKind, name, 0)
    case Bool(name, _) => GoType(BoolKind, name, 0)
  }

  /** The recursive comparison. `Elem` of a nil pointer is the invalid value, which equals no valid one. */
  predicate Cmp(a: Value, b: Value)
    decreases a, b
  {
    if a.NilPtr? && b.NilPtr? then true
    else if a.Ptr? && b.Ptr? && a.addr == b.addr then true
    else if a.IsPointer() then a.Ptr? && Cmp(a.elem, b)
    else if b.IsPointer() then b.Ptr? && Cmp(a, b.elem)
    else if TypeOf(a) != TypeOf(b) then false
    else
      match a
      case Array(_, items) => forall i | 0 <= i < |items| :: Cmp(items[i], b.items[i])
      case Struct(_, items) => forall i | 0 <= i < |items| :: Cmp(items[i], b.items[i])
      case Slice(_, addr, items) =>
        addr == b.addr || (|items| == |b.items| && forall i | 0 <= i < |items| :: Cmp(items[i], b.items[i]))
      case Map(_, addr, entries) =>
        addr == b.addr ||
        (|entries| == |b.entries| &&
         forall k | k in entries :: k in b.entries && Cmp(entries[k], b.entries[k]))
      case Str(_, s) => s == b.s
      case Int(_, i) => i == b.i
      case Bool(_, x) => x == b.b
  }

  /** The exported entry point; `None` is the nil interface. */
  predicate Compare(a: Option<Value>, b: Option<Value>) {
    if a.None? || b.None? then a.None? == b.None? else Cmp(a.value, b.value)
  }

  // ---------------------------------------------------------------------------
  // The reference meaning: pointer-free normal forms
  // ---------------------------------------------------------------------------

  datatype Normal =
    | Nil
    | Items(ty: GoType, items: seq<Normal>)
    | Table(ty: GoType, rows: map<Key, Normal>)
    | Text(ty: GoType, s: string)
    | Number(ty: GoType, i: int)
    | Flag(ty: GoType, b: bool)

  function Erase(v: Value): Normal {
    match v
    case NilPtr => Nil
    case Ptr(_, elem) => Erase(elem)
    case Array(_, items) => Items(TypeOf(v), seq(|items|, i requires 0 <= i < |items| => Erase(items[i])))
    case Struct(_, items) => Items(TypeOf(v), seq(|items|, i requires 0 <= i < |items| => Erase(items[i])))
    case Slice(_, _, items) => Items(TypeOf(v), seq(|items|, i requires 0 <= i < |items| => Erase(items[i])))
    case Map(_, _, entries) => Table(TypeOf(v), map k | k in entries :: Erase(entries[k]))
    case Str(_, s) => Text(TypeOf(v), s)
    case Int(_, i) => Number(TypeOf(v), i)
    case Bool(_, b) => Flag(TypeOf(v), b)
  }

  /** What each address holds. Slices and maps of one type with one address are the same slice or map. */
  datatype Heap = Heap(
    ptrs: map<nat, Value>,
    slices: map<(nat, nat), seq<Value>>,
    maps: map<(nat, nat), map<Key, Value>>)

  ghost predicate Lives(v: Value, h: Heap) {
    match v
    case NilPtr => true
    case Ptr(addr, elem) => addr in h.ptrs && h.ptrs[addr] == elem && Lives(elem, h)
    case Array(_, items) => forall i | 0 <= i < |items| :: Lives(items[i], h)
    case Struct(_, items) => forall i | 0 <= i < |items| :: Lives(items[i], h)
    case Slice(name, addr, items) =>
      && (name, addr) in h.slices
      && h.slices[(name, addr)] == items
      && forall i | 0 <= i < |items| :: Lives(items[i], h)
    case Map(name, addr, entries) =>
      && (name, addr) in h.maps
      && h.maps[(name, addr)] == entries
      && forall k | k in entries :: Lives(entries[k], h)
    case _ => true
  }

  /** A pointer chain that ends in nil. */
  predicate EndsNil(v: Value) {
    v.NilPtr? || (v.Ptr? && EndsNil(v.elem))
  }

  /** No non-nil pointer leads to nil: each pointer is nil or ends at a value. */
  predicate Plain(v: Value) {
    match v
    case Ptr(_, elem) => !EndsNil(elem) && Plain(elem)
    case Array(_, items) => forall i | 0 <= i < |items| :: Plain(items[i])
    case Struct(_, items) => forall i | 0 <= i < |items| :: Plain(items[i])
    case Slice(_, _, items) => forall i | 0 <= i < |items| :: Plain(items[i])
    case Map(_, _, entries) => forall k | k in entries :: Plain(entries[k])
    case _ => true
  }

  lemma {:induction false} EraseNil(v: Value)
    ensures EndsNil(v) <==> Erase(v) == Nil
  {
    if v.Ptr? {
      EraseNil(v.elem);
    }
  }

  /** Comparison decides equality of normal forms. */
  lemma {:induction false} CmpIsErasure(a: Value, b: Value, h: Heap)
    requires Lives(a, h) && Lives(b, h) && Plain(a) && Plain(b)
    ensures Cmp(a, b) <==> Erase(a) == Erase(b)
    decreases a, b
  {
    if (a.NilPtr? && b.NilPtr?) || (a.Ptr? && b.Ptr? && a.addr == b.addr) {
    } else if a.IsPointer() {
      EraseNil(a);
      EraseNil(b);
      if a.Ptr? {
        CmpIsErasure(a.elem, b, h);
      }
    } else if b.IsPointer() {
      EraseNil(a);
      EraseNil(b);
      if b.Ptr? {
        CmpIsErasure(a, b.elem, h);
      }
    } else if TypeOf(a) == TypeOf(b) {
      match a {
        case Array(_, _) => ItemsAreErasure(a, b, h);
        case Struct(_, _) => ItemsAreErasure(a, b, h);
        case Slice(_, _, _) => ItemsAreErasure(a, b, h);
        case Map(_, _, _) => EntriesAreErasure(a, b, h);
        case _ =>
      }
    }
  }

  predicate HasItems(v: Value) {
    v.Array? || v.Struct? || v.Slice?
  }

  lemma {:induction false} ItemsAreErasure(a: Value, b: Value, h: Heap)
    requires Lives(a, h) && Lives(b, h) && Plain(a) && Plain(b)
    requires HasItems(a) && HasItems(b) && TypeOf(a) == TypeOf(b)
    ensures Cmp(a, b) <==> Erase(a) == Erase(b)
    decreases a, b, 0
  {
    var ea, eb := Erase(a), Erase(b);
    if |a.items| == |b.items| {
      forall i | 0 <= i < |a.items|
        ensures Cmp(a.items[i], b.items[i]) <==> ea.items[i] == eb.items[i]
      {
        CmpIsErasure(a.items[i], b.items[i], h);
      }
      assert ea == eb <==> forall i | 0 <= i < |a.items| :: ea.items[i] == eb.items[i];
    } else {
      assert |ea.items| != |eb.items|;
    }
  }

  lemma {:induction false} EntriesAreErasure(a: Value, b: Value, h: Heap)
    requires Lives(a, h) && Lives(b, h) && Plain(a) && Plain(b)
    requires a.Map? && b.Map? && TypeOf(a) == TypeOf(b)
    ensures Cmp(a, b) <==> Erase(a) == Erase(b)
    decreases a, b, 0
  {
    var ea, eb := Erase(a), Erase(b);
    forall k | k in a.entries && k in b.entries
      ensures Cmp(a.entries[k], b.entries[k]) <==> ea.rows[k] == eb.rows[k]
    {
      CmpIsErasure(a.entries[k], b.entries[k], h);
    }
    assert ea.rows.Keys == a.entries.Keys && eb.rows.Keys == b.entries.Keys;
    if a.addr != b.addr {
      if Cmp(a, b) {
        SameSizeSubset(a.entries.Keys, b.entries.Keys);
        assert ea.rows == eb.rows;
      }
      if ea == eb {
        assert a.entries.Keys == b.entries.Keys;
        assert |a.entries| == |a.entries.Keys| && |b.entries| == |b.entries.Keys|;
      }
    }
  }

  lemma {:induction false} SameSizeSubset<T>(s: set<T>, t: set<T>)
    requires s <= t && |s| == |t|
    ensures s == t
  {
    if s != t {
      var x :| x in t && x !in s;
      SubsetSize(s, t - {x});
    }
  }

  lemma {:induction false} SubsetSize<T>(s: set<T>, t: set<T>)
    requires s <= t
    ensures |s| <= |t|
  {
    if x :| x in s {
      SubsetSize(s - {x}, t - {x});
    }
  }

  // ---------------------------------------------------------------------------
  // What normal forms keep apart
  // ---------------------------------------------------------------------------

  /** No pointer but nil, and all slices and maps at address zero. */
  predicate Bare(v: Value) {
    match v
    case Ptr(_, _) => false
    case Array(_, items) => forall i | 0 <= i < |items| :: Bare(items[i])
    case Struct(_, items) => forall i | 0 <= i < |items| :: Bare(items[i])
    case Slice(_, addr, items) => addr == 0 && forall i | 0 <= i < |items| :: Bare(items[i])
    case Map(_, addr, entries) => addr == 0 && forall k | k in entries :: Bare(entries[k])
    case _ => true
  }

  /** The value without its pointers and addresses. */
  function Stripped(v: Value): Value {
    match v
    case Ptr(_, elem) => Stripped(elem)
    case Array(name, items) => Array(name, seq(|items|, i requires 0 <= i < |items| => Stripped(items[i])))
    case Struct(name, items) => Struct(name, seq(|items|, i requires 0 <= i < |items| => Stripped(items[i])))
    case Slice(name, _, items) => Slice(name, 0, seq(|items|, i requires 0 <= i < |items| => Stripped(items[i])))
    case Map(name, _, entries) => Map(name, 0, map k | k in entries :: Stripped(entries[k]))
    case _ => v
  }

  /** Bare values with one normal form are one value: no content is lost. */
  lemma {:induction false} BareExactly(v: Value, w: Value)
    requires Bare(v) && Bare(w)
    ensures Erase(v) == Erase(w) <==> v == w
    decreases v
  {
    if Erase(v) == Erase(w) {
      if HasItems(v) {
        BareItems(v, w);
      } else if v.Map? {
        BareEntries(v, w);
      }
    }
  }

  lemma {:induction false} BareItems(v: Value, w: Value)
    requires Bare(v) && Bare(w) && Erase(v) == Erase(w) && HasItems(v)
    ensures v == w
    decreases v, 0
  {
    assert HasItems(w) && |v.items| == |Erase(v).items| == |w.items|;
    forall i | 0 <= i < |v.items| ensures v.items[i] == w.items[i] {
      assert Erase(v).items[i] == Erase(v.items[i]) && Erase(w).items[i] == Erase(w.items[i]);
      BareExactly(v.items[i], w.items[i]);
    }
    assert v.items == w.items;
  }

  lemma {:induction false} BareEntries(v: Value, w: Value)
    requires Bare(v) && Bare(w) && Erase(v) == Erase(w) && v.Map?
    ensures v == w
    decreases v, 0
  {
    assert w.Map? && v.entries.Keys == Erase(v).rows.Keys == w.entries.Keys;
    forall k | k in v.entries ensures v.entries[k] == w.entries[k] {
      assert Erase(v).rows[k] == Erase(v.entries[k]) && Erase(w).rows[k] == Erase(w.entries[k]);
      BareExactly(v.entries[k], w.entries[k]);
    }
    assert v.entries == w.entries;
  }

  lemma {:induction false} StrippedErases(v: Value)
    ensures Bare(Stripped(v)) && Erase(Stripped(v)) == Erase(v)
    decreases v
  {
    var t := Stripped(v);
    if v.Ptr? {
      StrippedErases(v.elem);
    } else if HasItems(v) {
      forall i | 0 <= i < |v.items| ensures Bare(t.items[i]) && Erase(t.items[i]) == Erase(v.items[i]) {
        StrippedErases(v.items[i]);
      }
      assert Erase(t).items == Erase(v).items;
    } else if v.Map? {
      forall k | k in v.entries ensures Bare(t.entries[k]) && Erase(t.entries[k]) == Erase(v.entries[k]) {
        StrippedErases(v.entries[k]);
      }
      assert Erase(t).rows == Erase(v).rows;
    }
  }

  /** Comparison decides whether two values are the same but for pointers and addresses. */
  lemma CmpExactly(a: Value, b: Value, h: Heap)
    requires Lives(a, h) && Lives(b, h) && Plain(a) && Plain(b)
    ensures Cmp(a, b) <==> Stripped(a) == Stripped(b)
  {
    CmpIsErasure(a, b, h);
    StrippedErases(a);
    StrippedErases(b);
    BareExactly(Stripped(a), Stripped(b));
  }

  /** Texts, numbers and flags compare by type and content. */
  lemma CmpLeaves(n: nat, m: nat, s: string, t: string, i: int, j: int, x: bool, y: bool)
    ensures Cmp(Str(n, s), Str(m, t)) <==> n == m && s == t
    ensures Cmp(Int(n, i), Int(m, j)) <==> n == m && i == j
    ensures Cmp(Bool(n, x), Bool(m, y)) <==> n == m && x == y
    ensures !Cmp(Str(n, s), Int(m, i)) && !Cmp(Int(n, i), Bool(m, x)) && !Cmp(Bool(n, x), Str(m, s))
  {
  }

  /** Items compare one by one, and entries key by key, unless a shared address shows that they are the same. */
  lemma CmpParts(n: nat, m: nat, p: nat, q: nat, xs: seq<Value>, ys: seq<Value>,
                 es: map<Key, Value>, fs: map<Key, Value>)
    ensures var pairwise := |xs| == |ys| && forall i | 0 <= i < |xs| && i < |ys| :: Cmp(xs[i], ys[i]);
            && (Cmp(Array(n, xs), Array(m, ys)) <==> n == m && pairwise)
            && (Cmp(Struct(n, xs), Struct(m, ys)) <==> n == m && pairwise)
            && (Cmp(Slice(n, p, xs), Slice(m, q, ys)) <==> n == m && (p == q || pairwise))
    ensures Cmp(Map(n, p, es), Map(m, q, fs)) <==>
            n == m && (p == q || (es.Keys == fs.Keys && forall k | k in es && k in fs :: Cmp(es[k], fs[k])))
  {
    if es.Keys != fs.Keys && |es| == |fs| && forall k | k in es :: k in fs {
      assert es.Keys <= fs.Keys && |es.Keys| == |es| && |fs.Keys| == |fs|;
      SameSizeSubset(es.Keys, fs.Keys);
    }
    if es.Keys == fs.Keys {
      assert |es| == |es.Keys| && |fs| == |fs.Keys|;
    }
  }

  /** On responses living in one heap, comparison is an equivalence relation. */
  lemma CompareIsEquivalence(a: Option<Value>, b: Option<Value>, c: Option<Value>, h: Heap)
    requires forall v | v in {a, b, c} && v.Some? :: Lives(v.value, h) && Plain(v.value)
    ensures Compare(a, a)
    ensures Compare(a, b) == Compare(b, a)
    ensures Compare(a, b) && Compare(b, c) ==> Compare(a, c)
    ensures a.None? ==> (Compare(a, b) <==> b.None?)
  {
    forall x, y | x in {a, b, c} && y in {a, b, c} && x.Some? && y.Some?
      ensures Compare(x, y) <==> Erase(x.value) == Erase(y.value)
    {
      CmpIsErasure(x.value, y.value, h);
    }
  }

  /** The value behind a chain of pointers, the outermost one first. */
  function Behind(addrs: seq<nat>, v: Value): Value {
    if addrs == [] then v else Ptr(addrs[0], Behind(addrs[1..], v))
  }

  lemma {:induction false} BehindErases(addrs: seq<nat>, v: Value, h: Heap)
    requires Lives(Behind(addrs, v), h) && Plain(Behind(addrs, v))
    ensures Lives(v, h) && Plain(v) && Erase(Behind(addrs, v)) == Erase(v)
    decreases |addrs|
  {
    if addrs != [] {
      BehindErases(addrs[1..], v, h);
    }
  }

  /** Comparing a value with the same value behind any number of pointers succeeds. */
  lemma PointersAreIgnored(v: Value, addrs: seq<nat>, others: seq<nat>, h: Heap)
    requires Lives(Behind(addrs, v), h) && Plain(Behind(addrs, v))
    requires Lives(Behind(others, v), h) && Plain(Behind(others, v))
    ensures Cmp(Behind(addrs, v), Behind(others, v))
  {
    BehindErases(addrs, v, h);
    BehindErases(others, v, h);
    CmpIsErasure(Behind(addrs, v), Behind(others, v), h);
  }

  // ---------------------------------------------------------------------------
  // Where the code is not an equivalence: non-nil pointers that lead to nil
  // ---------------------------------------------------------------------------

  /** `b` is one of the pointers met while following `a` down to nil. */
  predicate OnChain(a: Value, b: Value) {
    match a
    case NilPtr => b.NilPtr?
    case Ptr(addr, elem) => (b.Ptr? && b.addr == addr) || OnChain(elem, b)
    case _ => false
  }

  /** Two nil-ending chains have one normal form; the code accepts them exactly when `b` lies on `a`'s chain. */
  lemma {:induction false} NilChainsExactly(a: Value, b: Value)
    requires EndsNil(a) && EndsNil(b)
    ensures Erase(a) == Erase(b)
    ensures Cmp(a, b) <==> OnChain(a, b)
  {
    EraseNil(a);
    EraseNil(b);
    if a.Ptr? && !(b.Ptr? && a.addr == b.addr) {
      NilChainsExactly(a.elem, b);
    }
  }

  /** The same value decoded into other memory: every address moved up by `d`. */
  function Moved(v: Value, d: nat): Value {
    match v
    case Ptr(addr, elem) => Ptr(addr + d, Moved(elem, d))
    case Array(name, items) => Array(name, seq(|items|, i requires 0 <= i < |items| => Moved(items[i], d)))
    case Struct(name, items) => Struct(name, seq(|items|, i requires 0 <= i < |items| => Moved(items[i], d)))
    case Slice(name, addr, items) =>
      Slice(name, addr + d, seq(|items|, i requires 0 <= i < |items| => Moved(items[i], d)))
    case Map(name, addr, entries) => Map(name, addr + d, map k | k in entries :: Moved(entries[k], d))
    case _ => v
  }

  predicate Below(v: Value, d: nat) {
    match v
    case Ptr(addr, elem) => addr < d && Below(elem, d)
    case Array(_, items) => forall i | 0 <= i < |items| :: Below(items[i], d)
    case Struct(_, items) => forall i | 0 <= i < |items| :: Below(items[i], d)
    case Slice(_, addr, items) => addr < d && forall i | 0 <= i < |items| :: Below(items[i], d)
    case Map(_, addr, entries) => addr < d && forall k | k in entries :: Below(entries[k], d)
    case _ => true
  }

  function Target(v: Value): (t: Value)
    requires !EndsNil(v)
    ensures !t.IsPointer()
  {
    if v.Ptr? then Target(v.elem) else v
  }

  lemma {:induction false} PeelLeft(v: Value, w: Value, d: nat)
    requires Below(v, d) && (w.Ptr? ==> w.addr >= d)
    ensures Cmp(v, w) <==> if EndsNil(v) then w.NilPtr? else Cmp(Target(v), w)
  {
    if v.Ptr? {
      PeelLeft(v.elem, w, d);
    }
  }

  lemma {:induction false} PeelRight(v: Value, w: Value, d: nat)
    requires !v.IsPointer()
    ensures EndsNil(Moved(w, d)) == EndsNil(w)
    ensures Cmp(v, Moved(w, d)) <==> !EndsNil(w) && Cmp(v, Moved(Target(w), d))
  {
    if w.Ptr? {
      PeelRight(v, w.elem, d);
    }
  }

  lemma {:induction false} TargetPlain(v: Value, d: nat)
    requires !EndsNil(v) && Below(v, d)
    ensures Plain(v) <==> Plain(Target(v))
    ensures Below(Target(v), d)
    ensures v.Ptr? ==> Target(v) < v
  {
    if v.Ptr? {
      TargetPlain(v.elem, d);
    }
  }

  /** A value equals a copy of itself decoded elsewhere exactly when none of its pointers leads to nil. */
  lemma {:induction false} CopiesAgreeExactly(v: Value, d: nat)
    requires Below(v, d)
    ensures Cmp(v, Moved(v, d)) <==> Plain(v)
  {
    var w := Moved(v, d);
    if v.Ptr? {
      PeelLeft(v, w, d);
      if !EndsNil(v) {
        PeelRight(Target(v), v, d);
        TargetPlain(v, d);
        CopiesAgreeExactly(Target(v), d);
      }
    } else if HasItems(v) {
      forall i | 0 <= i < |v.items|
        ensures Cmp(v.items[i], w.items[i]) <==> Plain(v.items[i])
      {
        CopiesAgreeExactly(v.items[i], d);
      }
    } else if v.Map? {
      assert w.entries.Keys == v.entries.Keys;
      assert |w.entries| == |w.entries.Keys| == |v.entries|;
      forall k | k in v.entries
        ensures Cmp(v.entries[k], w.entries[k]) <==> Plain(v.entries[k])
      {
        CopiesAgreeExactly(v.entries[k], d);
      }
    }
  }

  /** So comparison is not symmetric there: a pointer to nil equals nil, but not the other way round. */
  lemma NilChainsAreNotSymmetric(addr: nat)
    ensures Cmp(Ptr(addr, NilPtr), NilPtr) && !Cmp(NilPtr, Ptr(addr, NilPtr))
  {
    NilChainsExactly(Ptr(addr, NilPtr), NilPtr);
    NilChainsExactly(NilPtr, Ptr(addr, NilPtr));
  }
}
