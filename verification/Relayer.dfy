/**
 The relayer (pkg/price/relayer/relayer.go): from the store's prices to an update of the Medianizer.
 */
module Relayer {
  import opened Wrappers
  import opened Indices
  import opened Sorting
  import opened PriceStore
  import opened Median

  // ---------------------------------------------------------------------------
  // Selecting prices
  // ---------------------------------------------------------------------------

  function IsYoung(t: int): Price -> bool {
    (p: Price) => p.age >= t
  }

  function IsListed(recover: Recoverer, addrs: seq<Address>): Price -> bool {
    (p: Price) => recover(p).Some? && recover(p).value in addrs
  }

  function Filter(p: seq<Price>, f: Price -> bool): seq<Price> {
    if p == [] then []
    else Filter(p[..|p| - 1], f) + if f(p[|p| - 1]) then [p[|p| - 1]] else []
  }

  /** `kept` tells which prices stay: those that are not older. */
  method ClearOlderThan(p: seq<Price>, t: int) returns (prices: seq<Price>, ghost kept: seq<nat>)
    ensures prices == Filter(p, IsYoung(t))
    ensures Ascending(kept, |p|) && |prices| == |kept| && forall j | 0 <= j < |kept| :: prices[j] == p[kept[j]]
    ensures forall i: nat | i < |p| :: i in kept <==> p[i].age >= t
  {
    prices, kept := [], [];
    for i := 0 to |p|
      invariant prices == Filter(p[..i], IsYoung(t))
      invariant Ascending(kept, i) && |prices| == |kept| && forall j | 0 <= j < |kept| :: prices[j] == p[kept[j]]
      invariant forall k: nat | k < i :: k in kept <==> p[k].age >= t
    {
      assert p[..i + 1][..i] == p[..i];
      if !(p[i].age < t) {
        prices := prices + [p[i]];
        kept := kept + [i];
      }
    }
    assert p[..|p|] == p;
  }

  /** `kept` tells which prices stay: those with a listed signer. */
  method FilterAddresses(p: seq<Price>, addrs: seq<Address>, recover: Recoverer)
      returns (prices: seq<Price>, ghost kept: seq<nat>)
    ensures prices == Filter(p, IsListed(recover, addrs))
    ensures Ascending(kept, |p|) && |prices| == |kept| && forall j | 0 <= j < |kept| :: prices[j] == p[kept[j]]
    ensures forall i: nat | i < |p| :: i in kept <==> recover(p[i]).Some? && recover(p[i]).value in addrs
  {
    prices, kept := [], [];
    for i := 0 to |p|
      invariant prices == Filter(p[..i], IsListed(recover, addrs))
      invariant Ascending(kept, i) && |prices| == |kept| && forall j | 0 <= j < |kept| :: prices[j] == p[kept[j]]
      invariant forall k: nat | k < i :: k in kept <==> recover(p[k]).Some? && recover(p[k]).value in addrs
    {
      assert p[..i + 1][..i] == p[..i];
      var feedAddr := recover(p[i]);
      if feedAddr.None? {
        continue;
      }
      var listed := IsAmong(feedAddr.value, addrs);
      if listed {
        prices := prices + [p[i]];
        kept := kept + [i];
      }
    }
    assert p[..|p|] == p;
  }

  method IsAmong(a: Address, addrs: seq<Address>) returns (listed: bool)
    ensures listed <==> a in addrs
  {
    for j := 0 to |addrs|
      invariant a !in addrs[..j]
    {
      if a == addrs[j] {
        return true;
      }
    }
    return false;
  }

  /** Swaps elements in any way. */
  method Shuffle(a: array<Price>)
    modifies a
    ensures multiset(a[..]) == old(multiset(a[..]))
  {
    for i := 0 to a.Length
      invariant multiset(a[..]) == old(multiset(a[..]))
    {
      var j: nat :| i <= j < a.Length;
      if i < j {
        Swap(a, i, j);
      }
    }
  }

  /** Keeps `n` prices chosen at random, or all if there are no more. */
  method Truncate(p: seq<Price>, n: nat) returns (prices: seq<Price>)
    ensures |p| <= n ==> prices == p
    ensures |p| > n ==> |prices| == n && multiset(prices) <= multiset(p)
  {
    if |p| <= n {
      return p;
    }
    var a := new Price[|p|](i requires 0 <= i < |p| => p[i]);
    assert a[..] == p;
    Shuffle(a);
    prices := a[0..n];
    assert a[..] == a[0..n] + a[n..];
  }

  // ---------------------------------------------------------------------------
  // Median and spread
  // ---------------------------------------------------------------------------

  function Vals(p: seq<Price>): (r: seq<int>)
    ensures |r| == |p|
  {
    seq(|p|, i requires 0 <= i < |p| => p[i].val)
  }

  function MedianVal(p: seq<Price>): int {
    if p == [] then 0 else Sorting.Median(Vals(p))
  }

  lemma ValsWithoutOne(t: seq<Price>, j: nat)
    requires j < |t|
    ensures multiset(Vals(t)) == multiset(Vals(Without(t, j))) + multiset{t[j].val}
  {
    SplitAt(t, j);
    assert Vals(t) == Vals(t[..j]) + ([t[j].val] + Vals(t[j + 1..]));
    assert Vals(Without(t, j)) == Vals(t[..j]) + Vals(t[j + 1..]);
  }

  lemma {:induction false} ValsOfPermutation(s: seq<Price>, t: seq<Price>)
    requires multiset(s) == multiset(t)
    ensures multiset(Vals(s)) == multiset(Vals(t))
    decreases |s|
  {
    if s == [] {
      assert |multiset(t)| == |t| == 0;
    } else {
      var j := PositionOf(s[0], t, s);
      SameRest(s, 0, t, j);
      ValsWithoutOne(s, 0);
      ValsWithoutOne(t, j);
      ValsOfPermutation(Without(s, 0), Without(t, j));
    }
  }

  lemma SortedVals(s: seq<Price>, was: seq<Price>)
    requires SortedBy(s, ByVal()) && multiset(s) == multiset(was)
    ensures Vals(s) == Sort(Vals(was)) && |s| == |was|
  {
    assert |multiset(s)| == |s| && |multiset(was)| == |was|;
    ValsOfPermutation(s, was);
    SortSorts(Vals(was));
    assert Sorted(Vals(s)) by {
      forall i, j | 0 <= i < j < |s| ensures Vals(s)[i] <= Vals(s)[j] {
        assert ByVal()(s[i]) <= ByVal()(s[j]);
      }
    }
    OneArrangement(Vals(s), Sort(Vals(was)));
  }

  method CalcMedian(p: array<Price>) returns (median: int)
    modifies p
    ensures multiset(p[..]) == old(multiset(p[..]))
    ensures median == MedianVal(old(p[..]))
    ensures if p.Length == 0 then median == 0 else IsMedian(Vals(old(p[..])), median)
  {
    if p.Length > 0 {
      MedianExactly(Vals(p[..]), MedianVal(p[..]));
    }
    var count := p.Length;
    if count == 0 {
      return 0;
    }
    ghost var was := p[..];
    SortInPlace(p, ByVal());
    SortedVals(p[..], was);
    if count % 2 == 0 {
      var m := count / 2;
      var x1, x2 := p[m - 1].val, p[m].val;
      assert x1 == Vals(p[..])[m - 1] && x2 == Vals(p[..])[m];
      return (x1 + x2) / 2;
    }
    assert p[(count - 1) / 2].val == Vals(p[..])[count / 2];
    return p[(count - 1) / 2].val;
  }

  datatype Spread = Infinite | Percent(r: real)

  function SpreadOf(median: int, price: int, count: nat): Spread {
    if count == 0 || price == 0 then Infinite
    else
      var x := (median - price) as real / price as real * 100.0;
      Percent(if x < 0.0 then -x else x)
  }

  method CalcSpread(p: array<Price>, price: int) returns (spread: Spread)
    modifies p
    ensures multiset(p[..]) == old(multiset(p[..]))
    ensures spread == SpreadOf(MedianVal(old(p[..])), price, p.Length)
  {
    if p.Length == 0 || price == 0 {
      return Infinite;
    }
    var median := CalcMedian(p);
    var x := (median - price) as real / price as real * 100.0;
    return Percent(if x < 0.0 then -x else x);
  }

  predicate AtLeast(spread: Spread, limit: real) {
    spread.Infinite? || spread.r >= limit
  }

  lemma Scaled(x: real, y: real, limit: real)
    requires y > 0.0
    ensures x / y * 100.0 >= limit <==> 100.0 * x >= limit * y
  {
    var q := x / y;
    assert x == q * y;
    assert 100.0 * x - limit * y == (q * 100.0 - limit) * y;
  }

  /** The spread reaches a limit exactly when the distance does in proportion to the oracle's price, or there is none. */
  lemma SpreadReachesExactly(median: int, price: int, count: nat, limit: real)
    ensures AtLeast(SpreadOf(median, price, count), limit) <==>
            || count == 0 || price == 0
            || 100.0 * Distance(median, price) as real >= limit * Distance(price, 0) as real
  {
    if count > 0 && price != 0 {
      var q := (median - price) as real / price as real;
      var x, y := Distance(median, price) as real, Distance(price, 0) as real;
      assert x / y == if q < 0.0 then -q else q;
      Scaled(x, y, limit);
    }
  }

  function Distance(a: int, b: int): nat {
    if a < b then b - a else a - b
  }

  /** The price relayed is robust: if more than half of the prices lie in an interval, so does their median. */
  lemma MedianValRobust(p: seq<Price>, lo: int, hi: int)
    requires 2 * CountIn(Vals(p), lo, hi) > |p|
    ensures lo <= MedianVal(p) <= hi
  {
    MedianRobust(Vals(p), lo, hi);
  }

  // ---------------------------------------------------------------------------
  // One relay
  // ---------------------------------------------------------------------------

  datatype Pair = Pair(spread: real, expiration: int, feeders: seq<Address>)

  /** What the contract answers; a read may fail. */
  datatype Oracle = Oracle(bar: Option<int>, age: Option<int>, val: Option<int>)

  datatype RelayResult = UnknownPair | ReadFailed | Panic | NotEnough | NoUpdate | Poked(args: PokeArgs)

  /** The entries of the book that may be relayed. */
  ghost function Eligible(recover: Recoverer, book: Book, pair: string, feeders: seq<Address>, age: int): set<FeederPrice> {
    set k | k in book && k.assetPair == pair && book[k].age >= age &&
            recover(book[k]).Some? && recover(book[k]).value in feeders
  }

  ghost predicate DistinctSigners(recover: Recoverer, p: seq<Price>) {
    forall i, j | 0 <= i < j < |p| :: recover(p[i]) != recover(p[j])
  }

  /** `p` is made of different eligible entries, as many as there are but at most `bar`. */
  ghost predicate IsSelection(recover: Recoverer, book: Book, eligible: set<FeederPrice>, bar: int, p: seq<Price>) {
    && |p| == (if |eligible| <= bar then |eligible| else bar)
    && DistinctSigners(recover, p)
    && forall x | x in p :: exists k :: k in eligible && k in book && book[k] == x
  }

  ghost predicate Due(pair: Pair, age: int, val: int, now: int, p: seq<Price>) {
    age + pair.expiration < now || AtLeast(SpreadOf(MedianVal(p), val, |p|), pair.spread)
  }

  /** The result for the selected prices `p`. */
  ghost predicate Fits(pair: Pair, bar: nat, age: int, val: int, now: int, p: seq<Price>, r: RelayResult) {
    match r
    case Poked(args) => Due(pair, age, val, now, p) && |p| == bar && IsCall(args, p) && SortedBy(p, ByVal())
    case NotEnough => Due(pair, age, val, now, p) && |p| < bar
    case NoUpdate => !Due(pair, age, val, now, p)
    case _ => false
  }

  /** What a relay may result in, given the store's book and the contract's answers. */
  ghost predicate MayRelay(
    recover: Recoverer, book: Book, pairs: map<string, Pair>, name: string, oracle: Oracle, now: int, r: RelayResult)
  {
    if name !in pairs then r == RelayResult.UnknownPair
    else if oracle.bar.None? || oracle.age.None? || oracle.val.None? then r == ReadFailed
    else if oracle.bar.value < 0 then r == Panic
    else
      var pair, bar, age, val := pairs[name], oracle.bar.value, oracle.age.value, oracle.val.value;
      var eligible := Eligible(recover, book, name, pair.feeders, age);
      exists p: seq<Price> ::
        IsSelection(recover, book, eligible, bar, p) && Fits(pair, bar, age, val, now, p, r)
  }

  lemma Twice<T>(t: seq<T>, i: nat, j: nat)
    requires i < j < |t| && t[i] == t[j]
    ensures multiset(t)[t[i]] >= 2
  {
    assert t == t[..j] + ([t[j]] + t[j + 1..]);
    assert t[i] in multiset(t[..j]) by { assert t[..j][i] == t[i]; }
  }

  lemma Once<T>(s: seq<T>, a: nat)
    requires a < |s| && forall b | 0 <= b < |s| && b != a :: s[b] != s[a]
    ensures multiset(s)[s[a]] == 1
  {
    assert s == s[..a] + ([s[a]] + s[a + 1..]);
    assert s[a] !in s[..a] && s[a] !in s[a + 1..];
    assert s[a] !in multiset(s[..a]) && s[a] !in multiset(s[a + 1..]);
  }

  lemma SubDistinct(recover: Recoverer, s: seq<Price>, t: seq<Price>)
    requires DistinctSigners(recover, s) && multiset(t) <= multiset(s)
    ensures DistinctSigners(recover, t)
    ensures forall x | x in t :: x in s
  {
    forall x | x in t ensures x in s {
      assert x in multiset(t);
      assert x in multiset(s);
    }
    forall i, j | 0 <= i < j < |t|
      ensures recover(t[i]) != recover(t[j])
    {
      if recover(t[i]) == recover(t[j]) {
        assert t[i] in t && t[j] in t;
        var a :| 0 <= a < |s| && s[a] == t[i];
        var b :| 0 <= b < |s| && s[b] == t[j];
        assert a == b;
        Twice(t, i, j);
        Once(s, a);
      }
    }
  }

  lemma TruncationSelects(recover: Recoverer, book: Book, eligible: set<FeederPrice>,
                          listed: seq<Price>, chosen: seq<Price>, bar: nat)
    requires IsSelection(recover, book, eligible, |eligible|, listed)
    requires |listed| <= bar ==> chosen == listed
    requires |listed| > bar ==> |chosen| == bar && multiset(chosen) <= multiset(listed)
    ensures IsSelection(recover, book, eligible, bar, chosen)
  {
    SubDistinct(recover, listed, chosen);
  }

  lemma PermutationSelects(recover: Recoverer, book: Book, eligible: set<FeederPrice>,
                           p: seq<Price>, q: seq<Price>, bar: nat)
    requires IsSelection(recover, book, eligible, bar, p) && multiset(p) == multiset(q)
    ensures IsSelection(recover, book, eligible, bar, q)
  {
    assert |multiset(p)| == |p| && |multiset(q)| == |q|;
    SubDistinct(recover, p, q);
  }

  lemma SameMedian(p: seq<Price>, q: seq<Price>)
    requires multiset(p) == multiset(q)
    ensures MedianVal(p) == MedianVal(q) && |p| == |q|
  {
    assert |multiset(p)| == |p| && |multiset(q)| == |q|;
    ValsOfPermutation(p, q);
    PermutationsSortAlike(Vals(p), Vals(q));
  }

  /** The keys of the prices that pass a filter. */
  ghost function FilterKeys(book: Book, keys: seq<FeederPrice>, f: Price -> bool): seq<FeederPrice>
    requires forall k | k in keys :: k in book
  {
    if keys == [] then []
    else
      var k := keys[|keys| - 1];
      FilterKeys(book, keys[..|keys| - 1], f) + if f(book[k]) then [k] else []
  }

  lemma {:induction false} FilterKeysKeep(book: Book, keys: seq<FeederPrice>, f: Price -> bool)
    requires (forall k | k in keys :: k in book) && NoDuplicates(keys)
    ensures var ks := FilterKeys(book, keys, f);
            NoDuplicates(ks) && forall k :: k in ks <==> k in keys && f(book[k])
  {
    if keys != [] {
      var n := |keys| - 1;
      FilterKeysKeep(book, keys[..n], f);
      assert keys == keys[..n] + [keys[n]];
    }
  }

  lemma {:induction false} FilterOfLookup(book: Book, keys: seq<FeederPrice>, f: Price -> bool)
    requires forall k | k in keys :: k in book
    ensures forall k | k in FilterKeys(book, keys, f) :: k in book
    ensures Filter(Lookup(book, keys), f) == Lookup(book, FilterKeys(book, keys, f))
  {
    if keys != [] {
      var n := |keys| - 1;
      FilterOfLookup(book, keys[..n], f);
      assert Lookup(book, keys)[..n] == Lookup(book, keys[..n]);
    }
  }

  lemma FilterIsLookup(book: Book, keys: seq<FeederPrice>, f: Price -> bool)
    requires (forall k | k in keys :: k in book) && NoDuplicates(keys)
    ensures var ks := FilterKeys(book, keys, f);
            && NoDuplicates(ks) && (forall k :: k in ks <==> k in keys && f(book[k]))
            && Filter(Lookup(book, keys), f) == Lookup(book, ks)
  {
    FilterKeysKeep(book, keys, f);
    FilterOfLookup(book, keys, f);
  }

  lemma {:induction false} SizeOfKeys<T>(keys: seq<T>, all: set<T>)
    requires NoDuplicates(keys) && forall k :: k in keys <==> k in all
    ensures |keys| == |all|
  {
    if keys == [] {
      assert all == {};
    } else {
      var n := |keys| - 1;
      assert keys == keys[..n] + [keys[n]];
      assert keys[n] !in keys[..n];
      SizeOfKeys(keys[..n], all - {keys[n]});
    }
  }

  /** Clearing old prices and filtering by feeder leaves one price for each eligible entry. */
  lemma FiltersSelect(recover: Recoverer, book: Book, keys: seq<FeederPrice>, name: string, feeders: seq<Address>, age: int)
    requires NoDuplicates(keys) && forall k :: k in keys <==> k in book && k.assetPair == name
    requires forall k | k in book :: book[k].wat == k.assetPair && recover(book[k]) == Some(k.feeder)
    ensures var eligible := Eligible(recover, book, name, feeders, age);
            IsSelection(recover, book, eligible, |eligible|,
                        Filter(Filter(Lookup(book, keys), IsYoung(age)), IsListed(recover, feeders)))
  {
    var eligible := Eligible(recover, book, name, feeders, age);
    FilterIsLookup(book, keys, IsYoung(age));
    var young := FilterKeys(book, keys, IsYoung(age));
    FilterIsLookup(book, young, IsListed(recover, feeders));
    var ks := FilterKeys(book, young, IsListed(recover, feeders));
    SizeOfKeys(ks, eligible);
    var p := Lookup(book, ks);
    forall i, j | 0 <= i < j < |p|
      ensures recover(p[i]) != recover(p[j])
    {
      assert ks[i] in ks && ks[j] in ks && ks[i] != ks[j];
    }
    forall x | x in p
      ensures exists k :: k in eligible && k in book && book[k] == x
    {
      var i :| 0 <= i < |p| && p[i] == x;
      assert ks[i] in ks;
      assert ks[i] in eligible;
    }
  }

  class Relayer {
    const recover: Recoverer
    const store: MemoryStorage
    var pairs: map<string, Pair>

    /** A signature that recovers fits the contract's words. */
    ghost predicate Valid()
      reads this
    {
      forall p: Price :: recover(p).Some? ==> Encodable(p)
    }

    constructor (recover: Recoverer, store: MemoryStorage, pairs: map<string, Pair>)
      requires forall p: Price :: recover(p).Some? ==> Encodable(p)
      ensures Valid() && this.recover == recover && this.store == store && this.pairs == pairs
    {
      this.recover, this.store, this.pairs := recover, store, pairs;
    }

    /** A failed read of the feeder list leaves it as it was. */
    method SyncFeederAddresses(name: string, feeds: Option<seq<Address>>)
      requires name in pairs
      modifies this
      ensures pairs == if feeds.None? then old(pairs)
                       else old(pairs)[name := old(pairs)[name].(feeders := feeds.value)]
    {
      if feeds.Some? {
        pairs := pairs[name := pairs[name].(feeders := feeds.value)];
      }
    }

    /** The prices that may be relayed, at most `bar` of them. */
    method Select(name: string, feeders: seq<Address>, age: int, bar: nat) returns (chosen: seq<Price>)
      requires forall k | k in store.ps :: store.ps[k].wat == k.assetPair && recover(store.ps[k]) == Some(k.feeder)
      ensures IsSelection(recover, store.ps, Eligible(recover, store.ps, name, feeders, age), bar, chosen)
    {
      var prices, keys := store.GetByAssetPair(name);
      var young, _ := ClearOlderThan(prices, age);
      var listed, _ := FilterAddresses(young, feeders, recover);
      FiltersSelect(recover, store.ps, keys, name, feeders, age);
      chosen := Truncate(listed, bar);
      TruncationSelects(recover, store.ps, Eligible(recover, store.ps, name, feeders, age), listed, chosen, bar);
    }

    method Relay(name: string, oracle: Oracle, now: int) returns (r: RelayResult)
      requires Valid()
      requires forall k | k in store.ps :: store.ps[k].wat == k.assetPair && recover(store.ps[k]) == Some(k.feeder)
      ensures MayRelay(recover, store.ps, pairs, name, oracle, now, r)
      ensures r.UnknownPair? <==> name !in pairs
      ensures r.ReadFailed? <==> name in pairs && !(oracle.bar.Some? && oracle.age.Some? && oracle.val.Some?)
      ensures r.Panic? <==>
                name in pairs && oracle.bar.Some? && oracle.age.Some? && oracle.val.Some? && oracle.bar.value < 0
      ensures r.Poked? ==> oracle.bar.Some? && |r.args.val| == oracle.bar.value
    {
      if name !in pairs {
        return RelayResult.UnknownPair;
      }
      if oracle.bar.None? || oracle.age.None? || oracle.val.None? {
        return ReadFailed;
      }
      if oracle.bar.value < 0 {
        return Panic; // the slice bound is negative
      }
      var pair, bar, age, val := pairs[name], oracle.bar.value, oracle.age.value, oracle.val.value;
      ghost var eligible := Eligible(recover, store.ps, name, pair.feeders, age);
      var chosen := Select(name, pair.feeders, age, bar);
      ghost var p;
      r, p := Update(pair, chosen, bar, age, val, now);
      PermutationSelects(recover, store.ps, eligible, chosen, p, bar);
    }

    /** The decision to update, and the update. */
    method Update(pair: Pair, chosen: seq<Price>, bar: nat, age: int, val: int, now: int)
        returns (r: RelayResult, ghost p: seq<Price>)
      requires |chosen| <= bar && forall x | x in chosen :: Encodable(x)
      ensures multiset(p) == multiset(chosen) && Fits(pair, bar, age, val, now, p, r)
    {
      var a := new Price[|chosen|](i requires 0 <= i < |chosen| => chosen[i]);
      assert a[..] == chosen;
      p := chosen;
      var spread := CalcSpread(a, val);
      var isExpired := age + pair.expiration < now;
      var isStale := AtLeast(spread, pair.spread);
      if isExpired || isStale {
        if a.Length != bar {
          return NotEnough, p;
        }
        assert forall i | 0 <= i < a.Length :: a[i] in multiset(a[..]);
        var args := Poke(a);
        p := a[..];
        SameMedian(chosen, p);
        return Poked(args), p;
      }
      return NoUpdate, p;
    }
  }

  /** Whatever the median turns out to be within the bounds, the spread calls for an update, or for none. */
  ghost predicate Stale(pair: Pair, val: int, lo: int, hi: int) {
    forall m: int | lo <= m <= hi :: AtLeast(SpreadOf(m, val, 1), pair.spread)
  }

  ghost predicate Fresh(pair: Pair, val: int, lo: int, hi: int) {
    forall m: int | lo <= m <= hi :: !AtLeast(SpreadOf(m, val, 1), pair.spread)
  }

  /** All eligible prices lie in an interval. */
  ghost predicate Agree(book: Book, eligible: set<FeederPrice>, lo: int, hi: int) {
    forall k | k in eligible && k in book :: lo <= book[k].val <= hi
  }

  lemma SelectionAgrees(recover: Recoverer, book: Book, eligible: set<FeederPrice>, bar: int, p: seq<Price>, lo: int, hi: int)
    requires IsSelection(recover, book, eligible, bar, p) && Agree(book, eligible, lo, hi) && p != []
    ensures lo <= MedianVal(p) <= hi
  {
    forall i | 0 <= i < |p| ensures lo <= Vals(p)[i] <= hi {
      assert p[i] in p;
    }
    AllIn(Vals(p), lo, hi);
    MedianValRobust(p, lo, hi);
  }

  /**
   Whichever prices the shuffle selects: if all eligible prices lie in an interval that is stale as a whole, an update
   is sent exactly when there are enough of them; if it is fresh as a whole and the oracle has not expired, none is sent.
   */
  lemma MarketDecides(
    recover: Recoverer, book: Book, pairs: map<string, Pair>, name: string, oracle: Oracle, now: int, r: RelayResult,
    lo: int, hi: int)
    requires MayRelay(recover, book, pairs, name, oracle, now, r)
    requires name in pairs && oracle.bar.Some? && oracle.age.Some? && oracle.val.Some? && oracle.bar.value > 0
    requires var eligible := Eligible(recover, book, name, pairs[name].feeders, oracle.age.value);
             eligible != {} && Agree(book, eligible, lo, hi)
    ensures var enough := |Eligible(recover, book, name, pairs[name].feeders, oracle.age.value)| >= oracle.bar.value;
            var expired := oracle.age.value + pairs[name].expiration < now;
            && (expired || Stale(pairs[name], oracle.val.value, lo, hi) ==> if enough then r.Poked? else r.NotEnough?)
            && (!expired && Fresh(pairs[name], oracle.val.value, lo, hi) ==> r.NoUpdate?)
  {
    var pair, bar, age, val := pairs[name], oracle.bar.value, oracle.age.value, oracle.val.value;
    var eligible := Eligible(recover, book, name, pair.feeders, age);
    var p: seq<Price> :| IsSelection(recover, book, eligible, bar, p) && Fits(pair, bar, age, val, now, p, r);
    SelectionAgrees(recover, book, eligible, bar, p, lo, hi);
    assert SpreadOf(MedianVal(p), val, |p|) == SpreadOf(MedianVal(p), val, 1);
  }
}
