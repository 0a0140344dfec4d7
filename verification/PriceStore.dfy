/**
 The price store (pkg/price/store/store.go and pkg/price/store/memory.go): which prices are accepted,
 and which one is kept for each feeder and asset pair. Times are integers of nanoseconds.
 */
module PriceStore {
  import opened Wrappers

  type Address = nat

  datatype Signature = Signature(v: nat, r: nat, s: nat)

  datatype Price = Price(wat: string, val: int, age: int, sig: Signature)

  /** Recovery of a price's signer from its signature; it fails on an invalid one. */
  type Recoverer = Price -> Option<Address>

  datatype FeederPrice = FeederPrice(assetPair: string, feeder: Address)

  type Book = map<FeederPrice, Price>

  datatype Verdict = Accepted | InvalidSignature | UnknownPair | InvalidPrice

  function Check(recover: Recoverer, pairs: seq<string>, price: Price): Verdict {
    if recover(price).None? then InvalidSignature
    else if price.wat !in pairs then UnknownPair
    else if price.val <= 0 then InvalidPrice
    else Accepted
  }

  function Stored(ps: Book, from: Address, price: Price): Book {
    var fp := FeederPrice(price.wat, from);
    if fp in ps && ps[fp].age > price.age then ps else ps[fp := price]
  }

  function Collected(recover: Recoverer, pairs: seq<string>, ps: Book, price: Price): Book {
    if Check(recover, pairs, price).Accepted? then Stored(ps, recover(price).value, price) else ps
  }

  class MemoryStorage {
    var ps: Book

    constructor ()
      ensures ps == map[]
    {
      ps := map[];
    }

    method Add(from: Address, price: Price)
      modifies this
      ensures ps == Stored(old(ps), from, price)
      ensures var fp := FeederPrice(price.wat, from);
              && (forall k | k != fp :: k in ps <==> k in old(ps))
              && (forall k | k != fp && k in ps :: ps[k] == old(ps)[k])
              && fp in ps
              && ps[fp] == if fp in old(ps) && old(ps)[fp].age > price.age then old(ps)[fp] else price
    {
      var fp := FeederPrice(price.wat, from);
      if fp in ps && ps[fp].age > price.age {
        return;
      }
      ps := ps[fp := price];
    }

    /** The map is walked in any order; `keys` tells which. */
    method GetByAssetPair(pair: string) returns (prices: seq<Price>, ghost keys: seq<FeederPrice>)
      ensures NoDuplicates(keys)
      ensures forall k :: k in keys <==> k in ps && k.assetPair == pair
      ensures prices == Lookup(ps, keys)
    {
      prices, keys := [], [];
      var todo := ps.Keys;
      while todo != {}
        invariant todo <= ps.Keys
        invariant NoDuplicates(keys)
        invariant forall k :: k in keys <==> k in ps && k !in todo && k.assetPair == pair
        invariant prices == Lookup(ps, keys)
        decreases |todo|
      {
        var k :| k in todo;
        todo := todo - {k};
        if k.assetPair != pair {
          continue;
        }
        prices := prices + [ps[k]];
        keys := keys + [k];
      }
    }

    method GetByFeeder(pair: string, feeder: Address) returns (price: Option<Price>)
      ensures var fp := FeederPrice(pair, feeder);
              price == if fp in ps then Some(ps[fp]) else None
    {
      var fp := FeederPrice(pair, feeder);
      if fp in ps {
        return Some(ps[fp]);
      }
      return None;
    }
  }

  ghost predicate NoDuplicates<T>(s: seq<T>) {
    forall i, j | 0 <= i < j < |s| :: s[i] != s[j]
  }

  ghost function Lookup(ps: Book, keys: seq<FeederPrice>): (r: seq<Price>)
    requires forall k | k in keys :: k in ps
    ensures |r| == |keys|
  {
    seq(|keys|, i requires 0 <= i < |keys| => ps[keys[i]])
  }

  class Store {
    const pairs: seq<string>
    const recover: Recoverer
    const storage: MemoryStorage
    ghost var arrivals: seq<Price>

    /** The storage is what the arrivals make of it. */
    ghost predicate Valid()
      reads this, storage
    {
      storage.ps == BookOf(recover, pairs, arrivals)
    }

    constructor (pairs: seq<string>, recover: Recoverer, storage: MemoryStorage)
      requires storage.ps == map[]
      ensures this.pairs == pairs && this.recover == recover && this.storage == storage
      ensures Valid() && arrivals == []
    {
      this.pairs, this.recover, this.storage, arrivals := pairs, recover, storage, [];
    }

    method IsPairSupported(pair: string) returns (ok: bool)
      ensures ok <==> pair in pairs
    {
      for i := 0 to |pairs|
        invariant pair !in pairs[..i]
      {
        if pairs[i] == pair {
          return true;
        }
      }
      return false;
    }

    method CollectPrice(price: Price) returns (r: Verdict)
      requires Valid()
      modifies this`arrivals, storage
      ensures r == Check(recover, pairs, price)
      ensures r.InvalidSignature? <==> recover(price).None?
      ensures r.UnknownPair? <==> recover(price).Some? && price.wat !in pairs
      ensures r.InvalidPrice? <==> recover(price).Some? && price.wat in pairs && price.val <= 0
      ensures r.Accepted? <==> recover(price).Some? && price.wat in pairs && price.val > 0
      ensures storage.ps == Collected(recover, pairs, old(storage.ps), price)
      ensures !r.Accepted? ==> storage.ps == old(storage.ps)
      ensures Valid() && arrivals == old(arrivals) + [price]
    {
      arrivals := arrivals + [price];
      assert arrivals[..|arrivals| - 1] == old(arrivals);
      var from := recover(price);
      if from.None? {
        return InvalidSignature;
      }
      var ok := IsPairSupported(price.wat);
      if !ok {
        return UnknownPair;
      }
      if price.val <= 0 {
        return InvalidPrice;
      }
      storage.Add(from.value, price);
      return Accepted;
    }

    /** The feeder's latest acceptable price for the pair; none if there was no acceptable one. */
    method GetByFeeder(pair: string, feeder: Address) returns (price: Option<Price>)
      requires Valid()
      ensures match price
              case Some(p) => IsLatestPrice(recover, pairs, arrivals, FeederPrice(pair, feeder), p)
              case None => forall i: nat :: !Files(recover, pairs, arrivals, FeederPrice(pair, feeder), i)
    {
      price := storage.GetByFeeder(pair, feeder);
      BookIsLatest(recover, pairs, arrivals, FeederPrice(pair, feeder));
    }
  }

  // ---------------------------------------------------------------------------
  // What the book holds
  // ---------------------------------------------------------------------------

  /** Every entry is filed under its own pair and signer, and is a positive price. */
  ghost predicate SoundBook(recover: Recoverer, pairs: seq<string>, ps: Book) {
    forall k | k in ps ::
      && ps[k].wat == k.assetPair && recover(ps[k]) == Some(k.feeder)
      && ps[k].val > 0 && k.assetPair in pairs
  }

  ghost function BookOf(recover: Recoverer, pairs: seq<string>, arrivals: seq<Price>): Book {
    if arrivals == [] then map[]
    else Collected(recover, pairs, BookOf(recover, pairs, arrivals[..|arrivals| - 1]), arrivals[|arrivals| - 1])
  }

  /** Arrival `i` is acceptable and belongs under key `k`. */
  ghost predicate Files(recover: Recoverer, pairs: seq<string>, arrivals: seq<Price>, k: FeederPrice, i: nat) {
    && i < |arrivals| && recover(arrivals[i]).Some? && arrivals[i].wat in pairs && arrivals[i].val > 0
    && k == FeederPrice(arrivals[i].wat, recover(arrivals[i]).value)
  }

  /** Arrival `i` is the last one among those of the greatest age filed under `k`. */
  ghost predicate IsLatest(recover: Recoverer, pairs: seq<string>, arrivals: seq<Price>, k: FeederPrice, i: nat) {
    && Files(recover, pairs, arrivals, k, i)
    && forall j: nat | Files(recover, pairs, arrivals, k, j) ::
         arrivals[j].age <= arrivals[i].age && (j > i ==> arrivals[j].age < arrivals[i].age)
  }

  ghost predicate IsLatestPrice(
    recover: Recoverer, pairs: seq<string>, arrivals: seq<Price>, k: FeederPrice, price: Price)
  {
    exists i: nat :: IsLatest(recover, pairs, arrivals, k, i) && arrivals[i] == price
  }

  ghost predicate HoldsLatest(recover: Recoverer, pairs: seq<string>, arrivals: seq<Price>, k: FeederPrice) {
    var ps := BookOf(recover, pairs, arrivals);
    if k in ps then exists i: nat :: IsLatest(recover, pairs, arrivals, k, i) && ps[k] == arrivals[i]
    else forall i: nat :: !Files(recover, pairs, arrivals, k, i)
  }

  lemma {:induction false} BookIsLatest(recover: Recoverer, pairs: seq<string>, arrivals: seq<Price>, k: FeederPrice)
    ensures HoldsLatest(recover, pairs, arrivals, k)
  {
    if arrivals != [] {
      var n := |arrivals| - 1;
      var init := arrivals[..n];
      BookIsLatest(recover, pairs, init, k);
      forall i: nat | i < n
        ensures Files(recover, pairs, arrivals, k, i) <==> Files(recover, pairs, init, k, i)
      {
      }
      ArrivalKeepsLatest(recover, pairs, init, arrivals[n], k);
      assert arrivals == init + [arrivals[n]];
    }
  }

  lemma ArrivalKeepsLatest(recover: Recoverer, pairs: seq<string>, init: seq<Price>, price: Price, k: FeederPrice)
    requires HoldsLatest(recover, pairs, init, k)
    ensures HoldsLatest(recover, pairs, init + [price], k)
  {
    var n, arrivals := |init|, init + [price];
    var before, after := BookOf(recover, pairs, init), BookOf(recover, pairs, arrivals);
    assert arrivals[..n] == init;
    assert forall i: nat | i < n ::
      Files(recover, pairs, arrivals, k, i) <==> Files(recover, pairs, init, k, i);
    if Files(recover, pairs, arrivals, k, n) && !(k in before && before[k].age > price.age) {
      assert after[k] == arrivals[n];
      if k in before {
        var i: nat :| IsLatest(recover, pairs, init, k, i) && before[k] == init[i];
        assert Files(recover, pairs, arrivals, k, i);
      }
      assert IsLatest(recover, pairs, arrivals, k, n);
    } else if k in before {
      var i: nat :| IsLatest(recover, pairs, init, k, i) && before[k] == init[i];
      assert IsLatest(recover, pairs, arrivals, k, i);
    }
  }

  lemma {:induction false} BookIsSound(recover: Recoverer, pairs: seq<string>, arrivals: seq<Price>)
    ensures SoundBook(recover, pairs, BookOf(recover, pairs, arrivals))
  {
    if arrivals != [] {
      BookIsSound(recover, pairs, arrivals[..|arrivals| - 1]);
    }
  }
}
