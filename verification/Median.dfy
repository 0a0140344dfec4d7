/** The `poke` of the Medianizer client (pkg/price/median/geth/median.go). */
module Median {
  import opened PriceStore
  import opened Sorting

  const WORD := 0x1_0000_0000_0000_0000 * 0x1_0000_0000_0000_0000 * 0x1_0000_0000_0000_0000 * 0x1_0000_0000_0000_0000
  const NANOSECONDS := 1_000_000_000

  /** The five parallel arguments of the contract's `poke`. */
  datatype PokeArgs = PokeArgs(val: seq<int>, age: seq<int>, v: seq<int>, r: seq<nat>, s: seq<nat>)

  function ByVal(): Price -> int {
    (p: Price) => p.val
  }

  /** The signature fits the contract's words, as every recoverable one does. */
  predicate Encodable(p: Price) {
    p.sig.r < WORD && p.sig.s < WORD
  }

  ghost predicate IsCall(args: PokeArgs, prices: seq<Price>) {
    && |args.val| == |args.age| == |args.v| == |args.r| == |args.s| == |prices|
    && forall i | 0 <= i < |prices| ::
         && args.val[i] == prices[i].val
         && args.age[i] == prices[i].age / NANOSECONDS
         && args.v[i] == prices[i].sig.v % 256
         && args.r[i] == prices[i].sig.r
         && args.s[i] == prices[i].sig.s
  }

  method Poke(prices: array<Price>) returns (args: PokeArgs)
    requires forall i | 0 <= i < prices.Length :: Encodable(prices[i])
    modifies prices
    ensures SortedBy(prices[..], ByVal())
    ensures multiset(prices[..]) == old(multiset(prices[..]))
    ensures IsCall(args, prices[..])
    ensures |args.val| == |args.age| == |args.v| == |args.r| == |args.s| == prices.Length
    ensures forall i | 0 <= i < prices.Length ::
              && args.val[i] == prices[i].val
              && args.age[i] * NANOSECONDS <= prices[i].age < (args.age[i] + 1) * NANOSECONDS
              && 0 <= args.v[i] < 256 && (prices[i].sig.v - args.v[i]) % 256 == 0
              && args.r[i] == prices[i].sig.r && args.s[i] == prices[i].sig.s
  {
    SortInPlace(prices, ByVal());
    var val, age, v: seq<int> := [], [], [];
    var r, s: seq<nat> := [], [];
    for i := 0 to prices.Length
      invariant SortedBy(prices[..], ByVal())
      invariant multiset(prices[..]) == old(multiset(prices[..]))
      invariant IsCall(PokeArgs(val, age, v, r, s), prices[..i])
    {
      var arg := prices[i];
      val := val + [arg.val];
      age := age + [arg.age / NANOSECONDS];
      v := v + [arg.sig.v % 256];
      r := r + [arg.sig.r];
      s := s + [arg.sig.s];
    }
    assert prices[..prices.Length] == prices[..];
    args := PokeArgs(val, age, v, r, s);
  }
}
