/**
 Block ranges of the EVM event scanner (pkg/event/publisher/teleportevm/teleport.go). Requests that are
 repeated until they succeed are taken to answer; the observed heads and block ages are parameters.
 */
module EvmScanner {

  /** A request for the logs of the blocks `lo` to `hi`, both included. */
  datatype Range = Range(lo: int, hi: int) {
    function Size(): int {
      hi - lo + 1
    }
  }

  /** The blocks from `lo` to `hi` in ascending order. */
  function Blocks(lo: int, hi: int): seq<int>
    decreases hi - lo
  {
    if lo > hi then [] else Blocks(lo, hi - 1) + [hi]
  }

  lemma {:induction false} BlocksExactly(lo: int, hi: int, i: nat)
    requires i < |Blocks(lo, hi)|
    ensures |Blocks(lo, hi)| == hi - lo + 1 && Blocks(lo, hi)[i] == lo + i
    decreases hi - lo
  {
    if i < |Blocks(lo, hi)| - 1 {
      BlocksExactly(lo, hi - 1, i);
    } else if lo < hi {
      BlocksExactly(lo, hi - 1, i - 1);
    }
  }

  /** The blocks asked for by the ranges, in order. */
  function BlocksOf(ranges: seq<Range>): seq<int> {
    if ranges == [] then []
    else BlocksOf(ranges[..|ranges| - 1]) + Blocks(ranges[|ranges| - 1].lo, ranges[|ranges| - 1].hi)
  }

  lemma {:induction false} BlocksJoin(a: int, b: int, c: int)
    requires a <= b + 1 <= c + 1
    ensures Blocks(a, b) + Blocks(b + 1, c) == Blocks(a, c)
    decreases c - b
  {
    if b < c {
      BlocksJoin(a, b, c - 1);
      assert Blocks(a, b) + (Blocks(b + 1, c - 1) + [c]) == Blocks(a, b) + Blocks(b + 1, c - 1) + [c];
    } else {
      assert Blocks(a, b) + [] == Blocks(a, b);
    }
  }

  lemma BlocksOfSnoc(ranges: seq<Range>, r: Range)
    ensures BlocksOf(ranges + [r]) == BlocksOf(ranges) + Blocks(r.lo, r.hi)
  {
    assert (ranges + [r])[..|ranges|] == ranges;
  }

  lemma {:induction false} BlocksOfConcat(xs: seq<Range>, ys: seq<Range>)
    ensures BlocksOf(xs + ys) == BlocksOf(xs) + BlocksOf(ys)
  {
    if ys == [] {
      assert xs + ys == xs;
    } else {
      var n := |ys| - 1;
      var last := Blocks(ys[n].lo, ys[n].hi);
      BlocksOfConcat(xs, ys[..n]);
      assert (xs + ys)[..|xs + ys| - 1] == xs + ys[..n];
      assert BlocksOf(xs) + BlocksOf(ys[..n]) + last == BlocksOf(xs) + (BlocksOf(ys[..n]) + last);
    }
  }

  /** All pieces have exactly `limit` blocks; the last one, unless required too, at least one and at most `limit`. */
  ghost predicate AreFull(ranges: seq<Range>, limit: int, lastToo: bool) {
    forall i | 0 <= i < |ranges| ::
      1 <= ranges[i].Size() <= limit && (i < |ranges| - 1 || lastToo ==> ranges[i].Size() == limit)
  }

  /**
   Partitions `from..to`, each block once and in order. No piece is longer than the limit, except that a range
   with exactly one block too many is kept whole.
   */
  method SplitBlockRanges(from: int, to: int, limit: int) returns (ranges: seq<Range>)
    requires limit > 0
    ensures BlocksOf(ranges) == Blocks(from, to)
    ensures to - from == limit ==> ranges == [Range(from, to)]
    ensures to - from != limit ==> AreFull(ranges, limit, false)
  {
    if from > to {
      return [];
    }
    if to - from <= limit {
      BlocksOfSnoc([], Range(from, to));
      assert [] + [Range(from, to)] == [Range(from, to)];
      return [Range(from, to)];
    }
    ranges := [];
    assert Blocks(from, from - 1) == [];
    var rangeFrom, rangeTo := from, from;
    while rangeTo < to
      invariant from <= rangeTo <= to && from <= rangeFrom <= to + 1
      invariant ranges == [] ==> rangeFrom == rangeTo == from
      invariant ranges != [] ==> rangeFrom == rangeTo + 1
      invariant BlocksOf(ranges) == Blocks(from, rangeFrom - 1)
      invariant AreFull(ranges, limit, rangeTo < to)
      decreases 1 + to - rangeFrom
    {
      rangeTo := rangeFrom + limit - 1;
      if rangeTo > to {
        rangeTo := to;
      }
      BlocksOfSnoc(ranges, Range(rangeFrom, rangeTo));
      BlocksJoin(from, rangeFrom - 1, rangeTo);
      ranges := ranges + [Range(rangeFrom, rangeTo)];
      rangeFrom := rangeTo + 1;
    }
  }

  function MaxOf(start: int, heads: seq<int>): int {
    if heads == [] then start
    else
      var m := MaxOf(start, heads[..|heads| - 1]);
      if heads[|heads| - 1] > m then heads[|heads| - 1] else m
  }

  /** The highest of the first head and those observed after it. */
  ghost predicate IsLatest(start: int, heads: seq<int>, latest: int) {
    && latest >= start && (latest == start || latest in heads)
    && forall h | h in heads :: latest >= h
  }

  lemma LatestSnoc(start: int, heads: seq<int>, latest: int, head: int)
    requires IsLatest(start, heads, latest)
    ensures IsLatest(start, heads + [head], if head > latest then head else latest)
  {
  }

  /** Every number lowered by `d`. */
  function Lowered(xs: seq<int>, d: int): seq<int> {
    if xs == [] then [] else Lowered(xs[..|xs| - 1], d) + [xs[|xs| - 1] - d]
  }

  lemma {:induction false} LoweredConcat(xs: seq<int>, ys: seq<int>, d: int)
    ensures Lowered(xs + ys, d) == Lowered(xs, d) + Lowered(ys, d)
  {
    if ys == [] {
      assert xs + ys == xs;
    } else {
      var n := |ys| - 1;
      LoweredConcat(xs, ys[..n], d);
      assert (xs + ys)[..|xs + ys| - 1] == xs + ys[..n];
    }
  }

  lemma {:induction false} LoweredBlocks(lo: int, hi: int, d: int)
    ensures Lowered(Blocks(lo, hi), d) == Blocks(lo - d, hi - d)
    decreases hi - lo
  {
    if lo <= hi {
      LoweredBlocks(lo, hi - 1, d);
      assert Blocks(lo, hi)[..|Blocks(lo, hi)| - 1] == Blocks(lo, hi - 1);
    }
  }

  lemma {:induction false} Shifted(ranges: seq<Range>, d: int)
    ensures BlocksOf(Confirmed(ranges, d)) == Lowered(BlocksOf(ranges), d)
  {
    if ranges != [] {
      var n := |ranges| - 1;
      Shifted(ranges[..n], d);
      LoweredConcat(BlocksOf(ranges[..n]), Blocks(ranges[n].lo, ranges[n].hi), d);
      LoweredBlocks(ranges[n].lo, ranges[n].hi, d);
      assert Confirmed(ranges, d)[..n] == Confirmed(ranges[..n], d);
    }
  }

  /** The ranges moved back by the number of confirmations. */
  function Confirmed(ranges: seq<Range>, confirms: int): (r: seq<Range>)
    ensures |r| == |ranges|
  {
    seq(|ranges|, i requires 0 <= i < |ranges| => Range(ranges[i].lo - confirms, ranges[i].hi - confirms))
  }

  /** What the requests of one tick add. */
  lemma FetchStep(before: seq<Range>, ranges: seq<Range>, start: int, latest: int, current: int, confirms: nat)
    requires start <= latest < current
    requires BlocksOf(before) == Blocks(start + 1 - confirms, latest - confirms)
    requires BlocksOf(ranges) == Blocks(latest + 1, current)
    ensures BlocksOf(before + Confirmed(ranges, confirms)) == Blocks(start + 1 - confirms, current - confirms)
  {
    BlocksOfConcat(before, Confirmed(ranges, confirms));
    Shifted(ranges, confirms);
    LoweredBlocks(latest + 1, current, confirms);
    BlocksJoin(start + 1 - confirms, latest - confirms, current - confirms);
  }

  method HandleRanges(ranges: seq<Range>, confirms: nat) returns (handled: seq<Range>)
    ensures handled == Confirmed(ranges, confirms)
  {
    handled := [];
    for i := 0 to |ranges|
      invariant handled == Confirmed(ranges, confirms)[..i]
    {
      var from, to := ranges[i].lo - confirms, ranges[i].hi - confirms;
      handled := handled + [Range(from, to)];
    }
  }

  /**
   The fetch loop: whatever heads are observed after the first one, the requests concatenate to exactly the
   confirmed blocks after it, each block once and ascending.
   */
  method FetchEventsRoutine(start: int, heads: seq<int>, confirms: nat, limit: int)
      returns (handled: seq<Range>, latestBlock: int)
    requires limit > 0
    ensures latestBlock == MaxOf(start, heads)
    ensures IsLatest(start, heads, latestBlock)
    ensures BlocksOf(handled) == Blocks(start + 1 - confirms, latestBlock - confirms)
    ensures SizesWithin(handled, limit + 1)
  {
    latestBlock, handled := start, [];
    for t := 0 to |heads|
      invariant latestBlock == MaxOf(start, heads[..t]) && IsLatest(start, heads[..t], latestBlock)
      invariant BlocksOf(handled) == Blocks(start + 1 - confirms, latestBlock - confirms)
      invariant SizesWithin(handled, limit + 1)
    {
      var currentBlock := heads[t];
      LatestSnoc(start, heads[..t], latestBlock, currentBlock);
      assert heads[..t + 1] == heads[..t] + [currentBlock];
      assert heads[..t + 1][..t] == heads[..t];
      if currentBlock <= latestBlock {
        continue;
      }
      var ranges := SplitBlockRanges(latestBlock + 1, currentBlock, limit);
      MoreSizes(handled, ranges, confirms, limit, latestBlock + 1, currentBlock);
      var more := HandleRanges(ranges, confirms);
      FetchStep(handled, ranges, start, latestBlock, currentBlock, confirms);
      handled := handled + more;
      latestBlock := currentBlock;
    }
    assert heads[..|heads|] == heads;
  }

  /** Every piece has a block, and none has more than `most`. */
  ghost predicate SizesWithin(ranges: seq<Range>, most: int) {
    forall i | 0 <= i < |ranges| :: 1 <= ranges[i].Size() <= most
  }

  lemma MoreSizes(handled: seq<Range>, ranges: seq<Range>, confirms: nat, limit: int, from: int, to: int)
    requires limit > 0 && SizesWithin(handled, limit + 1)
    requires to - from == limit ==> ranges == [Range(from, to)]
    requires to - from != limit ==> AreFull(ranges, limit, false)
    ensures SizesWithin(handled + Confirmed(ranges, confirms), limit + 1)
  {
    var more := Confirmed(ranges, confirms);
    forall i | 0 <= i < |ranges| ensures 1 <= more[i].Size() <= limit + 1 {
      assert more[i].Size() == ranges[i].Size();
    }
  }

  function Reversed(ranges: seq<Range>): seq<Range> {
    if ranges == [] then [] else Reversed(ranges[1..]) + [ranges[0]]
  }

  lemma {:induction false} ReversedSnoc(ranges: seq<Range>, r: Range)
    ensures Reversed(ranges + [r]) == [r] + Reversed(ranges)
  {
    if ranges == [] {
      assert [] + [r] == [r] && [r][1..] == [];
    } else {
      ReversedSnoc(ranges[1..], r);
      assert (ranges + [r])[1..] == ranges[1..] + [r];
    }
  }

  /** All of the first `n` pieces have exactly `limit` blocks, and none of them starts out too old. */
  ghost predicate Full(handled: seq<Range>, n: nat, limit: int, tooOld: int -> bool)
    requires n <= |handled|
  {
    forall i | 0 <= i < n :: handled[i].Size() == limit && !tooOld(handled[i].hi)
  }

  /**
   The blocks asked for, downwards from the confirmed head: in pieces of exactly the limit but for the lowest one, until
   block zero or a block older than the period. A head without confirmed blocks makes one piece without blocks.
   */
  ghost predicate PrefetchedDown(handled: seq<Range>, head: int, confirms: nat, limit: int, tooOld: int -> bool) {
    && handled != []
    && var last := handled[|handled| - 1];
       && Full(handled, |handled| - 1, limit, tooOld) && last.Size() <= limit
       && if head < confirms then handled == [Range(0, head - confirms)]
          else
            && BlocksOf(Reversed(handled)) == Blocks(last.lo, head - confirms)
            && 0 <= last.lo <= last.hi && (last.lo == 0 || tooOld(last.hi))
  }

  /** The loop's state when it is about to go down from block `to`. */
  ghost predicate Prefetching(handled: seq<Range>, head: int, confirms: nat, to: int, limit: int, tooOld: int -> bool) {
    && to <= head - confirms && (if handled == [] then to == head - confirms else to >= 0)
    && BlocksOf(Reversed(handled)) == Blocks(to + 1, head - confirms)
    && Full(handled, |handled|, limit, tooOld)
  }

  /** The prefetch loop. `tooOld` tells the age of a block. */
  method PrefetchEventsRoutine(enabled: bool, head: int, confirms: nat, limit: int, tooOld: int -> bool)
      returns (handled: seq<Range>)
    requires limit > 0
    ensures if enabled then PrefetchedDown(handled, head, confirms, limit, tooOld) else handled == []
  {
    handled := [];
    if !enabled {
      return;
    }
    var d := confirms;
    while true
      invariant Prefetching(handled, head, confirms, head - d, limit, tooOld)
      decreases head - d
    {
      var from, to := head - (d + limit - 1), head - d;
      if from < 0 {
        from := 0;
      }
      PrefetchStep(handled, head, confirms, from, to, limit, tooOld);
      handled := handled + [Range(from, to)];
      if from == 0 || tooOld(to) {
        return;
      }
      d := d + limit;
    }
  }

  /** One more piece either ends the loop or leaves it in its state. */
  lemma PrefetchStep(
    handled: seq<Range>, head: int, confirms: nat, from: int, to: int, limit: int, tooOld: int -> bool)
    requires limit > 0 && Prefetching(handled, head, confirms, to, limit, tooOld)
    requires from == if to - limit + 1 < 0 then 0 else to - limit + 1
    ensures var more := handled + [Range(from, to)];
            if from == 0 || tooOld(to) then PrefetchedDown(more, head, confirms, limit, tooOld)
            else Prefetching(more, head, confirms, to - limit, limit, tooOld)
  {
    if from <= to {
      PrefetchMore(handled, from, to, head - confirms);
    }
  }

  lemma PrefetchMore(handled: seq<Range>, from: int, to: int, top: int)
    requires from <= to <= top && BlocksOf(Reversed(handled)) == Blocks(to + 1, top)
    ensures BlocksOf(Reversed(handled + [Range(from, to)])) == Blocks(from, top)
  {
    var r := Range(from, to);
    ReversedSnoc(handled, r);
    BlocksOfConcat([r], Reversed(handled));
    BlocksOfSnoc([], r);
    assert [] + [r] == [r];
    BlocksJoin(from, to, top);
  }

  lemma {:induction false} InBlocks(lo: int, hi: int, b: int)
    ensures b in Blocks(lo, hi) <==> lo <= b <= hi
    decreases hi - lo
  {
    if lo <= hi {
      InBlocks(lo, hi - 1, b);
    }
  }

  /** The block is asked for by one of the two loops. */
  ghost predicate Asked(prefetched: seq<Range>, fetched: seq<Range>, b: int) {
    b in BlocksOf(Reversed(prefetched)) || b in BlocksOf(fetched)
  }

  ghost predicate NoneMissed(prefetched: seq<Range>, fetched: seq<Range>, lo: int, hi: int) {
    forall b | lo <= b <= hi :: Asked(prefetched, fetched, b)
  }

  lemma AskedExactly(prefetched: seq<Range>, fetched: seq<Range>, lo: int, top: int, from: int, to: int, b: int)
    requires BlocksOf(Reversed(prefetched)) == Blocks(lo, top) && BlocksOf(fetched) == Blocks(from, to)
    ensures Asked(prefetched, fetched, b) <==> lo <= b <= top || from <= b <= to
  {
    InBlocks(lo, top, b);
    InBlocks(from, to, b);
  }

  /** Two intervals leave nothing out, up to the end of the second, exactly when the second starts at most right after the first. */
  lemma NoGapExactly(prefetched: seq<Range>, fetched: seq<Range>, lo: int, top: int, from: int, to: int)
    requires BlocksOf(Reversed(prefetched)) == Blocks(lo, top) && BlocksOf(fetched) == Blocks(from, to)
    requires lo <= top + 1 && from <= to + 1
    ensures NoneMissed(prefetched, fetched, lo, to) <==> from <= top + 1 || to < lo
  {
    if from <= top + 1 || to < lo {
      forall b | lo <= b <= to ensures Asked(prefetched, fetched, b) {
        AskedExactly(prefetched, fetched, lo, top, from, to, b);
      }
    } else {
      AskedExactly(prefetched, fetched, lo, top, from, to, top + 1);
    }
  }

  lemma NothingBelowZero(to: int)
    requires to < 0
    ensures BlocksOf(Reversed([Range(0, to)])) == []
  {
    assert Reversed([Range(0, to)]) == [Range(0, to)] by { assert [Range(0, to)][1..] == []; }
    BlocksOfSnoc([], Range(0, to));
    assert [] + [Range(0, to)] == [Range(0, to)];
  }

  /**
   Both loops on the heads they read: from the lowest prefetched block to the latest confirmed one, none is left out
   exactly when the prefetch loop's head is at least the fetch loop's. A prefetch head without confirmed blocks asks
   for none, and then the fetch loop must have started so early itself.
   */
  method ScanBlocks(prefetchHead: int, fetchHead: int, heads: seq<int>, confirms: nat, limit: int, tooOld: int -> bool)
      returns (prefetched: seq<Range>, fetched: seq<Range>, latest: int)
    requires limit > 0
    ensures IsLatest(fetchHead, heads, latest) && prefetched != []
    ensures prefetchHead >= confirms ==>
              (NoneMissed(prefetched, fetched, prefetched[|prefetched| - 1].lo, latest - confirms) <==>
               prefetchHead >= fetchHead)
    ensures prefetchHead < confirms ==>
              (NoneMissed(prefetched, fetched, 0, latest - confirms) <==> fetchHead < confirms || latest < confirms)
  {
    prefetched := PrefetchEventsRoutine(true, prefetchHead, confirms, limit, tooOld);
    fetched, latest := FetchEventsRoutine(fetchHead, heads, confirms, limit);
    if prefetchHead >= confirms {
      GapAbove(prefetched, fetched, prefetchHead, fetchHead, latest, confirms, limit, tooOld);
    } else {
      GapBelow(prefetched, fetched, prefetchHead, fetchHead, latest, confirms, limit, tooOld);
    }
  }

  lemma GapBelow(prefetched: seq<Range>, fetched: seq<Range>, prefetchHead: int, fetchHead: int, latest: int,
                 confirms: nat, limit: int, tooOld: int -> bool)
    requires PrefetchedDown(prefetched, prefetchHead, confirms, limit, tooOld) && prefetchHead < confirms
    requires BlocksOf(fetched) == Blocks(fetchHead + 1 - confirms, latest - confirms) && latest >= fetchHead
    ensures NoneMissed(prefetched, fetched, 0, latest - confirms) <==> fetchHead < confirms || latest < confirms
  {
    NothingBelowZero(prefetchHead - confirms);
    NoGapExactly(prefetched, fetched, 0, -1, fetchHead + 1 - confirms, latest - confirms);
  }

  lemma GapAbove(prefetched: seq<Range>, fetched: seq<Range>, prefetchHead: int, fetchHead: int, latest: int,
                 confirms: nat, limit: int, tooOld: int -> bool)
    requires PrefetchedDown(prefetched, prefetchHead, confirms, limit, tooOld) && prefetchHead >= confirms
    requires BlocksOf(fetched) == Blocks(fetchHead + 1 - confirms, latest - confirms) && latest >= fetchHead
    ensures NoneMissed(prefetched, fetched, prefetched[|prefetched| - 1].lo, latest - confirms) <==>
            prefetchHead >= fetchHead
  {
    var last := prefetched[|prefetched| - 1];
    LowestIsCovered(prefetched, last.lo, prefetchHead - confirms);
    NoGapExactly(prefetched, fetched, last.lo, prefetchHead - confirms, fetchHead + 1 - confirms, latest - confirms);
  }

  /** The lowest prefetched block is not above the prefetch head. */
  lemma LowestIsCovered(prefetched: seq<Range>, lowest: int, top: int)
    requires prefetched != [] && prefetched[|prefetched| - 1].lo == lowest <= prefetched[|prefetched| - 1].hi
    requires BlocksOf(Reversed(prefetched)) == Blocks(lowest, top)
    ensures lowest <= top
  {
    var init, last := prefetched[..|prefetched| - 1], prefetched[|prefetched| - 1];
    assert prefetched == init + [last];
    ReversedSnoc(init, last);
    BlocksOfConcat([last], Reversed(init));
    BlocksOfSnoc([], last);
    assert [] + [last] == [last];
    InBlocks(last.lo, last.hi, last.lo);
    assert last.lo in BlocksOf(Reversed(prefetched));
  }
}
