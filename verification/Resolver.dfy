/**
 How the RPC-Splitter turns the endpoints' responses into one (pkg/rpcsplitter/resolver.go).
 */
module Resolver {
  import opened Wrappers
  import opened Compare
  import opened Indices
  import opened Sorting

  /** What an endpoint sends: an error, or a pointer to the decoded result. */
  datatype Response = Error(code: nat) | Answer(v: Value)

  datatype Resolution = Ok(resp: Response) | NotEnough | Different | Panic

  /** The response, or one with the same normal form. */
  ghost predicate Equivalent(a: Resolution, b: Resolution) {
    match (a, b)
    case (Ok(x), Ok(y)) => Ballot(x) == Ballot(y)
    case _ => a == b
  }

  // ---------------------------------------------------------------------------
  // Plurality
  // ---------------------------------------------------------------------------

  /** Comparison of a response that is no error with any response; an error has a type of its own. */
  predicate Matches(a: Response, b: Response) {
    a.Answer? && b.Answer? && Compare.Compare(Some(a.v), Some(b.v))
  }

  /** The vote a response casts: the normal form of its answer, or none for an error. */
  function Ballot(r: Response): Option<Normal> {
    match r
    case Error(_) => None
    case Answer(v) => Some(Erase(v))
  }

  function Ballots(rs: seq<Response>): (b: seq<Option<Normal>>)
    ensures |b| == |rs|
  {
    seq(|rs|, i requires 0 <= i < |rs| => Ballot(rs[i]))
  }

  function Tally(rs: seq<Response>, n: Normal): nat {
    multiset(Ballots(rs))[Some(n)]
  }

  /** All answers live in one heap and no pointer in them leads to nil. */
  ghost predicate Decoded(rs: seq<Response>, h: Heap) {
    forall i | 0 <= i < |rs| && rs[i].Answer? :: Lives(rs[i].v, h) && Plain(rs[i].v)
  }

  /** `n` has the quorum and strictly more votes than every other answer. */
  ghost predicate Wins(rs: seq<Response>, n: Normal, minResponses: int) {
    && Tally(rs, n) > 0
    && Tally(rs, n) >= minResponses
    && forall o: Normal | o != n :: Tally(rs, o) < Tally(rs, n)
  }

  ghost predicate NoAnswers(rs: seq<Response>) {
    forall i | 0 <= i < |rs| :: rs[i].Error?
  }

  ghost function FirstOf(rs: seq<Response>, n: Normal): (r: Response)
    requires Tally(rs, n) > 0
    ensures r in rs && Ballot(r) == Some(n)
    decreases |rs|
  {
    TallyCons(rs, n);
    if Ballot(rs[0]) == Some(n) then rs[0] else FirstOf(rs[1..], n)
  }

  /** What the default resolver answers, stated on the votes alone. */
  ghost function Plurality(rs: seq<Response>, minResponses: int): Resolution {
    if |rs| < minResponses then NotEnough
    else if |rs| == 0 then Panic
    else if |rs| == 1 then Ok(rs[0])
    else if NoAnswers(rs) then (if minResponses <= 0 then Ok(rs[0]) else Different)
    else if n: Normal :| Wins(rs, n, minResponses) then Ok(FirstOf(rs, n))
    else Different
  }

  lemma TallyCons(rs: seq<Response>, n: Normal)
    ensures rs == [] ==> Tally(rs, n) == 0
    ensures rs != [] ==> Tally(rs, n) == Tally(rs[1..], n) + if Ballot(rs[0]) == Some(n) then 1 else 0
  {
    if rs != [] {
      assert Ballots(rs) == [Ballot(rs[0])] + Ballots(rs[1..]);
    }
  }

  lemma TallySnoc(rs: seq<Response>, r: Response, n: Normal)
    ensures Tally(rs + [r], n) == Tally(rs, n) + if Ballot(r) == Some(n) then 1 else 0
  {
    assert Ballots(rs + [r]) == Ballots(rs) + [Ballot(r)];
  }

  lemma TallyMember(rs: seq<Response>, i: nat)
    requires i < |rs| && rs[i].Answer?
    ensures Tally(rs, Erase(rs[i].v)) > 0
  {
    assert Ballots(rs)[i] == Some(Erase(rs[i].v));
    assert Some(Erase(rs[i].v)) in multiset(Ballots(rs));
  }

  lemma MatchesIsBallot(a: Response, b: Response, h: Heap)
    requires Decoded([a, b], h) && a.Answer?
    ensures Matches(a, b) <==> Ballot(a) == Ballot(b)
  {
    assert [a, b][0] == a && [a, b][1] == b;
    if b.Answer? {
      CmpIsErasure(a.v, b.v, h);
    }
  }

  /** The inner loop: how many responses compare equal to `a`. */
  method CountMatches(rs: seq<Response>, a: Response, ghost h: Heap) returns (counter: nat)
    requires Decoded(rs, h) && Decoded([a], h) && a.Answer?
    ensures counter == Tally(rs, Erase(a.v))
  {
    counter := 0;
    for i := 0 to |rs|
      invariant counter == Tally(rs[..i], Erase(a.v))
    {
      assert [a][0] == a;
      MatchesIsBallot(a, rs[i], h);
      TallySnoc(rs[..i], rs[i], Erase(a.v));
      assert rs[..i] + [rs[i]] == rs[..i + 1];
      if Matches(a, rs[i]) {
        counter := counter + 1;
      }
    }
    assert rs[..|rs|] == rs;
  }

  /** `best` is the first answer with the most votes among the first `k` responses. */
  ghost predicate Leads(rs: seq<Response>, k: nat, best: nat, votes: nat)
    requires k <= |rs|
  {
    && best < k && rs[best].Answer?
    && votes == Tally(rs, Erase(rs[best].v))
    && (forall j | 0 <= j < k && rs[j].Answer? :: Tally(rs, Erase(rs[j].v)) <= votes)
    && (forall j | 0 <= j < best && rs[j].Answer? :: Tally(rs, Erase(rs[j].v)) < votes)
  }

  ghost predicate Tied(rs: seq<Response>, k: nat, best: nat, votes: nat)
    requires k <= |rs| && best < |rs|
  {
    exists j :: 0 <= j < k && rs[j].Answer? && Ballot(rs[j]) != Ballot(rs[best]) &&
                Tally(rs, Erase(rs[j].v)) == votes
  }

  /** What the votes demand of a plurality: the first response of a winning class, if there is one. */
  ghost predicate IsPluralityResult(rs: seq<Response>, minResponses: int, r: Resolution) {
    && (r.NotEnough? <==> |rs| < minResponses)
    && (|rs| >= minResponses && rs == [] ==> r.Panic?)
    && (|rs| >= minResponses && |rs| == 1 ==> r == Ok(rs[0]))
    && (|rs| >= minResponses >= 1 && |rs| >= 2 ==>
          if r.Ok? then exists i :: IsFirstWinner(rs, minResponses, i) && r.resp == rs[i]
          else r.Different? && forall n: Normal :: !Wins(rs, n, minResponses))
  }

  ghost predicate IsFirstWinner(rs: seq<Response>, minResponses: int, i: int) {
    && 0 <= i < |rs| && rs[i].Answer? && Wins(rs, Erase(rs[i].v), minResponses)
    && forall j | 0 <= j < i :: Ballot(rs[j]) != Ballot(rs[i])
  }

  lemma PluralityIsResult(rs: seq<Response>, m: int)
    ensures IsPluralityResult(rs, m, Plurality(rs, m))
  {
    if |rs| >= m >= 1 && |rs| >= 2 {
      PluralityExactly(rs, m);
      if Plurality(rs, m).Ok? {
        var n: Normal :| Wins(rs, n, m) && Plurality(rs, m) == Ok(FirstOf(rs, n));
        var i := FirstPosition(rs, n);
        assert IsFirstWinner(rs, m, i);
      }
    }
  }

  lemma {:induction false} FirstPosition(rs: seq<Response>, n: Normal) returns (i: nat)
    requires Tally(rs, n) > 0
    ensures i < |rs| && rs[i] == FirstOf(rs, n) && forall j | 0 <= j < i :: Ballot(rs[j]) != Some(n)
    decreases |rs|
  {
    TallyCons(rs, n);
    if Ballot(rs[0]) == Some(n) {
      i := 0;
    } else {
      i := FirstPosition(rs[1..], n);
      i := i + 1;
    }
  }

  method ResolveDefault(resps: seq<Response>, minResponses: int, ghost h: Heap) returns (r: Resolution)
    requires Decoded(resps, h)
    ensures r == Plurality(resps, minResponses)
    ensures IsPluralityResult(resps, minResponses, r)
  {
    PluralityIsResult(resps, minResponses);
    if |resps| < minResponses {
      return NotEnough;
    }
    if |resps| == 1 {
      return Ok(resps[0]);
    }
    if |resps| == 0 {
      return Panic; // resps[0] is out of range
    }
    var mostCommonResp, mostCommonCounter, multiple, best := FindMostCommon(resps, h);
    LeaderDecides(resps, minResponses, best, mostCommonCounter, multiple);
    if multiple || mostCommonCounter < minResponses {
      return Different;
    }
    return Ok(mostCommonResp);
  }

  /** The outer loop: the first response with the most votes, and whether another answer has as many. */
  method FindMostCommon(resps: seq<Response>, ghost h: Heap)
      returns (mostCommonResp: Response, mostCommonCounter: nat, multiple: bool, ghost best: nat)
    requires Decoded(resps, h) && resps != []
    ensures best < |resps| && mostCommonResp == resps[best]
    ensures Scanned(resps, |resps|, best, mostCommonCounter, multiple)
  {
    mostCommonResp, mostCommonCounter, multiple := resps[0], 0, false;
    best := 0;
    for i := 0 to |resps|
      invariant 0 <= best < |resps| && mostCommonResp == resps[best]
      invariant Scanned(resps, i, best, mostCommonCounter, multiple)
    {
      var a := resps[i];
      if a.Error? {
        continue;
      }
      var counter := CountMatches(resps, a, h);
      TallyMember(resps, i);
      ScanAnswer(resps, i, best, mostCommonCounter, multiple);
      if counter > mostCommonCounter {
        multiple, mostCommonResp, mostCommonCounter := false, a, counter;
        best := i;
      }
      assert Decoded([mostCommonResp, a], h) by { assert resps[best] == mostCommonResp; }
      if counter == mostCommonCounter {
        MatchesIsBallot(mostCommonResp, a, h);
        if !Matches(mostCommonResp, a) {
          multiple := true;
        }
      }
    }
  }

  /** What the outer loop knows after `k` responses. */
  ghost predicate Scanned(rs: seq<Response>, k: nat, best: nat, votes: nat, multiple: bool)
    requires k <= |rs| && best < |rs|
  {
    if votes == 0 then
      best == 0 && !multiple && forall j | 0 <= j < k :: rs[j].Error?
    else
      Leads(rs, k, best, votes) && (multiple <==> Tied(rs, k, best, votes))
  }

  lemma ScanAnswer(rs: seq<Response>, i: nat, best: nat, votes: nat, multiple: bool)
    requires i < |rs| && best < |rs| && rs[i].Answer?
    requires Scanned(rs, i, best, votes, multiple)
    requires Tally(rs, Erase(rs[i].v)) > 0
    ensures var counter := Tally(rs, Erase(rs[i].v));
            if counter > votes then Scanned(rs, i + 1, i, counter, false)
            else Leads(rs, i + 1, best, votes) &&
                 Scanned(rs, i + 1, best, votes, multiple || (counter == votes && Ballot(rs[best]) != Ballot(rs[i])))
  {
  }

  lemma {:induction false} TallyWitness(rs: seq<Response>, n: Normal) returns (i: nat)
    requires Tally(rs, n) > 0
    ensures i < |rs| && Ballot(rs[i]) == Some(n)
  {
    assert Some(n) in multiset(Ballots(rs));
    i :| 0 <= i < |rs| && Ballots(rs)[i] == Some(n);
  }

  lemma {:induction false} FirstIs(rs: seq<Response>, best: nat)
    requires best < |rs| && rs[best].Answer?
    requires forall j | 0 <= j < best :: Ballot(rs[j]) != Ballot(rs[best])
    requires Tally(rs, Erase(rs[best].v)) > 0
    ensures FirstOf(rs, Erase(rs[best].v)) == rs[best]
  {
    if best > 0 {
      TallyCons(rs, Erase(rs[best].v));
      FirstIs(rs[1..], best - 1);
    }
  }

  lemma WinnerUnique(rs: seq<Response>, m: int, n: Normal, o: Normal)
    requires Wins(rs, n, m) && Wins(rs, o, m)
    ensures n == o
  {
  }

  lemma LeaderDecides(rs: seq<Response>, m: int, best: nat, votes: nat, multiple: bool)
    requires |rs| >= 2 && |rs| >= m && best < |rs|
    requires Scanned(rs, |rs|, best, votes, multiple)
    ensures Plurality(rs, m) == if multiple || votes < m then Different else Ok(rs[best])
  {
    if votes == 0 {
      return;
    }
    var n := Erase(rs[best].v);
    assert !NoAnswers(rs);
    if !multiple && votes >= m {
      forall o: Normal | o != n
        ensures Tally(rs, o) < Tally(rs, n)
      {
        if Tally(rs, o) > 0 {
          var j := TallyWitness(rs, o);
          assert Erase(rs[j].v) == o;
        }
      }
      assert Wins(rs, n, m);
      forall o: Normal | Wins(rs, o, m) ensures o == n { WinnerUnique(rs, m, n, o); }
      FirstIs(rs, best);
    } else {
      forall o: Normal
        ensures !Wins(rs, o, m)
      {
        if Wins(rs, o, m) {
          if o != n {
            assert Tally(rs, n) < Tally(rs, o);
            var j := TallyWitness(rs, o);
            assert false;
          }
        }
      }
    }
  }

  /** With two or more responses and a positive quorum: success exactly for a unique winner, which it returns. */
  lemma PluralityExactly(rs: seq<Response>, m: int)
    requires |rs| >= 2 && m >= 1
    ensures Plurality(rs, m).Ok? <==> exists n: Normal :: Wins(rs, n, m)
    ensures Plurality(rs, m).Ok? ==>
              var r := Plurality(rs, m).resp;
              r in rs && r.Answer? && Wins(rs, Erase(r.v), m)
  {
    if n: Normal :| Wins(rs, n, m) {
      var i := TallyWitness(rs, n);
      assert rs[i].Answer?;
      if |rs| < m {
        assert Tally(rs, n) <= |multiset(Ballots(rs))|;
      }
    }
  }

  /** The winning answer does not depend on the order in which the responses arrived. */
  lemma PluralityOrderFree(rs: seq<Response>, ss: seq<Response>, m: int)
    requires multiset(Ballots(rs)) == multiset(Ballots(ss)) && m >= 1
    ensures |rs| >= 2 ==> Equivalent(Plurality(rs, m), Plurality(ss, m))
  {
    assert |multiset(Ballots(rs))| == |rs| && |multiset(Ballots(ss))| == |ss|;
    forall n: Normal ensures Tally(rs, n) == Tally(ss, n) {}
    forall n: Normal ensures Wins(rs, n, m) == Wins(ss, n, m) {}
    if |rs| >= 2 {
      PluralityExactly(rs, m);
      PluralityExactly(ss, m);
      if Plurality(rs, m).Ok? {
        WinnerUnique(rs, m, Erase(Plurality(rs, m).resp.v), Erase(Plurality(ss, m).resp.v));
      } else {
        if |rs| >= m {
          NoAnswersByVotes(rs, ss);
        }
      }
    }
  }

  lemma NoAnswersByVotes(rs: seq<Response>, ss: seq<Response>)
    requires multiset(Ballots(rs)) == multiset(Ballots(ss))
    ensures NoAnswers(rs) ==> NoAnswers(ss)
  {
    if NoAnswers(rs) {
      forall i | 0 <= i < |ss| ensures ss[i].Error? {
        if ss[i].Answer? {
          TallyMember(ss, i);
          var j := TallyWitness(rs, Erase(ss[i].v));
        }
      }
    }
  }

  // ---------------------------------------------------------------------------
  // Numbers: gas values and block numbers
  // ---------------------------------------------------------------------------

  const NUMBER := 1
  const BIG_INT := 2

  function NumberAnswer(n: int): Response {
    Answer(Ptr(0, Struct(NUMBER, [Int(BIG_INT, n)])))
  }

  function AsNumber(r: Response): Option<int> {
    match r
    case Answer(Ptr(_, Struct(name, items))) =>
      if name == NUMBER && |items| == 1 && items[0].Int? then Some(items[0].i) else None
    case _ => None
  }

  function Numbers(rs: seq<Response>): seq<int> {
    if rs == [] then []
    else
      var tail := Numbers(rs[..|rs| - 1]);
      match AsNumber(rs[|rs| - 1])
      case Some(n) => tail + [n]
      case None => tail
  }

  /** `kept` tells where the numbers are; no other response is one. */
  method FilterByNumberType(rs: seq<Response>) returns (ns: seq<int>, ghost kept: seq<nat>)
    ensures ns == Numbers(rs)
    ensures Ascending(kept, |rs|) && |ns| == |kept|
    ensures forall j | 0 <= j < |kept| :: AsNumber(rs[kept[j]]) == Some(ns[j])
    ensures forall i | 0 <= i < |rs| && AsNumber(rs[i]).Some? :: i in kept
  {
    ns, kept := [], [];
    for i := 0 to |rs|
      invariant ns == Numbers(rs[..i])
      invariant Ascending(kept, i) && |ns| == |kept|
      invariant forall j | 0 <= j < |kept| :: AsNumber(rs[kept[j]]) == Some(ns[j])
      invariant forall k | 0 <= k < i && AsNumber(rs[k]).Some? :: k in kept
    {
      assert rs[..i + 1][..i] == rs[..i];
      match AsNumber(rs[i]) {
        case Some(n) =>
          ns := ns + [n];
          kept := kept + [i];
        case None =>
      }
    }
    assert rs[..|rs|] == rs;
  }

  /** The value for two or more numbers: the lower of two, else the median. */
  function GasValue(ns: seq<int>): int
    requires |ns| >= 2
  {
    if |ns| == 2 then (if ns[0] > ns[1] then ns[1] else ns[0]) else Median(ns)
  }

  function GasResolution(rs: seq<Response>, minResponses: int): Resolution {
    var ns := Numbers(rs);
    if |ns| < minResponses then NotEnough
    else if |ns| == 0 then Panic
    else if |ns| == 1 then NumbersBound(rs); Ok(rs[0])
    else Ok(NumberAnswer(GasValue(ns)))
  }

  lemma {:induction false} NumbersBound(rs: seq<Response>)
    ensures |Numbers(rs)| <= |rs|
  {
    if rs != [] {
      NumbersBound(rs[..|rs| - 1]);
    }
  }

  /** The lower of two numbers, else the median. */
  ghost predicate IsGas(ns: seq<int>, v: int) {
    if |ns| == 2 then v in ns && forall n | n in ns :: v <= n else IsMedian(ns, v)
  }

  /** What the responses' numbers demand of a gas value. */
  ghost predicate IsGasResult(rs: seq<Response>, minResponses: int, r: Resolution) {
    var ns := Numbers(rs);
    && (r.NotEnough? <==> |ns| < minResponses)
    && (|ns| >= minResponses && ns == [] ==> r.Panic?)
    && (|ns| >= minResponses && |ns| == 1 ==> rs != [] && r == Ok(rs[0]))
    && (|ns| >= minResponses && |ns| >= 2 ==>
          r.Ok? && AsNumber(r.resp).Some? && IsGas(ns, AsNumber(r.resp).value))
  }

  lemma GasIsResult(rs: seq<Response>, minResponses: int)
    ensures IsGasResult(rs, minResponses, GasResolution(rs, minResponses))
  {
    var ns := Numbers(rs);
    NumbersBound(rs);
    if |ns| == 2 {
      GasOfTwoIsLowest(ns);
    } else if |ns| > 2 {
      MedianExactly(ns, Median(ns));
    }
  }

  method ResolveGas(resps: seq<Response>, minResponses: int) returns (r: Resolution)
    ensures r == GasResolution(resps, minResponses)
    ensures IsGasResult(resps, minResponses, r)
  {
    GasIsResult(resps, minResponses);
    var ns, _ := FilterByNumberType(resps);
    if |ns| < minResponses {
      return NotEnough;
    }
    NumbersBound(resps);
    if |ns| == 1 {
      return Ok(resps[0]);
    }
    if |ns| == 2 {
      var a, b := ns[0], ns[1];
      if a > b {
        return Ok(NumberAnswer(b));
      }
      return Ok(NumberAnswer(a));
    }
    if |ns| == 0 {
      return Panic; // ns[-1] is out of range
    }
    var median := SortAndTakeMiddle(ns);
    return Ok(NumberAnswer(median));
  }

  method SortAndTakeMiddle(ns: seq<int>) returns (median: int)
    requires |ns| > 0
    ensures median == Median(ns) && IsMedian(ns, median)
  {
    MedianExactly(ns, Median(ns));
    var sorted := new int[|ns|](i requires 0 <= i < |ns| => ns[i]);
    assert sorted[..] == ns;
    SortArray(sorted);
    SortSorts(ns);
    if |ns| % 2 == 0 {
      var m := |ns| / 2;
      var x1, x2 := sorted[m - 1], sorted[m];
      return (x1 + x2) / 2;
    }
    return sorted[|ns| / 2];
  }

  /** With two or more numbers, if more than half lie in an interval then so does the gas value. */
  lemma GasRobust(ns: seq<int>, lo: int, hi: int)
    requires |ns| >= 2 && 2 * CountIn(ns, lo, hi) > |ns|
    ensures lo <= GasValue(ns) <= hi
  {
    MedianRobust(ns, lo, hi);
    if |ns| == 2 {
      assert CountIn(ns[1..], lo, hi) <= 1 by { CountAtMost(ns[1..], lo, hi); }
      assert ns[1..] == [ns[1]];
      assert CountIn([ns[1]], lo, hi) == if lo <= ns[1] <= hi then 1 else 0 by { assert [ns[1]][1..] == []; }
    }
  }

  /** Of two numbers the lower one is taken. */
  lemma GasOfTwoIsLowest(ns: seq<int>)
    requires |ns| == 2
    ensures GasValue(ns) in ns && forall n | n in ns :: GasValue(ns) <= n
  {
  }

  lemma MiddleHalfBelow(t: seq<int>)
    requires |t| >= 2 && Sorted(t) && 2 * CountIn(t, 0, 0) >= |t| && t[|t| / 2] <= 2
    ensures MiddleOf(t) <= 1
  {
    var m := |t| / 2;
    if |t| % 2 == 0 {
      if t[m - 1] > 0 {
        AboveAt(t, m - 1, 0, 0);
      }
    } else {
      if t[m] > 0 {
        AboveAt(t, m, 0, 0);
      }
    }
  }

  /** Once half of the numbers are zero and none exceeds two, the gas value is below two. */
  lemma GasHalfBelow(ns: seq<int>)
    requires |ns| >= 2 && 2 * CountIn(ns, 0, 0) >= |ns| && forall n | n in ns :: 0 <= n <= 2
    ensures GasValue(ns) <= 1
  {
    if |ns| == 2 {
      assert ns[1..] == [ns[1]] && ns[1..][1..] == [];
    } else {
      SortSorts(ns);
      SortCount(ns, 0, 0);
      var t := Sort(ns);
      assert |t| == |ns| by { assert |multiset(t)| == |multiset(ns)|; }
      var k := PositionOf(t[|t| / 2], ns, t);
      assert ns[k] in ns;
      MiddleHalfBelow(t);
    }
  }

  lemma PairOrders(a: int, b: int, c: int, d: int)
    requires multiset{a, b} == multiset{c, d}
    ensures (a == c && b == d) || (a == d && b == c)
  {
    assert a in multiset{c, d} && b in multiset{c, d};
    if a == b {
      assert multiset{a, b}[a] == 2;
    }
  }

  lemma GasOrderFree(ns: seq<int>, ms: seq<int>)
    requires |ns| >= 2 && multiset(ns) == multiset(ms)
    ensures |ms| == |ns| && GasValue(ns) == GasValue(ms)
  {
    assert |multiset(ns)| == |ns| && |multiset(ms)| == |ms|;
    if |ns| == 2 {
      assert ns == [ns[0], ns[1]] && ms == [ms[0], ms[1]];
      PairOrders(ns[0], ns[1], ms[0], ms[1]);
    } else {
      PermutationsSortAlike(ns, ms);
    }
  }

  /** With exactly one number among the responses, the code returns it if and only if it came first. */
  lemma GasSingleExactly(rs: seq<Response>, m: int)
    requires |Numbers(rs)| == 1 && m <= 1
    ensures rs != [] && GasResolution(rs, m).Ok?
    ensures AsNumber(GasResolution(rs, m).resp) == Some(Numbers(rs)[0]) <==> AsNumber(rs[0]).Some?
  {
    NumbersBound(rs);
    NumbersSplit(rs, 1);
    assert rs[..1][..0] == [];
    assert Numbers(rs[..1]) == if AsNumber(rs[0]).Some? then [AsNumber(rs[0]).value] else [];
  }

  /** For example, an error that comes before the only number is what the code returns. */
  lemma GasSingleFails(code: nat, n: int)
    ensures var rs := [Error(code), NumberAnswer(n)];
            Numbers(rs) == [n] && GasResolution(rs, 1) == Ok(Error(code))
  {
    var rs := [Error(code), NumberAnswer(n)];
    assert rs[..1] == [Error(code)] && [Error(code)][..0] == [];
    assert Numbers(rs[..1]) == [];
  }

  lemma {:induction false} NumbersSplit(rs: seq<Response>, k: nat)
    requires k <= |rs|
    ensures Numbers(rs) == Numbers(rs[..k]) + Numbers(rs[k..])
  {
    if k < |rs| {
      var init := rs[..|rs| - 1];
      NumbersSplit(init, k);
      assert init[..k] == rs[..k];
      assert rs[k..][..|rs[k..]| - 1] == init[k..];
    } else {
      assert rs[..k] == rs;
    }
  }

  lemma NumbersConcat(rs: seq<Response>, ss: seq<Response>)
    ensures Numbers(rs + ss) == Numbers(rs) + Numbers(ss)
  {
    NumbersSplit(rs + ss, |rs|);
    assert (rs + ss)[..|rs|] == rs && (rs + ss)[|rs|..] == ss;
  }

  lemma NumbersBag(rs: seq<Response>, ss: seq<Response>)
    ensures multiset(Numbers(rs + ss)) == multiset(Numbers(rs)) + multiset(Numbers(ss))
  {
    NumbersConcat(rs, ss);
  }

  /** Taking one response out takes out its vote, and its number if it has one. */
  lemma BallotsWithoutOne(rs: seq<Response>, j: nat)
    requires j < |rs|
    ensures multiset(Ballots(rs)) == multiset(Ballots(Without(rs, j))) + multiset{Ballot(rs[j])}
  {
    var xs, ys := rs[..j], rs[j + 1..];
    SplitAt(rs, j);
    assert Ballots(rs) == Ballots(xs) + ([Ballot(rs[j])] + Ballots(ys));
    assert Ballots(xs + ys) == Ballots(xs) + Ballots(ys);
  }

  lemma NumbersAround(xs: seq<Response>, r: seq<Response>, ys: seq<Response>)
    ensures multiset(Numbers(xs + (r + ys))) == multiset(Numbers(xs + ys)) + multiset(Numbers(r))
  {
    NumbersBag(xs, r + ys);
    NumbersBag(r, ys);
    NumbersBag(xs, ys);
  }

  lemma NumbersWithoutOne(rs: seq<Response>, j: nat)
    requires j < |rs|
    ensures multiset(Numbers(rs)) == multiset(Numbers(Without(rs, j))) + multiset(Numbers([rs[j]]))
  {
    SplitAt(rs, j);
    NumbersAround(rs[..j], [rs[j]], rs[j + 1..]);
  }

  /** The same responses in another order have the same votes and the same numbers. */
  lemma {:induction false} Reordered(rs: seq<Response>, ss: seq<Response>)
    requires multiset(rs) == multiset(ss)
    ensures |rs| == |ss| && multiset(Ballots(rs)) == multiset(Ballots(ss)) && multiset(Numbers(rs)) == multiset(Numbers(ss))
    decreases |rs|
  {
    assert |multiset(rs)| == |rs| && |multiset(ss)| == |ss|;
    if rs == [] {
      assert ss == rs;
    } else {
      var j := PositionOf(rs[0], ss, rs);
      SameRest(rs, 0, ss, j);
      BallotsWithoutOne(rs, 0);
      BallotsWithoutOne(ss, j);
      NumbersWithoutOne(rs, 0);
      NumbersWithoutOne(ss, j);
      Reordered(Without(rs, 0), Without(ss, j));
    }
  }

  function Highest(ns: seq<int>): int
    requires ns != []
  {
    if |ns| == 1 then ns[0]
    else
      var h := Highest(ns[..|ns| - 1]);
      if h < ns[|ns| - 1] then ns[|ns| - 1] else h
  }

  function LowestWithin(ns: seq<int>, high: int, behind: int): int {
    if ns == [] then high
    else
      var block := LowestWithin(ns[..|ns| - 1], high, behind);
      var n := ns[|ns| - 1];
      if high - n <= behind && n < block then n else block
  }

  function BlockResolution(rs: seq<Response>, minResponses: int, behind: int): Resolution {
    var ns := Numbers(rs);
    if |ns| < minResponses then NotEnough
    else if |ns| == 0 then Panic
    else if |ns| == 1 then Ok(NumberAnswer(ns[0]))
    else Ok(NumberAnswer(LowestWithin(ns, Highest(ns), behind)))
  }

  /** `n` is at most `behind` blocks behind every other number. */
  ghost predicate Near(ns: seq<int>, behind: int, n: int) {
    forall k | k in ns :: k - n <= behind
  }

  /** One of the numbers, near every other or highest, with no lower near number. */
  ghost predicate IsChoice(ns: seq<int>, behind: int, b: int) {
    && b in ns
    && (Near(ns, behind, b) || forall k | k in ns :: k <= b)
    && forall n | n in ns && Near(ns, behind, n) :: b <= n
  }

  /** What the responses' numbers demand of a block number. */
  ghost predicate IsBlockResult(rs: seq<Response>, minResponses: int, behind: int, r: Resolution) {
    var ns := Numbers(rs);
    && (r.NotEnough? <==> |ns| < minResponses)
    && (|ns| >= minResponses && ns == [] ==> r.Panic?)
    && (|ns| >= minResponses && ns != [] ==>
          r.Ok? && AsNumber(r.resp).Some? && IsChoice(ns, behind, AsNumber(r.resp).value))
  }

  lemma BlockIsResult(rs: seq<Response>, minResponses: int, behind: int)
    ensures IsBlockResult(rs, minResponses, behind, BlockResolution(rs, minResponses, behind))
  {
    var ns := Numbers(rs);
    if ns != [] {
      BlockExactly(ns, behind, LowestWithin(ns, Highest(ns), behind));
    }
  }

  method ResolveBlockNumber(resps: seq<Response>, minResponses: int, behind: int) returns (r: Resolution)
    ensures r == BlockResolution(resps, minResponses, behind)
    ensures IsBlockResult(resps, minResponses, behind, r)
  {
    BlockIsResult(resps, minResponses, behind);
    var ns, _ := FilterByNumberType(resps);
    if |ns| < minResponses {
      return NotEnough;
    }
    if |ns| == 1 {
      return Ok(NumberAnswer(ns[0]));
    }
    if |ns| == 0 {
      return Panic; // ns[0] is out of range
    }
    var block := SelectBlock(ns, behind);
    return Ok(NumberAnswer(block));
  }

  /** The highest number, then the lowest one that is near it. */
  method SelectBlock(ns: seq<int>, behind: int) returns (block: int)
    requires ns != []
    ensures block == LowestWithin(ns, Highest(ns), behind)
  {
    var high := ns[0];
    for i := 0 to |ns|
      invariant high == if i == 0 then ns[0] else Highest(ns[..i])
    {
      assert ns[..i + 1][..i] == ns[..i];
      if high < ns[i] {
        high := ns[i];
      }
    }
    assert ns[..|ns|] == ns;
    block := high;
    for i := 0 to |ns|
      invariant block == LowestWithin(ns[..i], high, behind)
    {
      assert ns[..i + 1][..i] == ns[..i];
      if high - ns[i] <= behind && ns[i] < block {
        block := ns[i];
      }
    }
  }

  lemma {:induction false} HighestIs(ns: seq<int>)
    requires ns != []
    ensures Highest(ns) in ns && forall k | k in ns :: k <= Highest(ns)
  {
    if |ns| > 1 {
      HighestIs(ns[..|ns| - 1]);
      assert ns == ns[..|ns| - 1] + [ns[|ns| - 1]];
    }
  }

  lemma {:induction false} LowestIs(ns: seq<int>, high: int, behind: int)
    ensures var b := LowestWithin(ns, high, behind);
            && b <= high && (b == high || (b in ns && high - b <= behind))
            && forall k | k in ns && high - k <= behind :: b <= k || k > high
  {
    if ns != [] {
      LowestIs(ns[..|ns| - 1], high, behind);
      assert ns == ns[..|ns| - 1] + [ns[|ns| - 1]];
    }
  }

  /** The block number is one of the numbers, near or highest, and no near number is lower; one number alone is so. */
  lemma BlockExactly(ns: seq<int>, behind: int, b: int)
    requires ns != []
    ensures b == LowestWithin(ns, Highest(ns), behind) <==> IsChoice(ns, behind, b)
  {
    HighestIs(ns);
    LowestIs(ns, Highest(ns), behind);
    forall n | n in ns
      ensures Near(ns, behind, n) <==> Highest(ns) - n <= behind
    {
    }
  }

  lemma BlockOrderFree(ns: seq<int>, ms: seq<int>, behind: int)
    requires ns != [] && multiset(ns) == multiset(ms)
    ensures ms != [] && LowestWithin(ns, Highest(ns), behind) == LowestWithin(ms, Highest(ms), behind)
  {
    assert |multiset(ns)| == |ns| && |multiset(ms)| == |ms|;
    forall k: int ensures k in ns <==> k in ms {
      assert k in ns <==> k in multiset(ns);
      assert k in ms <==> k in multiset(ms);
    }
    var b := LowestWithin(ns, Highest(ns), behind);
    BlockExactly(ns, behind, b);
    assert forall n :: Near(ns, behind, n) <==> Near(ms, behind, n);
    BlockExactly(ms, behind, b);
  }
}
