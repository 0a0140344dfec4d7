/**
 One call of the RPC-Splitter (pkg/rpcsplitter/server.go, `call`): answers are collected in
 any order of arrival, and one graceful timer may ask for an early resolution.
 */
module SplitterCall {
  import opened Wrappers
  import opened Compare
  import opened Resolver
  import opened Sorting

  datatype Method = DefaultCall | GasCall | BlockCall(maxBlocksBehind: int)

  /** What the caller's result pointer points to. */
  class Result {
    var value: Value
    constructor (zero: Value) ensures value == zero { value := zero; }
  }

  datatype Outcome = Nil | Failed(why: Resolution)

  /** The results are decoded into memory of their own, so every answer is a non-nil pointer. */
  ghost predicate Decodes(rs: seq<Response>, h: Heap) {
    Decoded(rs, h) && forall i | 0 <= i < |rs| && rs[i].Answer? :: rs[i].v.Ptr?
  }

  ghost function Resolution(m: Method, rs: seq<Response>, minResponses: int): Resolution {
    match m
    case DefaultCall => Plurality(rs, minResponses)
    case GasCall => GasResolution(rs, minResponses)
    case BlockCall(behind) => BlockResolution(rs, minResponses, behind)
  }

  /** The timer fires before the last response, and finds a resolution. */
  ghost predicate EndsEarly(m: Method, arrivals: seq<Response>, timer: nat, minResponses: int) {
    timer < |arrivals| && (Resolution(m, arrivals[..timer], minResponses).Ok? ||
                           Resolution(m, arrivals[..timer], minResponses).Panic?)
  }

  /** The resolution that ends the call: an early one if the timer finds it, else that of all responses. */
  ghost function Verdict(m: Method, arrivals: seq<Response>, timer: nat, minResponses: int): Resolution {
    if EndsEarly(m, arrivals, timer, minResponses) then Resolution(m, arrivals[..timer], minResponses)
    else Resolution(m, arrivals, minResponses)
  }

  /** How many responses the call waits for. */
  ghost function Awaited(m: Method, arrivals: seq<Response>, timer: nat, minResponses: int): (n: nat)
    ensures n <= |arrivals|
  {
    if EndsEarly(m, arrivals, timer, minResponses) then timer else |arrivals|
  }

  /** What the received responses demand of the resolution. */
  ghost predicate IsResult(m: Method, rs: seq<Response>, minResponses: int, r: Resolution) {
    match m
    case DefaultCall => IsPluralityResult(rs, minResponses, r)
    case GasCall => IsGasResult(rs, minResponses, r)
    case BlockCall(behind) => IsBlockResult(rs, minResponses, behind, r)
  }

  /** The number that a stored result holds. */
  function StoredNumber(v: Value): Option<int> {
    AsNumber(Answer(Ptr(0, v)))
  }

  method Resolve(m: Method, rs: seq<Response>, minResponses: int, ghost h: Heap) returns (r: Resolver.Resolution)
    requires Decodes(rs, h)
    ensures r == Resolution(m, rs, minResponses) && IsResult(m, rs, minResponses, r)
    ensures r.Ok? ==> r.resp.Error? || r.resp.v.Ptr?
  {
    match m {
      case DefaultCall =>
        r := ResolveDefault(rs, minResponses, h);
        PluralityIsResponse(rs, minResponses);
      case GasCall =>
        NumbersBound(rs);
        r := ResolveGas(rs, minResponses);
      case BlockCall(behind) =>
        r := ResolveBlockNumber(rs, minResponses, behind);
    }
  }

  lemma VerdictIsResult(m: Method, arrivals: seq<Response>, timer: nat, minResponses: int)
    ensures IsResult(m, arrivals[..Awaited(m, arrivals, timer, minResponses)], minResponses,
                     Verdict(m, arrivals, timer, minResponses))
  {
    var rs := arrivals[..Awaited(m, arrivals, timer, minResponses)];
    assert arrivals[..|arrivals|] == arrivals;
    match m {
      case DefaultCall => PluralityIsResult(rs, minResponses);
      case GasCall => GasIsResult(rs, minResponses);
      case BlockCall(behind) => BlockIsResult(rs, minResponses, behind);
    }
  }

  /** What the verdict's value says once it is stored. */
  lemma VerdictNumber(m: Method, arrivals: seq<Response>, timer: nat, minResponses: int)
    ensures var received, verdict := Awaited(m, arrivals, timer, minResponses), Verdict(m, arrivals, timer, minResponses);
            var ns := Numbers(arrivals[..received]);
            && (m.BlockCall? && |ns| >= minResponses && ns != [] ==>
                  && verdict.Ok? && verdict.resp.Answer? && verdict.resp.v.Ptr?
                  && StoredNumber(verdict.resp.v.elem).Some?
                  && IsChoice(ns, m.maxBlocksBehind, StoredNumber(verdict.resp.v.elem).value))
            && (m.GasCall? && |ns| >= minResponses && |ns| >= 2 ==>
                  && verdict.Ok? && verdict.resp.Answer? && verdict.resp.v.Ptr?
                  && StoredNumber(verdict.resp.v.elem).Some?
                  && IsGas(ns, StoredNumber(verdict.resp.v.elem).value))
            && (!m.DefaultCall? && |Numbers(arrivals)| < minResponses ==> received == |arrivals| && verdict.NotEnough?)
  {
    VerdictIsResult(m, arrivals, timer, minResponses);
    assert arrivals[..|arrivals|] == arrivals;
    if timer < |arrivals| {
      FewerNumbers(arrivals, timer);
    }
  }

  lemma FewerNumbers(rs: seq<Response>, k: nat)
    requires k <= |rs|
    ensures |Numbers(rs[..k])| <= |Numbers(rs)|
  {
    NumbersSplit(rs, k);
  }

  lemma PluralityIsResponse(rs: seq<Response>, minResponses: int)
    ensures Plurality(rs, minResponses).Ok? ==> Plurality(rs, minResponses).resp in rs
  {
  }

  /**
   `arrivals` lists the callers' responses in order of arrival, and the timer fires once `timer` of them
   have been received (never, if the call ends before). An error that is resolved to cannot be stored in
   the result: that panics, and the recovered call returns no error.
   */
  method Call(m: Method, arrivals: seq<Response>, timer: nat, minResponses: int, result: Result, ghost h: Heap)
      returns (out: Outcome, received: nat)
    requires Decodes(arrivals, h)
    modifies result
    ensures received == Awaited(m, arrivals, timer, minResponses)
    ensures var verdict := Verdict(m, arrivals, timer, minResponses);
            match verdict
            case Ok(Answer(v)) => out == Outcome.Nil && v.Ptr? && result.value == v.elem
            case Ok(Error(_)) => out == Outcome.Nil && result.value == old(result.value)
            case Panic => out == Outcome.Nil && result.value == old(result.value)
            case _ => out == Failed(verdict) && result.value == old(result.value)
    ensures IsResult(m, arrivals[..received], minResponses, Verdict(m, arrivals, timer, minResponses))
    ensures var ns := Numbers(arrivals[..received]);
            && (m.BlockCall? && |ns| >= minResponses && ns != [] ==>
                  && out == Outcome.Nil && StoredNumber(result.value).Some?
                  && IsChoice(ns, m.maxBlocksBehind, StoredNumber(result.value).value))
            && (m.GasCall? && |ns| >= minResponses && |ns| >= 2 ==>
                  && out == Outcome.Nil && StoredNumber(result.value).Some?
                  && IsGas(ns, StoredNumber(result.value).value))
    ensures !m.DefaultCall? && |Numbers(arrivals)| < minResponses ==>
              received == |arrivals| && out == Failed(NotEnough) && result.value == old(result.value)
    ensures forall n: Normal | m.DefaultCall? && Decides(arrivals, minResponses, n) ::
              out == Outcome.Nil && Erase(result.value) == n
  {
    forall n: Normal | m.DefaultCall? && Decides(arrivals, minResponses, n)
      ensures Elects(Verdict(m, arrivals, timer, minResponses), n)
    {
      MajorityDecides(arrivals, timer, minResponses, n);
    }
    VerdictIsResult(m, arrivals, timer, minResponses);
    VerdictNumber(m, arrivals, timer, minResponses);
    var callers := |arrivals|;
    var rs, fired := [], false;
    while true
      invariant |rs| <= callers && rs == arrivals[..|rs|]
      invariant callers > 0 ==> |rs| < callers
      invariant if fired then timer <= |rs| else |rs| <= timer
      invariant fired ==> !EndsEarly(m, arrivals, timer, minResponses)
      invariant callers == 0 ==> !fired
      invariant result.value == old(result.value)
      decreases callers - |rs| + (if fired then 0 else 1)
    {
      var wait := true;
      if !fired && (|rs| == timer || |rs| == callers) {
        wait, fired := false, true;
      } else {
        rs := rs + [arrivals[|rs|]];
      }
      if |rs| == callers {
        wait := false;
      }
      if !wait {
        assert |rs| == callers ==> rs == arrivals;
        var res := Resolve(m, rs, minResponses, h);
        match res {
          case Ok(Answer(v)) =>
            result.value := v.elem;
            return Outcome.Nil, |rs|;
          case Ok(Error(_)) =>
            return Outcome.Nil, |rs|;
          case Panic =>
            return Outcome.Nil, |rs|;
          case _ =>
            if |rs| >= callers {
              return Failed(res), |rs|;
            }
        }
      }
    }
  }

  // ---------------------------------------------------------------------------
  // When an early answer is the final answer
  // ---------------------------------------------------------------------------

  lemma TallyConcat(rs: seq<Response>, ss: seq<Response>, n: Normal)
    ensures Tally(rs + ss, n) == Tally(rs, n) + Tally(ss, n)
  {
    assert Ballots(rs + ss) == Ballots(rs) + Ballots(ss);
  }

  lemma TallyPrefix(rs: seq<Response>, k: nat, n: Normal)
    requires k <= |rs|
    ensures Tally(rs[..k], n) <= Tally(rs, n)
  {
    TallyConcat(rs[..k], rs[k..], n);
    assert rs[..k] + rs[k..] == rs;
  }

  lemma TwoTallies(rs: seq<Response>, n: Normal, o: Normal)
    requires n != o
    ensures Tally(rs, n) + Tally(rs, o) <= |rs|
  {
    var b := multiset(Ballots(rs));
    var pair := multiset{}[Some(n) := b[Some(n)]][Some(o) := b[Some(o)]];
    assert pair <= b;
    assert |b| == |pair| + |b - pair|;
  }

  /** When the quorum exceeds half of the callers, neither the timer nor the order of arrival matters. */
  lemma EarlyIsFinal(rs: seq<Response>, timer: nat, minResponses: int)
    requires minResponses >= 1 && 2 * minResponses > |rs|
    ensures Equivalent(Verdict(DefaultCall, rs, timer, minResponses), Plurality(rs, minResponses))
  {
    var early := rs[..if timer < |rs| then timer else |rs|];
    if timer < |rs| && Plurality(early, minResponses).Ok? {
      PluralityExactly(early, minResponses);
      var n := Erase(Plurality(early, minResponses).resp.v);
      TallyPrefix(rs, timer, n);
      forall o: Normal | o != n
        ensures Tally(rs, o) < Tally(rs, n)
      {
        TwoTallies(rs, n, o);
      }
      assert Wins(rs, n, minResponses);
      PluralityExactly(rs, minResponses);
      WinnerUnique(rs, minResponses, n, Erase(Plurality(rs, minResponses).resp.v));
    }
  }

  /** The quorum exceeds half of the callers, and at least a quorum of them answers with the normal form `n`. */
  ghost predicate Decides(rs: seq<Response>, minResponses: int, n: Normal) {
    minResponses >= 1 && 2 * minResponses > |rs| && Tally(rs, n) >= minResponses
  }

  ghost predicate Elects(r: Resolution, n: Normal) {
    r.Ok? && Ballot(r.resp) == Some(n)
  }

  /** Such an answer is the verdict, whatever the others send and whenever the timer fires. */
  lemma MajorityDecides(rs: seq<Response>, timer: nat, minResponses: int, n: Normal)
    requires Decides(rs, minResponses, n)
    ensures Elects(Verdict(DefaultCall, rs, timer, minResponses), n)
  {
    EarlyIsFinal(rs, timer, minResponses);
    assert Tally(rs, n) <= |multiset(Ballots(rs))|;
    if |rs| == 1 {
      TallyCons(rs, n);
      TallyCons(rs[1..], n);
    } else {
      forall o: Normal | o != n ensures Tally(rs, o) < Tally(rs, n) { TwoTallies(rs, n, o); }
      assert Wins(rs, n, minResponses);
      PluralityExactly(rs, minResponses);
      WinnerUnique(rs, minResponses, n, Erase(Plurality(rs, minResponses).resp.v));
    }
  }

  /** When even the last response may be needed for the quorum, there is no early answer. */
  lemma NothingEarly(m: Method, rs: seq<Response>, timer: nat, minResponses: int)
    requires minResponses >= 1 && minResponses >= |rs|
    ensures Verdict(m, rs, timer, minResponses) == Resolution(m, rs, minResponses)
  {
    if timer < |rs| {
      NumbersBound(rs[..timer]);
    }
  }

  /** The exact condition on the quorum: more than half for the plurality, every caller for the other two. */
  predicate Guards(m: Method, callers: nat, minResponses: int) {
    if m.DefaultCall? then 2 * minResponses > callers else minResponses >= callers
  }

  ghost predicate EarlyAlwaysFinal(m: Method, callers: nat, minResponses: int) {
    forall rs: seq<Response>, timer: nat, h: Heap | |rs| == callers && Decodes(rs, h) ::
      Equivalent(Verdict(m, rs, timer, minResponses), Resolution(m, rs, minResponses))
  }

  lemma GuardedIsFinal(m: Method, rs: seq<Response>, timer: nat, minResponses: int)
    requires minResponses >= 1 && Guards(m, |rs|, minResponses)
    ensures Equivalent(Verdict(m, rs, timer, minResponses), Resolution(m, rs, minResponses))
  {
    if m.DefaultCall? {
      EarlyIsFinal(rs, timer, minResponses);
    } else {
      NothingEarly(m, rs, timer, minResponses);
    }
  }

  /** An early answer is always the final one exactly when the quorum guards it; otherwise some responses show the contrary. */
  lemma EarlyFinalExactly(m: Method, callers: nat, minResponses: int)
    requires minResponses >= 1
    ensures EarlyAlwaysFinal(m, callers, minResponses) <==> Guards(m, callers, minResponses)
  {
    if Guards(m, callers, minResponses) {
      forall rs: seq<Response>, timer: nat, h: Heap | |rs| == callers && Decodes(rs, h)
        ensures Equivalent(Verdict(m, rs, timer, minResponses), Resolution(m, rs, minResponses))
      {
        GuardedIsFinal(m, rs, timer, minResponses);
      }
    } else {
      var rs, h := Divided(m, minResponses, callers);
      assert !Equivalent(Verdict(m, rs, minResponses, minResponses), Resolution(m, rs, minResponses));
    }
  }

  /** Responses whose early answer, once a quorum is received, is not their final one. */
  lemma Divided(m: Method, minResponses: nat, callers: nat) returns (rs: seq<Response>, h: Heap)
    requires minResponses >= 1 && !Guards(m, callers, minResponses)
    ensures |rs| == callers && Decodes(rs, h)
    ensures !Equivalent(Verdict(m, rs, minResponses, minResponses), Resolution(m, rs, minResponses))
  {
    match m {
      case DefaultCall =>
        rs, h := SplitVote(minResponses, callers);
      case GasCall =>
        rs, h := SplitGas(minResponses, callers);
      case BlockCall(behind) =>
        rs, h := SplitBlocks(minResponses, callers, behind);
    }
  }

  // ---------------------------------------------------------------------------
  // Orders of arrival
  // ---------------------------------------------------------------------------

  /** For the plurality, it is enough that the votes are the same. */
  lemma CallIsOrderFree(rs: seq<Response>, ss: seq<Response>, timer: nat, other: nat, minResponses: int)
    requires minResponses >= 1 && 2 * minResponses > |rs|
    requires multiset(Ballots(rs)) == multiset(Ballots(ss))
    ensures Equivalent(Verdict(DefaultCall, rs, timer, minResponses), Verdict(DefaultCall, ss, other, minResponses))
  {
    assert |multiset(Ballots(rs))| == |rs| && |multiset(Ballots(ss))| == |ss|;
    EarlyIsFinal(rs, timer, minResponses);
    EarlyIsFinal(ss, other, minResponses);
    if |rs| >= 2 {
      PluralityOrderFree(rs, ss, minResponses);
    } else if |rs| == 1 {
      assert Ballots(rs)[0] in multiset(Ballots(ss));
    }
  }

  lemma ResolutionOrderFree(m: Method, rs: seq<Response>, ss: seq<Response>, minResponses: int)
    requires !m.DefaultCall? && minResponses >= 1 && minResponses >= |rs| && multiset(rs) == multiset(ss)
    ensures Resolution(m, rs, minResponses) == Resolution(m, ss, minResponses)
  {
    Reordered(rs, ss);
    var ns, ms := Numbers(rs), Numbers(ss);
    assert |multiset(ns)| == |ns| && |multiset(ms)| == |ms|;
    NumbersBound(rs);
    if |ns| >= minResponses {
      if |rs| == 1 {
        assert rs[0] in multiset(ss);
      } else {
        if m.GasCall? {
          GasOrderFree(ns, ms);
        } else {
          BlockOrderFree(ns, ms, m.maxBlocksBehind);
        }
      }
    }
  }

  ghost predicate OrderNeverMatters(m: Method, callers: nat, minResponses: int) {
    forall rs: seq<Response>, ss: seq<Response>, timer: nat, other: nat, h: Heap
      | |rs| == callers && Decodes(rs, h) && multiset(rs) == multiset(ss) ::
      Equivalent(Verdict(m, rs, timer, minResponses), Verdict(m, ss, other, minResponses))
  }

  lemma GuardedIsOrderFree(m: Method, rs: seq<Response>, ss: seq<Response>, timer: nat, other: nat, minResponses: int)
    requires minResponses >= 1 && Guards(m, |rs|, minResponses) && multiset(rs) == multiset(ss)
    ensures Equivalent(Verdict(m, rs, timer, minResponses), Verdict(m, ss, other, minResponses))
  {
    Reordered(rs, ss);
    if m.DefaultCall? {
      CallIsOrderFree(rs, ss, timer, other, minResponses);
    } else {
      NothingEarly(m, rs, timer, minResponses);
      NothingEarly(m, ss, other, minResponses);
      ResolutionOrderFree(m, rs, ss, minResponses);
    }
  }

  /** Neither the order of arrival nor the timer matters for any responses exactly under the same condition. */
  lemma OrderFreeExactly(m: Method, callers: nat, minResponses: int)
    requires minResponses >= 1
    ensures OrderNeverMatters(m, callers, minResponses) <==> Guards(m, callers, minResponses)
  {
    if Guards(m, callers, minResponses) {
      forall rs: seq<Response>, ss: seq<Response>, timer: nat, other: nat, h: Heap
        | |rs| == callers && Decodes(rs, h) && multiset(rs) == multiset(ss)
        ensures Equivalent(Verdict(m, rs, timer, minResponses), Verdict(m, ss, other, minResponses))
      {
        GuardedIsOrderFree(m, rs, ss, timer, other, minResponses);
      }
    } else {
      var rs, h := Divided(m, minResponses, callers);
      assert Verdict(m, rs, callers, minResponses) == Resolution(m, rs, minResponses);
      assert !Equivalent(Verdict(m, rs, minResponses, minResponses), Verdict(m, rs, callers, minResponses));
    }
  }

  // ---------------------------------------------------------------------------
  // Waiting after the timer
  // ---------------------------------------------------------------------------

  /** Once the timer has fired, the call does not let responses pass that would resolve. */
  ghost predicate Prompt(m: Method, arrivals: seq<Response>, timer: nat, minResponses: int) {
    forall k | timer <= k < Awaited(m, arrivals, timer, minResponses) :: !Resolution(m, arrivals[..k], minResponses).Ok?
  }

  ghost predicate AlwaysPrompt(m: Method, callers: nat, minResponses: int) {
    forall rs: seq<Response>, timer: nat, h: Heap | |rs| == callers && Decodes(rs, h) :: Prompt(m, rs, timer, minResponses)
  }

  /** Equal numbers from all callers, with a timer that fires at once: a quorum would do, but the call waits for all. */
  lemma LateCall(m: Method, callers: nat, minResponses: nat) returns (h: Heap)
    requires 1 <= minResponses < callers
    ensures var rs := TwoNumbers(callers, callers, 0, 0);
            && Decodes(rs, h) && Awaited(m, rs, 0, minResponses) == callers
            && Resolution(m, rs[..minResponses], minResponses).Ok? && !Prompt(m, rs, 0, minResponses)
  {
    var rs, quorum := TwoNumbers(callers, callers, 0, 0), TwoNumbers(callers, minResponses, 0, 0);
    h := TwoNumbersDecode(callers, callers, 0, 0);
    assert rs[..0] == [] && rs[..minResponses] == quorum;
    NumbersOfTwo(callers, minResponses, 0, 0);
    assert quorum == Copies(Num(0), minResponses);
    UnanimousWins(Num(0), minResponses);
  }

  /** The call never waits longer than needed exactly when a quorum takes every caller. */
  lemma PromptExactly(m: Method, callers: nat, minResponses: int)
    requires minResponses >= 1
    ensures AlwaysPrompt(m, callers, minResponses) <==> minResponses >= callers
  {
    if minResponses >= callers {
      forall rs: seq<Response>, timer: nat, h: Heap | |rs| == callers && Decodes(rs, h)
        ensures Prompt(m, rs, timer, minResponses)
      {
        forall k | timer <= k < Awaited(m, rs, timer, minResponses)
          ensures !Resolution(m, rs[..k], minResponses).Ok?
        {
          NumbersBound(rs[..k]);
        }
      }
    } else {
      var h := LateCall(m, callers, minResponses);
    }
  }

  // ---------------------------------------------------------------------------
  // Robustness of gas values
  // ---------------------------------------------------------------------------

  /** How many of the numbers lie outside the interval. */
  function Outside(ns: seq<int>, lo: int, hi: int): int {
    |ns| - CountIn(ns, lo, hi)
  }

  lemma OutsidePrefix(rs: seq<Response>, k: nat, lo: int, hi: int)
    requires k <= |rs|
    ensures Outside(Numbers(rs[..k]), lo, hi) <= Outside(Numbers(rs), lo, hi)
  {
    NumbersSplit(rs, k);
    CountConcat(Numbers(rs[..k]), Numbers(rs[k..]), lo, hi);
    CountAtMost(Numbers(rs[k..]), lo, hi);
  }

  /** If fewer than half of a quorum's number of callers send outliers, every gas value a call returns is in the interval. */
  lemma GasCallRobust(arrivals: seq<Response>, timer: nat, minResponses: int, lo: int, hi: int)
    requires minResponses >= 2 && 2 * Outside(Numbers(arrivals), lo, hi) < minResponses
    ensures var verdict := Verdict(GasCall, arrivals, timer, minResponses);
            verdict.Ok? ==> AsNumber(verdict.resp).Some? && lo <= AsNumber(verdict.resp).value <= hi
  {
    var k := Awaited(GasCall, arrivals, timer, minResponses);
    assert arrivals[..|arrivals|] == arrivals;
    var ns := Numbers(arrivals[..k]);
    OutsidePrefix(arrivals, k, lo, hi);
    if |ns| >= minResponses {
      GasRobust(ns, lo, hi);
    }
  }

  // ---------------------------------------------------------------------------
  // Calls that store nothing and report no error
  // ---------------------------------------------------------------------------

  /** The call resolves to an error response or panics: it returns no error, and the result is left as it was. */
  ghost predicate Silent(m: Method, arrivals: seq<Response>, timer: nat, minResponses: int) {
    var verdict := Verdict(m, arrivals, timer, minResponses);
    verdict.Panic? || (verdict.Ok? && verdict.resp.Error?)
  }

  /** For a quorum of one: the responses received when the first number has been seen, at the timer or at the end. */
  function Ending(arrivals: seq<Response>, timer: nat): seq<Response> {
    if timer < |arrivals| && Numbers(arrivals[..timer]) != [] then arrivals[..timer] else arrivals
  }

  /** With a positive quorum this happens exactly when the quorum is one and an error that came first is resolved to. */
  lemma SilentExactly(m: Method, arrivals: seq<Response>, timer: nat, minResponses: int)
    requires minResponses >= 1
    ensures Silent(m, arrivals, timer, minResponses) <==>
            && minResponses == 1 && arrivals != [] && arrivals[0].Error?
            && match m
               case DefaultCall => timer == 1 || |arrivals| == 1
               case GasCall => |Numbers(Ending(arrivals, timer))| == 1
               case BlockCall(_) => false
  {
    match m {
      case DefaultCall =>
        SilentPlurality(arrivals, minResponses);
        if timer < |arrivals| {
          SilentPlurality(arrivals[..timer], minResponses);
        }
      case GasCall =>
        SilentGas(arrivals, minResponses);
        if timer < |arrivals| {
          SilentGas(arrivals[..timer], minResponses);
        }
      case BlockCall(_) =>
    }
  }

  lemma SilentPlurality(rs: seq<Response>, minResponses: int)
    requires minResponses >= 1
    ensures !Plurality(rs, minResponses).Panic?
    ensures Plurality(rs, minResponses).Ok? && Plurality(rs, minResponses).resp.Error? <==>
            minResponses == 1 && |rs| == 1 && rs[0].Error?
  {
    if |rs| >= 2 {
      PluralityExactly(rs, minResponses);
    }
  }

  lemma SilentGas(rs: seq<Response>, minResponses: int)
    requires minResponses >= 1
    ensures var r := GasResolution(rs, minResponses);
            && !r.Panic? && (r.Ok? <==> |Numbers(rs)| >= minResponses)
            && (r.Ok? && r.resp.Error? <==> minResponses == 1 && |Numbers(rs)| == 1 && rs != [] && rs[0].Error?)
  {
    NumbersBound(rs);
  }

  /** For example, with two callers, an error and then an answer: at the timer, or for a gas value whenever it fires later. */
  lemma SilentCalls(code: nat, x: Response, n: int, timer: nat)
    requires timer >= 1
    ensures Silent(DefaultCall, [Error(code), x], 1, 1)
    ensures Silent(GasCall, [Error(code), NumberAnswer(n)], timer, 1)
  {
    SilentExactly(DefaultCall, [Error(code), x], 1, 1);
    GasSingleFails(code, n);
    var rs := [Error(code), NumberAnswer(n)];
    if timer == 1 {
      assert rs[..1] == [Error(code)] && [Error(code)][..0] == [];
      assert Numbers(rs[..1]) == [];
    }
    SilentExactly(GasCall, rs, timer, 1);
  }

  // ---------------------------------------------------------------------------
  // Divided responses
  // ---------------------------------------------------------------------------

  /** A number decoded to an address of its own. */
  function Num(n: nat): Response {
    Answer(Ptr(n, Struct(NUMBER, [Int(BIG_INT, n)])))
  }

  lemma NumBallot(n: nat, m: int)
    ensures AsNumber(Num(n)) == Some(n) && AsNumber(NumberAnswer(m)) == Some(m)
    ensures Ballot(Num(n)) == Ballot(NumberAnswer(m)) <==> n == m
  {
    var a, b := Int(BIG_INT, n), Int(BIG_INT, m);
    assert Erase(a) != Erase(b) <==> n != m;
    assert Erase(Struct(NUMBER, [a])).items == [Erase(a)];
    assert Erase(Struct(NUMBER, [b])).items == [Erase(b)];
  }

  /** `k` responses with the number `x`, then `y` up to `n` responses. */
  function TwoNumbers(k: nat, n: nat, x: nat, y: nat): seq<Response> {
    seq(n, i => if i < k then Num(x) else Num(y))
  }

  lemma TwoNumbersDecode(k: nat, n: nat, x: nat, y: nat) returns (h: Heap)
    ensures Decodes(TwoNumbers(k, n, x, y), h)
  {
    h := Heap(map[x := Num(x).v.elem, y := Num(y).v.elem], map[], map[]);
    assert Lives(Num(x).v, h) && Plain(Num(x).v) && Lives(Num(y).v, h) && Plain(Num(y).v);
  }

  lemma {:induction false} NumbersOfTwo(k: nat, n: nat, x: nat, y: nat)
    ensures Numbers(TwoNumbers(k, n, x, y)) == TwoValues(k, n, x, y)
  {
    if n > 0 {
      NumbersOfTwo(k, n - 1, x, y);
      NumBallot(x, x);
      NumBallot(y, y);
      assert TwoNumbers(k, n, x, y)[..n - 1] == TwoNumbers(k, n - 1, x, y);
      assert TwoValues(k, n, x, y) == TwoValues(k, n - 1, x, y) + [if n - 1 < k then x else y];
    }
  }

  lemma Early(m: Method, k: nat, n: nat, x: nat, y: nat, minResponses: nat)
    requires 1 <= minResponses < n && !m.DefaultCall?
    ensures var rs := TwoNumbers(k, n, x, y);
            && Verdict(m, rs, minResponses, minResponses) == Resolution(m, TwoNumbers(k, minResponses, x, y), minResponses)
            && Numbers(rs) == TwoValues(k, n, x, y)
            && Numbers(TwoNumbers(k, minResponses, x, y)) == TwoValues(k, minResponses, x, y)
  {
    NumbersOfTwo(k, n, x, y);
    NumbersOfTwo(k, minResponses, x, y);
    assert TwoNumbers(k, n, x, y)[..minResponses] == TwoNumbers(k, minResponses, x, y);
  }

  /** Two resolutions to different numbers. */
  lemma DifferentNumbers(a: Resolution, b: Resolution, n: int, m: int)
    requires a.Ok? && b.Ok? && n != m && 0 <= n && 0 <= m
    requires a.resp == NumberAnswer(n) || a.resp == Num(n)
    requires b.resp == NumberAnswer(m) || b.resp == Num(m)
    ensures !Equivalent(a, b)
  {
    NumBallot(n, n);
    NumBallot(m, m);
    NumBallot(n, m);
  }

  /** An odd number of values has more of the first half, until the others make up for it. */
  lemma OddSplit(k: nat, n: nat)
    requires k >= 1 && n >= 2 * k
    ensures k > 1 ==> GasValue(TwoValues(k, 2 * k - 1, 2, 0)) == 2
    ensures 0 <= GasValue(TwoValues(k, n, 2, 0)) <= 1
  {
    CountTwoValues(k, n, 2, 0, 0, 0);
    CountTwoValues(k, n, 2, 0, 0, 2);
    GasHalfBelow(TwoValues(k, n, 2, 0));
    GasRobust(TwoValues(k, n, 2, 0), 0, 2);
    if k > 1 {
      CountTwoValues(k, 2 * k - 1, 2, 0, 2, 2);
      GasRobust(TwoValues(k, 2 * k - 1, 2, 0), 2, 2);
    }
  }

  /** An even number of values is balanced, until the others outweigh the first half. */
  lemma EvenSplit(k: nat, n: nat)
    requires k >= 1 && n > 2 * k
    ensures 0 <= GasValue(TwoValues(k, 2 * k, 0, 2)) <= 1
    ensures GasValue(TwoValues(k, n, 0, 2)) == 2
  {
    CountTwoValues(k, 2 * k, 0, 2, 0, 0);
    CountTwoValues(k, 2 * k, 0, 2, 0, 2);
    GasHalfBelow(TwoValues(k, 2 * k, 0, 2));
    GasRobust(TwoValues(k, 2 * k, 0, 2), 0, 2);
    CountTwoValues(k, n, 0, 2, 2, 2);
    GasRobust(TwoValues(k, n, 0, 2), 2, 2);
  }

  lemma GasOf(rs: seq<Response>, min: nat, first: nat, value: nat)
    requires 1 <= min <= |Numbers(rs)| && rs != []
    requires if |Numbers(rs)| == 1 then rs[0] == Num(first) && value == first else GasValue(Numbers(rs)) == value
    ensures var r := GasResolution(rs, min);
            r.Ok? && (r.resp == NumberAnswer(value) || r.resp == Num(value))
  {
  }

  lemma SplitOdd(k: nat, n: nat)
    requires k >= 1 && n >= 2 * k
    ensures var rs, min := TwoNumbers(k, n, 2, 0), 2 * k - 1;
            !Equivalent(Verdict(GasCall, rs, min, min), GasResolution(rs, min))
  {
    var min := 2 * k - 1;
    var rs, early := TwoNumbers(k, n, 2, 0), TwoNumbers(k, min, 2, 0);
    Early(GasCall, k, n, 2, 0, min);
    OddSplit(k, n);
    GasOf(early, min, 2, 2);
    GasOf(rs, min, 2, GasValue(Numbers(rs)));
    DifferentNumbers(GasResolution(early, min), GasResolution(rs, min), 2, GasValue(Numbers(rs)));
  }

  lemma SplitEven(k: nat, n: nat)
    requires k >= 1 && n > 2 * k
    ensures var rs, min := TwoNumbers(k, n, 0, 2), 2 * k;
            !Equivalent(Verdict(GasCall, rs, min, min), GasResolution(rs, min))
  {
    var min := 2 * k;
    var rs, early := TwoNumbers(k, n, 0, 2), TwoNumbers(k, min, 0, 2);
    Early(GasCall, k, n, 0, 2, min);
    EvenSplit(k, n);
    GasOf(early, min, 0, GasValue(Numbers(early)));
    GasOf(rs, min, 0, 2);
    DifferentNumbers(GasResolution(early, min), GasResolution(rs, min), GasValue(Numbers(early)), 2);
  }

  /** Gas values: half of the first `min` numbers, rounded up, differ from all the others. */
  lemma SplitGas(min: nat, n: nat) returns (rs: seq<Response>, h: Heap)
    requires 1 <= min < n
    ensures |rs| == n && Decodes(rs, h)
    ensures !Equivalent(Verdict(GasCall, rs, min, min), GasResolution(rs, min))
  {
    var k := (min + 1) / 2;
    if min % 2 == 1 {
      rs := TwoNumbers(k, n, 2, 0);
      h := TwoNumbersDecode(k, n, 2, 0);
      SplitOdd(k, n);
    } else {
      rs := TwoNumbers(k, n, 0, 2);
      h := TwoNumbersDecode(k, n, 0, 2);
      SplitEven(k, n);
    }
  }

  lemma TwoLevels(min: nat, n: nat, y: nat, behind: int)
    requires 1 <= min < n && y > 0 && y > behind
    ensures var early, all := TwoValues(min, min, 0, y), TwoValues(min, n, 0, y);
            LowestWithin(early, Highest(early), behind) == 0 && LowestWithin(all, Highest(all), behind) == y
  {
    var early, all := TwoValues(min, min, 0, y), TwoValues(min, n, 0, y);
    BlockExactly(early, behind, LowestWithin(early, Highest(early), behind));
    assert all[0] == 0 && all[n - 1] == y;
    assert !Near(all, behind, 0) by { assert y in all; }
    BlockExactly(all, behind, y);
  }

  /** Block numbers: a quorum of zeros, then numbers too high for them. */
  lemma SplitBlocks(min: nat, n: nat, behind: int) returns (rs: seq<Response>, h: Heap)
    requires 1 <= min < n
    ensures |rs| == n && Decodes(rs, h)
    ensures !Equivalent(Verdict(BlockCall(behind), rs, min, min), BlockResolution(rs, min, behind))
  {
    var y := if behind < 0 then 1 else behind + 1;
    rs := TwoNumbers(min, n, 0, y);
    h := TwoNumbersDecode(min, n, 0, y);
    Early(BlockCall(behind), min, n, 0, y, min);
    TwoLevels(min, n, y, behind);
    DifferentNumbers(Verdict(BlockCall(behind), rs, min, min), BlockResolution(rs, min, behind), 0, y);
  }

  function Copies(r: Response, k: nat): seq<Response> {
    seq(k, _ => r)
  }

  /** The first `m` responders agree, all the others agree on something else. */
  lemma SplitVote(m: nat, n: nat) returns (rs: seq<Response>, h: Heap)
    requires m >= 1 && 2 * m <= n
    ensures |rs| == n && Decodes(rs, h)
    ensures !Equivalent(Verdict(DefaultCall, rs, m, m), Plurality(rs, m))
  {
    var x, y := Int(BIG_INT, 0), Int(BIG_INT, 1);
    var a, b := Answer(Ptr(0, x)), Answer(Ptr(1, y));
    h := Heap(map[0 := x, 1 := y], map[], map[]);
    assert Lives(a.v, h) && Plain(a.v) && Lives(b.v, h) && Plain(b.v);
    rs := Copies(a, m) + Copies(b, n - m);
    assert Erase(a.v) == Erase(x) && Erase(b.v) == Erase(y);
    SplitVoteDiffers(a, b, m, n);
  }

  lemma SplitVoteDiffers(a: Response, b: Response, m: nat, n: nat)
    requires m >= 1 && 2 * m <= n && a.Answer? && b.Answer? && Erase(a.v) != Erase(b.v)
    ensures var rs := Copies(a, m) + Copies(b, n - m);
            !Equivalent(Verdict(DefaultCall, rs, m, m), Plurality(rs, m))
  {
    var rs := Copies(a, m) + Copies(b, n - m);
    assert rs[..m] == Copies(a, m);
    UnanimousWins(a, m);
    SplitTallies(a, b, m, n);
    PluralityExactly(rs, m);
    if Plurality(rs, m).Ok? {
      assert !Wins(rs, Erase(a.v), m) by { assert Tally(rs, Erase(b.v)) >= Tally(rs, Erase(a.v)); }
    }
  }

  lemma SplitTallies(a: Response, b: Response, m: nat, n: nat)
    requires m <= n && a.Answer? && b.Answer? && Erase(a.v) != Erase(b.v)
    ensures var rs := Copies(a, m) + Copies(b, n - m);
            Tally(rs, Erase(a.v)) == m && Tally(rs, Erase(b.v)) == n - m
  {
    TallyConcat(Copies(a, m), Copies(b, n - m), Erase(a.v));
    TallyConcat(Copies(a, m), Copies(b, n - m), Erase(b.v));
    Unanimous(a, m, Erase(a.v));
    Unanimous(a, m, Erase(b.v));
    Unanimous(b, n - m, Erase(a.v));
    Unanimous(b, n - m, Erase(b.v));
  }

  lemma UnanimousWins(a: Response, m: nat)
    requires a.Answer? && m >= 1
    ensures var r := Plurality(Copies(a, m), m); r.Ok? && r.resp.Answer? && Erase(r.resp.v) == Erase(a.v)
  {
    var early := Copies(a, m);
    if m > 1 {
      forall o: Normal ensures Tally(early, o) == if o == Erase(a.v) then m else 0 { Unanimous(a, m, o); }
      assert Wins(early, Erase(a.v), m);
      PluralityExactly(early, m);
      WinnerUnique(early, m, Erase(a.v), Erase(Plurality(early, m).resp.v));
    }
  }

  lemma {:induction false} Unanimous(r: Response, k: nat, n: Normal)
    requires r.Answer?
    ensures Tally(Copies(r, k), n) == if n == Erase(r.v) then k else 0
  {
    var rs := Copies(r, k);
    if k > 0 {
      Unanimous(r, k - 1, n);
      assert rs[1..] == Copies(r, k - 1);
      TallyCons(rs, n);
    }
  }
}
