/**
 Admission of requests in the WebAPI transport (pkg/transport/webapi/webapi.go).
 Handlers are atomic; times are integers of nanoseconds. Authors are recovered from valid signatures.
 */
module WebApi {
  type Author = nat

  /** The zero time, which an author without an earlier request has. */
  const ZERO_TIME := -62_135_596_800 * SECOND
  const SECOND := 1_000_000_000

  datatype Config = Config(allowlist: set<Author>, flush: int, skew: int) {
    /** The least distance between the timestamps of two admitted requests. */
    function Gap(): int {
      flush - skew
    }
  }

  /** A signed request, with its timestamp in whole seconds, and the time of its arrival. */
  datatype Request = Request(author: Author, unix: int, now: int) {
    function Timestamp(): int {
      unix * SECOND
    }
  }

  datatype Answer = NotAllowed | TooFarAhead | TooOld | TooSoon | Admitted

  function LastOf(lastReqs: map<Author, int>, a: Author): int {
    if a in lastReqs then lastReqs[a] else ZERO_TIME
  }

  function Check(c: Config, lastReqs: map<Author, int>, r: Request): Answer {
    if r.author !in c.allowlist then NotAllowed
    else if r.Timestamp() > r.now + c.skew then TooFarAhead
    else if r.Timestamp() < r.now - c.flush - c.skew then TooOld
    else if r.Timestamp() < LastOf(lastReqs, r.author) + c.Gap() then TooSoon
    else Admitted
  }

  function Noted(c: Config, lastReqs: map<Author, int>, r: Request): map<Author, int> {
    if Check(c, lastReqs, r).Admitted? then lastReqs[r.author := r.Timestamp()] else lastReqs
  }

  class WebAPI {
    const config: Config
    var lastReqs: map<Author, int>
    ghost var requests: seq<Request>

    /** What is noted is what the requests so far make of it. */
    ghost predicate Valid()
      reads this
    {
      lastReqs == LastReqs(config, requests)
    }

    constructor (c: Config)
      ensures Valid() && config == c && requests == []
    {
      config, lastReqs, requests := c, map[], [];
    }

    /**
     A request gets through exactly when its author is allowed, its timestamp is in the window, and it keeps the gap to
     the last request of its author that got through; each refusal gives its first reason.
     */
    method ConsumeHandler(r: Request) returns (answer: Answer)
      requires Valid()
      modifies this
      ensures Valid() && requests == old(requests) + [r]
      ensures answer.NotAllowed? <==> r.author !in config.allowlist
      ensures answer.TooFarAhead? || answer.TooOld? <==> r.author in config.allowlist && !InWindow(config, r)
      ensures answer.TooFarAhead? ==> r.Timestamp() > r.now + config.skew
      ensures answer.TooOld? ==> r.Timestamp() <= r.now + config.skew
      ensures answer.TooSoon? <==> r.author in config.allowlist && InWindow(config, r) && !KeepsGap(config, old(requests), r)
      ensures answer.Admitted? <==> r.author in config.allowlist && InWindow(config, r) && KeepsGap(config, old(requests), r)
      ensures forall a :: AdmittedOf(config, requests, a) ==
                          AdmittedOf(config, old(requests), a) + if answer.Admitted? && a == r.author then [r] else []
    {
      AdmittedAreSpaced(config, requests, r.author);
      requests := requests + [r];
      assert requests[..|requests| - 1] == old(requests);
      if r.author !in config.allowlist {
        return NotAllowed;
      }
      if r.Timestamp() > r.now + config.skew {
        return TooFarAhead;
      }
      if r.Timestamp() < r.now - config.flush - config.skew {
        return TooOld;
      }
      var last := if r.author in lastReqs then lastReqs[r.author] else ZERO_TIME;
      if r.Timestamp() < last + (config.flush - config.skew) {
        return TooSoon;
      }
      lastReqs := lastReqs[r.author := r.Timestamp()];
      return Admitted;
    }
  }

  predicate InWindow(c: Config, r: Request) {
    r.now - c.flush - c.skew <= r.Timestamp() <= r.now + c.skew
  }

  /** The timestamp keeps the gap to the author's last admitted request. */
  ghost predicate KeepsGap(c: Config, rs: seq<Request>, r: Request) {
    var admitted := AdmittedOf(c, rs, r.author);
    var last := if admitted == [] then ZERO_TIME else admitted[|admitted| - 1].Timestamp();
    r.Timestamp() - last >= c.Gap()
  }

  // ---------------------------------------------------------------------------
  // Admission over whole runs
  // ---------------------------------------------------------------------------

  ghost function LastReqs(c: Config, rs: seq<Request>): map<Author, int> {
    if rs == [] then map[] else Noted(c, LastReqs(c, rs[..|rs| - 1]), rs[|rs| - 1])
  }

  /** The admitted requests of an author, in order. */
  ghost function AdmittedOf(c: Config, rs: seq<Request>, a: Author): seq<Request> {
    if rs == [] then []
    else
      var init, r := rs[..|rs| - 1], rs[|rs| - 1];
      AdmittedOf(c, init, a) +
      if r.author == a && Check(c, LastReqs(c, init), r).Admitted? then [r] else []
  }

  ghost predicate InOrder(rs: seq<Request>) {
    forall i, j | 0 <= i < j < |rs| :: rs[i].now <= rs[j].now
  }

  ghost predicate Apart(rs: seq<Request>, gap: int) {
    forall i, j | 0 <= i < j < |rs| && j == i + 1 :: rs[j].Timestamp() - rs[i].Timestamp() >= gap
  }

  /** Consecutive timestamps keep the gap, each is in the window around its arrival, and the last one is noted. */
  ghost predicate Spaced(c: Config, lastReqs: map<Author, int>, a: Author, admitted: seq<Request>) {
    && Apart(admitted, c.Gap())
    && (forall i | 0 <= i < |admitted| :: InWindow(c, admitted[i]))
    && (if admitted == [] then a !in lastReqs
        else a in c.allowlist && a in lastReqs && lastReqs[a] == admitted[|admitted| - 1].Timestamp())
  }

  lemma SpacedStep(c: Config, lastReqs: map<Author, int>, a: Author, admitted: seq<Request>, r: Request)
    requires Spaced(c, lastReqs, a, admitted)
    ensures Spaced(c, Noted(c, lastReqs, r), a,
                   if r.author == a && Check(c, lastReqs, r).Admitted? then admitted + [r] else admitted)
  {
  }

  lemma {:induction false} AdmittedAreSpaced(c: Config, rs: seq<Request>, a: Author)
    ensures Spaced(c, LastReqs(c, rs), a, AdmittedOf(c, rs, a))
  {
    if rs != [] {
      var init := rs[..|rs| - 1];
      AdmittedAreSpaced(c, init, a);
      SpacedStep(c, LastReqs(c, init), a, AdmittedOf(c, init, a), rs[|rs| - 1]);
      assert AdmittedOf(c, init, a) + [] == AdmittedOf(c, init, a);
    }
  }

  lemma {:induction false} AdmittedInOrder(c: Config, rs: seq<Request>, a: Author)
    requires InOrder(rs)
    ensures InOrder(AdmittedOf(c, rs, a))
    ensures forall r | r in AdmittedOf(c, rs, a) :: r in rs
  {
    if rs != [] {
      var n := |rs| - 1;
      AdmittedInOrder(c, rs[..n], a);
      forall r | r in AdmittedOf(c, rs[..n], a) ensures r.now <= rs[n].now {
        var k :| 0 <= k < n && rs[..n][k] == r;
        assert rs[k].now <= rs[n].now;
      }
    }
  }

  lemma {:induction false} Stretch(c: Config, admitted: seq<Request>, i: nat, j: nat)
    requires i <= j < |admitted|
    requires Apart(admitted, c.Gap())
    ensures admitted[j].Timestamp() - admitted[i].Timestamp() >= (j - i) * c.Gap()
    decreases j - i
  {
    if i < j {
      Stretch(c, admitted, i, j - 1);
      assert (j - i) * c.Gap() == (j - 1 - i) * c.Gap() + c.Gap();
    }
  }

  lemma OneMore(n: int, q: int, gap: int)
    requires n >= q + 1 && gap > 0
    ensures n * gap >= q * gap + gap
  {
    assert (n - (q + 1)) * gap >= 0;
    assert (n - (q + 1)) * gap == n * gap - q * gap - gap;
  }

  lemma Quotient(n: nat, gap: int, range: int)
    requires gap > 0 && n * gap <= range
    ensures n <= range / gap
  {
    var q := range / gap;
    assert range < q * gap + gap;
    if n > q {
      OneMore(n, q, gap);
    }
  }

  /** How many of the requests arrive in a window of the clock. */
  function CountWithin(rs: seq<Request>, from: int, to: int): nat {
    if rs == [] then 0
    else CountWithin(rs[..|rs| - 1], from, to) + if from <= rs[|rs| - 1].now <= to then 1 else 0
  }

  /** The requests arriving in the window are neighbours: the last one's position bounds their number. */
  lemma {:induction false} CountIsStretch(rs: seq<Request>, from: int, to: int) returns (i: nat, j: nat)
    requires InOrder(rs) && CountWithin(rs, from, to) > 0
    ensures i <= j < |rs| && from <= rs[i].now && rs[j].now <= to
    ensures CountWithin(rs, from, to) == j - i + 1
    ensures forall k | 0 <= k < |rs| :: from <= rs[k].now <= to <==> i <= k <= j
  {
    var n := |rs| - 1;
    var last := rs[n];
    if from <= last.now <= to {
      if CountWithin(rs[..n], from, to) > 0 {
        i, j := CountIsStretch(rs[..n], from, to);
        assert from <= rs[i].now <= rs[n - 1].now <= last.now;
        assert j == n - 1;
        j := n;
      } else {
        i, j := n, n;
        NoneCounted(rs[..n], from, to);
      }
    } else {
      i, j := CountIsStretch(rs[..n], from, to);
      assert rs[i].now <= last.now;
    }
  }

  lemma {:induction false} NoneCounted(rs: seq<Request>, from: int, to: int)
    requires CountWithin(rs, from, to) == 0
    ensures forall k | 0 <= k < |rs| :: !(from <= rs[k].now <= to)
  {
    if rs != [] {
      NoneCounted(rs[..|rs| - 1], from, to);
    }
  }

  lemma WithinWindow(c: Config, lastReqs: map<Author, int>, a: Author, admitted: seq<Request>,
                     i: nat, j: nat, from: int, length: nat)
    requires c.Gap() > 0 && Spaced(c, lastReqs, a, admitted) && i <= j < |admitted|
    requires from <= admitted[i].now && admitted[j].now <= from + length
    ensures j - i <= (length + c.flush + 2 * c.skew) / c.Gap()
  {
    Stretch(c, admitted, i, j);
    Quotient(j - i, c.Gap(), length + c.flush + 2 * c.skew);
  }

  /** In any window of the clock, an author gets through only as often as the gap fits into the window and its margins. */
  lemma AdmissionsBounded(c: Config, rs: seq<Request>, a: Author, from: int, length: nat)
    requires InOrder(rs) && c.flush > c.skew >= 0
    ensures CountWithin(AdmittedOf(c, rs, a), from, from + length) <= (length + c.flush + 2 * c.skew) / c.Gap() + 1
  {
    var admitted := AdmittedOf(c, rs, a);
    if CountWithin(admitted, from, from + length) > 0 {
      AdmittedAreSpaced(c, rs, a);
      AdmittedInOrder(c, rs, a);
      var i, j := CountIsStretch(admitted, from, from + length);
      WithinWindow(c, LastReqs(c, rs), a, admitted, i, j, from, length);
    }
  }

  function Repeated(r: Request, n: nat): (rs: seq<Request>)
    ensures |rs| == n
  {
    if n == 0 then [] else Repeated(r, n - 1) + [r]
  }

  /** Without a positive gap, a request in the window is admitted again whenever the last admitted one is not later. */
  lemma AdmittedAgain(c: Config, rs: seq<Request>, r: Request)
    requires r.author in c.allowlist && c.flush <= c.skew && InWindow(c, r)
    requires LastOf(LastReqs(c, rs), r.author) <= r.Timestamp()
    ensures AdmittedOf(c, rs + [r], r.author) == AdmittedOf(c, rs, r.author) + [r]
    ensures LastOf(LastReqs(c, rs + [r]), r.author) == r.Timestamp()
  {
    assert (rs + [r])[..|rs|] == rs;
  }

  /** So it may be repeated any number of times at once. */
  lemma {:induction false} NoGapNoBound(c: Config, r: Request, from: int, to: int, n: nat)
    requires r.author in c.allowlist && c.flush <= c.skew && InWindow(c, r)
    requires r.Timestamp() >= ZERO_TIME && from <= r.now <= to
    ensures var rs := Repeated(r, n);
            && AdmittedOf(c, rs, r.author) == rs && CountWithin(rs, from, to) == n
            && LastOf(LastReqs(c, rs), r.author) <= r.Timestamp()
  {
    if n > 0 {
      var rs := Repeated(r, n - 1);
      NoGapNoBound(c, r, from, to, n - 1);
      AdmittedAgain(c, rs, r);
      assert (rs + [r])[..n - 1] == rs;
    }
  }

  /** Some number bounds how often the author gets through in a window of the clock, whatever is requested. */
  ghost predicate Bounded(c: Config, a: Author, from: int, length: nat) {
    exists bound: nat :: AtMost(c, a, from, length, bound)
  }

  ghost predicate AtMost(c: Config, a: Author, from: int, length: nat, bound: nat) {
    forall rs: seq<Request> | InOrder(rs) :: CountWithin(AdmittedOf(c, rs, a), from, from + length) <= bound
  }

  lemma GapBounds(c: Config, a: Author, from: int, length: nat)
    requires c.flush > c.skew >= 0
    ensures Bounded(c, a, from, length)
  {
    var bound := (length + c.flush + 2 * c.skew) / c.Gap() + 1;
    forall rs: seq<Request> | InOrder(rs)
      ensures CountWithin(AdmittedOf(c, rs, a), from, from + length) <= bound
    {
      AdmissionsBounded(c, rs, a, from, length);
    }
    assert AtMost(c, a, from, length, bound);
  }

  lemma {:induction false} RepeatedAt(r: Request, n: nat, i: nat)
    requires i < n
    ensures Repeated(r, n)[i] == r
  {
    if i < n - 1 {
      RepeatedAt(r, n - 1, i);
    }
  }

  lemma RepeatedInOrder(r: Request, n: nat)
    ensures InOrder(Repeated(r, n))
  {
    var rs := Repeated(r, n);
    forall i, j | 0 <= i < j < |rs| ensures rs[i].now <= rs[j].now {
      RepeatedAt(r, n, i);
      RepeatedAt(r, n, j);
    }
  }

  /** A whole second lies between the two times. */
  predicate SecondWithin(lo: int, hi: int) {
    hi / SECOND * SECOND >= lo
  }

  lemma SecondFits(unix: int, lo: int, hi: int)
    requires lo <= unix * SECOND <= hi
    ensures SecondWithin(lo, hi)
  {
  }

  /** A time in the window at which the timestamp is valid. */
  lemma ArrivalFor(c: Config, stamp: int, from: int, length: nat) returns (now: int)
    requires c.flush >= 0 && c.skew >= 0
    requires from - c.flush - c.skew <= stamp <= from + length + c.skew
    ensures from <= now <= from + length && now - c.flush - c.skew <= stamp <= now + c.skew
  {
    now := if from < stamp - c.skew then stamp - c.skew else from;
  }

  lemma RepeatedExceeds(c: Config, r: Request, from: int, length: nat, bound: nat)
    requires r.author in c.allowlist && c.flush <= c.skew && InWindow(c, r)
    requires r.Timestamp() >= ZERO_TIME && from <= r.now <= from + length
    ensures !AtMost(c, r.author, from, length, bound)
  {
    var rs := ManyRepeats(c, r, from, from + length, bound + 1);
    Exceeds(c, rs, r.author, from, length, bound);
  }

  lemma ManyRepeats(c: Config, r: Request, from: int, to: int, n: nat) returns (rs: seq<Request>)
    requires r.author in c.allowlist && c.flush <= c.skew && InWindow(c, r)
    requires r.Timestamp() >= ZERO_TIME && from <= r.now <= to
    ensures InOrder(rs) && CountWithin(AdmittedOf(c, rs, r.author), from, to) == n
  {
    rs := Repeated(r, n);
    NoGapNoBound(c, r, from, to, n);
    RepeatedInOrder(r, n);
  }

  lemma Exceeds(c: Config, rs: seq<Request>, a: Author, from: int, length: nat, bound: nat)
    requires InOrder(rs) && CountWithin(AdmittedOf(c, rs, a), from, from + length) > bound
    ensures !AtMost(c, a, from, length, bound)
  {
  }

  lemma NoGapExceeds(c: Config, a: Author, from: int, length: nat, unix: int, bound: nat)
    requires a in c.allowlist && 0 <= c.flush <= c.skew
    requires ZERO_TIME <= from - c.flush - c.skew <= unix * SECOND <= from + length + c.skew
    ensures !AtMost(c, a, from, length, bound)
  {
    var now := ArrivalFor(c, unix * SECOND, from, length);
    RepeatedExceeds(c, Request(a, unix, now), from, length, bound);
  }

  lemma ArrivedWithin(c: Config, r: Request, from: int, length: nat)
    requires InWindow(c, r) && from <= r.now <= from + length
    ensures SecondWithin(from - c.flush - c.skew, from + length + c.skew)
  {
    SecondFits(r.unix, from - c.flush - c.skew, from + length + c.skew);
  }

  lemma NoSecondNothing(c: Config, rs: seq<Request>, a: Author, from: int, length: nat)
    requires InOrder(rs) && !SecondWithin(from - c.flush - c.skew, from + length + c.skew)
    ensures CountWithin(AdmittedOf(c, rs, a), from, from + length) == 0
  {
    var admitted := AdmittedOf(c, rs, a);
    if CountWithin(admitted, from, from + length) > 0 {
      AdmittedAreSpaced(c, rs, a);
      AdmittedInOrder(c, rs, a);
      var i, j := CountIsStretch(admitted, from, from + length);
      ArrivedWithin(c, admitted[i], from, length);
    }
  }

  /**
   Requests in a window are limited exactly when the flush interval exceeds the clock skew, or the window is so short
   and so placed that no whole second is a valid timestamp in it.
   */
  lemma BoundedExactly(c: Config, a: Author, from: int, length: nat)
    requires a in c.allowlist && c.flush >= 0 && c.skew >= 0 && from - c.flush - c.skew >= ZERO_TIME
    ensures Bounded(c, a, from, length) <==>
            c.flush > c.skew || !SecondWithin(from - c.flush - c.skew, from + length + c.skew)
  {
    if c.flush > c.skew {
      GapBounds(c, a, from, length);
    } else if SecondWithin(from - c.flush - c.skew, from + length + c.skew) {
      forall bound: nat ensures !AtMost(c, a, from, length, bound) {
        NoGapExceeds(c, a, from, length, (from + length + c.skew) / SECOND, bound);
      }
    } else {
      forall rs: seq<Request> | InOrder(rs)
        ensures CountWithin(AdmittedOf(c, rs, a), from, from + length) <= 0
      {
        NoSecondNothing(c, rs, a, from, length);
      }
      assert AtMost(c, a, from, length, 0);
    }
  }
}
