/**
 The event replayer (pkg/event/publisher/replayer/replayer.go): every event is forwarded, cached,
 and replayed once for each configured period, by ticks that look back to the previous tick.
 Times are integers of nanoseconds.
 */
module Replayer {
  import opened Wrappers
  import opened Sorting

  datatype Event = Event(body: nat, eventDate: int, messageDate: int)

  /** A cached event, labelled with the number of the arrival that added it. */
  datatype Element = Element(id: nat, evt: Event)

  datatype Sent = Forwarded(id: nat, evt: Event) | Replayed(id: nat, evt: Event)

  /** The validated configuration: sorted periods and a tick interval. A negative interval is accepted, but no ticker takes it. */
  datatype Config = Config(replayAfter: seq<int>, interval: int) {
    ghost predicate Valid() {
      replayAfter != [] && Sorted(replayAfter)
    }

    function Oldest(): int
      requires replayAfter != []
    {
      replayAfter[|replayAfter| - 1]
    }

    function ExpireAfter(): int
      requires replayAfter != []
    {
      Oldest() + interval
    }
  }

  // ---------------------------------------------------------------------------
  // One tick, stated on time instants
  // ---------------------------------------------------------------------------

  /** The event's age passes period `p` after the previous tick and not after this one. */
  predicate Crosses(p: int, date: int, last: int, now: int) {
    last < date + p <= now
  }

  function Crossed(ps: seq<int>, date: int, last: int, now: int): nat {
    if ps == [] then 0
    else Crossed(ps[..|ps| - 1], date, last, now) + if Crosses(ps[|ps| - 1], date, last, now) then 1 else 0
  }

  /** The scan of the periods fires: some period is crossed and every earlier one was already over at the last tick. */
  ghost predicate Fires(ps: seq<int>, date: int, last: int, now: int) {
    exists i {:trigger Crosses(ps[i], date, last, now)} ::
      0 <= i < |ps| && Crosses(ps[i], date, last, now) && forall j | 0 <= j < i :: date + ps[j] < last
  }

  ghost predicate Expired(c: Config, date: int, now: int)
    requires c.Valid()
  {
    now - date > c.ExpireAfter()
  }

  /** The first `k` cached events without the expired ones. */
  ghost function Kept(c: Config, cache: seq<Element>, k: nat, now: int): seq<Element>
    requires c.Valid() && k <= |cache|
  {
    if k == 0 then []
    else Kept(c, cache, k - 1, now) +
         if Expired(c, cache[k - 1].evt.eventDate, now) then [] else [cache[k - 1]]
  }

  ghost function Copies(c: Config, e: Element, last: int, now: int): seq<Sent>
    requires c.Valid()
  {
    if !Expired(c, e.evt.eventDate, now) && Fires(c.replayAfter, e.evt.eventDate, last, now)
    then [Replayed(e.id, e.evt.(messageDate := now))]
    else []
  }

  /** What a tick sends for the first `k` cached events. */
  ghost function Replays(c: Config, cache: seq<Element>, k: nat, last: int, now: int): seq<Sent>
    requires c.Valid() && k <= |cache|
  {
    if k == 0 then [] else Replays(c, cache, k - 1, last, now) + Copies(c, cache[k - 1], last, now)
  }

  // ---------------------------------------------------------------------------
  // The running system
  // ---------------------------------------------------------------------------

  datatype Arrival = Arrival(evt: Event, since: int)

  /** `arrived` logs each arrival with the last tick before it; `ticked` counts the arrivals before the last tick. */
  datatype State = State(cache: seq<Element>, last: int, sent: seq<Sent>, arrived: seq<Arrival>, ticked: nat)

  datatype Step = Arrive(evt: Event) | Tick(now: int)

  ghost function Apply(c: Config, s: State, step: Step): State
    requires c.Valid()
  {
    match step
    case Arrive(evt) =>
      var id := |s.arrived|;
      s.(cache := s.cache + [Element(id, evt)],
         sent := s.sent + [Forwarded(id, evt)],
         arrived := s.arrived + [Arrival(evt, s.last)])
    case Tick(now) =>
      State(Kept(c, s.cache, |s.cache|, now), now, s.sent + Replays(c, s.cache, |s.cache|, s.last, now),
            s.arrived, |s.arrived|)
  }

  function Start(now: int): State {
    State([], now, [], [], 0)
  }

  ghost function Run(c: Config, start: int, steps: seq<Step>): State
    requires c.Valid()
  {
    if steps == [] then Start(start)
    else Apply(c, Run(c, start, steps[..|steps| - 1]), steps[|steps| - 1])
  }

  datatype ConfigError = NoProvider | NoPeriods | NoInterval
  datatype Created = Created(provider: EventProvider) | Refused(error: ConfigError)

  /** Validates the configuration and sorts the periods in place. */
  method New(hasProvider: bool, interval: int, replayAfter: array<int>, now: int) returns (r: Created)
    modifies replayAfter
    ensures !hasProvider ==> r == Refused(NoProvider)
    ensures hasProvider && replayAfter.Length == 0 ==> r == Refused(NoPeriods)
    ensures hasProvider && replayAfter.Length > 0 && interval == 0 ==> r == Refused(NoInterval)
    ensures hasProvider && replayAfter.Length > 0 && interval != 0 ==>
              && r.Created? && fresh(r.provider) && r.provider.Valid()
              && r.provider.config == Config(Sort(old(replayAfter[..])), interval)
              && Sorted(r.provider.config.replayAfter)
              && multiset(r.provider.config.replayAfter) == multiset(old(replayAfter[..]))
              && r.provider.Abs() == Start(now) && r.provider.last == now
  {
    if !hasProvider {
      return Refused(NoProvider);
    }
    if replayAfter.Length == 0 {
      return Refused(NoPeriods);
    }
    if interval == 0 {
      return Refused(NoInterval);
    }
    SortSorts(replayAfter[..]);
    SortArray(replayAfter);
    var p := new EventProvider(Config(replayAfter[..], interval), now);
    r := Created(p);
  }

  class EventProvider {
    const config: Config
    var list: seq<Element>
    var cursor: Option<nat>   // where the element last added or visited is; none once it is removed
    var nextId: nat
    var last: int
    var eventCh: seq<Sent>
    ghost var arrived: seq<Arrival>
    ghost var ticked: nat

    ghost predicate Valid()
      reads this
    {
      && config.Valid()
      && nextId == |arrived|
      && (cursor.Some? ==> cursor.value < |list|)
    }

    ghost function Abs(): State
      reads this
    {
      State(list, last, eventCh, arrived, ticked)
    }

    constructor (c: Config, now: int)
      requires c.Valid()
      ensures Valid() && config == c && Abs() == Start(now)
    {
      config := c;
      list, cursor, nextId, last, eventCh := [], None, 0, now, [];
      arrived, ticked := [], 0;
    }

    /** Removes the element last added or visited, if it is still in the list. */
    method Remove()
      requires Valid()
      modifies this`list, this`cursor
      ensures Valid()
      ensures list == if old(cursor).None? then old(list)
                      else old(list)[..old(cursor).value] + old(list)[old(cursor).value + 1..]
    {
      if cursor.None? {
        return;
      }
      list := list[..cursor.value] + list[cursor.value + 1..];
      cursor := None;
    }

    /** An event arrives: it is cached and forwarded. */
    method Collect(evt: Event)
      requires Valid()
      modifies this
      ensures Valid() && Abs() == Apply(config, old(Abs()), Arrive(evt))
    {
      var e := Element(nextId, evt);
      nextId := nextId + 1;
      list := list + [e];
      cursor := Some(|list| - 1);
      eventCh := eventCh + [Forwarded(e.id, evt)];
      arrived := arrived + [Arrival(evt, last)];
    }

    /** The scan of the periods for one cached event that is not expired. */
    method Replay(e: Element, now: int)
      requires config.Valid()
      modifies this`eventCh
      ensures eventCh == old(eventCh) +
                if Fires(config.replayAfter, e.evt.eventDate, last, now)
                then [Replayed(e.id, e.evt.(messageDate := now))] else []
    {
      var age := now - e.evt.eventDate;
      for i := 0 to |config.replayAfter|
        invariant forall j | 0 <= j < i :: e.evt.eventDate + config.replayAfter[j] < last
        invariant eventCh == old(eventCh)
      {
        var from := config.replayAfter[i];
        var to := from + (now - last);
        if age >= from && age < to {
          eventCh := eventCh + [Replayed(e.id, e.evt.(messageDate := now))];
          assert Crosses(from, e.evt.eventDate, last, now);
        }
        if to >= age {
          break;
        }
      }
    }

    /** What a tick does with the element the iteration is at: removes it when expired, else replays it. */
    method Inspect(at: nat, now: int) returns (ghost stays: seq<Element>, ghost copies: seq<Sent>)
      requires Valid() && at < |list| && cursor == Some(at)
      modifies this`list, this`cursor, this`eventCh
      ensures Valid()
      ensures stays == if Expired(config, old(list)[at].evt.eventDate, now) then [] else [old(list)[at]]
      ensures copies == Copies(config, old(list)[at], last, now)
      ensures list == old(list)[..at] + stays + old(list)[at + 1..]
      ensures eventCh == old(eventCh) + copies
    {
      var e := list[at];
      var age := now - e.evt.eventDate;
      stays, copies := if Expired(config, e.evt.eventDate, now) then [] else [e], Copies(config, e, last, now);
      if age > config.ExpireAfter() {
        Remove();
      } else {
        Replay(e, now);
      }
    }

    /** Walks the list from the front; `todo` counts the elements still ahead. */
    method Iterate(now: int)
      requires Valid()
      modifies this`list, this`cursor, this`eventCh
      ensures Valid()
      ensures list == Kept(config, old(list), |old(list)|, now)
      ensures eventCh == old(eventCh) + Replays(config, old(list), |old(list)|, last, now)
    {
      ghost var before, kept, rest, emitted, done := list, [], list, [], 0;
      var todo := |list|;
      while todo > 0
        invariant 0 <= todo <= |before| && done == |before| - todo
        invariant rest == before[done..] && list == kept + rest
        invariant kept == Kept(config, before, done, now)
        invariant emitted == Replays(config, before, done, last, now) && eventCh == old(eventCh) + emitted
        invariant Valid()
      {
        var at := |list| - todo;
        ghost var e, was := before[done], list;
        Split(before, done);
        rest := before[done + 1..];
        cursor, todo := Some(at), todo - 1;
        ghost var stays, copies := Inspect(at, now);
        Replace(kept, e, rest, stays, was);
        Regroup(old(eventCh), emitted, copies);
        kept, emitted, done := kept + stays, emitted + copies, done + 1;
      }
      assert rest == [] && list == kept;
    }

    method Tick(now: int)
      requires Valid()
      modifies this
      ensures Valid() && Abs() == Apply(config, old(Abs()), Step.Tick(now))
    {
      Iterate(now);
      last := now;
      ticked := |arrived|;
    }

    /** Both routines of a new provider, whose arrivals and ticks exclude each other. */
    method Serve(steps: seq<Step>)
      requires Valid() && Abs() == Start(last)
      modifies this
      ensures Valid() && Abs() == Run(config, old(last), steps)
      ensures last == LastTick(old(last), steps) && arrived == ArrivalsIn(old(last), steps)
      ensures ForwardsInOrder(Abs())
      ensures TimelyRun(config, old(last), steps) ==> Sound(config, Abs())
    {
      ghost var start := last;
      for i := 0 to |steps|
        invariant Valid() && Abs() == Run(config, start, steps[..i])
      {
        assert steps[..i + 1][..i] == steps[..i];
        match steps[i] {
          case Arrive(evt) => Collect(evt);
          case Tick(now) => Tick(now);
        }
      }
      assert steps[..|steps|] == steps;
      RunIsLogged(config, start, steps);
      if TimelyRun(config, start, steps) {
        RunIsSound(config, start, steps);
      }
    }
  }

  lemma Split<T>(s: seq<T>, k: nat)
    requires k < |s|
    ensures s[k..] == [s[k]] + s[k + 1..]
  {
  }

  /** Replacing the middle element. */
  lemma Replace<T>(xs: seq<T>, y: T, zs: seq<T>, ys: seq<T>, was: seq<T>)
    requires was == xs + ([y] + zs)
    ensures |xs| < |was| && was[|xs|] == y
    ensures was[..|xs|] + ys + was[|xs| + 1..] == xs + ys + zs
  {
    assert was[..|xs|] == xs && was[|xs| + 1..] == zs;
  }

  lemma Regroup<T>(xs: seq<T>, ys: seq<T>, zs: seq<T>)
    ensures xs + ys + zs == xs + (ys + zs)
  {
  }

  // ---------------------------------------------------------------------------
  // What runs have seen and sent, in order
  // ---------------------------------------------------------------------------

  /** The time of the last tick, or of the start. */
  function LastTick(start: int, steps: seq<Step>): int {
    if steps == [] then start
    else match steps[|steps| - 1]
      case Tick(now) => now
      case Arrive(_) => LastTick(start, steps[..|steps| - 1])
  }

  function ArrivalsIn(start: int, steps: seq<Step>): seq<Arrival> {
    if steps == [] then []
    else
      var init := steps[..|steps| - 1];
      match steps[|steps| - 1]
      case Tick(_) => ArrivalsIn(start, init)
      case Arrive(evt) => ArrivalsIn(start, init) + [Arrival(evt, LastTick(start, init))]
  }

  function ForwardsIn(sent: seq<Sent>): seq<Sent> {
    if sent == [] then []
    else ForwardsIn(sent[..|sent| - 1]) + if sent[|sent| - 1].Forwarded? then [sent[|sent| - 1]] else []
  }

  /** Every event is forwarded once and as it arrived, in the order of arrival. */
  ghost predicate ForwardsInOrder(s: State) {
    var forwards := ForwardsIn(s.sent);
    && |forwards| == |s.arrived|
    && forall i | 0 <= i < |forwards| :: forwards[i] == Forwarded(i, s.arrived[i].evt)
  }

  /** Cached elements are labelled in the order of arrival. */
  ghost predicate Ordered(cache: seq<Element>) {
    forall i, j | 0 <= i < j < |cache| :: cache[i].id < cache[j].id
  }

  lemma {:induction false} ForwardsConcat(xs: seq<Sent>, ys: seq<Sent>)
    ensures ForwardsIn(xs + ys) == ForwardsIn(xs) + ForwardsIn(ys)
  {
    if ys == [] {
      assert xs + ys == xs;
    } else {
      ForwardsConcat(xs, ys[..|ys| - 1]);
      assert (xs + ys)[..|xs + ys| - 1] == xs + ys[..|ys| - 1];
    }
  }

  lemma {:induction false} NoneForwarded(sent: seq<Sent>)
    requires forall m | m in sent :: m.Replayed?
    ensures ForwardsIn(sent) == []
  {
    if sent != [] {
      assert sent[|sent| - 1] in sent;
      NoneForwarded(sent[..|sent| - 1]);
    }
  }

  /** The cached event, dated by the tick: it is at most the last period and an interval old, and the scan fires. */
  ghost predicate IsReplay(c: Config, e: Element, last: int, now: int, m: Sent)
    requires c.Valid()
  {
    && m == Replayed(e.id, e.evt.(messageDate := now))
    && now - e.evt.eventDate <= c.Oldest() + c.interval
    && Fires(c.replayAfter, e.evt.eventDate, last, now)
  }

  lemma {:induction false} SentIsReplay(c: Config, cache: seq<Element>, k: nat, last: int, now: int, m: Sent) returns (i: nat)
    requires c.Valid() && k <= |cache| && m in Replays(c, cache, k, last, now)
    ensures i < k && IsReplay(c, cache[i], last, now, m)
  {
    if m in Replays(c, cache, k - 1, last, now) {
      i := SentIsReplay(c, cache, k - 1, last, now, m);
    } else {
      i := k - 1;
    }
  }

  lemma {:induction false} ReplayIsSent(c: Config, cache: seq<Element>, k: nat, last: int, now: int, i: nat, m: Sent)
    requires c.Valid() && i < k <= |cache| && IsReplay(c, cache[i], last, now, m)
    ensures m in Replays(c, cache, k, last, now)
  {
    if i < k - 1 {
      ReplayIsSent(c, cache, k - 1, last, now, i, m);
    }
  }

  predicate Ascending(sent: seq<Sent>) {
    forall i, j | 0 <= i < j < |sent| :: sent[i].id < sent[j].id
  }

  lemma {:induction false} ReplaysAscend(c: Config, cache: seq<Element>, k: nat, last: int, now: int)
    requires c.Valid() && k <= |cache| && Ordered(cache)
    ensures Ascending(Replays(c, cache, k, last, now))
  {
    if k > 0 {
      ReplaysAscend(c, cache, k - 1, last, now);
      var sent := Replays(c, cache, k - 1, last, now);
      forall i | 0 <= i < |sent| ensures sent[i].id < cache[k - 1].id {
        assert sent[i] in sent;
        var at := SentIsReplay(c, cache, k - 1, last, now, sent[i]);
      }
    }
  }

  /** A tick sends, in order of arrival and once each, exactly the replays of the cached events. */
  lemma TickReplaysExactly(c: Config, s: State, now: int)
    requires c.Valid() && Ordered(s.cache)
    ensures var t := Apply(c, s, Tick(now));
            && |t.sent| >= |s.sent| && t.sent[..|s.sent|] == s.sent && Ascending(t.sent[|s.sent|..])
            && (forall m | m in t.sent[|s.sent|..] :: exists e :: e in s.cache && IsReplay(c, e, s.last, now, m))
            && forall e, m | e in s.cache && IsReplay(c, e, s.last, now, m) :: m in t.sent[|s.sent|..]
  {
    var n := |s.cache|;
    var sent := Replays(c, s.cache, n, s.last, now);
    assert Apply(c, s, Tick(now)).sent[|s.sent|..] == sent;
    ReplaysAscend(c, s.cache, n, s.last, now);
    forall m | m in sent ensures exists e :: e in s.cache && IsReplay(c, e, s.last, now, m) {
      var i := SentIsReplay(c, s.cache, n, s.last, now, m);
      assert s.cache[i] in s.cache;
    }
    forall e, m | e in s.cache && IsReplay(c, e, s.last, now, m) ensures m in sent {
      var i :| 0 <= i < n && s.cache[i] == e;
      ReplayIsSent(c, s.cache, n, s.last, now, i, m);
    }
  }

  /** A tick keeps exactly the events that are at most the last period and an interval old. */
  lemma {:induction false} TickKeepsExactly(c: Config, cache: seq<Element>, k: nat, now: int, e: Element)
    requires c.Valid() && k <= |cache|
    ensures e in Kept(c, cache, k, now) <==> e in cache[..k] && now - e.evt.eventDate <= c.Oldest() + c.interval
  {
    if k > 0 {
      TickKeepsExactly(c, cache, k - 1, now, e);
      assert cache[..k] == cache[..k - 1] + [cache[k - 1]];
    }
  }

  lemma {:induction false} TickKeepsOrder(c: Config, cache: seq<Element>, k: nat, now: int)
    requires c.Valid() && k <= |cache| && Ordered(cache)
    ensures Ordered(Kept(c, cache, k, now))
  {
    if k > 0 {
      var kept := Kept(c, cache, k - 1, now);
      TickKeepsOrder(c, cache, k - 1, now);
      forall i | 0 <= i < |kept| ensures kept[i].id < cache[k - 1].id {
        TickKeepsExactly(c, cache, k - 1, now, kept[i]);
      }
    }
  }

  /** The log names the arrivals, forwards and cached elements alike. */
  ghost predicate Logged(s: State) {
    && ForwardsInOrder(s) && Ordered(s.cache)
    && forall e | e in s.cache :: e.id < |s.arrived| && e.evt == s.arrived[e.id].evt
  }

  lemma ArriveKeepsLog(c: Config, s: State, evt: Event)
    requires c.Valid() && Logged(s)
    ensures Logged(Apply(c, s, Arrive(evt)))
  {
    var m := Forwarded(|s.arrived|, evt);
    ForwardsConcat(s.sent, [m]);
    assert [m][..0] == [];
    assert ForwardsIn([m]) == [m];
  }

  lemma TickKeepsLog(c: Config, s: State, now: int)
    requires c.Valid() && Logged(s)
    ensures Logged(Apply(c, s, Tick(now)))
  {
    var sent := Replays(c, s.cache, |s.cache|, s.last, now);
    forall m | m in sent ensures m.Replayed? {
      var i := SentIsReplay(c, s.cache, |s.cache|, s.last, now, m);
    }
    NoneForwarded(sent);
    ForwardsConcat(s.sent, sent);
    TickKeepsOrder(c, s.cache, |s.cache|, now);
    forall e | e in Kept(c, s.cache, |s.cache|, now) ensures e in s.cache {
      TickKeepsExactly(c, s.cache, |s.cache|, now, e);
    }
  }

  /**
   Over any run, timely or not: the last tick and the arrivals are those of the steps, and events are forwarded and
   cached as they arrived and in that order.
   */
  lemma {:induction false} RunIsLogged(c: Config, start: int, steps: seq<Step>)
    requires c.Valid()
    ensures var s := Run(c, start, steps);
            && s.last == LastTick(start, steps) && s.arrived == ArrivalsIn(start, steps) && Logged(s)
  {
    if steps != [] {
      var init := steps[..|steps| - 1];
      RunIsLogged(c, start, init);
      match steps[|steps| - 1] {
        case Arrive(evt) => ArriveKeepsLog(c, Run(c, start, init), evt);
        case Tick(now) => TickKeepsLog(c, Run(c, start, init), now);
      }
    }
  }

  // ---------------------------------------------------------------------------
  // When one tick is exact
  // ---------------------------------------------------------------------------

  /** How often a tick replays an event of the given date. */
  ghost function TickCount(c: Config, date: int, last: int, now: int): nat
    requires c.Valid()
  {
    if !Expired(c, date, now) && Fires(c.replayAfter, date, last, now) then 1 else 0
  }

  /** The tick replays every event once for each period its age crosses. */
  ghost predicate Exact(c: Config, last: int, now: int)
    requires c.Valid()
  {
    forall date: int :: TickCount(c, date, last, now) == Crossed(c.replayAfter, date, last, now)
  }

  ghost predicate Spaced(ps: seq<int>, gap: int) {
    forall i | 0 < i < |ps| :: ps[i] - ps[i - 1] > gap
  }

  /** The condition on the time since the previous tick. */
  ghost predicate Timely(c: Config, last: int, now: int) {
    now - last <= c.interval + 1 && Spaced(c.replayAfter, now - last)
  }

  lemma {:induction false} CrossedNone(ps: seq<int>, date: int, last: int, now: int)
    requires forall i | 0 <= i < |ps| :: !Crosses(ps[i], date, last, now)
    ensures Crossed(ps, date, last, now) == 0
  {
    if ps != [] {
      CrossedNone(ps[..|ps| - 1], date, last, now);
    }
  }

  lemma {:induction false} CrossedSome(ps: seq<int>, i: nat, date: int, last: int, now: int)
    requires i < |ps| && Crosses(ps[i], date, last, now)
    ensures Crossed(ps, date, last, now) >= 1
  {
    if i < |ps| - 1 {
      CrossedSome(ps[..|ps| - 1], i, date, last, now);
    }
  }

  lemma {:induction false} CrossedOne(ps: seq<int>, i: nat, date: int, last: int, now: int)
    requires i < |ps| && Crosses(ps[i], date, last, now)
    requires forall j | 0 <= j < |ps| && j != i :: !Crosses(ps[j], date, last, now)
    ensures Crossed(ps, date, last, now) == 1
  {
    if i == |ps| - 1 {
      CrossedNone(ps[..i], date, last, now);
    } else {
      CrossedOne(ps[..|ps| - 1], i, date, last, now);
    }
  }

  lemma {:induction false} CrossedTwo(ps: seq<int>, i: nat, j: nat, date: int, last: int, now: int)
    requires i < j < |ps| && Crosses(ps[i], date, last, now) && Crosses(ps[j], date, last, now)
    ensures Crossed(ps, date, last, now) >= 2
  {
    if j < |ps| - 1 {
      CrossedTwo(ps[..|ps| - 1], i, j, date, last, now);
    } else {
      CrossedSome(ps[..j], i, date, last, now);
    }
  }

  /** Timely ticks are exact: two periods are never crossed at once, and none is crossed by an expired event. */
  lemma TimelyIsExact(c: Config, last: int, now: int)
    requires c.Valid() && last <= now && Timely(c, last, now)
    ensures Exact(c, last, now)
  {
    var ps := c.replayAfter;
    forall date: int
      ensures TickCount(c, date, last, now) == Crossed(ps, date, last, now)
    {
      if i :| 0 <= i < |ps| && Crosses(ps[i], date, last, now) {
        assert ps[i] <= c.Oldest();
        if i > 0 {
          assert ps[i] - ps[i - 1] > now - last;
        }
        forall j | 0 <= j < |ps| && j != i
          ensures !Crosses(ps[j], date, last, now) && (j < i ==> date + ps[j] < last)
        {
          if j > i {
            assert ps[j] >= ps[i + 1] && ps[i + 1] - ps[i] > now - last;
          }
        }
        CrossedOne(ps, i, date, last, now);
      } else {
        CrossedNone(ps, date, last, now);
      }
    }
  }

  /** A tick that comes later than the previous one is exact if and only if it is timely. */
  lemma ExactIsTimely(c: Config, last: int, now: int)
    requires c.Valid() && last < now
    ensures Exact(c, last, now) <==> Timely(c, last, now)
  {
    var ps := c.replayAfter;
    if Timely(c, last, now) {
      TimelyIsExact(c, last, now);
    } else if now - last > c.interval + 1 {
      LateTickDrops(c, last, now);
    } else {
      var i :| 0 < i < |ps| && ps[i] - ps[i - 1] <= now - last;
      CrowdedTickSkips(c, i, last, now);
    }
  }

  /** A late tick drops an event whose last period has just been crossed. */
  lemma LateTickDrops(c: Config, last: int, now: int)
    requires c.Valid() && last < now && now - last > c.interval + 1
    ensures !Exact(c, last, now)
  {
    var ps := c.replayAfter;
    var date := last + 1 - c.Oldest();
    CrossedSome(ps, |ps| - 1, date, last, now);
    assert TickCount(c, date, last, now) == 0;
  }

  /** A tick that two periods fit into skips one of them. */
  lemma CrowdedTickSkips(c: Config, i: nat, last: int, now: int)
    requires c.Valid() && last < now && 0 < i < |c.replayAfter|
    requires c.replayAfter[i] - c.replayAfter[i - 1] <= now - last
    ensures !Exact(c, last, now)
  {
    var ps := c.replayAfter;
    var date := now - ps[i];
    CrossedSome(ps, i, date, last, now);
    if last < date + ps[i - 1] {
      CrossedTwo(ps, i - 1, i, date, last, now);
      assert TickCount(c, date, last, now) <= 1;
    } else {
      assert !Fires(ps, date, last, now) by {
        forall k | 0 <= k < |ps| && Crosses(ps[k], date, last, now)
          ensures exists j :: 0 <= j < k && date + ps[j] >= last
        {
          assert k >= i;
          assert date + ps[i - 1] >= last;
        }
      }
      assert TickCount(c, date, last, now) == 0;
    }
  }

  // ---------------------------------------------------------------------------
  // Whole runs
  // ---------------------------------------------------------------------------

  ghost predicate TimelyRun(c: Config, start: int, steps: seq<Step>)
    requires c.Valid()
  {
    steps == [] ||
    (var init := steps[..|steps| - 1];
     TimelyRun(c, start, init) &&
     match steps[|steps| - 1]
     case Arrive(_) => true
     case Tick(now) => Run(c, start, init).last <= now && Timely(c, Run(c, start, init).last, now))
  }

  function CountReplays(sent: seq<Sent>, id: nat): nat {
    if sent == [] then 0
    else CountReplays(sent[..|sent| - 1], id) +
         if sent[|sent| - 1].Replayed? && sent[|sent| - 1].id == id then 1 else 0
  }

  function CountForwards(sent: seq<Sent>, id: nat): nat {
    if sent == [] then 0
    else CountForwards(sent[..|sent| - 1], id) +
         if sent[|sent| - 1].Forwarded? && sent[|sent| - 1].id == id then 1 else 0
  }

  /** The event is still cached: it came after the last tick, or was not expired then. */
  ghost predicate Alive(c: Config, s: State, a: nat)
    requires c.Valid() && a < |s.arrived|
  {
    a >= s.ticked || !Expired(c, s.arrived[a].evt.eventDate, s.last)
  }

  ghost function Survivors(c: Config, s: State, k: nat): seq<Element>
    requires c.Valid() && k <= |s.arrived|
  {
    if k == 0 then []
    else Survivors(c, s, k - 1) + if Alive(c, s, k - 1) then [Element(k - 1, s.arrived[k - 1].evt)] else []
  }

  /** A replay is the event as it arrived, dated by the tick, at most an interval after one of its periods. */
  ghost predicate OnTime(c: Config, s: State, m: Sent) {
    && m.id < |s.arrived|
    && (m.Forwarded? ==> m.evt == s.arrived[m.id].evt)
    && (m.Replayed? ==>
          var date := s.arrived[m.id].evt.eventDate;
          && m.evt == s.arrived[m.id].evt.(messageDate := m.evt.messageDate)
          && exists p :: p in c.replayAfter && 0 <= m.evt.messageDate - (date + p) <= c.interval)
  }

  ghost predicate Sound(c: Config, s: State)
    requires c.Valid()
  {
    && s.ticked <= |s.arrived|
    && s.cache == Survivors(c, s, |s.arrived|)
    && (forall a | 0 <= a < |s.arrived| :: s.arrived[a].since <= s.last)
    && (forall a: nat | a < |s.arrived| ::
          CountReplays(s.sent, a) ==
          Crossed(c.replayAfter, s.arrived[a].evt.eventDate, s.arrived[a].since, s.last))
    && (forall a: nat :: CountForwards(s.sent, a) == if a < |s.arrived| then 1 else 0)
    && (forall m | m in s.sent :: OnTime(c, s, m))
  }

  lemma {:induction false} CountConcat(xs: seq<Sent>, ys: seq<Sent>, id: nat)
    ensures CountReplays(xs + ys, id) == CountReplays(xs, id) + CountReplays(ys, id)
    ensures CountForwards(xs + ys, id) == CountForwards(xs, id) + CountForwards(ys, id)
  {
    if ys == [] {
      assert xs + ys == xs;
    } else {
      CountConcat(xs, ys[..|ys| - 1], id);
      assert (xs + ys)[..|xs + ys| - 1] == xs + ys[..|ys| - 1];
    }
  }

  lemma {:induction false} CrossedSplit(ps: seq<int>, date: int, t0: int, t1: int, t2: int)
    requires t0 <= t1 <= t2
    ensures Crossed(ps, date, t0, t1) + Crossed(ps, date, t1, t2) == Crossed(ps, date, t0, t2)
  {
    if ps != [] {
      CrossedSplit(ps[..|ps| - 1], date, t0, t1, t2);
    }
  }

  lemma {:induction false} TickPrefix(c: Config, xs: seq<Element>, ys: seq<Element>, k: nat, last: int, now: int)
    requires c.Valid() && k <= |xs|
    ensures Kept(c, xs + ys, k, now) == Kept(c, xs, k, now)
    ensures Replays(c, xs + ys, k, last, now) == Replays(c, xs, k, last, now)
  {
    if k > 0 {
      TickPrefix(c, xs, ys, k - 1, last, now);
    }
  }

  /** What a tick sends for the survivors among the first `k` arrivals. */
  ghost function SurvivorReplays(c: Config, s: State, k: nat, now: int): seq<Sent>
    requires c.Valid() && k <= |s.arrived|
  {
    var cache := Survivors(c, s, k);
    Replays(c, cache, |cache|, s.last, now)
  }

  lemma SurvivorStep(c: Config, s: State, k: nat, now: int)
    requires c.Valid() && 0 < k <= |s.arrived| && s.last <= now
    ensures var e := Element(k - 1, s.arrived[k - 1].evt);
            && SurvivorReplays(c, s, k, now) == SurvivorReplays(c, s, k - 1, now) + Copies(c, e, s.last, now)
            && var xs, ys := Survivors(c, s, k - 1), Survivors(c, s, k);
               Kept(c, ys, |ys|, now) ==
               Kept(c, xs, |xs|, now) + if Expired(c, e.evt.eventDate, now) then [] else [e]
  {
    var e := Element(k - 1, s.arrived[k - 1].evt);
    var xs := Survivors(c, s, k - 1);
    if Alive(c, s, k - 1) {
      TickPrefix(c, xs, [e], |xs|, s.last, now);
      assert (xs + [e])[|xs|] == e;
    } else {
      assert Expired(c, e.evt.eventDate, now);
      assert Survivors(c, s, k) == xs;
    }
  }

  lemma {:induction false} TickKeeps(c: Config, s: State, k: nat, now: int)
    requires c.Valid() && k <= |s.arrived| && s.last <= now
    ensures var cache := Survivors(c, s, k);
            Kept(c, cache, |cache|, now) == Survivors(c, s.(last := now, ticked := |s.arrived|), k)
  {
    if k > 0 {
      TickKeeps(c, s, k - 1, now);
      SurvivorStep(c, s, k, now);
    }
  }

  lemma CopiesCount(c: Config, e: Element, last: int, now: int, a: nat)
    requires c.Valid()
    ensures CountReplays(Copies(c, e, last, now), a) ==
            if a == e.id then TickCount(c, e.evt.eventDate, last, now) else 0
  {
    CountOne(Replayed(e.id, e.evt.(messageDate := now)), a);
  }

  lemma StepReplays(c: Config, s: State, k: nat, now: int, a: nat)
    requires c.Valid() && a < |s.arrived| && 0 < k <= |s.arrived| && s.last <= now
    ensures CountReplays(SurvivorReplays(c, s, k, now), a) ==
            CountReplays(SurvivorReplays(c, s, k - 1, now), a) +
            if a == k - 1 then TickCount(c, s.arrived[a].evt.eventDate, s.last, now) else 0
  {
    var e := Element(k - 1, s.arrived[k - 1].evt);
    SurvivorStep(c, s, k, now);
    CountConcat(SurvivorReplays(c, s, k - 1, now), Copies(c, e, s.last, now), a);
    CopiesCount(c, e, s.last, now, a);
  }

  lemma {:induction false} TickReplays(c: Config, s: State, k: nat, now: int, a: nat)
    requires c.Valid() && a < |s.arrived| && k <= |s.arrived| && s.last <= now
    ensures CountReplays(SurvivorReplays(c, s, k, now), a) ==
            if a < k then TickCount(c, s.arrived[a].evt.eventDate, s.last, now) else 0
  {
    if k > 0 {
      TickReplays(c, s, k - 1, now, a);
      StepReplays(c, s, k, now, a);
    }
  }

  lemma {:induction false} TickSends(c: Config, s: State, k: nat, now: int, m: Sent)
    requires c.Valid() && k <= |s.arrived| && s.last <= now
    requires m in SurvivorReplays(c, s, k, now)
    ensures m.Replayed? && m.id < k && m.evt == s.arrived[m.id].evt.(messageDate := now)
    ensures TickCount(c, m.evt.eventDate, s.last, now) == 1
  {
    if k > 0 {
      SurvivorStep(c, s, k, now);
      if m in SurvivorReplays(c, s, k - 1, now) {
        TickSends(c, s, k - 1, now, m);
      }
    }
  }

  lemma TickOnTime(c: Config, date: int, last: int, now: int)
    requires c.Valid() && last <= now && Timely(c, last, now) && TickCount(c, date, last, now) == 1
    ensures exists p :: p in c.replayAfter && 0 <= now - (date + p) <= c.interval
  {
    var ps := c.replayAfter;
    var i :| 0 <= i < |ps| && Crosses(ps[i], date, last, now);
    assert ps[i] in ps;
  }

  lemma {:induction false} ArrivalsSurvive(c: Config, s: State, evt: Event, k: nat)
    requires c.Valid() && k <= |s.arrived| && s.ticked <= |s.arrived|
    ensures Survivors(c, Apply(c, s, Arrive(evt)), k) == Survivors(c, s, k)
  {
    if k > 0 {
      ArrivalsSurvive(c, s, evt, k - 1);
    }
  }

  lemma CountOne(m: Sent, id: nat)
    ensures CountReplays([m], id) == if m.Replayed? && m.id == id then 1 else 0
    ensures CountForwards([m], id) == if m.Forwarded? && m.id == id then 1 else 0
  {
    assert [m][..0] == [];
  }

  lemma ArriveKeepsSound(c: Config, s: State, evt: Event)
    requires c.Valid() && Sound(c, s)
    ensures Sound(c, Apply(c, s, Arrive(evt)))
  {
    var t := Apply(c, s, Arrive(evt));
    var id := |s.arrived|;
    ArrivalsSurvive(c, s, evt, id);
    assert t.cache == Survivors(c, t, id + 1);
    forall a: nat
      ensures CountReplays(t.sent, a) == CountReplays(s.sent, a)
      ensures CountForwards(t.sent, a) == CountForwards(s.sent, a) + if a == id then 1 else 0
    {
      CountConcat(s.sent, [Forwarded(id, evt)], a);
      CountOne(Forwarded(id, evt), a);
    }
    CrossedNone(c.replayAfter, evt.eventDate, s.last, s.last);
    NoReplaysYet(c, s, id);
    forall m | m in t.sent ensures OnTime(c, t, m) {
      assert m in s.sent ==> OnTime(c, s, m);
    }
  }

  lemma {:induction false} NothingCounted(sent: seq<Sent>, id: nat)
    requires forall m | m in sent :: m.id < id
    ensures CountReplays(sent, id) == 0
  {
    if sent != [] {
      NothingCounted(sent[..|sent| - 1], id);
    }
  }

  lemma NoReplaysYet(c: Config, s: State, id: nat)
    requires c.Valid() && Sound(c, s) && id == |s.arrived|
    ensures CountReplays(s.sent, id) == 0
  {
    forall m | m in s.sent ensures m.id < id {
      assert OnTime(c, s, m);
    }
    NothingCounted(s.sent, id);
  }

  lemma TickKeepsSound(c: Config, s: State, now: int)
    requires c.Valid() && Sound(c, s) && s.last <= now && Timely(c, s.last, now)
    ensures Sound(c, Apply(c, s, Tick(now)))
  {
    var t := Apply(c, s, Tick(now));
    var n := |s.arrived|;
    var sent := SurvivorReplays(c, s, n, now);
    TickKeeps(c, s, n, now);
    TimelyIsExact(c, s.last, now);
    assert t.sent == s.sent + sent;
    forall a: nat | a < n
      ensures CountReplays(t.sent, a) == Crossed(c.replayAfter, s.arrived[a].evt.eventDate, s.arrived[a].since, now)
    {
      CountConcat(s.sent, sent, a);
      TickReplays(c, s, n, now, a);
      CrossedSplit(c.replayAfter, s.arrived[a].evt.eventDate, s.arrived[a].since, s.last, now);
    }
    forall a: nat ensures CountForwards(sent, a) == 0 {
      OnlyReplays(c, s, now, a);
    }
    forall a: nat ensures CountForwards(t.sent, a) == CountForwards(s.sent, a) {
      CountConcat(s.sent, sent, a);
    }
    assert t.cache == Survivors(c, t, n) by {
      SameSurvivors(c, s.(last := now, ticked := n), t, n);
    }
    forall m | m in t.sent ensures OnTime(c, t, m) {
      if m in s.sent {
        assert OnTime(c, s, m);
      } else {
        TickSends(c, s, n, now, m);
        TickOnTime(c, m.evt.eventDate, s.last, now);
      }
    }
  }

  lemma {:induction false} NoForwards(sent: seq<Sent>, id: nat)
    requires forall m | m in sent :: m.Replayed?
    ensures CountForwards(sent, id) == 0
  {
    if sent != [] {
      assert sent[|sent| - 1] in sent;
      NoForwards(sent[..|sent| - 1], id);
    }
  }

  lemma OnlyReplays(c: Config, s: State, now: int, id: nat)
    requires c.Valid() && s.last <= now
    ensures CountForwards(SurvivorReplays(c, s, |s.arrived|, now), id) == 0
  {
    var sent := SurvivorReplays(c, s, |s.arrived|, now);
    forall m | m in sent ensures m.Replayed? {
      TickSends(c, s, |s.arrived|, now, m);
    }
    NoForwards(sent, id);
  }

  lemma {:induction false} SameSurvivors(c: Config, s: State, t: State, k: nat)
    requires c.Valid() && s.arrived == t.arrived && s.last == t.last && s.ticked == t.ticked && k <= |s.arrived|
    ensures Survivors(c, s, k) == Survivors(c, t, k)
  {
    if k > 0 {
      SameSurvivors(c, s, t, k - 1);
    }
  }

  /**
   Over any timely run, every event is forwarded once and replayed exactly once for every period its age
   has passed since the last tick before its arrival, always at most an interval late, and the cache
   holds exactly the events that came after the last tick or were not expired then, in order of arrival.
   */
  lemma {:induction false} RunIsSound(c: Config, start: int, steps: seq<Step>)
    requires c.Valid() && TimelyRun(c, start, steps)
    ensures Sound(c, Run(c, start, steps))
  {
    if steps != [] {
      var init := steps[..|steps| - 1];
      RunIsSound(c, start, init);
      match steps[|steps| - 1] {
        case Arrive(evt) => ArriveKeepsSound(c, Run(c, start, init), evt);
        case Tick(now) => TickKeepsSound(c, Run(c, start, init), now);
      }
    }
  }

  /** An event whose last period lies after the last tick before it is never dropped before it is over. */
  lemma NeverDroppedEarly(c: Config, start: int, steps: seq<Step>, a: nat)
    requires c.Valid() && c.interval > 0 && TimelyRun(c, start, steps) && a < |Run(c, start, steps).arrived|
    ensures var s := Run(c, start, steps);
            Element(a, s.arrived[a].evt) in s.cache || s.arrived[a].evt.eventDate + c.Oldest() < s.last
  {
    RunIsSound(c, start, steps);
    var s := Run(c, start, steps);
    SurvivorsHold(c, s, |s.arrived|, a);
  }

  lemma {:induction false} SurvivorsHold(c: Config, s: State, k: nat, a: nat)
    requires c.Valid() && a < k <= |s.arrived|
    ensures Alive(c, s, a) ==> Element(a, s.arrived[a].evt) in Survivors(c, s, k)
  {
    if a < k - 1 {
      SurvivorsHold(c, s, k - 1, a);
    }
  }
}
