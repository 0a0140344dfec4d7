/**
 The in-memory event store and its collector (pkg/event/store/memory.go). The index is a map of maps;
 one current time is taken for each pass of the collector.
 */
module EventMemory {
  import opened Newest

  /** The hashed keys: type and event index together, and author and identifier together. */
  type IndexKey = string
  datatype UniqueKey = UniqueKey(author: nat, id: string)

  datatype Event = Event(index: IndexKey, unique: UniqueKey, eventDate: int, messageDate: int)

  type Bucket = map<UniqueKey, Event>
  type Index = map<IndexKey, Bucket>

  predicate Expired(evt: Event, ttl: int, now: int) {
    now - evt.eventDate > ttl
  }

  predicate Due(evt: Event, ttl: int, now: int) {
    now - evt.eventDate >= ttl
  }

  predicate Contains(ix: Index, hi: IndexKey, hu: UniqueKey) {
    hi in ix && hu in ix[hi]
  }

  /** The event replaces a missing entry or one with an earlier message date. */
  predicate Accepts(ix: Index, evt: Event) {
    !Contains(ix, evt.index, evt.unique) || ix[evt.index][evt.unique].messageDate < evt.messageDate
  }

  function Put(ix: Index, evt: Event): Index {
    var bucket := if evt.index in ix then ix[evt.index] else map[];
    ix[evt.index := if Accepts(ix, evt) then bucket[evt.unique := evt] else bucket]
  }

  ghost predicate AnyExpired(b: Bucket, ttl: int, now: int) {
    exists hu :: hu in b && Expired(b[hu], ttl, now)
  }

  ghost predicate AllExpired(b: Bucket, ttl: int, now: int) {
    forall hu | hu in b :: Expired(b[hu], ttl, now)
  }

  ghost function SweptBucket(b: Bucket, ttl: int, now: int): Bucket {
    if AnyExpired(b, ttl, now) then map hu | hu in b && !Due(b[hu], ttl, now) :: b[hu] else b
  }

  ghost function Swept(ix: Index, ttl: int, now: int): Index {
    map hi | hi in ix && !AllExpired(ix[hi], ttl, now) :: SweptBucket(ix[hi], ttl, now)
  }

  ghost function Added(ix: Index, count: nat, every: nat, ttl: int, evt: Event, now: int): Index
    requires every > 0
  {
    if Accepts(ix, evt) && (count + 1) % every == 0 then Swept(Put(ix, evt), ttl, now) else Put(ix, evt)
  }

  class MemoryStorage {
    const ttl: int
    const gcEvery: nat
    var index: Index
    var gcCount: nat
    ghost var calls: seq<Call>

    /** Index and counter are what the calls make of them. */
    ghost predicate Valid()
      reads this
    {
      gcEvery > 0 && State(index, gcCount) == Run(ttl, gcEvery, calls)
    }

    constructor (ttl: int)
      ensures this.ttl == ttl && gcEvery == 100 && Valid() && calls == []
    {
      this.ttl, gcEvery, index, gcCount, calls := ttl, 100, map[], 0, [];
    }

    method Add(evt: Event, now: int) returns (isNew: bool)
      requires Valid()
      modifies this
      ensures Valid() && calls == old(calls) + [Call(evt, now)]
      ensures isNew <==> !Contains(old(index), evt.index, evt.unique)
      ensures index == Added(old(index), old(gcCount), gcEvery, ttl, evt, now)
      ensures gcCount == old(gcCount) + if Accepts(old(index), evt) then 1 else 0
    {
      calls := calls + [Call(evt, now)];
      assert calls[..|calls| - 1] == old(calls);
      if evt.index !in index {
        index := index[evt.index := map[]];
      }
      var bucket := index[evt.index];
      isNew := evt.unique !in bucket;
      if isNew || bucket[evt.unique].messageDate < evt.messageDate {
        index := index[evt.index := bucket[evt.unique := evt]];
        assert index == Put(old(index), evt);
        Gc(now);
      }
    }

    /**
     The events of an index: the newest message for each of its events that was added and not collected since, and
     nothing else.
     */
    method Get(hi: IndexKey) returns (evts: set<Event>)
      requires Valid()
      ensures forall evt | evt in evts ::
                FirstNewest(Since(ttl, gcEvery, calls, hi, evt.unique), MessageDate(), evt) && evt.index == hi
      ensures forall hu :: Since(ttl, gcEvery, calls, hi, hu) != [] <==> exists evt :: evt in evts && evt.unique == hu
    {
      evts := if hi in index then index[hi].Values else {};
      GetIsNewest(ttl, gcEvery, calls, hi);
    }

    method CountExpired(b: Bucket, now: int) returns (expired: nat)
      ensures expired == |b| <==> AllExpired(b, ttl, now)
      ensures expired > 0 <==> AnyExpired(b, ttl, now)
    {
      expired := 0;
      var todo := b.Keys;
      while todo != {}
        invariant todo <= b.Keys && expired + |todo| <= |b.Keys|
        invariant expired + |todo| == |b.Keys| <==> forall hu | hu in b && hu !in todo :: Expired(b[hu], ttl, now)
        invariant expired > 0 <==> exists hu :: hu in b && hu !in todo && Expired(b[hu], ttl, now)
        decreases |todo|
      {
        var hu :| hu in todo;
        todo := todo - {hu};
        if now - b[hu].eventDate > ttl {
          expired := expired + 1;
        }
      }
    }

    method DeleteDue(b: Bucket, now: int) returns (r: Bucket)
      ensures r == map hu | hu in b && !Due(b[hu], ttl, now) :: b[hu]
    {
      r := b;
      var todo := b.Keys;
      while todo != {}
        invariant todo <= b.Keys
        invariant r == map hu | hu in b && (hu in todo || !Due(b[hu], ttl, now)) :: b[hu]
        decreases |todo|
      {
        var ha :| ha in todo;
        todo := todo - {ha};
        if now - b[ha].eventDate >= ttl {
          r := r - {ha};
        }
      }
    }

    /** Every `gcEvery`-th call sweeps the index, deleting while iterating. */
    method Gc(now: int)
      requires gcEvery > 0
      modifies this`index, this`gcCount
      ensures gcCount == old(gcCount) + 1
      ensures index == if gcCount % gcEvery == 0 then Swept(old(index), ttl, now) else old(index)
    {
      gcCount := gcCount + 1;
      if gcCount % gcEvery != 0 {
        return;
      }
      ghost var before := index;
      var todo := index.Keys;
      while todo != {}
        invariant todo <= before.Keys && gcCount == old(gcCount) + 1
        invariant index.Keys == set hi | hi in before && (hi in todo || !AllExpired(before[hi], ttl, now))
        invariant forall hi | hi in index ::
                    index[hi] == if hi in todo then before[hi] else SweptBucket(before[hi], ttl, now)
        decreases |todo|
      {
        var hi :| hi in todo;
        todo := todo - {hi};
        SweepBucket(hi, now);
      }
      assert index.Keys == Swept(before, ttl, now).Keys;
    }

    method SweepBucket(hi: IndexKey, now: int)
      requires hi in index
      modifies this`index
      ensures index == if AllExpired(old(index)[hi], ttl, now) then old(index) - {hi}
                       else old(index)[hi := SweptBucket(old(index)[hi], ttl, now)]
    {
      var evts := index[hi];
      var expired := CountExpired(evts, now);
      if expired == |evts| {
        index := index - {hi};
      } else if expired > 0 {
        var rest := DeleteDue(evts, now);
        index := index[hi := rest];
      } else {
        assert index == index[hi := evts];
      }
    }
  }

  // ---------------------------------------------------------------------------
  // What a sweep removes
  // ---------------------------------------------------------------------------

  /** A sweep removes exactly the due events of those buckets that hold an expired one, and changes no other. */
  lemma SweepExactly(ix: Index, ttl: int, now: int, hi: IndexKey, hu: UniqueKey)
    requires Contains(ix, hi, hu)
    ensures !Contains(Swept(ix, ttl, now), hi, hu) <==>
              now - ix[hi][hu].eventDate >= ttl && exists k :: k in ix[hi] && now - ix[hi][k].eventDate > ttl
    ensures Contains(Swept(ix, ttl, now), hi, hu) ==> Swept(ix, ttl, now)[hi][hu] == ix[hi][hu]
  {
    var b := ix[hi];
    if AllExpired(b, ttl, now) {
      assert Expired(b[hu], ttl, now);
    }
  }

  /** A sweep never adds, and leaves no expired event. */
  lemma SweepLeavesNoneExpired(ix: Index, ttl: int, now: int, hi: IndexKey, hu: UniqueKey)
    requires Contains(Swept(ix, ttl, now), hi, hu)
    ensures Contains(ix, hi, hu) && now - Swept(ix, ttl, now)[hi][hu].eventDate <= ttl
  {
  }

  // ---------------------------------------------------------------------------
  // Whole runs
  // ---------------------------------------------------------------------------

  datatype Call = Call(evt: Event, now: int)

  datatype State = State(index: Index, count: nat)

  ghost function Run(ttl: int, every: nat, calls: seq<Call>): State
    requires every > 0
  {
    if calls == [] then State(map[], 0)
    else
      var s, c := Run(ttl, every, calls[..|calls| - 1]), calls[|calls| - 1];
      State(Added(s.index, s.count, every, ttl, c.evt, c.now), s.count + if Accepts(s.index, c.evt) then 1 else 0)
  }

  /** The events added for a key since the key was last absent. */
  ghost function Since(ttl: int, every: nat, calls: seq<Call>, hi: IndexKey, hu: UniqueKey): seq<Event>
    requires every > 0
  {
    if calls == [] || !Contains(Run(ttl, every, calls).index, hi, hu) then []
    else
      var evt := calls[|calls| - 1].evt;
      Since(ttl, every, calls[..|calls| - 1], hi, hu) + if evt.index == hi && evt.unique == hu then [evt] else []
  }

  function MessageDate(): Event -> int {
    (evt: Event) => evt.messageDate
  }

  ghost predicate HoldsNewest(ttl: int, every: nat, calls: seq<Call>, hi: IndexKey, hu: UniqueKey)
    requires every > 0
  {
    var ix := Run(ttl, every, calls).index;
    Contains(ix, hi, hu) ==> FirstNewest(Since(ttl, every, calls, hi, hu), MessageDate(), ix[hi][hu])
  }

  lemma PutEntry(ix: Index, evt: Event, hi: IndexKey, hu: UniqueKey)
    ensures var here := evt.index == hi && evt.unique == hu;
            && (Contains(Put(ix, evt), hi, hu) <==> Contains(ix, hi, hu) || here)
            && (Contains(Put(ix, evt), hi, hu) ==>
                  Put(ix, evt)[hi][hu] == if here && Accepts(ix, evt) then evt else ix[hi][hu])
  {
  }

  /** Every entry is the first arrival of the newest message for its key since the key was last collected. */
  lemma {:induction false} EntriesAreNewest(ttl: int, every: nat, calls: seq<Call>, hi: IndexKey, hu: UniqueKey)
    requires every > 0
    ensures HoldsNewest(ttl, every, calls, hi, hu)
  {
    if calls != [] {
      var init, c := calls[..|calls| - 1], calls[|calls| - 1];
      var s, t := Run(ttl, every, init), Run(ttl, every, calls);
      var mid := Put(s.index, c.evt);
      EntriesAreNewest(ttl, every, init, hi, hu);
      PutEntry(s.index, c.evt, hi, hu);
      if Contains(t.index, hi, hu) {
        if t.index != mid {
          SweepLeavesNoneExpired(mid, ttl, c.now, hi, hu);
          SweepExactly(mid, ttl, c.now, hi, hu);
        }
        assert t.index[hi][hu] == mid[hi][hu];
        var before := Since(ttl, every, init, hi, hu);
        var here := c.evt.index == hi && c.evt.unique == hu;
        if !Contains(s.index, hi, hu) {
          assert before + [c.evt] == [c.evt];
          FirstNewestOne(MessageDate(), c.evt);
        } else if here {
          FirstNewestSnoc(before, MessageDate(), s.index[hi][hu], c.evt);
        } else {
          assert before + [] == before;
        }
      }
    }
  }

  /** The last call was for a missing entry, or with a later message date than the entry's. */
  ghost predicate LastAccepted(ttl: int, every: nat, calls: seq<Call>)
    requires every > 0 && calls != []
  {
    var ix, evt := Run(ttl, every, calls[..|calls| - 1]).index, calls[|calls| - 1].evt;
    !Contains(ix, evt.index, evt.unique) || ix[evt.index][evt.unique].messageDate < evt.messageDate
  }

  /** How many calls were accepted. */
  ghost function AcceptedCalls(ttl: int, every: nat, calls: seq<Call>): nat
    requires every > 0
  {
    if calls == [] then 0
    else AcceptedCalls(ttl, every, calls[..|calls| - 1]) + if LastAccepted(ttl, every, calls) then 1 else 0
  }

  lemma {:induction false} CountIsAccepted(ttl: int, every: nat, calls: seq<Call>)
    requires every > 0
    ensures Run(ttl, every, calls).count == AcceptedCalls(ttl, every, calls)
  {
    if calls != [] {
      CountIsAccepted(ttl, every, calls[..|calls| - 1]);
    }
  }

  lemma LastStep(ttl: int, every: nat, calls: seq<Call>)
    requires every > 0 && calls != []
    ensures var s, t, c := Run(ttl, every, calls[..|calls| - 1]), Run(ttl, every, calls), calls[|calls| - 1];
            && t.index == Added(s.index, s.count, every, ttl, c.evt, c.now)
            && (LastAccepted(ttl, every, calls) <==> Accepts(s.index, c.evt))
            && t.count == s.count + if Accepts(s.index, c.evt) then 1 else 0
  {
  }

  lemma SweptNow(ix: Index, count: nat, every: nat, ttl: int, evt: Event, now: int, hi: IndexKey, hu: UniqueKey)
    requires every > 0 && Accepts(ix, evt) && (count + 1) % every == 0
    requires Contains(Added(ix, count, every, ttl, evt, now), hi, hu)
    ensures now - Added(ix, count, every, ttl, evt, now)[hi][hu].eventDate <= ttl
  {
    SweepLeavesNoneExpired(Put(ix, evt), ttl, now, hi, hu);
  }

  /** Right after every `every`-th accepted message, no expired event is left. */
  lemma SweptOnSchedule(ttl: int, every: nat, calls: seq<Call>, hi: IndexKey, hu: UniqueKey)
    requires every > 0 && calls != [] && LastAccepted(ttl, every, calls)
    requires AcceptedCalls(ttl, every, calls) % every == 0
    requires Contains(Run(ttl, every, calls).index, hi, hu)
    ensures calls[|calls| - 1].now - Run(ttl, every, calls).index[hi][hu].eventDate <= ttl
  {
    var s, c := Run(ttl, every, calls[..|calls| - 1]), calls[|calls| - 1];
    CountIsAccepted(ttl, every, calls);
    LastStep(ttl, every, calls);
    SweptNow(s.index, s.count, every, ttl, c.evt, c.now, hi, hu);
  }

  /** An entry disappears only by an accepted call that makes the number of them a multiple of `every`. */
  lemma GoneOnSchedule(ttl: int, every: nat, calls: seq<Call>, hi: IndexKey, hu: UniqueKey)
    requires every > 0 && calls != []
    requires Contains(Run(ttl, every, calls[..|calls| - 1]).index, hi, hu) && !Contains(Run(ttl, every, calls).index, hi, hu)
    ensures LastAccepted(ttl, every, calls) && AcceptedCalls(ttl, every, calls) % every == 0
  {
    var s, c := Run(ttl, every, calls[..|calls| - 1]), calls[|calls| - 1];
    CountIsAccepted(ttl, every, calls);
    LastStep(ttl, every, calls);
    PutEntry(s.index, c.evt, hi, hu);
  }

  /** An event younger than the TTL is never collected: only a newer message for its key replaces it. */
  lemma YoungEventsStay(ttl: int, every: nat, calls: seq<Call>, hi: IndexKey, hu: UniqueKey)
    requires every > 0 && calls != []
    requires var s := Run(ttl, every, calls[..|calls| - 1]);
             Contains(s.index, hi, hu) && calls[|calls| - 1].now - s.index[hi][hu].eventDate < ttl
    requires var evt := calls[|calls| - 1].evt; !(evt.index == hi && evt.unique == hu)
    ensures var s, t := Run(ttl, every, calls[..|calls| - 1]), Run(ttl, every, calls);
            Contains(t.index, hi, hu) && t.index[hi][hu] == s.index[hi][hu]
  {
    var s, c := Run(ttl, every, calls[..|calls| - 1]), calls[|calls| - 1];
    PutEntry(s.index, c.evt, hi, hu);
    SweepExactly(Put(s.index, c.evt), ttl, c.now, hi, hu);
  }

  lemma {:induction false} EntriesKeyed(ttl: int, every: nat, calls: seq<Call>, hi: IndexKey, hu: UniqueKey)
    requires every > 0
    ensures var ix := Run(ttl, every, calls).index;
            Contains(ix, hi, hu) ==> ix[hi][hu].index == hi && ix[hi][hu].unique == hu
  {
    if calls != [] {
      var init, c := calls[..|calls| - 1], calls[|calls| - 1];
      var mid := Put(Run(ttl, every, init).index, c.evt);
      EntriesKeyed(ttl, every, init, hi, hu);
      PutEntry(Run(ttl, every, init).index, c.evt, hi, hu);
      if Contains(Run(ttl, every, calls).index, hi, hu) && Run(ttl, every, calls).index != mid {
        SweepLeavesNoneExpired(mid, ttl, c.now, hi, hu);
        SweepExactly(mid, ttl, c.now, hi, hu);
      }
    }
  }

  /** What a bucket holds, in terms of the calls. */
  lemma GetIsNewest(ttl: int, every: nat, calls: seq<Call>, hi: IndexKey)
    requires every > 0
    ensures var ix := Run(ttl, every, calls).index;
            var evts := if hi in ix then ix[hi].Values else {};
            && (forall evt | evt in evts :: FirstNewest(Since(ttl, every, calls, hi, evt.unique), MessageDate(), evt) && evt.index == hi)
            && forall hu :: Since(ttl, every, calls, hi, hu) != [] <==> exists evt :: evt in evts && evt.unique == hu
  {
    var ix := Run(ttl, every, calls).index;
    var evts := if hi in ix then ix[hi].Values else {};
    forall evt | evt in evts
      ensures Contains(ix, hi, evt.unique) && ix[hi][evt.unique] == evt
      ensures FirstNewest(Since(ttl, every, calls, hi, evt.unique), MessageDate(), evt) && evt.index == hi
    {
      var hu :| hu in ix[hi] && ix[hi][hu] == evt;
      EntriesKeyed(ttl, every, calls, hi, hu);
      EntriesAreNewest(ttl, every, calls, hi, hu);
    }
    forall hu
      ensures Since(ttl, every, calls, hi, hu) != [] <==> exists evt :: evt in evts && evt.unique == hu
    {
      if Contains(ix, hi, hu) {
        EntriesKeyed(ttl, every, calls, hi, hu);
        EntriesAreNewest(ttl, every, calls, hi, hu);
        assert ix[hi][hu] in evts;
      }
    }
  }
}
