/**
 Memory accounting of the Redis event store (pkg/event/store/redis/redis.go). An author's usage is kept
 in buckets that expire; a key is gone from its expiry instant on. Event dates and the TTL are in
 nanoseconds, expiry times in seconds, and the current time in milliseconds.
 */
module RedisStore {
  import opened Newest
  import opened Sums

  const QUANTUM := 3600
  const NANOSECONDS := 1_000_000_000
  const MILLISECONDS := 1_000

  type Author = nat

  /** The key of an event: type and index together, and author and identifier together. */
  datatype EventKey = EventKey(topic: string, author: Author, id: string)

  datatype Event = Event(key: EventKey, messageDate: int, eventDate: int, size: nat)

  datatype Stored = Stored(evt: Event, expireAt: int)

  datatype BucketKey = BucketKey(author: Author, index: int)

  datatype Bucket = Bucket(value: int, expireAt: int)

  datatype State = State(events: map<EventKey, Stored>, usage: map<BucketKey, Bucket>)

  datatype Config = Config(ttl: int, memLimit: int)

  /** Integer division as the source's language defines it, towards zero. */
  function TruncDiv(a: int, b: int): int
    requires b > 0
  {
    if a >= 0 then a / b else -((-a) / b)
  }

  function Unix(date: int): int {
    date / NANOSECONDS
  }

  function IndexOf(eventDate: int): int {
    TruncDiv(Unix(eventDate), QUANTUM)
  }

  function BucketExpiry(c: Config, index: int): int {
    Unix((index * QUANTUM + QUANTUM) * NANOSECONDS + c.ttl)
  }

  function EventExpiry(c: Config, eventDate: int): int {
    Unix(eventDate + c.ttl)
  }

  predicate Live(expireAt: int, now: int) {
    now < expireAt * MILLISECONDS
  }

  /** The value a read sees, zero for a missing or expired bucket. */
  function ValueOf(s: State, k: BucketKey, now: int): int {
    if k in s.usage && Live(s.usage[k].expireAt, now) then s.usage[k].value else 0
  }

  ghost function LiveBuckets(s: State, author: Author, now: int): set<BucketKey> {
    set k | k in s.usage && k.author == author && Live(s.usage[k].expireAt, now)
  }

  function Values(s: State): BucketKey -> int {
    k => if k in s.usage then s.usage[k].value else 0
  }

  /** The author's accounted usage: the sum of its unexpired buckets. */
  ghost function Usage(s: State, author: Author, now: int): int {
    Sum(LiveBuckets(s, author, now), Values(s))
  }

  function LiveEvent(s: State, k: EventKey, now: int): bool {
    k in s.events && Live(s.events[k].expireAt, now)
  }

  // ---------------------------------------------------------------------------
  // Adding an event
  // ---------------------------------------------------------------------------

  function WithUsage(c: Config, s: State, author: Author, mem: int, eventDate: int, now: int): State {
    if c.memLimit == 0 || mem == 0 then s
    else
      var k := BucketKey(author, IndexOf(eventDate));
      var b := Bucket(ValueOf(s, k, now) + mem, BucketExpiry(c, k.index));
      s.(usage := if Live(b.expireAt, now) then s.usage[k := b] else s.usage - {k})
  }

  function WithEvent(c: Config, s: State, evt: Event, now: int): State {
    var e := Stored(evt, EventExpiry(c, evt.eventDate));
    s.(events := if Live(e.expireAt, now) then s.events[evt.key := e] else s.events - {evt.key})
  }

  datatype Outcome = Exceeded | Kept | Updated | Created

  ghost function Verdict(c: Config, s: State, evt: Event, now: int): Outcome {
    if c.memLimit > 0 && evt.size > c.memLimit - Usage(s, evt.key.author, now) then Exceeded
    else if !LiveEvent(s, evt.key, now) then Created
    else if s.events[evt.key].evt.messageDate < evt.messageDate then Updated
    else Kept
  }

  ghost function Added(c: Config, s: State, evt: Event, now: int): State {
    match Verdict(c, s, evt, now)
    case Exceeded => s
    case Kept => s
    case Updated =>
      var delta := evt.size - s.events[evt.key].evt.size;
      WithEvent(c, WithUsage(c, s, evt.key.author, delta, evt.eventDate, now), evt, now)
    case Created =>
      WithEvent(c, WithUsage(c, s, evt.key.author, evt.size, evt.eventDate, now), evt, now)
  }

  class Storage {
    const config: Config
    var events: map<EventKey, Stored>
    var usage: map<BucketKey, Bucket>

    function Abs(): State
      reads this
    {
      State(events, usage)
    }

    constructor (c: Config)
      ensures config == c && Abs() == State(map[], map[])
    {
      config, events, usage := c, map[], map[];
    }

    /** Scans the author's buckets and sums them up. */
    method GetAvailMem(author: Author, now: int) returns (mem: int)
      ensures mem == if config.memLimit == 0 then 0 else config.memLimit - Usage(Abs(), author, now)
    {
      if config.memLimit == 0 {
        return 0;
      }
      var size, todo := 0, usage.Keys;
      assert LiveBuckets(Abs(), author, now) - todo == {};
      while todo != {}
        invariant todo <= usage.Keys
        invariant size == Sum(LiveBuckets(Abs(), author, now) - todo, Values(Abs()))
        decreases |todo|
      {
        var k :| k in todo;
        ScanBucket(Abs(), author, now, todo, k);
        todo := todo - {k};
        if k.author == author && Live(usage[k].expireAt, now) {
          size := size + usage[k].value;
        }
      }
      assert LiveBuckets(Abs(), author, now) - {} == LiveBuckets(Abs(), author, now);
      return config.memLimit - size;
    }

    method IncrMemUsage(author: Author, mem: int, eventDate: int, now: int)
      modifies this
      ensures Abs() == WithUsage(config, old(Abs()), author, mem, eventDate, now)
    {
      if config.memLimit == 0 || mem == 0 {
        return;
      }
      var k := BucketKey(author, IndexOf(eventDate));
      var value := (if k in usage && Live(usage[k].expireAt, now) then usage[k].value else 0) + mem;
      var at := BucketExpiry(config, k.index);
      if Live(at, now) {
        usage := usage[k := Bucket(value, at)];
      } else {
        usage := usage - {k};
      }
    }

    method Put(evt: Event, now: int)
      modifies this
      ensures Abs() == WithEvent(config, old(Abs()), evt, now)
    {
      var at := EventExpiry(config, evt.eventDate);
      if Live(at, now) {
        events := events[evt.key := Stored(evt, at)];
      } else {
        events := events - {evt.key};
      }
    }

    method Add(evt: Event, now: int) returns (r: Outcome)
      modifies this
      ensures r == Verdict(config, old(Abs()), evt, now)
      ensures Abs() == Added(config, old(Abs()), evt, now)
      ensures var over := config.memLimit > 0 && evt.size + Usage(old(Abs()), evt.key.author, now) > config.memLimit;
              var live := evt.key in old(events) && Live(old(events)[evt.key].expireAt, now);
              && (r.Exceeded? <==> over)
              && (r.Created? <==> !over && !live)
              && (r.Updated? <==> !over && live && old(events)[evt.key].evt.messageDate < evt.messageDate)
              && (r.Kept? <==> !over && live && old(events)[evt.key].evt.messageDate >= evt.messageDate)
      ensures r.Exceeded? || r.Kept? ==> events == old(events) && usage == old(usage)
      ensures r.Created? || r.Updated? ==>
                && (forall k | k != evt.key :: k in events <==> k in old(events))
                && (forall k | k != evt.key && k in events :: events[k] == old(events)[k])
                && (evt.key in events <==> now < (evt.eventDate + config.ttl) / NANOSECONDS * MILLISECONDS)
                && (evt.key in events ==>
                      events[evt.key] == Stored(evt, (evt.eventDate + config.ttl) / NANOSECONDS))
      ensures config.memLimit == 0 ==> usage == old(usage)
      ensures r.Created? || r.Updated? ==>
                var home := BucketKey(evt.key.author, IndexOf(evt.eventDate));
                var charge := evt.size - if r.Updated? then old(events)[evt.key].evt.size else 0;
                && (forall b | b != home :: b in usage <==> b in old(usage))
                && (forall b | b != home && b in usage :: usage[b] == old(usage)[b])
                && (config.memLimit != 0 && Live(BucketExpiry(config, home.index), now) ==>
                      ValueOf(Abs(), home, now) == ValueOf(old(Abs()), home, now) + charge)
    {
      var mem := GetAvailMem(evt.key.author, now);
      if config.memLimit > 0 && evt.size > mem {
        return Exceeded;
      }
      if evt.key in events && Live(events[evt.key].expireAt, now) {
        var prev := events[evt.key].evt;
        if prev.messageDate < evt.messageDate {
          IncrMemUsage(evt.key.author, evt.size - prev.size, evt.eventDate, now);
          Put(evt, now);
          return Updated;
        }
        return Kept;
      }
      IncrMemUsage(evt.key.author, evt.size, evt.eventDate, now);
      Put(evt, now);
      return Created;
    }
  }

  /** What scanning one bucket adds to the sum of those already scanned. */
  lemma ScanBucket(s: State, author: Author, now: int, todo: set<BucketKey>, k: BucketKey)
    requires k in todo && k in s.usage
    ensures Sum(LiveBuckets(s, author, now) - (todo - {k}), Values(s)) ==
            Sum(LiveBuckets(s, author, now) - todo, Values(s)) +
            if k.author == author && Live(s.usage[k].expireAt, now) then s.usage[k].value else 0
  {
    var live := LiveBuckets(s, author, now);
    if k in live {
      SumAdd(live - todo, Values(s), k);
      assert live - (todo - {k}) == live - todo + {k};
    } else {
      assert live - (todo - {k}) == live - todo;
    }
  }

  // ---------------------------------------------------------------------------
  // What the accounting guarantees
  // ---------------------------------------------------------------------------

  /** The bucket index that the dates in all messages about an event share. */
  type Slots = EventKey -> int

  ghost function Covered(s: State, k: BucketKey, now: int): set<EventKey> {
    set e | e in s.events && e.author == k.author && IndexOf(s.events[e].evt.eventDate) == k.index &&
            Live(s.events[e].expireAt, now)
  }

  function Sizes(s: State): EventKey -> int {
    e => if e in s.events then s.events[e].evt.size else 0
  }

  ghost predicate WellKept(c: Config, slots: Slots, s: State) {
    && (forall e | e in s.events ::
          && s.events[e].evt.key == e && IndexOf(s.events[e].evt.eventDate) == slots(e)
          && s.events[e].expireAt == EventExpiry(c, s.events[e].evt.eventDate))
    && forall k | k in s.usage :: s.usage[k].expireAt == BucketExpiry(c, k.index)
  }

  /** The unexpired bytes a bucket covers never exceed its value, and no author's usage exceeds the limit. */
  ghost predicate Sound(c: Config, slots: Slots, s: State, now: int) {
    && WellKept(c, slots, s)
    && (forall k: BucketKey :: Sum(Covered(s, k, now), Sizes(s)) <= ValueOf(s, k, now))
    && (forall a: Author :: Usage(s, a, now) <= c.memLimit)
  }

  /** A bucket outlives every event it covers. */
  lemma BucketOutlivesEvent(c: Config, eventDate: int)
    ensures EventExpiry(c, eventDate) <= BucketExpiry(c, IndexOf(eventDate))
  {
    var u := Unix(eventDate);
    TruncBelow(u);
    assert eventDate < (u + 1) * NANOSECONDS;
    assert u + 1 <= IndexOf(eventDate) * QUANTUM + QUANTUM;
  }

  lemma TruncBelow(u: int)
    ensures u < TruncDiv(u, QUANTUM) * QUANTUM + QUANTUM
  {
  }

  /** A date's bucket index counts whole hours, towards the epoch. */
  lemma IndexExactly(eventDate: int)
    ensures var u := eventDate / NANOSECONDS;
            var i := IndexOf(eventDate);
            if u >= 0 then i * 3600 <= u < i * 3600 + 3600 else i * 3600 - 3600 < u <= i * 3600
  {
  }

  /** Buckets and events expire one TTL after the bucket's end and the event's date, in whole seconds. */
  lemma ExpiryExactly(c: Config, index: int, eventDate: int)
    ensures var end := (index * 3600 + 3600) * NANOSECONDS + c.ttl;
            BucketExpiry(c, index) * NANOSECONDS <= end < (BucketExpiry(c, index) + 1) * NANOSECONDS
    ensures var end := eventDate + c.ttl;
            EventExpiry(c, eventDate) * NANOSECONDS <= end < (EventExpiry(c, eventDate) + 1) * NANOSECONDS
  {
  }

  lemma UsageChange(c: Config, slots: Slots, s: State, author: Author, mem: int, eventDate: int, now: int)
    requires WellKept(c, slots, s) && c.memLimit != 0
    ensures var t := WithUsage(c, s, author, mem, eventDate, now);
            var k := BucketKey(author, IndexOf(eventDate));
            var change := if Live(BucketExpiry(c, k.index), now) then mem else 0;
            && WellKept(c, slots, t) && t.events == s.events
            && (forall b: BucketKey :: ValueOf(t, b, now) == ValueOf(s, b, now) + if b == k then change else 0)
            && (forall a: Author :: Usage(t, a, now) == Usage(s, a, now) + if a == author then change else 0)
  {
    var t := WithUsage(c, s, author, mem, eventDate, now);
    var k := BucketKey(author, IndexOf(eventDate));
    var change := if Live(BucketExpiry(c, k.index), now) then mem else 0;
    if mem != 0 {
      forall a: Author
        ensures Usage(t, a, now) == Usage(s, a, now) + if a == author then change else 0
      {
        var rest := LiveBuckets(s, a, now) - {k};
        assert rest == LiveBuckets(t, a, now) - {k};
        SumSame(rest, Values(s), Values(t));
        SplitBucket(s, a, k, now);
        SplitBucket(t, a, k, now);
      }
    }
  }

  /** One bucket's share in an author's usage. */
  lemma SplitBucket(s: State, a: Author, k: BucketKey, now: int)
    ensures Usage(s, a, now) ==
            Sum(LiveBuckets(s, a, now) - {k}, Values(s)) + if k.author == a then ValueOf(s, k, now) else 0
  {
    var all := LiveBuckets(s, a, now);
    if k in all {
      SumRemove(all, Values(s), k);
    } else {
      assert all - {k} == all;
    }
  }

  lemma EventChange(c: Config, slots: Slots, s: State, evt: Event, now: int, k: BucketKey)
    requires WellKept(c, slots, s) && IndexOf(evt.eventDate) == slots(evt.key)
    ensures var t := WithEvent(c, s, evt, now);
            var before := if evt.key in Covered(s, k, now) then s.events[evt.key].evt.size else 0;
            var here := k == BucketKey(evt.key.author, IndexOf(evt.eventDate));
            var after := if here && Live(EventExpiry(c, evt.eventDate), now) then evt.size else 0;
            && WellKept(c, slots, t) && t.usage == s.usage
            && Sum(Covered(t, k, now), Sizes(t)) == Sum(Covered(s, k, now), Sizes(s)) - before + after
  {
    var t := WithEvent(c, s, evt, now);
    var rest := Covered(s, k, now) - {evt.key};
    assert rest == Covered(t, k, now) - {evt.key};
    SumSame(rest, Sizes(s), Sizes(t));
    if evt.key in Covered(s, k, now) {
      SumRemove(Covered(s, k, now), Sizes(s), evt.key);
    } else {
      assert rest == Covered(s, k, now);
    }
    if evt.key in Covered(t, k, now) {
      SumRemove(Covered(t, k, now), Sizes(t), evt.key);
    } else {
      assert rest == Covered(t, k, now);
    }
  }

  /** How the two writes of an accepted message change the accounts. */
  ghost predicate Accepts(c: Config, slots: Slots, s: State, evt: Event, now: int) {
    && c.memLimit > 0 && Sound(c, slots, s, now) && IndexOf(evt.eventDate) == slots(evt.key)
    && (Verdict(c, s, evt, now).Created? || Verdict(c, s, evt, now).Updated?)
  }

  ghost function Charge(c: Config, s: State, evt: Event, now: int): int {
    evt.size - if Verdict(c, s, evt, now).Updated? then s.events[evt.key].evt.size else 0
  }

  function Home(evt: Event): BucketKey {
    BucketKey(evt.key.author, IndexOf(evt.eventDate))
  }

  /** The state between the two writes. */
  ghost function Charged(c: Config, s: State, evt: Event, now: int): State {
    WithUsage(c, s, evt.key.author, Charge(c, s, evt, now), evt.eventDate, now)
  }

  lemma AddedInTwoWrites(c: Config, slots: Slots, s: State, evt: Event, now: int)
    requires Accepts(c, slots, s, evt, now)
    ensures Added(c, s, evt, now) == WithEvent(c, Charged(c, s, evt, now), evt, now)
  {
  }

  lemma ChargeBytes(c: Config, slots: Slots, s: State, evt: Event, mem: int, now: int, k: BucketKey)
    requires WellKept(c, slots, s) && c.memLimit != 0
    ensures var mid := WithUsage(c, s, evt.key.author, mem, evt.eventDate, now);
            && WellKept(c, slots, mid) && mid.events == s.events
            && ValueOf(mid, k, now) == ValueOf(s, k, now) +
               (if k == Home(evt) && Live(BucketExpiry(c, k.index), now) then mem else 0)
            && Covered(mid, k, now) == Covered(s, k, now)
            && Sum(Covered(mid, k, now), Sizes(mid)) == Sum(Covered(s, k, now), Sizes(s))
  {
    UsageChange(c, slots, s, evt.key.author, mem, evt.eventDate, now);
    var mid := WithUsage(c, s, evt.key.author, mem, evt.eventDate, now);
    assert Covered(mid, k, now) == Covered(s, k, now);
    SumSame(Covered(s, k, now), Sizes(mid), Sizes(s));
  }

  lemma WasCovered(c: Config, slots: Slots, s: State, evt: Event, now: int, k: BucketKey)
    requires Accepts(c, slots, s, evt, now)
    ensures evt.key in Covered(s, k, now) <==> Verdict(c, s, evt, now).Updated? && k == Home(evt)
    ensures Verdict(c, s, evt, now).Updated? || Live(EventExpiry(c, evt.eventDate), now) ==>
              Live(BucketExpiry(c, Home(evt).index), now)
  {
    BucketOutlivesEvent(c, evt.eventDate);
    if Verdict(c, s, evt, now).Updated? {
      BucketOutlivesEvent(c, s.events[evt.key].evt.eventDate);
    }
  }

  lemma AddBytes(c: Config, slots: Slots, s: State, evt: Event, now: int, k: BucketKey)
    requires Accepts(c, slots, s, evt, now)
    ensures var t := Added(c, s, evt, now);
            WellKept(c, slots, t) && Sum(Covered(t, k, now), Sizes(t)) <= ValueOf(t, k, now)
  {
    var mid, t := Charged(c, s, evt, now), Added(c, s, evt, now);
    AddedInTwoWrites(c, slots, s, evt, now);
    ChargeBytes(c, slots, s, evt, Charge(c, s, evt, now), now, k);
    WasCovered(c, slots, s, evt, now, k);
    EventChange(c, slots, mid, evt, now, k);
    assert ValueOf(t, k, now) == ValueOf(mid, k, now);
    assert Sum(Covered(s, k, now), Sizes(s)) <= ValueOf(s, k, now);
  }

  lemma AddUsage(c: Config, slots: Slots, s: State, evt: Event, now: int, a: Author)
    requires Accepts(c, slots, s, evt, now)
    ensures Usage(Added(c, s, evt, now), a, now) <= c.memLimit
  {
    var mid := Charged(c, s, evt, now);
    AddedInTwoWrites(c, slots, s, evt, now);
    UsageChange(c, slots, s, evt.key.author, Charge(c, s, evt, now), evt.eventDate, now);
    PutKeepsUsage(c, mid, evt, now, a);
    assert Usage(s, a, now) <= c.memLimit;
  }

  lemma PutKeepsUsage(c: Config, s: State, evt: Event, now: int, a: Author)
    ensures Usage(WithEvent(c, s, evt, now), a, now) == Usage(s, a, now)
  {
    var t := WithEvent(c, s, evt, now);
    assert LiveBuckets(t, a, now) == LiveBuckets(s, a, now);
    SumSame(LiveBuckets(t, a, now), Values(t), Values(s));
  }

  lemma AddKeepsSound(c: Config, slots: Slots, s: State, evt: Event, now: int)
    requires c.memLimit > 0 && Sound(c, slots, s, now) && IndexOf(evt.eventDate) == slots(evt.key)
    ensures Sound(c, slots, Added(c, s, evt, now), now)
  {
    var t := Added(c, s, evt, now);
    if Accepts(c, slots, s, evt, now) {
      forall k: BucketKey
        ensures WellKept(c, slots, t) && Sum(Covered(t, k, now), Sizes(t)) <= ValueOf(t, k, now)
      {
        AddBytes(c, slots, s, evt, now, k);
      }
      AddBytes(c, slots, s, evt, now, BucketKey(0, 0));
      forall a: Author ensures Usage(t, a, now) <= c.memLimit {
        AddUsage(c, slots, s, evt, now, a);
      }
    }
  }

  /** A sound state stays sound while time passes, although its buckets expire. */
  lemma TimeKeepsSound(c: Config, slots: Slots, s: State, now: int, later: int)
    requires Sound(c, slots, s, now) && now <= later
    ensures Sound(c, slots, s, later)
  {
    forall k: BucketKey
      ensures Sum(Covered(s, k, later), Sizes(s)) <= ValueOf(s, k, later)
    {
      SumSubset(Covered(s, k, later), Covered(s, k, now), Sizes(s));
      if k in s.usage && !Live(s.usage[k].expireAt, later) {
        forall e | e in Covered(s, k, later) ensures false {
          BucketOutlivesEvent(c, s.events[e].evt.eventDate);
        }
        assert Covered(s, k, later) == {};
      }
    }
    forall a: Author
      ensures Usage(s, a, later) <= c.memLimit
    {
      forall k | k in LiveBuckets(s, a, now) ensures Values(s)(k) >= 0 {
        SumPositive(Covered(s, k, now), Sizes(s));
        assert ValueOf(s, k, now) == Values(s)(k);
      }
      assert LiveBuckets(s, a, later) <= LiveBuckets(s, a, now);
      SumSubset(LiveBuckets(s, a, later), LiveBuckets(s, a, now), Values(s));
      assert Usage(s, a, now) <= c.memLimit;
    }
  }

  // ---------------------------------------------------------------------------
  // An author's live bytes
  // ---------------------------------------------------------------------------

  ghost function EventsOf(s: State, a: Author, now: int): set<EventKey> {
    set e | e in s.events && e.author == a && Live(s.events[e].expireAt, now)
  }

  ghost function EventsIn(s: State, buckets: set<BucketKey>, now: int): set<EventKey> {
    set e | e in s.events && BucketKey(e.author, IndexOf(s.events[e].evt.eventDate)) in buckets &&
            Live(s.events[e].expireAt, now)
  }

  function SeenValues(s: State, now: int): BucketKey -> int {
    k => ValueOf(s, k, now)
  }

  lemma {:induction false} BucketsCover(c: Config, slots: Slots, s: State, buckets: set<BucketKey>, now: int)
    requires Sound(c, slots, s, now)
    ensures Sum(EventsIn(s, buckets, now), Sizes(s)) <= Sum(buckets, SeenValues(s, now))
    decreases |buckets|
  {
    if buckets == {} {
      assert EventsIn(s, buckets, now) == {};
    } else {
      var k :| k in buckets;
      BucketsCover(c, slots, s, buckets - {k}, now);
      SumRemove(buckets, SeenValues(s, now), k);
      var rest, here := EventsIn(s, buckets - {k}, now), Covered(s, k, now);
      assert EventsIn(s, buckets, now) == rest + here;
      SumUnion(rest, here, Sizes(s));
    }
  }

  /** In a sound state, an author's unexpired bytes are within its usage, and so within the limit. */
  lemma BytesWithinUsage(c: Config, slots: Slots, s: State, a: Author, now: int)
    requires Sound(c, slots, s, now)
    ensures Sum(EventsOf(s, a, now), Sizes(s)) <= Usage(s, a, now) <= c.memLimit
  {
    var mine := EventsOf(s, a, now);
    var buckets := set e | e in mine :: BucketKey(a, IndexOf(s.events[e].evt.eventDate));
    var live := LiveBuckets(s, a, now);
    assert EventsIn(s, buckets, now) == mine by {
      forall e | e in EventsIn(s, buckets, now) ensures e in mine {}
      forall e | e in mine ensures e in EventsIn(s, buckets, now) {}
    }
    BucketsCover(c, slots, s, buckets, now);
    var v := SeenValues(s, now);
    forall k | k in live ensures v(k) == Values(s)(k) >= 0 {
      SumPositive(Covered(s, k, now), Sizes(s));
    }
    SumSame(live, v, Values(s));
    SumSubset(buckets * live, live, v);
    assert buckets == (buckets * live) + (buckets - live);
    SumUnion(buckets * live, buckets - live, v);
    SumZero(buckets - live, v);
  }

  // ---------------------------------------------------------------------------
  // Whole runs
  // ---------------------------------------------------------------------------

  datatype Message = Message(evt: Event, at: int)

  ghost predicate InTime(start: int, ms: seq<Message>) {
    && (forall i | 0 <= i < |ms| :: start <= ms[i].at)
    && forall i, j | 0 <= i < j < |ms| :: ms[i].at <= ms[j].at
  }

  /** Messages arrive in order of time and agree on each event's bucket. */
  ghost predicate Orderly(slots: Slots, start: int, ms: seq<Message>) {
    InTime(start, ms) && forall i | 0 <= i < |ms| :: IndexOf(ms[i].evt.eventDate) == slots(ms[i].evt.key)
  }

  ghost function Run(c: Config, s: State, ms: seq<Message>): State
    decreases |ms|
  {
    if ms == [] then s else Run(c, Added(c, s, ms[0].evt, ms[0].at), ms[1..])
  }

  lemma {:induction false} RunKeepsSound(c: Config, slots: Slots, s: State, start: int, ms: seq<Message>, now: int)
    requires c.memLimit > 0 && Sound(c, slots, s, start) && Orderly(slots, start, ms)
    requires start <= now && (ms != [] ==> ms[|ms| - 1].at <= now)
    ensures Sound(c, slots, Run(c, s, ms), now)
    decreases |ms|
  {
    if ms == [] {
      TimeKeepsSound(c, slots, s, start, now);
    } else {
      var m := ms[0];
      TimeKeepsSound(c, slots, s, start, m.at);
      AddKeepsSound(c, slots, s, m.evt, m.at);
      OrderlyTail(slots, start, ms);
      RunKeepsSound(c, slots, Added(c, s, m.evt, m.at), m.at, ms[1..], now);
    }
  }

  lemma OrderlyTail(slots: Slots, start: int, ms: seq<Message>)
    requires Orderly(slots, start, ms) && ms != []
    ensures Orderly(slots, ms[0].at, ms[1..]) && ms[0].at <= ms[|ms| - 1].at
  {
  }

  /** The author's unexpired bytes are within its usage, and that is within the limit. */
  ghost predicate Within(c: Config, s: State, a: Author, now: int) {
    Sum(EventsOf(s, a, now), Sizes(s)) <= Usage(s, a, now) <= c.memLimit
  }

  const EMPTY := State(map[], map[])

  /** After any messages and any passage of time, each author is within its usage and the limit. */
  lemma LimitHolds(c: Config, slots: Slots, start: int, ms: seq<Message>, now: int, a: Author)
    requires c.memLimit > 0 && Orderly(slots, start, ms) && start <= now
    requires ms != [] ==> ms[|ms| - 1].at <= now
    ensures Within(c, Run(c, EMPTY, ms), a, now)
  {
    forall k: BucketKey ensures Sum(Covered(EMPTY, k, start), Sizes(EMPTY)) <= ValueOf(EMPTY, k, start) {
      assert Covered(EMPTY, k, start) == {};
    }
    forall b: Author ensures Usage(EMPTY, b, start) <= c.memLimit {
      assert LiveBuckets(EMPTY, b, start) == {};
    }
    RunKeepsSound(c, slots, EMPTY, start, ms, now);
    BytesWithinUsage(c, slots, Run(c, EMPTY, ms), a, now);
  }

  // ---------------------------------------------------------------------------
  // Which message is stored
  // ---------------------------------------------------------------------------

  /** The state after the messages, each added at its arrival. */
  ghost function After(c: Config, ms: seq<Message>): State {
    if ms == [] then EMPTY
    else Added(c, After(c, ms[..|ms| - 1]), ms[|ms| - 1].evt, ms[|ms| - 1].at)
  }

  lemma {:induction false} RunIsAfter(c: Config, before: seq<Message>, ms: seq<Message>)
    ensures Run(c, After(c, before), ms) == After(c, before + ms)
    decreases |ms|
  {
    if ms == [] {
      assert before + ms == before;
    } else {
      var more := before + [ms[0]];
      assert more[..|more| - 1] == before;
      RunIsAfter(c, more, ms[1..]);
      assert more + ms[1..] == before + ms;
    }
  }

  /** The message is refused for lack of memory. */
  ghost predicate Refused(c: Config, s: State, m: Message) {
    c.memLimit > 0 && m.evt.size + Usage(s, m.evt.key.author, m.at) > c.memLimit
  }

  /** The messages about an event that were not refused since its key was last absent. */
  ghost function History(c: Config, ms: seq<Message>, k: EventKey): seq<Event> {
    if ms == [] then []
    else
      var init, m := ms[..|ms| - 1], ms[|ms| - 1];
      var s := After(c, init);
      (if LiveEvent(s, k, m.at) then History(c, init, k) else []) +
      if m.evt.key == k && !Refused(c, s, m) then [m.evt] else []
  }

  function MessageDate(): Event -> int {
    (evt: Event) => evt.messageDate
  }

  lemma AddedEntry(c: Config, s: State, m: Message, k: EventKey, now: int)
    requires m.at <= now && LiveEvent(Added(c, s, m.evt, m.at), k, now)
    ensures var t := Added(c, s, m.evt, m.at);
            var live, here := LiveEvent(s, k, m.at), m.evt.key == k && !Refused(c, s, m);
            && (live || here)
            && t.events[k].evt ==
               if here && (!live || s.events[k].evt.messageDate < m.evt.messageDate) then m.evt else s.events[k].evt
  {
  }

  /** Every unexpired event is the first arrival of its newest message since its key was last absent. */
  lemma {:induction false} EventsAreNewest(c: Config, start: int, ms: seq<Message>, k: EventKey, now: int)
    requires InTime(start, ms) && (ms != [] ==> ms[|ms| - 1].at <= now)
    requires LiveEvent(After(c, ms), k, now)
    ensures FirstNewest(History(c, ms, k), MessageDate(), After(c, ms).events[k].evt)
    decreases |ms|
  {
    var init, m := ms[..|ms| - 1], ms[|ms| - 1];
    var s := After(c, init);
    AddedEntry(c, s, m, k, now);
    if LiveEvent(s, k, m.at) {
      EventsAreNewest(c, start, init, k, m.at);
      if m.evt.key == k && !Refused(c, s, m) {
        FirstNewestSnoc(History(c, init, k), MessageDate(), s.events[k].evt, m.evt);
      } else {
        assert History(c, init, k) + [] == History(c, init, k);
      }
    } else {
      assert [] + [m.evt] == [m.evt];
      FirstNewestOne(MessageDate(), m.evt);
    }
  }

  /** The same, for the run that starts without any events. */
  lemma StoredIsNewest(c: Config, start: int, ms: seq<Message>, k: EventKey, now: int)
    requires InTime(start, ms) && (ms != [] ==> ms[|ms| - 1].at <= now)
    requires LiveEvent(Run(c, EMPTY, ms), k, now)
    ensures FirstNewest(History(c, ms, k), MessageDate(), Run(c, EMPTY, ms).events[k].evt)
  {
    RunIsAfter(c, [], ms);
    assert [] + ms == ms;
    EventsAreNewest(c, start, ms, k, now);
  }

  // ---------------------------------------------------------------------------
  // The exact condition on event dates
  // ---------------------------------------------------------------------------

  /** The dates that messages about an event may carry. */
  type Allowed = (EventKey, int) -> bool

  ghost predicate Permitted(allowed: Allowed, start: int, ms: seq<Message>) {
    InTime(start, ms) && forall i | 0 <= i < |ms| :: allowed(ms[i].evt.key, ms[i].evt.eventDate)
  }

  ghost predicate OneBucket(allowed: Allowed) {
    forall k: EventKey, d: int, e: int | allowed(k, d) && allowed(k, e) :: IndexOf(d) == IndexOf(e)
  }

  ghost predicate AlwaysWithin(c: Config, allowed: Allowed) {
    forall start: int, ms: seq<Message>, now: int, a: Author
      | Permitted(allowed, start, ms) && start <= now && (ms != [] ==> ms[|ms| - 1].at <= now) ::
      Within(c, Run(c, EMPTY, ms), a, now)
  }

  ghost function SlotOf(allowed: Allowed, k: EventKey): int {
    if d: int :| allowed(k, d) then IndexOf(d) else 0
  }

  /** A second message that moves an event to a later bucket takes its bytes from that bucket, not from the first one. */
  lemma MovedDateEscapes(c: Config, k: EventKey, d: int, e: int) returns (start: int, ms: seq<Message>, now: int)
    requires c.memLimit > 0 && IndexOf(d) < IndexOf(e)
    ensures InTime(start, ms) && |ms| == 2 && start <= ms[1].at <= now
    ensures ms[0].evt.key == ms[1].evt.key == k && ms[0].evt.eventDate == d && ms[1].evt.eventDate == e
    ensures !Within(c, Run(c, EMPTY, ms), k.author, now)
  {
    var first, second := Event(k, 0, d, 1), Event(k, 1, e, 0);
    start := EventExpiry(c, d) * MILLISECONDS - 1;
    now := BucketExpiry(c, IndexOf(d)) * MILLISECONDS;
    ms := [Message(first, start), Message(second, start)];
    BucketOutlivesEvent(c, d);
    LaterBucket(c, IndexOf(d), IndexOf(e));
    MovedState(c, k, d, e, start);
    var end := Run(c, EMPTY, ms);
    assert ms[1..] == [Message(second, start)] && ms[1..][1..] == [];
    var s1 := Added(c, EMPTY, first, start);
    assert end == Run(c, s1, ms[1..]) == Run(c, Added(c, s1, second, start), []);
    OnlyLaterBucket(end, BucketKey(k.author, IndexOf(d)), BucketKey(k.author, IndexOf(e)), now);
    forall x | x in EventsOf(end, k.author, now) ensures Sizes(end)(x) == 0 {}
    SumZero(EventsOf(end, k.author, now), Sizes(end));
  }

  lemma LaterBucket(c: Config, i: int, j: int)
    requires i < j
    ensures BucketExpiry(c, i) < BucketExpiry(c, j)
  {
    assert (j * QUANTUM + QUANTUM) * NANOSECONDS + c.ttl >= (i * QUANTUM + QUANTUM) * NANOSECONDS + c.ttl + NANOSECONDS;
  }

  /** The accounts after both messages. */
  lemma MovedState(c: Config, k: EventKey, d: int, e: int, at: int)
    requires c.memLimit > 0 && IndexOf(d) < IndexOf(e)
    requires Live(EventExpiry(c, d), at)
    ensures var s1 := Added(c, EMPTY, Event(k, 0, d, 1), at);
            var s2 := Added(c, s1, Event(k, 1, e, 0), at);
            && s2.usage == map[BucketKey(k.author, IndexOf(d)) := Bucket(1, BucketExpiry(c, IndexOf(d))),
                               BucketKey(k.author, IndexOf(e)) := Bucket(-1, BucketExpiry(c, IndexOf(e)))]
            && forall x | x in s2.events :: s2.events[x].evt.size == 0
  {
    var b1, b2 := BucketKey(k.author, IndexOf(d)), BucketKey(k.author, IndexOf(e));
    BucketOutlivesEvent(c, d);
    LaterBucket(c, IndexOf(d), IndexOf(e));
    assert LiveBuckets(EMPTY, k.author, at) == {};
    var s1 := Added(c, EMPTY, Event(k, 0, d, 1), at);
    assert s1.usage == map[b1 := Bucket(1, BucketExpiry(c, IndexOf(d)))];
    assert s1.events == map[k := Stored(Event(k, 0, d, 1), EventExpiry(c, d))];
    assert LiveBuckets(s1, k.author, at) == {b1};
    SumRemove({b1}, Values(s1), b1);
    assert {b1} - {b1} == {};
    assert Verdict(c, s1, Event(k, 1, e, 0), at).Updated?;
  }

  /** Once the first bucket has expired, the usage is negative. */
  lemma OnlyLaterBucket(s: State, b1: BucketKey, b2: BucketKey, now: int)
    requires b1.author == b2.author && b1 != b2 && s.usage.Keys == {b1, b2}
    requires !Live(s.usage[b1].expireAt, now) && Live(s.usage[b2].expireAt, now) && s.usage[b2].value == -1
    ensures Usage(s, b1.author, now) == -1
  {
    assert LiveBuckets(s, b1.author, now) == {b2};
    SumRemove({b2}, Values(s), b2);
    assert {b2} - {b2} == {};
  }

  /** The bounds hold in every run exactly when all dates allowed for an event fall into one bucket. */
  lemma LimitHoldsExactly(c: Config, allowed: Allowed)
    requires c.memLimit > 0
    ensures AlwaysWithin(c, allowed) <==> OneBucket(allowed)
  {
    if OneBucket(allowed) {
      var slots: Slots := k => SlotOf(allowed, k);
      forall start: int, ms: seq<Message>, now: int, a: Author
        | Permitted(allowed, start, ms) && start <= now && (ms != [] ==> ms[|ms| - 1].at <= now)
        ensures Within(c, Run(c, EMPTY, ms), a, now)
      {
        assert Orderly(slots, start, ms);
        LimitHolds(c, slots, start, ms, now, a);
      }
    } else {
      var k, d, e :| allowed(k, d) && allowed(k, e) && IndexOf(d) != IndexOf(e);
      var start, ms, now :=
        MovedDateEscapes(c, k, if IndexOf(d) < IndexOf(e) then d else e, if IndexOf(d) < IndexOf(e) then e else d);
      assert Permitted(allowed, start, ms);
      assert !Within(c, Run(c, EMPTY, ms), k.author, now);
    }
  }
}
