/**
 Prices from arrival to the contract: whole runs of collecting prices, updating feeder lists and relaying
 (pkg/price/store, pkg/price/relayer, pkg/price/median/geth).
 */
module PriceFlow {
  import opened Wrappers
  import opened Sorting
  import opened PriceStore
  import opened Median
  import opened Relayer

  /** An update sent to the contract, with what it was based on; `seen` counts the arrivals before it. */
  datatype Update = Update(name: string, bar: int, age: int, feeders: seq<Address>, seen: nat, args: PokeArgs)

  datatype State = State(arrivals: seq<Price>, pairs: map<string, Pair>, updates: seq<Update>)

  datatype Step =
    | Collect(price: Price)
    | Sync(name: string, feeds: Option<seq<Address>>)
    | Relay(name: string, oracle: Oracle, now: int, result: RelayResult)

  /** The services' signature recovery and the store's supported pairs. */
  datatype Config = Config(recover: Recoverer, supported: seq<string>)

  ghost predicate Enabled(c: Config, s: State, step: Step) {
    match step
    case Collect(_) => true
    case Sync(name, _) => name in s.pairs
    case Relay(name, oracle, now, result) =>
      MayRelay(c.recover, BookOf(c.recover, c.supported, s.arrivals), s.pairs, name, oracle, now, result)
  }

  ghost function Apply(c: Config, s: State, step: Step): State
    requires Enabled(c, s, step)
  {
    match step
    case Collect(price) => s.(arrivals := s.arrivals + [price])
    case Sync(name, feeds) =>
      if feeds.None? then s else s.(pairs := s.pairs[name := s.pairs[name].(feeders := feeds.value)])
    case Relay(name, oracle, now, result) =>
      if result.Poked?
      then s.(updates := s.updates + [
        Update(name, oracle.bar.value, oracle.age.value, s.pairs[name].feeders, |s.arrivals|, result.args)])
      else s
  }

  ghost predicate IsRun(c: Config, s: State, steps: seq<Step>)
    decreases |steps|
  {
    steps == [] || (Enabled(c, s, steps[0]) && IsRun(c, Apply(c, s, steps[0]), steps[1..]))
  }

  ghost function Run(c: Config, s: State, steps: seq<Step>): State
    requires IsRun(c, s, steps)
    decreases |steps|
  {
    if steps == [] then s else Run(c, Apply(c, s, steps[0]), steps[1..])
  }

  /** A price the contract can accept: positive, recent, by a listed feeder, and that feeder's latest one. */
  ghost predicate Proper(c: Config, arrivals: seq<Price>, u: Update, p: Price) {
    && p.wat == u.name && p.val > 0 && p.age >= u.age
    && c.recover(p).Some? && c.recover(p).value in u.feeders
    && u.name in c.supported
    && IsLatestPrice(c.recover, c.supported, arrivals, FeederPrice(u.name, c.recover(p).value), p)
  }

  ghost predicate ProperCall(c: Config, arrivals: seq<Price>, u: Update, p: seq<Price>) {
    && IsCall(u.args, p) && |p| == u.bar && SortedBy(p, ByVal()) && DistinctSigners(c.recover, p)
    && forall x | x in p :: Proper(c, arrivals, u, x)
  }

  ghost predicate WellFormed(c: Config, s: State, u: Update) {
    u.seen <= |s.arrivals| && exists p: seq<Price> :: ProperCall(c, s.arrivals[..u.seen], u, p)
  }

  ghost predicate AllWellFormed(c: Config, s: State) {
    forall u | u in s.updates :: WellFormed(c, s, u)
  }

  lemma EntryIsProper(c: Config, arrivals: seq<Price>, u: Update, k: FeederPrice)
    requires k in Eligible(c.recover, BookOf(c.recover, c.supported, arrivals), u.name, u.feeders, u.age)
    ensures Proper(c, arrivals, u, BookOf(c.recover, c.supported, arrivals)[k])
  {
    BookIsSound(c.recover, c.supported, arrivals);
    BookIsLatest(c.recover, c.supported, arrivals, k);
  }

  lemma RelayIsWellFormed(c: Config, s: State, step: Step)
    requires step.Relay? && step.result.Poked? && Enabled(c, s, step)
    ensures var t := Apply(c, s, step);
            t.updates == s.updates + [t.updates[|s.updates|]] && WellFormed(c, t, t.updates[|s.updates|])
  {
    var u := Apply(c, s, step).updates[|s.updates|];
    var book := BookOf(c.recover, c.supported, s.arrivals);
    var eligible := Eligible(c.recover, book, u.name, u.feeders, u.age);
    var p: seq<Price> :|
      IsSelection(c.recover, book, eligible, u.bar, p) &&
      Fits(s.pairs[u.name], u.bar, u.age, step.oracle.val.value, step.now, p, step.result);
    forall x | x in p
      ensures Proper(c, s.arrivals, u, x)
    {
      var k :| k in eligible && k in book && book[k] == x;
      EntryIsProper(c, s.arrivals, u, k);
    }
    assert s.arrivals[..u.seen] == s.arrivals;
    assert ProperCall(c, s.arrivals[..u.seen], u, p);
  }

  lemma StepKeepsWellFormed(c: Config, s: State, step: Step)
    requires AllWellFormed(c, s) && Enabled(c, s, step)
    ensures AllWellFormed(c, Apply(c, s, step))
  {
    var t := Apply(c, s, step);
    if step.Relay? && step.result.Poked? {
      RelayIsWellFormed(c, s, step);
    }
    forall u | u in t.updates
      ensures WellFormed(c, t, u)
    {
      if u in s.updates {
        assert t.arrivals[..u.seen] == s.arrivals[..u.seen];
      }
    }
  }

  /**
   Over any run, every update carries exactly `bar` prices in order of value, by different feeders, each of them
   listed, and each price positive, not older than the oracle's and the latest of its feeder at that moment.
   */
  lemma {:induction false} UpdatesAreWellFormed(c: Config, s: State, steps: seq<Step>)
    requires AllWellFormed(c, s) && IsRun(c, s, steps)
    ensures AllWellFormed(c, Run(c, s, steps))
    decreases |steps|
  {
    if steps != [] {
      StepKeepsWellFormed(c, s, steps[0]);
      UpdatesAreWellFormed(c, Apply(c, s, steps[0]), steps[1..]);
    }
  }

  // ---------------------------------------------------------------------------
  // What a run has seen
  // ---------------------------------------------------------------------------

  /** The prices that arrived, in order. */
  function PricesIn(steps: seq<Step>): seq<Price>
    decreases |steps|
  {
    if steps == [] then []
    else (if steps[0].Collect? then [steps[0].price] else []) + PricesIn(steps[1..])
  }

  /** The updates sent, in order. */
  function SentIn(steps: seq<Step>): seq<PokeArgs>
    decreases |steps|
  {
    if steps == [] then []
    else (if steps[0].Relay? && steps[0].result.Poked? then [steps[0].result.args] else []) + SentIn(steps[1..])
  }

  /** The list last read for a pair, or the one it started with. */
  function FeedersIn(steps: seq<Step>, name: string, feeders: seq<Address>): seq<Address>
    decreases |steps|
  {
    if steps == [] then feeders
    else
      var step := steps[0];
      FeedersIn(steps[1..], name, if step.Sync? && step.name == name && step.feeds.Some? then step.feeds.value else feeders)
  }

  /** Every price that arrived is in the store's history, in order. */
  lemma {:induction false} RunHasArrivals(c: Config, s: State, steps: seq<Step>)
    requires IsRun(c, s, steps)
    ensures Run(c, s, steps).arrivals == s.arrivals + PricesIn(steps)
    decreases |steps|
  {
    if steps != [] {
      var first := if steps[0].Collect? then [steps[0].price] else [];
      var t := Apply(c, s, steps[0]);
      RunHasArrivals(c, t, steps[1..]);
      assert t.arrivals == s.arrivals + first;
      assert s.arrivals + first + PricesIn(steps[1..]) == s.arrivals + (first + PricesIn(steps[1..]));
    }
  }

  function ArgsOf(updates: seq<Update>): (r: seq<PokeArgs>)
    ensures |r| == |updates| && forall i | 0 <= i < |r| :: r[i] == updates[i].args
  {
    seq(|updates|, i requires 0 <= i < |updates| => updates[i].args)
  }

  /** The updates are the ones that relays sent, in order. */
  lemma {:induction false} RunHasUpdates(c: Config, s: State, steps: seq<Step>)
    requires IsRun(c, s, steps)
    ensures ArgsOf(Run(c, s, steps).updates) == ArgsOf(s.updates) + SentIn(steps)
    decreases |steps|
  {
    if steps != [] {
      var first := if steps[0].Relay? && steps[0].result.Poked? then [steps[0].result.args] else [];
      var t := Apply(c, s, steps[0]);
      RunHasUpdates(c, t, steps[1..]);
      assert ArgsOf(t.updates) == ArgsOf(s.updates) + first;
      assert ArgsOf(s.updates) + first + SentIn(steps[1..]) == ArgsOf(s.updates) + (first + SentIn(steps[1..]));
    }
  }

  /** A pair keeps its spread and expiration, and has the list of feeders that was read for it last. */
  lemma {:induction false} RunHasFeeders(c: Config, s: State, steps: seq<Step>, name: string)
    requires IsRun(c, s, steps) && name in s.pairs
    ensures var t := Run(c, s, steps);
            && t.pairs.Keys == s.pairs.Keys
            && t.pairs[name] == s.pairs[name].(feeders := FeedersIn(steps, name, s.pairs[name].feeders))
    decreases |steps|
  {
    if steps != [] {
      RunHasFeeders(c, Apply(c, s, steps[0]), steps[1..], name);
    }
  }

  /** An update records the quorum, age and feeder list that its relay went by. */
  lemma UpdateRecords(c: Config, s: State, step: Step)
    requires step.Relay? && step.result.Poked? && Enabled(c, s, step)
    ensures var u := Apply(c, s, step).updates[|s.updates|];
            && u.name == step.name && step.name in s.pairs && u.feeders == s.pairs[step.name].feeders
            && step.oracle.bar == Some(u.bar) && step.oracle.age == Some(u.age)
            && u.seen == |s.arrivals| && u.args == step.result.args
  {
  }

  // ---------------------------------------------------------------------------
  // Robustness against corrupt feeders
  // ---------------------------------------------------------------------------

  /** Every price that the update could have used, by a listed feeder that is not corrupt, lies in the interval. */
  ghost predicate HonestWithin(c: Config, arrivals: seq<Price>, u: Update, corrupt: set<Address>, lo: int, hi: int) {
    forall p | p in arrivals && p.wat == u.name && p.age >= u.age && c.recover(p).Some? &&
               c.recover(p).value in u.feeders && c.recover(p).value !in corrupt ::
      lo <= p.val <= hi
  }

  /** Each corrupt signer accounts for at most one of the prices. */
  lemma {:induction false} FewCorrupt(recover: Recoverer, p: seq<Price>, corrupt: set<Address>, lo: int, hi: int)
    requires DistinctSigners(recover, p) && forall i | 0 <= i < |p| :: recover(p[i]).Some?
    requires forall i | 0 <= i < |p| && recover(p[i]).value !in corrupt :: lo <= p[i].val <= hi
    ensures CountIn(Vals(p), lo, hi) + |corrupt| >= |p|
    decreases |p|
  {
    if p != [] {
      var signer := recover(p[0]).value;
      assert Vals(p)[1..] == Vals(p[1..]);
      if signer in corrupt {
        FewCorrupt(recover, p[1..], corrupt - {signer}, lo, hi);
      } else {
        FewCorrupt(recover, p[1..], corrupt, lo, hi);
      }
    }
  }

  lemma WellFormedIsRobust(c: Config, s: State, u: Update, corrupt: set<Address>, lo: int, hi: int)
    requires WellFormed(c, s, u) && 2 * |corrupt| < u.bar
    requires HonestWithin(c, s.arrivals[..u.seen], u, corrupt, lo, hi)
    ensures u.args.val != [] && lo <= Sorting.Median(u.args.val) <= hi
  {
    var arrivals := s.arrivals[..u.seen];
    var p: seq<Price> :| ProperCall(c, arrivals, u, p);
    forall i | 0 <= i < |p|
      ensures c.recover(p[i]).Some? && (c.recover(p[i]).value !in corrupt ==> lo <= p[i].val <= hi)
    {
      assert p[i] in p;
      assert Proper(c, arrivals, u, p[i]);
      assert p[i] in arrivals;
    }
    FewCorrupt(c.recover, p, corrupt, lo, hi);
    assert u.args.val == Vals(p);
    MedianRobust(Vals(p), lo, hi);
  }

  /**
   Over any run: as long as fewer than half of the quorum's number of feeders are corrupt, the median of every update
   lies among the prices of the others.
   */
  lemma UpdatesAreRobust(
    c: Config, s: State, steps: seq<Step>, u: Update, corrupt: set<Address>, lo: int, hi: int)
    requires AllWellFormed(c, s) && IsRun(c, s, steps) && u in Run(c, s, steps).updates
    requires 2 * |corrupt| < u.bar && u.seen <= |Run(c, s, steps).arrivals|
    requires HonestWithin(c, Run(c, s, steps).arrivals[..u.seen], u, corrupt, lo, hi)
    ensures u.args.val != [] && lo <= Sorting.Median(u.args.val) <= hi
  {
    UpdatesAreWellFormed(c, s, steps);
    WellFormedIsRobust(c, Run(c, s, steps), u, corrupt, lo, hi);
  }

  // ---------------------------------------------------------------------------
  // The services at work
  // ---------------------------------------------------------------------------

  /** What happens to the services: a price arrives, a feeder list is read, or a relay is due and the oracle is read. */
  datatype Happening =
    | Arrived(price: Price)
    | FeedsRead(name: string, feeds: Option<seq<Address>>)
    | Due(name: string, oracle: Oracle, now: int)

  /** A step, without its outcome. */
  function Cause(step: Step): Happening {
    match step
    case Collect(price) => Arrived(price)
    case Sync(name, feeds) => FeedsRead(name, feeds)
    case Relay(name, oracle, now, _) => Due(name, oracle, now)
  }

  function Causes(steps: seq<Step>): (r: seq<Happening>)
    ensures |r| == |steps|
  {
    seq(|steps|, i requires 0 <= i < |steps| => Cause(steps[i]))
  }

  /** Feeder lists are read for configured pairs only. */
  predicate Configured(happenings: seq<Happening>, pairs: set<string>) {
    forall h | h in happenings && h.FeedsRead? :: h.name in pairs
  }

  ghost function Initial(pairs: map<string, Pair>): State {
    State([], pairs, [])
  }

  lemma {:induction false} RunSnoc(c: Config, s: State, steps: seq<Step>, step: Step)
    requires IsRun(c, s, steps) && Enabled(c, Run(c, s, steps), step)
    ensures IsRun(c, s, steps + [step]) && Run(c, s, steps + [step]) == Apply(c, Run(c, s, steps), step)
    decreases |steps|
  {
    var all := steps + [step];
    if steps == [] {
      assert all[1..] == [];
    } else {
      RunSnoc(c, Apply(c, s, steps[0]), steps[1..], step);
      assert all[1..] == steps[1..] + [step];
    }
  }

  /** The services' state, with the calls sent so far, is that of the run. */
  ghost predicate InStep(
    c: Config, start: State, steps: seq<Step>, store: Store, relayer: Relayer, sent: seq<PokeArgs>)
    reads store, store.storage, relayer
  {
    && IsRun(c, start, steps) && store.Valid() && c == Config(store.recover, store.pairs)
    && store.storage == relayer.store && store.recover == relayer.recover
    && var s := Run(c, start, steps);
       && s.arrivals == store.arrivals && s.pairs == relayer.pairs
       && |s.updates| == |sent| && forall i | 0 <= i < |sent| :: s.updates[i].args == sent[i]
  }

  /**
   Store and relayer over one storage, whatever happens and in any order: the calls sent are those of a run of the
   model, and all of them are well formed.
   */
  method Serve(store: Store, relayer: Relayer, happenings: seq<Happening>)
      returns (sent: seq<PokeArgs>, ghost steps: seq<Step>)
    requires store.Valid() && store.arrivals == [] && relayer.Valid()
    requires store.storage == relayer.store && store.recover == relayer.recover
    requires Configured(happenings, relayer.pairs.Keys)
    modifies store, store.storage, relayer
    ensures var c, start := Config(store.recover, store.pairs), Initial(old(relayer.pairs));
            InStep(c, start, steps, store, relayer, sent) && AllWellFormed(c, Run(c, start, steps))
    ensures Causes(steps) == happenings
  {
    ghost var c, start := Config(store.recover, store.pairs), Initial(relayer.pairs);
    sent, steps := [], [];
    for i := 0 to |happenings|
      invariant InStep(c, start, steps, store, relayer, sent) && relayer.Valid()
      invariant Causes(steps) == happenings[..i] && relayer.pairs.Keys == old(relayer.pairs.Keys)
    {
      assert happenings[i] in happenings;
      ghost var s := Run(c, start, steps);
      match happenings[i] {
        case Arrived(price) =>
          RunSnoc(c, start, steps, Collect(price));
          var r := store.CollectPrice(price);
          steps := steps + [Collect(price)];
        case FeedsRead(name, feeds) =>
          RunSnoc(c, start, steps, Sync(name, feeds));
          relayer.SyncFeederAddresses(name, feeds);
          steps := steps + [Sync(name, feeds)];
        case Due(name, oracle, now) =>
          BookIsSound(c.recover, c.supported, store.arrivals);
          var r := relayer.Relay(name, oracle, now);
          RunSnoc(c, start, steps, Step.Relay(name, oracle, now, r));
          steps := steps + [Step.Relay(name, oracle, now, r)];
          if r.Poked? {
            sent := sent + [r.args];
          }
      }
    }
    UpdatesAreWellFormed(c, start, steps);
  }
}
