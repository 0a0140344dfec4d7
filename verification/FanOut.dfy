/**
 The fan-out channel (pkg/util/chanutil/chainutil.go, `FanOut`) as a system of atomic steps: the
 producer's, the subscribers', and those of the worker. Sends on output channels are rendezvous, so a
 delivered value counts as received.
 */
module FanOut {

  /** An output channel and what its reader has received from it. */
  datatype Channel<T> = Channel(got: seq<T>, closed: bool)

  /** Where the worker is, with its local variables. */
  datatype Worker<T> =
    | Idle
    | Holding(v: T)
    | Sending(v: T, chs: seq<nat>, next: nat)
    | Done

  /**
   `taken` logs the values received from the input channel, `queue` holds those still in it, and
   `joined` logs how many values had been distributed when each output channel was made.
   */
  datatype State<T> = State(
    taken: seq<T>, queue: seq<T>, inputClosed: bool,
    worker: Worker<T>, open: bool, out: seq<nat>, channels: seq<Channel<T>>, joined: seq<nat>)

  datatype Step<T> =
    | Produce(v: T) | CloseInput
    | Subscribe
    | Receive | Snapshot | Deliver | EndRound | Shut

  function Initial<T>(): State<T> {
    State([], [], false, Idle, true, [], [], [])
  }

  predicate Enabled<T>(s: State<T>, step: Step<T>) {
    match step
    case Produce(_) => !s.inputClosed
    case CloseInput => !s.inputClosed
    case Subscribe => true
    case Receive => s.worker.Idle? && s.queue != []
    case Snapshot => s.worker.Holding?
    case Deliver => s.worker.Sending? && s.worker.next < |s.worker.chs|
    case EndRound => s.worker.Sending? && s.worker.next == |s.worker.chs|
    case Shut => s.worker.Idle? && s.queue == [] && s.inputClosed
  }

  /** How many values have been handed to a snapshot of the channels. */
  function Distributed<T>(s: State<T>): nat {
    if s.worker.Holding? && |s.taken| > 0 then |s.taken| - 1 else |s.taken|
  }

  function WithClosed<T>(channels: seq<Channel<T>>, out: seq<nat>): (r: seq<Channel<T>>)
    ensures |r| == |channels|
  {
    seq(|channels|, i requires 0 <= i < |channels| =>
      if i in out then channels[i].(closed := true) else channels[i])
  }

  function WithSent<T>(channels: seq<Channel<T>>, id: nat, v: T): seq<Channel<T>> {
    if id < |channels| then channels[id := channels[id].(got := channels[id].got + [v])] else channels
  }

  function Apply<T>(s: State<T>, step: Step<T>): State<T>
    requires Enabled(s, step)
  {
    match step
    case Produce(v) => s.(queue := s.queue + [v])
    case CloseInput => s.(inputClosed := true)
    case Subscribe =>
      s.(out := if s.open then s.out + [|s.channels|] else s.out,
         channels := s.channels + [Channel([], !s.open)],
         joined := s.joined + [Distributed(s)])
    case Receive => s.(taken := s.taken + [s.queue[0]], queue := s.queue[1..], worker := Holding(s.queue[0]))
    case Snapshot => s.(worker := Sending(s.worker.v, s.out, 0))
    case Deliver =>
      s.(worker := s.worker.(next := s.worker.next + 1),
         channels := WithSent(s.channels, s.worker.chs[s.worker.next], s.worker.v))
    case EndRound => s.(worker := Idle)
    case Shut => s.(worker := Done, open := false, out := [], channels := WithClosed(s.channels, s.out))
  }

  ghost predicate IsRun<T>(s: State<T>, steps: seq<Step<T>>)
    decreases |steps|
  {
    steps == [] || (Enabled(s, steps[0]) && IsRun(Apply(s, steps[0]), steps[1..]))
  }

  ghost function Run<T>(s: State<T>, steps: seq<Step<T>>): State<T>
    requires IsRun(s, steps)
    decreases |steps|
  {
    if steps == [] then s else Run(Apply(s, steps[0]), steps[1..])
  }

  // ---------------------------------------------------------------------------
  // The code: each atomic section is one method
  // ---------------------------------------------------------------------------

  class FanOut<T> {
    var open: bool          // the input reference is not nil
    var out: seq<nat>
    var worker: Worker<T>
    var channels: seq<Channel<T>>
    var queue: seq<T>
    var inputClosed: bool
    ghost var taken: seq<T>
    ghost var joined: seq<nat>

    ghost function Abs(): State<T>
      reads this
    {
      State(taken, queue, inputClosed, worker, open, out, channels, joined)
    }

    constructor ()
      ensures Abs() == Initial()
    {
      open, out, worker, channels := true, [], Idle, [];
      queue, inputClosed, taken, joined := [], false, [], [];
    }

    /** Registers a new output channel, or returns a closed one once the input is gone. */
    method Chan() returns (ch: nat)
      modifies this
      ensures Abs() == Apply(old(Abs()), Subscribe) && ch == |old(channels)|
    {
      joined := joined + [Distributed(Abs())];
      ch := |channels|;
      if !open {
        channels := channels + [Channel([], true)];
        return;
      }
      channels := channels + [Channel([], false)];
      out := out + [ch];
    }

    /** The worker's `range` takes the next value from the input. */
    method ReceiveValue()
      requires Enabled(Abs(), Receive)
      modifies this
      ensures Abs() == Apply(old(Abs()), Receive)
    {
      var v := queue[0];
      taken := taken + [v];
      queue := queue[1..];
      worker := Holding(v);
    }

    /** `chs`: the worker reads the list of channels under the lock. */
    method Chs()
      requires Enabled(Abs(), Snapshot)
      modifies this
      ensures Abs() == Apply(old(Abs()), Snapshot)
    {
      worker := Sending(worker.v, out, 0);
    }

    method SendOne()
      requires Enabled(Abs(), Deliver) && worker.chs[worker.next] < |channels|
      modifies this
      ensures Abs() == Apply(old(Abs()), Deliver)
    {
      var id := worker.chs[worker.next];
      channels := channels[id := channels[id].(got := channels[id].got + [worker.v])];
      worker := worker.(next := worker.next + 1);
    }

    /** The input is closed and empty: all registered channels are closed and forgotten. */
    method Shutdown()
      requires Enabled(Abs(), Shut) && forall id | id in out :: id < |channels|
      modifies this
      ensures Abs() == Apply(old(Abs()), Shut)
    {
      assert WithClosed(channels, out[..0]) == channels;
      for i := 0 to |out|
        invariant out == old(out) && |channels| == |old(channels)|
        invariant Abs() == old(Abs()).(channels := WithClosed(old(channels), out[..i]))
      {
        assert out[i] in out;
        channels := channels[out[i] := channels[out[i]].(closed := true)];
        assert out[..i + 1] == out[..i] + [out[i]];
      }
      assert out[..|out|] == out;
      open, out, worker := false, [], Done;
    }

    /** A step of a producer or a subscriber. */
    method Interfere(step: Step<T>)
      requires External(step) && Enabled(Abs(), step)
      modifies this
      ensures Abs() == Apply(old(Abs()), step)
    {
      match step {
        case Produce(v) => queue := queue + [v];
        case CloseInput => inputClosed := true;
        case Subscribe => var ch := Chan();
      }
    }

    /** What producers and subscribers do while the worker is between two of its steps. */
    method Meanwhile(env: seq<seq<Step<T>>>, k: nat, ghost start: State<T>, ghost trace: seq<Step<T>>)
        returns (next: nat, ghost steps: seq<Step<T>>)
      requires k <= |env| && Reached(start, trace, Abs())
      requires forall b, step | b in env && step in b :: External(step)
      modifies this
      ensures k <= next <= |env| && (k < |env| ==> next == k + 1) && (k == |env| ==> Abs() == old(Abs()))
      ensures Reached(start, steps, Abs()) && worker == old(worker)
    {
      steps, next := trace, k;
      if k < |env| {
        next := k + 1;
        for i := 0 to |env[k]|
          invariant Reached(start, steps, Abs()) && worker == old(worker)
        {
          assert env[k] in env && env[k][i] in env[k];
          if env[k][i].Subscribe? || !inputClosed {
            Extend(start, steps, Abs(), env[k][i]);
            Interfere(env[k][i]);
            steps := steps + [env[k][i]];
          }
        }
      }
    }

    /** One value goes to each channel of the list, one send after the other. */
    method Distribute(env: seq<seq<Step<T>>>, k: nat, ghost start: State<T>, ghost trace: seq<Step<T>>)
        returns (next: nat, ghost steps: seq<Step<T>>)
      requires k <= |env| && Reached(start, trace, Abs()) && worker.Holding?
      requires forall b, step | b in env && step in b :: External(step)
      modifies this
      ensures k <= next <= |env| && (next == k ==> queue == old(queue))
      ensures Reached(start, steps, Abs()) && worker.Idle?
    {
      Extend(start, trace, Abs(), Snapshot);
      Chs();
      steps, next := trace + [Snapshot], k;
      while worker.next < |worker.chs|
        invariant k <= next <= |env| && (next == k ==> queue == old(queue))
        invariant worker.Sending? && worker.next <= |worker.chs| && Reached(start, steps, Abs())
        decreases |env| - next, |worker.chs| - worker.next
      {
        Extend(start, steps, Abs(), Deliver);
        SendOne();
        steps := steps + [Deliver];
        next, steps := Meanwhile(env, next, start, steps);
      }
      Extend(start, steps, Abs(), EndRound);
      worker := Idle;
      steps := steps + [EndRound];
    }

    /**
     The worker, with any steps of producers and subscribers in between. It takes part in a run of the system; it
     blocks only on an empty input that is open, and otherwise ends with every reader served and closed.
     */
    method Worker(env: seq<seq<Step<T>>>) returns (ghost steps: seq<Step<T>>)
      requires Sound(Abs()) && worker.Idle?
      requires forall b, step | b in env && step in b :: External(step)
      modifies this
      ensures Reached(old(Abs()), steps, Abs())
      ensures (if inputClosed then worker.Done? else worker.Idle?) && queue == []
      ensures inputClosed ==> Served(Abs())
    {
      ghost var start := Abs();
      steps := [];
      var k := 0;
      while queue != [] || !inputClosed
        invariant k <= |env| && worker.Idle? && Reached(start, steps, Abs())
        decreases |env| - k, |queue|
      {
        if queue == [] {
          if k == |env| {
            return;
          }
          k, steps := Meanwhile(env, k, start, steps);
          continue;
        }
        Extend(start, steps, Abs(), Receive);
        ReceiveValue();
        steps := steps + [Receive];
        k, steps := Meanwhile(env, k, start, steps);
        k, steps := Distribute(env, k, start, steps);
        k, steps := Meanwhile(env, k, start, steps);
      }
      Extend(start, steps, Abs(), Shut);
      Shutdown();
      steps := steps + [Shut];
      AllServed(Abs());
    }
  }

  predicate External<T>(step: Step<T>) {
    step.Produce? || step.CloseInput? || step.Subscribe?
  }

  /** The steps lead from one sound state to another. */
  ghost predicate Reached<T>(start: State<T>, steps: seq<Step<T>>, s: State<T>) {
    IsRun(start, steps) && Run(start, steps) == s && Sound(s)
  }

  lemma {:induction false} RunSnoc<T>(s: State<T>, steps: seq<Step<T>>, step: Step<T>)
    requires IsRun(s, steps) && Enabled(Run(s, steps), step)
    ensures IsRun(s, steps + [step]) && Run(s, steps + [step]) == Apply(Run(s, steps), step)
    decreases |steps|
  {
    var all := steps + [step];
    if steps == [] {
      assert all[1..] == [];
    } else {
      RunSnoc(Apply(s, steps[0]), steps[1..], step);
      assert all[1..] == steps[1..] + [step];
    }
  }

  lemma Extend<T>(start: State<T>, steps: seq<Step<T>>, s: State<T>, step: Step<T>)
    requires Reached(start, steps, s) && Enabled(s, step)
    ensures Reached(start, steps + [step], Apply(s, step))
  {
    RunSnoc(start, steps, step);
    StepKeepsSound(s, step);
  }

  /** Every channel is closed, and its reader has all values from the first one distributed after it was made. */
  ghost predicate Served<T>(s: State<T>) {
    |s.joined| == |s.channels| && forall i | 0 <= i < |s.channels| ::
      s.channels[i].closed && s.joined[i] <= |s.taken| && s.channels[i].got == s.taken[s.joined[i]..]
  }

  lemma AllServed<T>(s: State<T>)
    requires Sound(s) && s.worker.Done?
    ensures Served(s)
  {
    forall i | 0 <= i < |s.channels|
      ensures s.channels[i].closed && s.joined[i] <= |s.taken| && s.channels[i].got == s.taken[s.joined[i]..]
    {
      assert SoundChannel(s, i);
    }
  }

  // ---------------------------------------------------------------------------
  // What every run keeps
  // ---------------------------------------------------------------------------

  ghost predicate IsPrefixOfIds(ids: seq<nat>, n: nat) {
    |ids| <= n && forall i | 0 <= i < |ids| :: ids[i] == i
  }

  /** How much of `taken` channel `i` has been given the chance to receive. */
  function Upto<T>(s: State<T>, i: nat): int {
    if s.worker.Sending? && s.worker.next <= i < |s.worker.chs| then |s.taken| - 1 else Distributed(s)
  }

  ghost predicate SoundChannel<T>(s: State<T>, i: nat)
    requires i < |s.channels| == |s.joined|
  {
    && s.joined[i] <= Upto(s, i) <= |s.taken|
    && s.channels[i].got == s.taken[s.joined[i]..Upto(s, i)]
    && (s.channels[i].closed <==> s.worker.Done?)
  }

  /** Each channel has received, in order, the values distributed since it was made, and is closed only at the end. */
  ghost predicate Sound<T>(s: State<T>) {
    && |s.joined| == |s.channels|
    && (s.worker.Done? <==> !s.open)
    && (s.open ==> |s.out| == |s.channels| && IsPrefixOfIds(s.out, |s.channels|))
    && (s.worker.Holding? || s.worker.Sending? ==> s.taken != [] && s.worker.v == s.taken[|s.taken| - 1])
    && (s.worker.Sending? ==> s.worker.next <= |s.worker.chs| && IsPrefixOfIds(s.worker.chs, |s.channels|))
    && (forall i | 0 <= i < |s.channels| :: SoundChannel(s, i))
    && (s.worker.Sending? ==> forall i | 0 <= i < |s.worker.chs| :: s.joined[i] < |s.taken|)
    && (s.worker.Done? ==> s.queue == [] && s.inputClosed)
  }

  lemma StepKeepsSound<T>(s: State<T>, step: Step<T>)
    requires Sound(s) && Enabled(s, step)
    ensures Sound(Apply(s, step))
  {
    var t := Apply(s, step);
    forall i | 0 <= i < |s.channels| && step.Snapshot?
      ensures s.joined[i] < |s.taken|
    {
      assert SoundChannel(s, i);
    }
    forall i | 0 <= i < |t.channels|
      ensures SoundChannel(t, i)
    {
      if i < |s.channels| {
        assert SoundChannel(s, i);
        ChannelKeepsSound(s, step, i);
      }
    }
  }

  lemma ChannelKeepsSound<T>(s: State<T>, step: Step<T>, i: nat)
    requires Sound(s) && Enabled(s, step) && i < |s.channels| && SoundChannel(s, i)
    ensures SoundChannel(Apply(s, step), i)
  {
    var t := Apply(s, step);
    match step {
      case Receive =>
        assert t.taken[s.joined[i]..Upto(s, i)] == s.taken[s.joined[i]..Upto(s, i)];
      case Deliver =>
        var n := |s.taken|;
        assert s.worker.chs[s.worker.next] == s.worker.next;
        if i == s.worker.next {
          assert s.taken[s.joined[i]..n] == s.taken[s.joined[i]..n - 1] + [s.taken[n - 1]];
        }
      case Shut =>
        assert s.out[i] == i;
      case _ =>
    }
  }

  lemma {:induction false} RunKeepsSound<T>(s: State<T>, steps: seq<Step<T>>)
    requires Sound(s) && IsRun(s, steps)
    ensures Sound(Run(s, steps))
    decreases |steps|
  {
    if steps != [] {
      StepKeepsSound(s, steps[0]);
      RunKeepsSound(Apply(s, steps[0]), steps[1..]);
    }
  }

  function Produced<T>(steps: seq<Step<T>>): seq<T>
    decreases |steps|
  {
    if steps == [] then []
    else (if steps[0].Produce? then [steps[0].v] else []) + Produced(steps[1..])
  }

  lemma StepLosesNothing<T>(s: State<T>, step: Step<T>)
    requires Enabled(s, step)
    ensures var t := Apply(s, step);
            t.taken + t.queue == s.taken + s.queue + if step.Produce? then [step.v] else []
  {
    var t := Apply(s, step);
    match step {
      case Produce(v) => assert s.taken + (s.queue + [v]) == s.taken + s.queue + [v];
      case Receive => assert s.taken + [s.queue[0]] + s.queue[1..] == s.taken + s.queue;
      case _ =>
    }
  }

  lemma {:induction false} NothingLost<T>(s: State<T>, steps: seq<Step<T>>)
    requires IsRun(s, steps)
    ensures Run(s, steps).taken + Run(s, steps).queue == s.taken + s.queue + Produced(steps)
    decreases |steps|
  {
    if steps != [] {
      var t := Apply(s, steps[0]);
      StepLosesNothing(s, steps[0]);
      NothingLost(t, steps[1..]);
      var first := if steps[0].Produce? then [steps[0].v] else [];
      assert s.taken + s.queue + first + Produced(steps[1..]) == s.taken + s.queue + (first + Produced(steps[1..]));
    }
  }

  /** In every run, each reader has a contiguous, gapless piece of the input, and all of its suffix once closed. */
  lemma EveryReaderGetsItsSuffix<T>(steps: seq<Step<T>>, i: nat)
    requires IsRun(Initial<T>(), steps) && i < |Run(Initial<T>(), steps).channels|
    ensures var s := Run(Initial<T>(), steps);
            var input := Produced(steps);
            && |s.joined| == |s.channels|
            && s.joined[i] + |s.channels[i].got| <= |input|
            && s.channels[i].got == input[s.joined[i]..s.joined[i] + |s.channels[i].got|]
            && (s.channels[i].closed ==> s.channels[i].got == input[s.joined[i]..])
  {
    var s := Run(Initial<T>(), steps);
    var input := Produced(steps);
    RunKeepsSound(Initial<T>(), steps);
    NothingLost(Initial<T>(), steps);
    assert s.taken + s.queue == input;
    assert SoundChannel(s, i);
    PrefixSlice(s.taken, s.queue, s.joined[i], Upto(s, i));
  }

  lemma PrefixSlice<T>(xs: seq<T>, ys: seq<T>, a: nat, b: nat)
    requires a <= b <= |xs|
    ensures (xs + ys)[a..b] == xs[a..b]
  {
  }

  // ---------------------------------------------------------------------------
  // Once the input is closed, the worker finishes
  // ---------------------------------------------------------------------------

  /** The worker's next step. */
  function Next<T>(s: State<T>): (step: Step<T>)
    requires s.inputClosed && !s.worker.Done? && (s.worker.Sending? ==> s.worker.next <= |s.worker.chs|)
    ensures Enabled(s, step)
  {
    match s.worker
    case Idle => if s.queue == [] then Shut else Receive
    case Holding(_) => Snapshot
    case Sending(_, chs, next) => if next < |chs| then Deliver else EndRound
  }

  ghost function Work<T>(s: State<T>): int {
    |s.queue| * (|s.channels| + 3) +
    match s.worker
    case Idle => 1
    case Holding(_) => |s.channels| + 3
    case Sending(_, chs, next) => 2 + |chs| - next
    case Done => 0
  }

  lemma WorkDecreases<T>(s: State<T>)
    requires Sound(s) && s.inputClosed && !s.worker.Done?
    ensures 0 <= Work(Apply(s, Next(s))) < Work(s)
  {
    var t := Apply(s, Next(s));
    assert |t.channels| == |s.channels|;
    if s.worker.Idle? && s.queue != [] {
      assert |t.queue| == |s.queue| - 1;
      assert (|s.queue| - 1) * (|s.channels| + 3) == |s.queue| * (|s.channels| + 3) - (|s.channels| + 3);
    }
    assert |t.queue| * (|t.channels| + 3) >= 0;
    StepKeepsSound(s, Next(s));
  }

  /** From any reachable state with a closed input, the worker's own steps end with every reader served and closed. */
  lemma {:induction false} WorkerFinishes<T>(s: State<T>) returns (steps: seq<Step<T>>)
    requires Sound(s) && s.inputClosed
    ensures IsRun(s, steps) && |steps| <= Work(s)
    ensures var t := Run(s, steps);
            && t.worker.Done? && t.taken == s.taken + s.queue && |t.channels| == |s.channels| && Served(t)
    decreases Work(s)
  {
    if s.worker.Done? {
      steps := [];
      assert s.taken + s.queue == s.taken;
      AllServed(s);
    } else {
      WorkDecreases(s);
      StepKeepsSound(s, Next(s));
      StepLosesNothing(s, Next(s));
      var rest := WorkerFinishes(Apply(s, Next(s)));
      steps := [Next(s)] + rest;
      assert steps[1..] == rest;
    }
  }
}
