/**
 The fan-in channel (pkg/util/chanutil/chainutil.go, `FanIn`) as a system of atomic steps: the
 producers', one forwarding routine per input, `AutoClose`, and a direct `Close`.
 */
module FanIn {
  import opened Wrappers

  /** An input channel and its forwarding routine: `made` logs what was put in, `held` is taken but not yet sent. */
  datatype Input<T> = Input(made: seq<T>, queue: seq<T>, closed: bool, held: Option<T>, done: bool)

  datatype Sent<T> = Sent(from: nat, v: T)

  datatype AutoClosing = NotAsked | Waiting | Released | Finished

  datatype State<T> = State(
    inputs: seq<Input<T>>, running: nat, out: seq<Sent<T>>, closed: bool, auto: AutoClosing, panicked: bool)

  datatype Step<T> =
    | Add(count: nat)
    | Produce(i: nat, v: T) | CloseInput(i: nat)
    | Take(i: nat) | Send(i: nat) | Finish(i: nat)
    | AutoClose | WaitReturns | AutoCloses
    | Close

  function Initial<T>(): State<T> {
    State([], 0, [], false, NotAsked, false)
  }

  predicate Enabled<T>(s: State<T>, step: Step<T>) {
    !s.panicked &&
    match step
    case Add(_) => true
    case Produce(i, _) => i < |s.inputs| && !s.inputs[i].closed
    case CloseInput(i) => i < |s.inputs| && !s.inputs[i].closed
    case Take(i) => i < |s.inputs| && !s.inputs[i].done && s.inputs[i].held.None? && s.inputs[i].queue != []
    case Send(i) => i < |s.inputs| && s.inputs[i].held.Some?
    case Finish(i) =>
      i < |s.inputs| && !s.inputs[i].done && Drained(s.inputs[i])
    case AutoClose => true
    case WaitReturns => s.auto.Waiting? && s.running == 0
    case AutoCloses => s.auto.Released?
    case Close => true
  }

  /** Nothing is left in the input, and nothing more can come. */
  predicate Drained<T>(n: Input<T>) {
    n.closed && n.queue == [] && n.held.None?
  }

  function NewInputs<T>(count: nat): seq<Input<T>> {
    seq(count, _ => Input([], [], false, None, false))
  }

  function Apply<T>(s: State<T>, step: Step<T>): State<T>
    requires Enabled(s, step)
  {
    match step
    case Add(count) =>
      if s.closed then s
      else s.(inputs := s.inputs + NewInputs(count), running := s.running + count)
    case Produce(i, v) =>
      var n := s.inputs[i];
      s.(inputs := s.inputs[i := n.(made := n.made + [v], queue := n.queue + [v])])
    case CloseInput(i) => s.(inputs := s.inputs[i := s.inputs[i].(closed := true)])
    case Take(i) =>
      var n := s.inputs[i];
      s.(inputs := s.inputs[i := n.(held := Some(n.queue[0]), queue := n.queue[1..])])
    case Send(i) =>
      if s.closed then s.(panicked := true)
      else s.(out := s.out + [Sent(i, s.inputs[i].held.value)],
              inputs := s.inputs[i := s.inputs[i].(held := None)])
    case Finish(i) =>
      s.(inputs := s.inputs[i := s.inputs[i].(done := true)], running := if s.running > 0 then s.running - 1 else 0)
    case AutoClose => s.(auto := if s.auto.NotAsked? then Waiting else s.auto)
    case WaitReturns => s.(auto := Released)
    case AutoCloses => s.(closed := true, auto := Finished)
    case Close => s.(closed := true)
  }

  ghost predicate IsRun<T>(s: State<T>, steps: seq<Step<T>>)
    decreases |steps|
  {
    steps == [] || (Enabled(s, steps[0]) && IsRun(Apply(s, steps[0]), steps[1..]))
  }

  ghost function Run<T>(s: State<T>, steps: seq<Step<T>>): State<T>
    requires IsRun(s, steps)
    decreases |steps|
  {
    if steps == [] then s else Run(Apply(s, steps[0]), steps[1..])
  }

  // ---------------------------------------------------------------------------
  // The code: each atomic section is one method
  // ---------------------------------------------------------------------------

  class FanIn<T> {
    var inputs: seq<Input<T>>
    var running: nat          // the wait group's counter
    var auto: AutoClosing
    var closed: bool
    var out: seq<Sent<T>>
    var panicked: bool

    function Abs(): State<T>
      reads this
    {
      State(inputs, running, out, closed, auto, panicked)
    }

    constructor ()
      ensures Abs() == Initial()
    {
      inputs, running, auto, closed := [], 0, NotAsked, false;
      out, panicked := [], false;
    }

    /** Adds inputs and starts a routine for each, unless the output is closed. */
    method AddInputs(count: nat) returns (ok: bool)
      requires !panicked
      modifies this
      ensures Abs() == Apply(old(Abs()), Add(count)) && (ok <==> !old(closed))
      ensures if ok then |inputs| == |old(inputs)| + count && running == old(running) + count
              else inputs == old(inputs) && running == old(running)
      ensures inputs[..|old(inputs)|] == old(inputs)
      ensures forall i | |old(inputs)| <= i < |inputs| :: inputs[i] == Input([], [], false, None, false)
    {
      if closed {
        return false;
      }
      for k := 0 to count
        invariant Abs() == old(Abs()).(inputs := old(inputs) + NewInputs(k), running := old(running) + k)
      {
        running := running + 1;
        inputs := inputs + [Input([], [], false, None, false)];
        assert NewInputs<T>(k + 1) == NewInputs(k) + [Input([], [], false, None, false)];
      }
      return true;
    }

    /** A routine takes the next value of its input. */
    method TakeValue(i: nat)
      requires Enabled(Abs(), Take(i))
      modifies this
      ensures Abs() == Apply(old(Abs()), Take(i))
    {
      var n := inputs[i];
      inputs := inputs[i := n.(held := Some(n.queue[0]), queue := n.queue[1..])];
    }

    /** A routine sends the value it holds; sending on a closed channel panics. */
    method SendValue(i: nat)
      requires Enabled(Abs(), Send(i))
      modifies this
      ensures Abs() == Apply(old(Abs()), Send(i))
    {
      if closed {
        panicked := true;
        return;
      }
      out := out + [Sent(i, inputs[i].held.value)];
      inputs := inputs[i := inputs[i].(held := None)];
    }

    /** A routine sees its input closed and ends. */
    method FinishInput(i: nat)
      requires Enabled(Abs(), Finish(i)) && running > 0
      modifies this
      ensures Abs() == Apply(old(Abs()), Finish(i))
    {
      inputs := inputs[i := inputs[i].(done := true)];
      running := running - 1;
    }

    method CloseOutput() returns (ok: bool)
      requires !panicked
      modifies this
      ensures Abs() == Apply(old(Abs()), Close) && (ok <==> !old(closed)) && closed
    {
      if closed {
        return false;
      }
      closed := true;
      return true;
    }

    /** Starts, once, the routine that waits for the inputs and then closes the output. */
    method StartAutoClose()
      requires !panicked
      modifies this
      ensures Abs() == Apply(old(Abs()), AutoClose)
    {
      if auto.NotAsked? {
        auto := Waiting;
      }
    }

    /** One step of any routine or caller. */
    method Perform(step: Step<T>)
      requires Enabled(Abs(), step) && Counted(Abs())
      modifies this
      ensures Abs() == Apply(old(Abs()), step)
    {
      match step {
        case Add(count) =>
          var ok := AddInputs(count);
        case Produce(i, v) =>
          inputs := inputs[i := inputs[i].(made := inputs[i].made + [v], queue := inputs[i].queue + [v])];
        case CloseInput(i) =>
          inputs := inputs[i := inputs[i].(closed := true)];
        case Take(i) =>
          TakeValue(i);
        case Send(i) =>
          SendValue(i);
        case Finish(i) =>
          RunningSome(inputs, i);
          FinishInput(i);
        case AutoClose =>
          StartAutoClose();
        case WaitReturns =>
          auto := Released;
        case AutoCloses =>
          var ok := CloseOutput();
          auto := Finished;
        case Close =>
          var ok := CloseOutput();
      }
    }

    /** What all others do between two steps of a routine. */
    method Meanwhile(me: Routine, env: seq<seq<Step<T>>>, k: nat, ghost start: State<T>, ghost trace: seq<Step<T>>)
        returns (next: nat, ghost steps: seq<Step<T>>)
      requires k <= |env| && Reached(start, trace, Abs()) && OfOthers(me, env)
      modifies this
      ensures k <= next <= |env| && (k < |env| ==> next == k + 1) && (k == |env| ==> Abs() == old(Abs()))
      ensures Reached(start, steps, Abs()) && Untouched(me, old(Abs()), Abs())
    {
      steps, next := trace, k;
      if k < |env| {
        next := k + 1;
        for j := 0 to |env[k]|
          invariant Reached(start, steps, Abs()) && Untouched(me, old(Abs()), Abs())
        {
          assert env[k] in env && env[k][j] in env[k];
          if Enabled(Abs(), env[k][j]) {
            Extend(start, steps, Abs(), env[k][j]);
            Perform(env[k][j]);
            steps := steps + [env[k][j]];
          }
        }
      }
    }

    /**
     The routine of input `i`, with any steps of all others in between. It takes part in a run of the system and blocks
     only on an empty input that is open; in a disciplined run it never panics and ends with its input delivered.
     */
    method Forward(i: nat, env: seq<seq<Step<T>>>) returns (ghost steps: seq<Step<T>>)
      requires Counted(Abs()) && !panicked && i < |inputs| && !inputs[i].done && inputs[i].held.None?
      requires OfOthers(Forwarder(i), env)
      modifies this
      ensures Reached(old(Abs()), steps, Abs()) && i < |inputs|
      ensures panicked || (inputs[i].held.None? && inputs[i].queue == [] && (inputs[i].done <==> inputs[i].closed))
      ensures Sound(old(Abs())) && Disciplined(old(Abs()), steps) ==>
                !panicked && (inputs[i].closed ==> inputs[i].done && SentFrom(out, i) == inputs[i].made)
    {
      ghost var start := Abs();
      var me := Forwarder(i);
      steps := [];
      var k := 0;
      while !panicked && (inputs[i].queue != [] || !inputs[i].closed)
        invariant k <= |env| && Reached(start, steps, Abs()) && i < |inputs|
        invariant !panicked ==> !inputs[i].done && inputs[i].held.None?
        decreases |env| - k, |inputs[i].queue|
      {
        if inputs[i].queue == [] {
          if k == |env| {
            Delivered(start, steps, Abs(), i);
            return;
          }
          k, steps := Meanwhile(me, env, k, start, steps);
          continue;
        }
        Extend(start, steps, Abs(), Take(i));
        TakeValue(i);
        steps := steps + [Take(i)];
        k, steps := Meanwhile(me, env, k, start, steps);
        if panicked {
          break;
        }
        Extend(start, steps, Abs(), Send(i));
        SendValue(i);
        steps := steps + [Send(i)];
      }
      if !panicked {
        Extend(start, steps, Abs(), Finish(i));
        RunningSome(inputs, i);
        FinishInput(i);
        steps := steps + [Finish(i)];
      }
      Delivered(start, steps, Abs(), i);
    }

    /**
     The closing routine, from the call that starts it. It closes the output once no routine is running; in a
     disciplined run all inputs are closed and delivered by then.
     */
    method CloseWhenDone(env: seq<seq<Step<T>>>) returns (ghost steps: seq<Step<T>>)
      requires Counted(Abs()) && !panicked && auto.NotAsked? && OfOthers(Closer, env)
      modifies this
      ensures Reached(old(Abs()), steps, Abs())
      ensures panicked || (auto.Waiting? && running > 0) || (auto.Finished? && closed)
      ensures Sound(old(Abs())) && Disciplined(old(Abs()), steps) && auto.Finished? ==>
                forall i | 0 <= i < |inputs| :: inputs[i].closed && SentFrom(out, i) == inputs[i].made
    {
      ghost var start := Abs();
      steps := [];
      assert Run(start, []) == start;
      Extend(start, steps, Abs(), AutoClose);
      StartAutoClose();
      steps := [AutoClose];
      var k := 0;
      while running > 0
        invariant k <= |env| && Reached(start, steps, Abs())
        invariant auto.Waiting?
        decreases |env| - k
      {
        if panicked || k == |env| {
          AllDelivered(start, steps, Abs());
          return;
        }
        k, steps := Meanwhile(Closer, env, k, start, steps);
      }
      if panicked {
        AllDelivered(start, steps, Abs());
        return;
      }
      Extend(start, steps, Abs(), WaitReturns);
      auto := Released;
      steps := steps + [WaitReturns];
      k, steps := Meanwhile(Closer, env, k, start, steps);
      if !panicked {
        Extend(start, steps, Abs(), AutoCloses);
        var ok := CloseOutput();
        auto := Finished;
        steps := steps + [AutoCloses];
      }
      AllDelivered(start, steps, Abs());
    }
  }

  datatype Routine = Forwarder(i: nat) | Closer

  /** The steps a routine takes itself. */
  predicate TakenBy<T>(me: Routine, step: Step<T>) {
    match me
    case Forwarder(i) => (step.Take? || step.Send? || step.Finish?) && step.i == i
    case Closer => step.WaitReturns? || step.AutoCloses?
  }

  ghost predicate OfOthers<T>(me: Routine, env: seq<seq<Step<T>>>) {
    forall b, step | b in env && step in b :: !TakenBy(me, step)
  }

  /** What the others cannot change. */
  ghost predicate Untouched<T>(me: Routine, s: State<T>, t: State<T>) {
    match me
    case Forwarder(i) =>
      i < |s.inputs| ==> i < |t.inputs| && t.inputs[i].held == s.inputs[i].held && t.inputs[i].done == s.inputs[i].done
    case Closer => !s.auto.NotAsked? ==> t.auto == s.auto
  }

  /** The wait group counts the routines that have not ended, whatever happens. */
  ghost predicate Counted<T>(s: State<T>) {
    s.running == Running(s.inputs)
  }

  ghost predicate Reached<T>(start: State<T>, steps: seq<Step<T>>, s: State<T>) {
    IsRun(start, steps) && Run(start, steps) == s && Counted(s)
  }

  lemma {:induction false} RunSnoc<T>(s: State<T>, steps: seq<Step<T>>, step: Step<T>)
    requires IsRun(s, steps) && Enabled(Run(s, steps), step)
    ensures IsRun(s, steps + [step]) && Run(s, steps + [step]) == Apply(Run(s, steps), step)
    decreases |steps|
  {
    var all := steps + [step];
    if steps == [] {
      assert all[1..] == [];
    } else {
      RunSnoc(Apply(s, steps[0]), steps[1..], step);
      assert all[1..] == steps[1..] + [step];
    }
  }

  lemma StepKeepsCount<T>(s: State<T>, step: Step<T>)
    requires Counted(s) && Enabled(s, step)
    ensures Counted(Apply(s, step))
  {
    var t := Apply(s, step);
    match step {
      case Add(count) => RunningAdd(s.inputs, count);
      case Produce(j, _) => RunningUpdate(s.inputs, j, t.inputs[j]);
      case CloseInput(j) => RunningUpdate(s.inputs, j, t.inputs[j]);
      case Take(j) => RunningUpdate(s.inputs, j, t.inputs[j]);
      case Send(j) => RunningUpdate(s.inputs, j, t.inputs[j]);
      case Finish(j) =>
        RunningSome(s.inputs, j);
        RunningUpdate(s.inputs, j, t.inputs[j]);
      case _ =>
    }
  }

  lemma Extend<T>(start: State<T>, steps: seq<Step<T>>, s: State<T>, step: Step<T>)
    requires Reached(start, steps, s) && Enabled(s, step)
    ensures Reached(start, steps + [step], Apply(s, step))
  {
    RunSnoc(start, steps, step);
    StepKeepsCount(s, step);
  }

  lemma Delivered<T>(start: State<T>, steps: seq<Step<T>>, s: State<T>, i: nat)
    requires Reached(start, steps, s) && i < |s.inputs|
    ensures Sound(start) && Disciplined(start, steps) ==>
              !s.panicked && (s.inputs[i].done ==> s.inputs[i].closed && SentFrom(s.out, i) == s.inputs[i].made)
  {
    if Sound(start) && Disciplined(start, steps) {
      RunKeepsSound(start, steps);
      assert SoundInput(s, i);
    }
  }

  lemma AllDelivered<T>(start: State<T>, steps: seq<Step<T>>, s: State<T>)
    requires Reached(start, steps, s)
    ensures Sound(start) && Disciplined(start, steps) && s.closed ==>
              forall i | 0 <= i < |s.inputs| :: s.inputs[i].closed && SentFrom(s.out, i) == s.inputs[i].made
  {
    if Sound(start) && Disciplined(start, steps) && s.closed {
      RunKeepsSound(start, steps);
      forall i | 0 <= i < |s.inputs| ensures s.inputs[i].closed && SentFrom(s.out, i) == s.inputs[i].made {
        assert SoundInput(s, i);
      }
    }
  }

  // ---------------------------------------------------------------------------
  // Runs that only close automatically, and add no input once the closing routine has stopped waiting
  // ---------------------------------------------------------------------------

  ghost predicate Proper<T>(s: State<T>, step: Step<T>) {
    !step.Close? && !(step.Add? && s.auto.Released?)
  }

  ghost predicate Disciplined<T>(s: State<T>, steps: seq<Step<T>>)
    requires IsRun(s, steps)
    decreases |steps|
  {
    steps == [] || (Proper(s, steps[0]) && Disciplined(Apply(s, steps[0]), steps[1..]))
  }

  /** The values sent on behalf of input `i`. */
  function SentFrom<T>(out: seq<Sent<T>>, i: nat): seq<T> {
    if out == [] then []
    else SentFrom(out[..|out| - 1], i) + if out[|out| - 1].from == i then [out[|out| - 1].v] else []
  }

  function Rest<T>(n: Input<T>): seq<T> {
    (if n.held.Some? then [n.held.value] else []) + n.queue
  }

  function Running<T>(inputs: seq<Input<T>>): nat {
    if inputs == [] then 0
    else Running(inputs[..|inputs| - 1]) + if inputs[|inputs| - 1].done then 0 else 1
  }

  /** Everything put into input `i` is sent, held or queued, in that order. */
  ghost predicate SoundInput<T>(s: State<T>, i: nat)
    requires i < |s.inputs|
  {
    && s.inputs[i].made == SentFrom(s.out, i) + Rest(s.inputs[i])
    && (s.inputs[i].done ==> Drained(s.inputs[i]))
    && (s.closed || s.auto.Released? ==> Drained(s.inputs[i]))
  }

  ghost predicate Sound<T>(s: State<T>) {
    && !s.panicked
    && s.running == Running(s.inputs)
    && (s.auto.NotAsked? ==> !s.closed)
    && (forall i | 0 <= i < |s.inputs| :: SoundInput(s, i))
    && (forall m | m in s.out :: m.from < |s.inputs|)
  }

  lemma {:induction false} RunningUpdate<T>(inputs: seq<Input<T>>, i: nat, n: Input<T>)
    requires i < |inputs|
    ensures Running(inputs[i := n]) ==
            Running(inputs) + (if n.done then 0 else 1) - (if inputs[i].done then 0 else 1)
  {
    var k := |inputs| - 1;
    if i < k {
      RunningUpdate(inputs[..k], i, n);
      assert inputs[i := n][..k] == inputs[..k][i := n];
    } else {
      assert inputs[i := n][..k] == inputs[..k];
    }
  }

  lemma {:induction false} RunningAdd<T>(inputs: seq<Input<T>>, count: nat)
    ensures Running(inputs + NewInputs(count)) == Running(inputs) + count
  {
    var all := inputs + NewInputs(count);
    if count > 0 {
      RunningAdd(inputs, count - 1);
      assert all[..|all| - 1] == inputs + NewInputs(count - 1);
    } else {
      assert all == inputs;
    }
  }

  lemma {:induction false} RunningNone<T>(inputs: seq<Input<T>>, i: nat)
    requires i < |inputs| && Running(inputs) == 0
    ensures inputs[i].done
  {
    if i < |inputs| - 1 {
      RunningNone(inputs[..|inputs| - 1], i);
    }
  }

  lemma {:induction false} RunningSome<T>(inputs: seq<Input<T>>, i: nat)
    requires i < |inputs| && !inputs[i].done
    ensures Running(inputs) > 0
  {
    if i < |inputs| - 1 {
      RunningSome(inputs[..|inputs| - 1], i);
    }
  }

  lemma {:induction false} SentFromNew<T>(out: seq<Sent<T>>, i: nat)
    requires forall m | m in out :: m.from < i
    ensures SentFrom(out, i) == []
  {
    if out != [] {
      assert out[|out| - 1] in out;
      SentFromNew(out[..|out| - 1], i);
    }
  }

  lemma SentFromSnoc<T>(out: seq<Sent<T>>, m: Sent<T>, i: nat)
    ensures SentFrom(out + [m], i) == SentFrom(out, i) + if m.from == i then [m.v] else []
  {
    assert (out + [m])[..|out|] == out;
  }

  lemma RestProduced<T>(n: Input<T>, v: T)
    ensures Rest(n.(made := n.made + [v], queue := n.queue + [v])) == Rest(n) + [v]
  {
  }

  lemma RestTaken<T>(n: Input<T>)
    requires n.held.None? && n.queue != []
    ensures Rest(n.(held := Some(n.queue[0]), queue := n.queue[1..])) == Rest(n)
  {
  }

  lemma InputKeepsSound<T>(s: State<T>, step: Step<T>, i: nat)
    requires Sound(s) && Enabled(s, step) && i < |Apply(s, step).inputs|
    requires Proper(s, step)
    ensures SoundInput(Apply(s, step), i)
  {
    var t := Apply(s, step);
    if i >= |s.inputs| {
      SentFromNew(s.out, i);
    } else {
      assert SoundInput(s, i);
      match step {
        case Produce(j, v) =>
          if i == j {
            RestProduced(s.inputs[i], v);
            assert s.inputs[i].made + [v] == SentFrom(s.out, i) + (Rest(s.inputs[i]) + [v]);
          }
        case Take(j) =>
          if i == j {
            RestTaken(s.inputs[i]);
          }
        case Send(j) =>
          assert SoundInput(s, j);
          SentFromSnoc(s.out, Sent(j, s.inputs[j].held.value), i);
        case WaitReturns =>
          RunningNone(s.inputs, i);
        case _ =>
      }
    }
  }

  lemma StepKeepsSound<T>(s: State<T>, step: Step<T>)
    requires Sound(s) && Enabled(s, step)
    requires Proper(s, step)
    ensures Sound(Apply(s, step))
  {
    var t := Apply(s, step);
    forall i | 0 <= i < |t.inputs| ensures SoundInput(t, i) {
      InputKeepsSound(s, step, i);
    }
    StepKeepsCount(s, step);
    if step.Send? {
      assert SoundInput(s, step.i);
    }
  }

  lemma {:induction false} RunKeepsSound<T>(s: State<T>, steps: seq<Step<T>>)
    requires Sound(s) && IsRun(s, steps) && Disciplined(s, steps)
    ensures Sound(Run(s, steps))
    decreases |steps|
  {
    if steps != [] {
      StepKeepsSound(s, steps[0]);
      RunKeepsSound(Apply(s, steps[0]), steps[1..]);
    }
  }

  /** What the producers put into input `i`, in order. */
  function ProducedFor<T>(steps: seq<Step<T>>, i: nat): seq<T>
    decreases |steps|
  {
    if steps == [] then []
    else (if steps[0].Produce? && steps[0].i == i then [steps[0].v] else []) + ProducedFor(steps[1..], i)
  }

  function MadeIn<T>(s: State<T>, i: nat): seq<T> {
    if i < |s.inputs| then s.inputs[i].made else []
  }

  lemma StepMakes<T>(s: State<T>, step: Step<T>, i: nat)
    requires Enabled(s, step)
    ensures MadeIn(Apply(s, step), i) == MadeIn(s, i) + if step.Produce? && step.i == i then [step.v] else []
    ensures var t := Apply(s, step);
            i < |t.inputs| ==>
              (t.inputs[i].closed <==> (i < |s.inputs| && s.inputs[i].closed) || (step.CloseInput? && step.i == i))
    ensures |Apply(s, step).inputs| == |s.inputs| + if step.Add? && !s.closed then step.count else 0
  {
  }

  /** An input holds what was produced for it, and is closed exactly when its producer closed it. */
  lemma {:induction false} MadeIsProduced<T>(s: State<T>, steps: seq<Step<T>>, i: nat)
    requires IsRun(s, steps) && i < |Run(s, steps).inputs|
    ensures MadeIn(Run(s, steps), i) == MadeIn(s, i) + ProducedFor(steps, i)
    ensures Run(s, steps).inputs[i].closed <==> (i < |s.inputs| && s.inputs[i].closed) || CloseInput(i) in steps
    decreases |steps|
  {
    if steps != [] {
      var t := Apply(s, steps[0]);
      StepMakes(s, steps[0], i);
      MadeIsProduced(t, steps[1..], i);
      var first := if steps[0].Produce? && steps[0].i == i then [steps[0].v] else [];
      assert MadeIn(s, i) + first + ProducedFor(steps[1..], i) == MadeIn(s, i) + (first + ProducedFor(steps[1..], i));
      assert CloseInput(i) in steps <==> steps[0] == CloseInput(i) || CloseInput(i) in steps[1..];
    }
  }

  /**
   In every disciplined run nothing panics, the output interleaves prefixes of what was put into the inputs, and a
   closed output has all of it, from inputs that were all closed.
   */
  lemma OutputInterleavesInputs<T>(steps: seq<Step<T>>, i: nat)
    requires IsRun(Initial<T>(), steps) && Disciplined(Initial<T>(), steps)
    requires i < |Run(Initial<T>(), steps).inputs|
    ensures var s := Run(Initial<T>(), steps);
            && !s.panicked
            && SentFrom(s.out, i) <= ProducedFor(steps, i)
            && (s.closed ==> CloseInput(i) in steps && SentFrom(s.out, i) == ProducedFor(steps, i))
            && forall m | m in s.out :: m.from < |s.inputs|
  {
    RunKeepsSound(Initial<T>(), steps);
    MadeIsProduced(Initial<T>(), steps, i);
    var s := Run(Initial<T>(), steps);
    assert SoundInput(s, i);
    assert [] + ProducedFor(steps, i) == ProducedFor(steps, i);
  }

  // ---------------------------------------------------------------------------
  // Closing takes place
  // ---------------------------------------------------------------------------

  predicate Internal<T>(step: Step<T>) {
    step.Take? || step.Send? || step.Finish? || step.WaitReturns? || step.AutoCloses?
  }

  function Left<T>(n: Input<T>): nat {
    2 * |n.queue| + (if n.held.Some? then 1 else 0) + if n.done then 0 else 1
  }

  function LeftAll<T>(inputs: seq<Input<T>>): nat {
    if inputs == [] then 0 else LeftAll(inputs[..|inputs| - 1]) + Left(inputs[|inputs| - 1])
  }

  function Measure<T>(s: State<T>): nat {
    LeftAll(s.inputs) +
    match s.auto case NotAsked => 3 case Waiting => 2 case Released => 1 case Finished => 0
  }

  lemma {:induction false} LeftUpdate<T>(inputs: seq<Input<T>>, i: nat, n: Input<T>)
    requires i < |inputs|
    ensures LeftAll(inputs[i := n]) == LeftAll(inputs) + Left(n) - Left(inputs[i])
  {
    var k := |inputs| - 1;
    if i < k {
      LeftUpdate(inputs[..k], i, n);
      assert inputs[i := n][..k] == inputs[..k][i := n];
    } else {
      assert inputs[i := n][..k] == inputs[..k];
    }
  }

  /** Every step of the routines makes progress, so only finitely many fit between two steps of the producers. */
  lemma InternalDecreases<T>(s: State<T>, step: Step<T>)
    requires Sound(s) && Enabled(s, step) && Internal(step)
    ensures Measure(Apply(s, step)) < Measure(s)
  {
    var t := Apply(s, step);
    match step {
      case Take(i) => LeftUpdate(s.inputs, i, t.inputs[i]);
      case Send(i) =>
        assert SoundInput(s, i);
        LeftUpdate(s.inputs, i, t.inputs[i]);
      case Finish(i) => LeftUpdate(s.inputs, i, t.inputs[i]);
      case _ =>
    }
  }

  /** Once every input is closed and automatic closing was asked for, the routines are never stuck before it happened. */
  lemma InternalProgress<T>(s: State<T>) returns (step: Step<T>)
    requires Sound(s) && !s.auto.NotAsked? && !s.auto.Finished?
    requires forall i | 0 <= i < |s.inputs| :: s.inputs[i].closed
    ensures Internal(step) && Enabled(s, step)
  {
    if s.auto.Released? {
      step := AutoCloses;
    } else if s.running == 0 {
      step := WaitReturns;
    } else {
      var i := SomeRunning(s.inputs);
      if s.inputs[i].held.Some? {
        step := Send(i);
      } else if s.inputs[i].queue != [] {
        step := Take(i);
      } else {
        step := Finish(i);
      }
    }
  }

  lemma {:induction false} SomeRunning<T>(inputs: seq<Input<T>>) returns (i: nat)
    requires Running(inputs) > 0
    ensures i < |inputs| && !inputs[i].done
  {
    if inputs[|inputs| - 1].done {
      i := SomeRunning(inputs[..|inputs| - 1]);
    } else {
      i := |inputs| - 1;
    }
  }

  // ---------------------------------------------------------------------------
  // A direct Close
  // ---------------------------------------------------------------------------

  ghost predicate NeverPanics<T(!new)>(s: State<T>) {
    forall steps: seq<Step<T>> | IsRun(s, steps) :: !Run(s, steps).panicked
  }

  ghost predicate AllDrained<T>(s: State<T>) {
    forall i | 0 <= i < |s.inputs| :: Drained(s.inputs[i])
  }

  lemma {:induction false} DrainedStaysQuiet<T>(s: State<T>, steps: seq<Step<T>>)
    requires s.closed && !s.panicked && AllDrained(s) && IsRun(s, steps)
    ensures !Run(s, steps).panicked
    decreases |steps|
  {
    if steps != [] {
      DrainedStaysQuiet(Apply(s, steps[0]), steps[1..]);
    }
  }

  lemma ClosedSafeExactly<T(!new)>(t: State<T>, v: T)
    requires t.closed && !t.panicked && forall i | 0 <= i < |t.inputs| :: t.inputs[i].done ==> Drained(t.inputs[i])
    ensures NeverPanics(t) <==> AllDrained(t)
  {
    if AllDrained(t) {
      forall steps: seq<Step<T>> | IsRun(t, steps) ensures !Run(t, steps).panicked {
        DrainedStaysQuiet(t, steps);
      }
    } else {
      var i :| 0 <= i < |t.inputs| && !Drained(t.inputs[i]);
      SendsAfterClose(t, i, v);
    }
  }

  /** Closing the output directly is safe exactly when every input is closed and drained at that moment. */
  lemma CloseSafeExactly<T(!new)>(s: State<T>, v: T)
    requires !s.panicked && forall i | 0 <= i < |s.inputs| :: s.inputs[i].done ==> Drained(s.inputs[i])
    ensures NeverPanics(Apply(s, Close)) <==> AllDrained(s)
  {
    ClosedSafeExactly(Apply(s, Close), v);
    assert AllDrained(Apply(s, Close)) <==> AllDrained(s);
  }

  /** So is the automatic close: inputs may even be added once its wait is over, if they are drained before it closes. */
  lemma AutoCloseSafeExactly<T(!new)>(s: State<T>, v: T)
    requires Enabled(s, AutoCloses) && forall i | 0 <= i < |s.inputs| :: s.inputs[i].done ==> Drained(s.inputs[i])
    ensures NeverPanics(Apply(s, AutoCloses)) <==> AllDrained(s)
  {
    ClosedSafeExactly(Apply(s, AutoCloses), v);
    assert AllDrained(Apply(s, AutoCloses)) <==> AllDrained(s);
  }

  /** An addition right before the automatic close is safe exactly when it adds no input. */
  lemma LateAddSafeExactly<T(!new)>(s: State<T>, count: nat, v: T)
    requires Sound(s) && s.auto.Released? && !s.closed
    ensures NeverPanics(Apply(Apply(s, Add(count)), AutoCloses)) <==> count == 0
  {
    var t := Apply(s, Add(count));
    forall i | 0 <= i < |s.inputs| ensures Drained(s.inputs[i]) {
      assert SoundInput(s, i);
    }
    assert forall i | 0 <= i < |t.inputs| :: Drained(t.inputs[i]) <==> i < |s.inputs|;
    AutoCloseSafeExactly(t, v);
    if count > 0 {
      assert !Drained(t.inputs[|s.inputs|]);
    }
  }

  lemma SendsAfterClose<T(!new)>(t: State<T>, i: nat, v: T)
    requires t.closed && !t.panicked && i < |t.inputs| && !t.inputs[i].done && !Drained(t.inputs[i])
    ensures !NeverPanics(t)
    decreases t.inputs[i].held.None?, t.inputs[i].queue == []
  {
    if t.inputs[i].held.Some? {
      var end := Apply(t, Send(i));
      assert IsRun(end, []) && Run(end, []).panicked;
      PanicsAfter(t, Send(i));
    } else {
      var step := if t.inputs[i].queue != [] then Take(i) else Produce(i, v);
      SendsAfterClose(Apply(t, step), i, v);
      PanicsAfter(t, step);
    }
  }

  lemma PanicsAfter<T(!new)>(t: State<T>, step: Step<T>)
    requires Enabled(t, step) && !NeverPanics(Apply(t, step))
    ensures !NeverPanics(t)
  {
    var steps :| IsRun(Apply(t, step), steps) && Run(Apply(t, step), steps).panicked;
    var all := [step] + steps;
    assert all[1..] == steps;
    assert IsRun(t, all) && Run(t, all).panicked;
  }
}
