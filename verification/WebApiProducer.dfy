/**
 The producer of the WebAPI transport (pkg/transport/webapi/webapi.go): broadcast messages are collected in a pack,
 which every tick of the flush ticker sends to the consumers and clears.
 */
module WebApiProducer {
  import opened Wrappers

  type Topic = string

  /** A marshalled message. */
  type Payload = nat

  type Pack = map<Topic, seq<Payload>>

  /** A message that cannot be marshalled is absent; a flush may fail to sign, compress or find the consumers. */
  datatype Step = Broadcast(topic: Topic, message: Option<Payload>) | Flush(ready: bool)

  /** A pack that was to be sent, and whether it was. */
  datatype Attempt = Attempt(pack: Pack, sent: bool)

  datatype State = State(pack: Option<Pack>, attempts: seq<Attempt>)

  function DataOf(p: Pack, t: Topic): seq<Payload> {
    if t in p then p[t] else []
  }

  function Pending(s: State, t: Topic): seq<Payload> {
    if s.pack.Some? then DataOf(s.pack.value, t) else []
  }

  function Apply(s: State, step: Step): State {
    match step
    case Broadcast(_, None) => s
    case Broadcast(topic, Some(m)) =>
      var p := if s.pack.Some? then s.pack.value else map[];
      s.(pack := Some(p[topic := DataOf(p, topic) + [m]]))
    case Flush(ready) =>
      if s.pack.None? || |s.pack.value| == 0 then s.(pack := None)
      else State(None, s.attempts + [Attempt(s.pack.value, ready)])
  }

  function Run(steps: seq<Step>): State {
    if steps == [] then State(None, []) else Apply(Run(steps[..|steps| - 1]), steps[|steps| - 1])
  }

  /** The messages accepted for a topic, in order. */
  function Broadcasts(steps: seq<Step>, t: Topic): seq<Payload> {
    if steps == [] then []
    else
      var step := steps[|steps| - 1];
      Broadcasts(steps[..|steps| - 1], t) +
      if step.Broadcast? && step.topic == t && step.message.Some? then [step.message.value] else []
  }

  /** The messages accepted for a topic since the last flush. */
  function SinceFlush(steps: seq<Step>, t: Topic): seq<Payload> {
    if steps == [] || steps[|steps| - 1].Flush? then []
    else
      var step := steps[|steps| - 1];
      SinceFlush(steps[..|steps| - 1], t) +
      if step.topic == t && step.message.Some? then [step.message.value] else []
  }

  class Producer {
    const hasSigner: bool
    var messagePack: Option<Pack>
    ghost var attempts: seq<Attempt>
    ghost var steps: seq<Step>

    ghost predicate Valid()
      reads this
    {
      State(messagePack, attempts) == Run(steps)
    }

    constructor (hasSigner: bool)
      ensures Valid() && this.hasSigner == hasSigner && steps == []
    {
      this.hasSigner, messagePack, attempts, steps := hasSigner, None, [], [];
    }

    /** Adds the message to the next pack. */
    method BroadcastMessage(topic: Topic, message: Option<Payload>) returns (ok: bool)
      requires Valid()
      modifies this
      ensures Valid() && (ok <==> hasSigner && message.Some?)
      ensures steps == if hasSigner then old(steps) + [Broadcast(topic, message)] else old(steps)
    {
      if !hasSigner {
        return false;
      }
      RunSnoc(steps, Broadcast(topic, message));
      steps := steps + [Broadcast(topic, message)];
      if message.None? {
        return false;
      }
      var p := if messagePack.Some? then messagePack.value else map[];
      var data := if topic in p then p[topic] else [];
      messagePack := Some(p[topic := data + [message.value]]);
      return true;
    }

    /** Sends exactly the messages accepted since the last flush, if there are any; they are cleared even on a failure. */
    method FlushMessages(ready: bool) returns (sent: Option<Pack>)
      requires Valid()
      modifies this
      ensures Valid() && steps == old(steps) + [Flush(ready)] && messagePack == None
      ensures sent.Some? <==> ready && AnySinceFlush(old(steps))
      ensures sent.Some? ==> forall t :: DataOf(sent.value, t) == SinceFlush(old(steps), t)
    {
      ghost var before := steps;
      PendingIsSinceFlush(before);
      WhetherPending(before);
      steps := before + [Flush(ready)];
      assert steps[..|steps| - 1] == before;
      if messagePack.None? || |messagePack.value| == 0 {
        messagePack := None;
        return None;
      }
      attempts := attempts + [Attempt(messagePack.value, ready)];
      sent := if ready then messagePack else None;
      messagePack := None;
    }
  }

  lemma {:induction false} PendingIsSinceFlush(steps: seq<Step>)
    ensures forall t :: Pending(Run(steps), t) == SinceFlush(steps, t)
  {
    if steps != [] {
      PendingIsSinceFlush(steps[..|steps| - 1]);
    }
  }

  /** A topic in a pack has at least one message. */
  ghost predicate Filled(p: Pack) {
    forall t | t in p :: p[t] != []
  }

  lemma {:induction false} PacksHaveMessages(steps: seq<Step>)
    ensures var s := Run(steps);
            && (s.pack.Some? ==> Filled(s.pack.value))
            && forall a | a in s.attempts :: Filled(a.pack) && |a.pack| > 0
  {
    if steps != [] {
      PacksHaveMessages(steps[..|steps| - 1]);
    }
  }

  ghost predicate AnySinceFlush(steps: seq<Step>) {
    exists t :: SinceFlush(steps, t) != []
  }

  lemma WhetherPending(steps: seq<Step>)
    ensures var pack := Run(steps).pack;
            AnySinceFlush(steps) <==> pack.Some? && |pack.value| > 0
  {
    var pack := Run(steps).pack;
    PendingIsSinceFlush(steps);
    PacksHaveMessages(steps);
    if pack.Some? && |pack.value| > 0 {
      var t :| t in pack.value;
      assert SinceFlush(steps, t) == pack.value[t];
    } else {
      forall t ensures SinceFlush(steps, t) == [] {
        assert Pending(Run(steps), t) == [];
      }
    }
  }

  // ---------------------------------------------------------------------------
  // What reaches the consumers
  // ---------------------------------------------------------------------------

  /** The messages of a topic in all packs that were to be sent. */
  function Tried(attempts: seq<Attempt>, t: Topic): seq<Payload> {
    if attempts == [] then []
    else Tried(attempts[..|attempts| - 1], t) + DataOf(attempts[|attempts| - 1].pack, t)
  }

  /** Those in the packs that were sent. */
  function Sent(attempts: seq<Attempt>, t: Topic): seq<Payload> {
    if attempts == [] then []
    else
      Sent(attempts[..|attempts| - 1], t) +
      if attempts[|attempts| - 1].sent then DataOf(attempts[|attempts| - 1].pack, t) else []
  }

  lemma TriedSnoc(attempts: seq<Attempt>, a: Attempt, t: Topic)
    ensures Tried(attempts + [a], t) == Tried(attempts, t) + DataOf(a.pack, t)
  {
    assert (attempts + [a])[..|attempts|] == attempts;
  }

  /** Per topic, the packs of all flushes followed by the pending pack are the broadcasts in order. */
  lemma {:induction false} NothingDropped(steps: seq<Step>, t: Topic)
    ensures Tried(Run(steps).attempts, t) + Pending(Run(steps), t) == Broadcasts(steps, t)
  {
    if steps != [] {
      var init, step := steps[..|steps| - 1], steps[|steps| - 1];
      var s := Run(init);
      NothingDropped(init, t);
      match step {
        case Broadcast(_, _) =>
        case Flush(ready) =>
          if s.pack.Some? && |s.pack.value| > 0 {
            TriedSnoc(s.attempts, Attempt(s.pack.value, ready), t);
          }
      }
    }
  }

  lemma {:induction false} SentIsTried(attempts: seq<Attempt>, t: Topic)
    ensures |Sent(attempts, t)| <= |Tried(attempts, t)|
    ensures AllSent(attempts) ==> Sent(attempts, t) == Tried(attempts, t)
    ensures (exists a :: a in attempts && !a.sent && DataOf(a.pack, t) != []) ==>
              |Sent(attempts, t)| < |Tried(attempts, t)|
  {
    if attempts != [] {
      var n := |attempts| - 1;
      SentIsTried(attempts[..n], t);
      assert attempts == attempts[..n] + [attempts[n]];
    }
  }

  ghost predicate AllDelivered(steps: seq<Step>) {
    forall t: Topic :: Sent(Run(steps).attempts, t) + Pending(Run(steps), t) == Broadcasts(steps, t)
  }

  /** No flush failed while messages were waiting for it. */
  ghost predicate NoFailedFlush(steps: seq<Step>) {
    forall i | 0 <= i < |steps| && steps[i] == Flush(false) :: !AnySinceFlush(steps[..i])
  }

  lemma NoFailedFlushSnoc(steps: seq<Step>)
    requires steps != []
    ensures var init := steps[..|steps| - 1];
            NoFailedFlush(steps) <==>
            NoFailedFlush(init) && (steps[|steps| - 1] == Flush(false) ==> !AnySinceFlush(init))
  {
    var n := |steps| - 1;
    var init := steps[..n];
    if NoFailedFlush(steps) {
      forall i | 0 <= i < n && init[i] == Flush(false) ensures !AnySinceFlush(init[..i]) {
        assert steps[i] == Flush(false) && init[..i] == steps[..i];
      }
    } else {
      var i :| 0 <= i < |steps| && steps[i] == Flush(false) && AnySinceFlush(steps[..i]);
      if i < n {
        assert init[i] == Flush(false) && init[..i] == steps[..i];
      }
    }
  }

  ghost predicate AllSent(attempts: seq<Attempt>) {
    forall i | 0 <= i < |attempts| :: attempts[i].sent
  }

  lemma {:induction false} AllSentExactly(steps: seq<Step>)
    ensures AllSent(Run(steps).attempts) <==> NoFailedFlush(steps)
  {
    if steps == [] {
      assert Run(steps).attempts == [];
    } else {
      var init, step := steps[..|steps| - 1], steps[|steps| - 1];
      var s := Run(init);
      AllSentExactly(init);
      WhetherPending(init);
      NoFailedFlushSnoc(steps);
      if step.Flush? && AnySinceFlush(init) {
        var last := Attempt(s.pack.value, step.ready);
        assert Run(steps).attempts == s.attempts + [last];
        assert AllSent(s.attempts + [last]) <==> AllSent(s.attempts) && last.sent by {
          assert (s.attempts + [last])[|s.attempts|] == last;
          assert forall i | 0 <= i < |s.attempts| :: (s.attempts + [last])[i] == s.attempts[i];
        }
      } else {
        assert Run(steps).attempts == s.attempts;
      }
    }
  }

  /** What was sent, followed by the pending pack, is what was broadcast exactly when no flush with messages failed. */
  lemma DeliveredExactly(steps: seq<Step>)
    ensures AllDelivered(steps) <==> NoFailedFlush(steps)
  {
    var s := Run(steps);
    AllSentExactly(steps);
    if i :| 0 <= i < |s.attempts| && !s.attempts[i].sent {
      var a := s.attempts[i];
      PacksHaveMessages(steps);
      var t :| t in a.pack;
      NothingDropped(steps, t);
      SentIsTried(s.attempts, t);
      assert DataOf(a.pack, t) != [];
      assert |Sent(s.attempts, t) + Pending(s, t)| < |Broadcasts(steps, t)|;
    } else {
      forall t: Topic ensures Sent(s.attempts, t) + Pending(s, t) == Broadcasts(steps, t) {
        NothingDropped(steps, t);
        SentIsTried(s.attempts, t);
      }
    }
  }

  lemma RunSnoc(steps: seq<Step>, step: Step)
    ensures Run(steps + [step]) == Apply(Run(steps), step)
  {
    assert (steps + [step])[..|steps|] == steps;
  }

  lemma BroadcastsSnoc(steps: seq<Step>, step: Step, t: Topic)
    ensures Broadcasts(steps + [step], t) ==
            Broadcasts(steps, t) +
            if step.Broadcast? && step.topic == t && step.message.Some? then [step.message.value] else []
  {
    assert (steps + [step])[..|steps|] == steps;
  }

  /** Whatever happened before, a message whose flush fails is neither sent nor pending. */
  lemma FailedFlushLoses(before: seq<Step>, t: Topic, m: Payload)
    ensures var mid := before + [Broadcast(t, Some(m))];
            var steps := mid + [Flush(false)];
            && Broadcasts(steps, t) == Broadcasts(before, t) + [m]
            && Sent(Run(steps).attempts, t) == Sent(Run(before).attempts, t) && Pending(Run(steps), t) == []
  {
    var mid := before + [Broadcast(t, Some(m))];
    RunSnoc(before, Broadcast(t, Some(m)));
    RunSnoc(mid, Flush(false));
    BroadcastsSnoc(before, Broadcast(t, Some(m)), t);
    BroadcastsSnoc(mid, Flush(false), t);
    var s := Run(mid);
    assert t in s.pack.value && |s.pack.value| > 0;
    var all := s.attempts + [Attempt(s.pack.value, false)];
    assert all[..|all| - 1] == s.attempts;
  }
}
