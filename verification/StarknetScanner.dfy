/**
 De-duplication of pending transactions in the Starknet scanner
 (pkg/event/publisher/teleportstarknet/teleport.go, `processBlock`).
 */
module StarknetScanner {
  import opened Indices
  import opened Wrappers

  datatype Event = Event(from: nat, data: seq<int>)

  datatype Receipt = Receipt(hash: int, events: seq<Event>)

  datatype Block = Block(status: string, parentHash: int, timestamp: int, receipts: seq<Receipt>) {
    predicate Pending() {
      status == "PENDING"
    }
  }

  datatype Message = Message(tx: int, evt: Event, eventDate: int)

  /** Conversion fails when the event has too few data items. */
  function EventToMessage(b: Block, tx: Receipt, evt: Event): Option<Message> {
    if |evt.data| < 7 then None else Some(Message(tx.hash, evt, b.timestamp))
  }

  /** The messages for the first `k` events of a transaction. */
  function MessagesOf(addresses: seq<nat>, b: Block, tx: Receipt, k: nat): seq<Message>
    requires k <= |tx.events|
  {
    if k == 0 then []
    else
      MessagesOf(addresses, b, tx, k - 1) +
      var evt := tx.events[k - 1];
      if evt.from in addresses && EventToMessage(b, tx, evt).Some? then [EventToMessage(b, tx, evt).value] else []
  }

  /** One message for each event of a listed address with enough data, in order. */
  lemma {:induction false} MessagesExactly(addresses: seq<nat>, b: Block, tx: Receipt, k: nat) returns (kept: seq<nat>)
    requires k <= |tx.events|
    ensures Ascending(kept, k)
    ensures forall i: nat :: i in kept <==> i < k && tx.events[i].from in addresses && |tx.events[i].data| >= 7
    ensures |MessagesOf(addresses, b, tx, k)| == |kept|
    ensures forall j | 0 <= j < |kept| ::
              MessagesOf(addresses, b, tx, k)[j] == Message(tx.hash, tx.events[kept[j]], b.timestamp)
  {
    if k == 0 {
      kept := [];
    } else {
      kept := MessagesExactly(addresses, b, tx, k - 1);
      var evt := tx.events[k - 1];
      if evt.from in addresses && |evt.data| >= 7 {
        kept := kept + [k - 1];
      }
    }
  }

  // ---------------------------------------------------------------------------
  // The specification, on sets
  // ---------------------------------------------------------------------------

  /** A transaction whose events were sent; `epoch` counts the changes of the pending block's parent before it. */
  datatype Entry = Entry(block: Block, tx: Receipt, epoch: nat)

  datatype State = State(parent: Option<int>, seen: set<int>, log: seq<Entry>, epoch: nat)

  function Initial(): State {
    State(None, {}, [], 0)
  }

  /** A pending block on another parent starts a new epoch. */
  function Opened(s: State, b: Block): State {
    if b.Pending() && s.parent != Some(b.parentHash)
    then State(Some(b.parentHash), {}, s.log, s.epoch + 1)
    else s
  }

  /** The state after the block's first `k` transactions. */
  function After(s: State, b: Block, k: nat): State
    requires k <= |b.receipts|
  {
    if k == 0 then Opened(s, b)
    else
      var t, tx := After(s, b, k - 1), b.receipts[k - 1];
      if b.Pending() && tx.hash in t.seen then t
      else t.(seen := if b.Pending() then t.seen + {tx.hash} else t.seen, log := t.log + [Entry(b, tx, t.epoch)])
  }

  function Process(s: State, b: Block): State {
    After(s, b, |b.receipts|)
  }

  function Run(s: State, blocks: seq<Block>): State {
    if blocks == [] then s else Process(Run(s, blocks[..|blocks| - 1]), blocks[|blocks| - 1])
  }

  function SentFor(addresses: seq<nat>, log: seq<Entry>): seq<Message> {
    if log == [] then []
    else
      var e := log[|log| - 1];
      SentFor(addresses, log[..|log| - 1]) + MessagesOf(addresses, e.block, e.tx, |e.tx.events|)
  }

  // ---------------------------------------------------------------------------
  // The code
  // ---------------------------------------------------------------------------

  class EventProvider {
    const addresses: seq<nat>
    var pendingParent: Option<int>
    var pendingTxs: seq<int>
    var eventCh: seq<Message>
    ghost var log: seq<Entry>
    ghost var epoch: nat

    ghost predicate Valid()
      reads this
    {
      eventCh == SentFor(addresses, log)
    }

    ghost function Abs(): State
      reads this
    {
      State(pendingParent, (set h | h in pendingTxs), log, epoch)
    }

    constructor (addresses: seq<nat>)
      ensures Valid() && Abs() == Initial() && this.addresses == addresses
    {
      this.addresses := addresses;
      pendingParent, pendingTxs, eventCh := None, [], [];
      log, epoch := [], 0;
    }

    method IsTeleportEvent(evt: Event) returns (ok: bool)
      ensures ok <==> evt.from in addresses
    {
      for i := 0 to |addresses|
        invariant evt.from !in addresses[..i]
      {
        if evt.from == addresses[i] {
          return true;
        }
      }
      return false;
    }

    /** Sends the messages of one transaction; `kept` tells for which of its events. */
    method HandleEvents(b: Block, tx: Receipt) returns (ghost kept: seq<nat>)
      requires Valid()
      modifies this`eventCh, this`log
      ensures Valid() && log == old(log) + [Entry(b, tx, epoch)]
      ensures Ascending(kept, |tx.events|)
      ensures forall i: nat :: i in kept <==> i < |tx.events| && tx.events[i].from in addresses && |tx.events[i].data| >= 7
      ensures |eventCh| == |old(eventCh)| + |kept| && eventCh[..|old(eventCh)|] == old(eventCh)
      ensures forall j | 0 <= j < |kept| ::
                eventCh[|old(eventCh)| + j] == Message(tx.hash, tx.events[kept[j]], b.timestamp)
    {
      for i := 0 to |tx.events|
        invariant log == old(log) && eventCh == old(eventCh) + MessagesOf(addresses, b, tx, i)
      {
        var ok := IsTeleportEvent(tx.events[i]);
        if !ok {
          continue;
        }
        var event := EventToMessage(b, tx, tx.events[i]);
        if event.None? {
          continue;
        }
        eventCh := eventCh + [event.value];
      }
      kept := MessagesExactly(addresses, b, tx, |tx.events|);
      log := log + [Entry(b, tx, epoch)];
      assert log[..|log| - 1] == old(log);
    }

    /** Whether the transaction of the pending block was already processed; if not, it is remembered. */
    method CheckPending(hash: int) returns (skip: bool)
      modifies this`pendingTxs
      ensures skip <==> hash in old(pendingTxs)
      ensures pendingTxs == if skip then old(pendingTxs) else old(pendingTxs) + [hash]
    {
      skip := false;
      for i := 0 to |pendingTxs|
        invariant !skip && hash !in pendingTxs[..i]
      {
        if pendingTxs[i] == hash {
          skip := true;
          break;
        }
      }
      if !skip {
        pendingTxs := pendingTxs + [hash];
      }
    }

    method ProcessBlock(b: Block)
      requires Valid()
      modifies this
      ensures Valid() && Abs() == Process(old(Abs()), b)
    {
      var isPending := b.status == "PENDING";
      if isPending && (pendingParent.None? || b.parentHash != pendingParent.value) {
        pendingParent := Some(b.parentHash);
        pendingTxs := [];
        epoch := epoch + 1;
      }
      for i := 0 to |b.receipts|
        invariant Valid() && Abs() == After(old(Abs()), b, i)
      {
        var tx, skip := b.receipts[i], false;
        if isPending {
          skip := CheckPending(tx.hash);
        }
        if skip {
          continue;
        }
        ghost var kept := HandleEvents(b, tx);
      }
    }
  }

  // ---------------------------------------------------------------------------
  // Over any interleaving of blocks
  // ---------------------------------------------------------------------------

  /** How often a pending transaction was sent in an epoch. */
  function Count(log: seq<Entry>, hash: int, epoch: nat): nat {
    if log == [] then 0
    else
      var e := log[|log| - 1];
      Count(log[..|log| - 1], hash, epoch) +
      if e.block.Pending() && e.tx.hash == hash && e.epoch == epoch then 1 else 0
  }

  /** The remembered transactions are those sent in this epoch, each once. */
  ghost predicate Sound(s: State) {
    && (forall h: int :: Count(s.log, h, s.epoch) == if h in s.seen then 1 else 0)
    && (forall h: int, e: nat | e > s.epoch :: Count(s.log, h, e) == 0)
    && (forall h: int, e: nat :: Count(s.log, h, e) <= 1)
  }

  lemma CountSnoc(log: seq<Entry>, x: Entry, hash: int, epoch: nat)
    ensures Count(log + [x], hash, epoch) ==
            Count(log, hash, epoch) + if x.block.Pending() && x.tx.hash == hash && x.epoch == epoch then 1 else 0
  {
    assert (log + [x])[..|log|] == log;
  }

  /** What one transaction adds to the count. */
  lemma StepCount(s: State, b: Block, k: nat, h: int, e: nat)
    requires 0 < k <= |b.receipts|
    ensures var t := After(s, b, k - 1);
            Count(After(s, b, k).log, h, e) == Count(t.log, h, e) +
            if b.Pending() && h !in t.seen && h == b.receipts[k - 1].hash && e == t.epoch then 1 else 0
  {
    var t := After(s, b, k - 1);
    CountSnoc(t.log, Entry(b, b.receipts[k - 1], t.epoch), h, e);
  }

  lemma {:induction false} AfterKeepsSound(s: State, b: Block, k: nat)
    requires Sound(s) && k <= |b.receipts|
    ensures Sound(After(s, b, k))
  {
    if k > 0 {
      AfterKeepsSound(s, b, k - 1);
      var t, u := After(s, b, k - 1), After(s, b, k);
      forall h: int, e: nat
        ensures Count(u.log, h, e) == Count(t.log, h, e) +
                if b.Pending() && h !in t.seen && h == b.receipts[k - 1].hash && e == t.epoch then 1 else 0
      {
        StepCount(s, b, k, h, e);
      }
    }
  }

  lemma {:induction false} CountGrows(s: State, b: Block, k: nat, h: int, e: nat)
    requires k <= |b.receipts|
    ensures Count(After(s, b, k).log, h, e) >= Count(s.log, h, e)
  {
    if k > 0 {
      CountGrows(s, b, k - 1, h, e);
      StepCount(s, b, k, h, e);
    }
  }

  /** Once a transaction was sent in an epoch, no further block makes it be sent again in that epoch. */
  lemma ProcessKeepsCount(s: State, b: Block, h: int, e: nat)
    requires Sound(s) && Count(s.log, h, e) == 1
    ensures Count(Process(s, b).log, h, e) == 1
  {
    CountGrows(s, b, |b.receipts|, h, e);
    AfterKeepsSound(s, b, |b.receipts|);
    var t := Process(s, b);
    assert Count(t.log, h, e) <= 1;
  }

  /** Processing a pending block leaves each of its transactions remembered. */
  lemma {:induction false} PendingAreSeen(s: State, b: Block, k: nat, i: nat)
    requires b.Pending() && i < k <= |b.receipts|
    ensures b.receipts[i].hash in After(s, b, k).seen
  {
    if i < k - 1 {
      PendingAreSeen(s, b, k - 1, i);
    }
  }

  lemma {:induction false} RunKeepsSound(blocks: seq<Block>)
    ensures Sound(Run(Initial(), blocks))
  {
    if blocks != [] {
      var n := |blocks| - 1;
      RunKeepsSound(blocks[..n]);
      AfterKeepsSound(Run(Initial(), blocks[..n]), blocks[n], |blocks[n].receipts|);
    }
  }

  /** A transaction of a pending block is sent exactly once in the epoch of that block. */
  lemma {:induction false} SentOnceInEpoch(blocks: seq<Block>, k: nat, i: nat)
    requires k < |blocks| && blocks[k].Pending() && i < |blocks[k].receipts|
    ensures Count(Run(Initial(), blocks).log, blocks[k].receipts[i].hash, Run(Initial(), blocks[..k + 1]).epoch) == 1
  {
    var n := |blocks| - 1;
    var init := blocks[..n];
    RunKeepsSound(init);
    if k == n {
      assert blocks[..k + 1] == blocks;
      RunKeepsSound(blocks);
      PendingAreSeen(Run(Initial(), init), blocks[k], |blocks[k].receipts|, i);
    } else {
      SentOnceInEpoch(init, k, i);
      assert init[..k + 1] == blocks[..k + 1];
      ProcessKeepsCount(Run(Initial(), init), blocks[n], blocks[k].receipts[i].hash,
                        Run(Initial(), blocks[..k + 1]).epoch);
    }
  }

  /** The parent of the last pending block. */
  function LastParent(blocks: seq<Block>): Option<int> {
    if blocks == [] then None
    else if blocks[|blocks| - 1].Pending() then Some(blocks[|blocks| - 1].parentHash)
    else LastParent(blocks[..|blocks| - 1])
  }

  lemma {:induction false} AfterParent(s: State, b: Block, k: nat)
    requires k <= |b.receipts|
    ensures After(s, b, k).parent == (if b.Pending() then Some(b.parentHash) else s.parent)
    ensures After(s, b, k).epoch == s.epoch + if b.Pending() && s.parent != Some(b.parentHash) then 1 else 0
  {
    if k > 0 {
      AfterParent(s, b, k - 1);
    }
  }

  lemma {:induction false} ParentIsLast(blocks: seq<Block>)
    ensures Run(Initial(), blocks).parent == LastParent(blocks)
  {
    if blocks != [] {
      var n := |blocks| - 1;
      ParentIsLast(blocks[..n]);
      AfterParent(Run(Initial(), blocks[..n]), blocks[n], |blocks[n].receipts|);
    }
  }

  /** From block `j` on all pending blocks have the same parent, and the pending block before it, if any, had another one. */
  ghost predicate OneParent(blocks: seq<Block>, j: nat) {
    && j < |blocks| && blocks[j].Pending()
    && LastParent(blocks[..j]) != Some(blocks[j].parentHash)
    && forall i | j <= i < |blocks| && blocks[i].Pending() :: blocks[i].parentHash == blocks[j].parentHash
  }

  lemma OneParentInit(blocks: seq<Block>, j: nat)
    requires OneParent(blocks, j) && |blocks| > j + 1
    ensures OneParent(blocks[..|blocks| - 1], j) && blocks[..|blocks| - 1][..j] == blocks[..j]
  {
    assert blocks[..|blocks| - 1][..j] == blocks[..j];
  }

  lemma {:induction false} LastParentIn(blocks: seq<Block>, j: nat)
    requires OneParent(blocks, j)
    ensures LastParent(blocks) == Some(blocks[j].parentHash)
  {
    if |blocks| > j + 1 {
      OneParentInit(blocks, j);
      LastParentIn(blocks[..|blocks| - 1], j);
    }
  }

  lemma {:induction false} OneEpoch(blocks: seq<Block>, j: nat)
    requires OneParent(blocks, j)
    ensures Run(Initial(), blocks).epoch == Run(Initial(), blocks[..j]).epoch + 1
  {
    var n := |blocks| - 1;
    var init := blocks[..n];
    ParentIsLast(init);
    AfterParent(Run(Initial(), init), blocks[n], |blocks[n].receipts|);
    if n > j {
      OneParentInit(blocks, j);
      OneEpoch(init, j);
      LastParentIn(init, j);
    }
  }

  /** How often pending blocks have sent a transaction. */
  function PendingSends(log: seq<Entry>, hash: int): nat {
    if log == [] then 0
    else
      var e := log[|log| - 1];
      PendingSends(log[..|log| - 1], hash) + if e.block.Pending() && e.tx.hash == hash then 1 else 0
  }

  lemma PendingSendsSnoc(log: seq<Entry>, x: Entry, hash: int)
    ensures PendingSends(log + [x], hash) ==
            PendingSends(log, hash) + if x.block.Pending() && x.tx.hash == hash then 1 else 0
  {
    assert (log + [x])[..|log|] == log;
  }

  /** What a block sends counts in its epoch. */
  lemma {:induction false} BlockSends(s: State, b: Block, k: nat, h: int, e: nat)
    requires k <= |b.receipts| && (b.Pending() ==> After(s, b, 0).epoch == e)
    ensures After(s, b, k).epoch == After(s, b, 0).epoch
    ensures PendingSends(After(s, b, k).log, h) - PendingSends(s.log, h) ==
            Count(After(s, b, k).log, h, e) - Count(s.log, h, e)
  {
    if k > 0 {
      BlockSends(s, b, k - 1, h, e);
      var t := After(s, b, k - 1);
      PendingSendsSnoc(t.log, Entry(b, b.receipts[k - 1], t.epoch), h);
      CountSnoc(t.log, Entry(b, b.receipts[k - 1], t.epoch), h, e);
    }
  }

  lemma {:induction false} SendsInEpoch(blocks: seq<Block>, j: nat, h: int)
    requires OneParent(blocks, j)
    ensures PendingSends(Run(Initial(), blocks).log, h) - PendingSends(Run(Initial(), blocks[..j]).log, h) ==
            Count(Run(Initial(), blocks).log, h, Run(Initial(), blocks).epoch)
  {
    var n := |blocks| - 1;
    var init := blocks[..n];
    var s, e := Run(Initial(), init), Run(Initial(), blocks).epoch;
    AfterParent(s, blocks[n], 0);
    AfterParent(s, blocks[n], |blocks[n].receipts|);
    BlockSends(s, blocks[n], |blocks[n].receipts|, h, e);
    OneEpoch(blocks, j);
    if n > j {
      OneParentInit(blocks, j);
      OneEpoch(init, j);
      SendsInEpoch(init, j, h);
    } else {
      RunKeepsSound(init);
    }
  }

  /**
   Every transaction of every pending block is sent exactly once while the parent of the pending block stays the
   same, whatever accepted and pending blocks are processed before and in between, and whatever was sent before.
   */
  lemma PendingSentOnce(blocks: seq<Block>, j: nat, k: nat, i: nat)
    requires OneParent(blocks, j) && j <= k < |blocks| && blocks[k].Pending() && i < |blocks[k].receipts|
    ensures var h := blocks[k].receipts[i].hash;
            PendingSends(Run(Initial(), blocks).log, h) == PendingSends(Run(Initial(), blocks[..j]).log, h) + 1
  {
    var upto := blocks[..k + 1];
    assert upto[..j] == blocks[..j];
    OneEpoch(blocks, j);
    OneEpoch(upto, j);
    SentOnceInEpoch(blocks, k, i);
    SendsInEpoch(blocks, j, blocks[k].receipts[i].hash);
  }

  /** Never twice while the parent stays the same, for any transaction. */
  lemma NeverTwice(blocks: seq<Block>, j: nat, h: int)
    requires OneParent(blocks, j)
    ensures PendingSends(Run(Initial(), blocks).log, h) <= PendingSends(Run(Initial(), blocks[..j]).log, h) + 1
  {
    RunKeepsSound(blocks);
    SendsInEpoch(blocks, j, h);
  }

  /** A pending block on another parent than the last one sends all of its transactions, even those sent before. */
  lemma NewParentSendsAgain(blocks: seq<Block>, b: Block, i: nat)
    requires b.Pending() && LastParent(blocks) != Some(b.parentHash) && i < |b.receipts|
    ensures var h := b.receipts[i].hash;
            PendingSends(Run(Initial(), blocks + [b]).log, h) == PendingSends(Run(Initial(), blocks).log, h) + 1
  {
    var all := blocks + [b];
    assert all[..|blocks|] == blocks;
    PendingSentOnce(all, |blocks|, |blocks|, i);
  }

  /** All transactions of a block, as log entries. */
  function Entries(b: Block, epoch: nat, k: nat): seq<Entry>
    requires k <= |b.receipts|
  {
    seq(k, i requires 0 <= i < k => Entry(b, b.receipts[i], epoch))
  }

  /** An accepted block sends all of its transactions and leaves the tracking of the pending block alone. */
  lemma {:induction false} AcceptedSendsAll(s: State, b: Block, k: nat)
    requires !b.Pending() && k <= |b.receipts|
    ensures After(s, b, k) == s.(log := s.log + Entries(b, s.epoch, k))
  {
    if k > 0 {
      AcceptedSendsAll(s, b, k - 1);
      assert Entries(b, s.epoch, k) == Entries(b, s.epoch, k - 1) + [Entry(b, b.receipts[k - 1], s.epoch)];
    }
  }

  /** What a block adds depends on the tracking only, so accepted blocks in between make no difference to it. */
  lemma {:induction false} TrackingDecides(s: State, t: State, b: Block, k: nat)
    requires s.parent == t.parent && s.seen == t.seen && s.epoch == t.epoch && k <= |b.receipts|
    ensures var u, w := After(s, b, k), After(t, b, k);
            && u.parent == w.parent && u.seen == w.seen && u.epoch == w.epoch
            && |u.log| >= |s.log| && |w.log| >= |t.log| && u.log[|s.log|..] == w.log[|t.log|..]
  {
    if k > 0 {
      TrackingDecides(s, t, b, k - 1);
    }
  }
}
