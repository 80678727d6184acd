/**
 CAN transmission: eight hardware message buffers mirrored by the driver's
 slot table, filled by send() and emptied by two collectors, the interrupt
 handler and irq().flags().
 */
module CanSlots {
  import opened Prelude

  const SLOTS: nat := 8

  /** A message send() has accepted; its serial number is its position in `accepted`. */
  datatype Msg = Msg(id: nat, ordered: bool)

  /** What a message buffer of the controller is doing. */
  datatype Buffer =
    | Free
    | Sending(serial: nat)
    | Finished(serial: nat, err: bool)

  /** A slot freed by flags(), which reports it, or by the interrupt handler, which does not. */
  datatype Freed = Freed(serial: nat, reported: bool, failed: bool)

  /** A transmission the controller has finished, in the order in which it did. */
  datatype Done = Done(serial: nat, err: bool)

  datatype Can = Can(
    tx: seq<Option<nat>>,    // the driver's table: the CAN id in each slot
    buffers: seq<Buffer>,    // the controller
    subscribed: bool,        // IRQ_TX is in the user's trigger mask
    txFlag: bool,            // CAN_TX_INT is pending: a transmission has finished since it was cleared
    accepted: seq<Msg>, done: seq<Done>, freed: seq<Freed>)

  datatype Event =
    | Send(id: nat, unordered: bool)
    | Complete(i: nat, err: bool)  // the controller finishes buffer i
    | TxIrq
    | Flags
    | Subscribe(on: bool)

  function Empty(): Can {
    Can(seq(SLOTS, _ => None), seq(SLOTS, _ => Free), false, false, [], [], [])
  }

  predicate Shaped(c: Can) {
    |c.tx| == |c.buffers| == SLOTS
  }

  // ---------------------------------------------------------------------
  // Operations
  // ---------------------------------------------------------------------

  /** The first empty slot at or after i, SLOTS if there is none. */
  function FirstEmpty(tx: seq<Option<nat>>, i: nat): (r: nat)
    requires i <= |tx|
    ensures i <= r <= |tx|
    ensures r < |tx| ==> tx[r].None?
    ensures forall k | i <= k < r :: tx[k].Some?
    decreases |tx| - i
  {
    if i == |tx| || tx[i].None? then i else FirstEmpty(tx, i + 1)
  }

  predicate Refused(tx: seq<Option<nat>>, id: nat, unordered: bool) {
    FirstEmpty(tx, 0) == |tx| || (!unordered && Some(id) in tx)
  }

  /** CAN_WriteMsg and the slot store. */
  function Occupy(c: Can, i: nat, id: nat, ordered: bool): Can
    requires Shaped(c) && i < SLOTS
  {
    c.(tx := c.tx[i := Some(id)], buffers := c.buffers[i := Sending(|c.accepted|)],
       accepted := c.accepted + [Msg(id, ordered)])
  }

  /** The lowest finished buffer at or after i, SLOTS if there is none. */
  function LowestFinished(buffers: seq<Buffer>, i: nat): (r: nat)
    requires i <= |buffers|
    ensures i <= r <= |buffers|
    ensures r < |buffers| ==> buffers[r].Finished?
    ensures forall k | i <= k < r :: !buffers[k].Finished?
    decreases |buffers| - i
  {
    if i == |buffers| || buffers[i].Finished? then i else LowestFinished(buffers, i + 1)
  }

  /** Both collectors clear the buffer's status bits and free its slot. */
  function Collect(c: Can, i: nat, reported: bool): (r: Can)
    requires Shaped(c) && i < SLOTS && c.buffers[i].Finished?
    ensures Shaped(r)
  {
    c.(tx := c.tx[i := None], buffers := c.buffers[i := Free],
       freed := c.freed + [Freed(c.buffers[i].serial, reported, reported && c.buffers[i].err)])
  }

  /** The handler's loop over the finished buffers at or after i, lowest first. */
  function CollectFrom(c: Can, i: nat): (r: Can)
    requires Shaped(c) && i <= SLOTS
    ensures Shaped(r)
    decreases SLOTS - i
  {
    var k := LowestFinished(c.buffers, i);
    if k == SLOTS then c else CollectFrom(Collect(c, k, false), k + 1)
  }

  function Step(c: Can, e: Event): (r: Can)
    requires Shaped(c)
    ensures Shaped(r)
  {
    match e
    case Send(id, unordered) =>
      if Refused(c.tx, id, unordered) then c else Occupy(c, FirstEmpty(c.tx, 0), id, !unordered)
    case Complete(i, err) =>
      if SLOTS <= i || !c.buffers[i].Sending? then c
      else
        var k := c.buffers[i].serial;
        c.(buffers := c.buffers[i := Finished(k, err)], txFlag := true, done := c.done + [Done(k, err)])
    case TxIrq =>
      if !c.txFlag then c
      else if c.subscribed then c.(txFlag := false)
      else CollectFrom(c.(txFlag := false), 0)
    case Flags =>
      var k := LowestFinished(c.buffers, 0);
      if !c.subscribed || k == SLOTS then c else Collect(c, k, true)
    case Subscribe(on) => c.(subscribed := on)
  }

  function Run(c: Can, events: seq<Event>): (r: Can)
    requires Shaped(c)
    ensures Shaped(r)
    decreases |events|
  {
    if events == [] then c else Step(Run(c, events[..|events| - 1]), events[|events| - 1])
  }

  // ---------------------------------------------------------------------
  // Slot accounting
  // ---------------------------------------------------------------------

  predicate WasFreed(c: Can, k: nat) {
    exists j :: 0 <= j < |c.freed| && c.freed[j].serial == k
  }

  predicate WasDone(c: Can, k: nat) {
    exists j :: 0 <= j < |c.done| && c.done[j].serial == k
  }

  /** Message k occupies some buffer. */
  predicate Outstanding(c: Can, k: nat) {
    exists i :: 0 <= i < |c.buffers| && !c.buffers[i].Free? && c.buffers[i].serial == k
  }

  function Occupied(tx: seq<Option<nat>>): nat {
    if tx == [] then 0 else Occupied(tx[1..]) + (if tx[0].Some? then 1 else 0)
  }

  /** The table mirrors the controller, and knows whose message is in each slot. */
  ghost predicate Mirrors(c: Can) {
    && Shaped(c)
    && (forall i | 0 <= i < SLOTS :: c.tx[i].Some? <==> !c.buffers[i].Free?)
    && (forall i | 0 <= i < SLOTS && !c.buffers[i].Free? ::
          c.buffers[i].serial < |c.accepted| && c.tx[i] == Some(c.accepted[c.buffers[i].serial].id))
    && (forall i, j | 0 <= i < j < SLOTS && !c.buffers[i].Free? && !c.buffers[j].Free? ::
          c.buffers[i].serial != c.buffers[j].serial)
  }

  /** Every accepted message is outstanding or freed, not both, and freed once. */
  ghost predicate Accounted(c: Can) {
    && Mirrors(c)
    && (forall k | 0 <= k < |c.accepted| :: Outstanding(c, k) <==> !WasFreed(c, k))
    && (forall j | 0 <= j < |c.freed| :: c.freed[j].serial < |c.accepted|)
    && (forall i, j | 0 <= i < j < |c.freed| :: c.freed[i].serial != c.freed[j].serial)
    && Occupied(c.tx) + |c.freed| == |c.accepted|
  }

  lemma {:induction false} OccupiedUpdate(tx: seq<Option<nat>>, i: nat, v: Option<nat>)
    requires i < |tx|
    ensures Occupied(tx[i := v]) == Occupied(tx) - (if tx[i].Some? then 1 else 0) + (if v.Some? then 1 else 0)
  {
    if i == 0 {
      assert tx[i := v][1..] == tx[1..];
    } else {
      assert tx[i := v][1..] == tx[1..][i - 1 := v];
      OccupiedUpdate(tx[1..], i - 1, v);
    }
  }

  lemma OccupyAccounted(c: Can, i: nat, id: nat, ordered: bool)
    requires Accounted(c) && i < SLOTS && c.tx[i].None?
    ensures Accounted(Occupy(c, i, id, ordered))
  {
    var v := Occupy(c, i, id, ordered);
    OccupiedUpdate(c.tx, i, Some(id));
    hide Occupied;
    forall k | 0 <= k < |v.accepted| ensures Outstanding(v, k) <==> !WasFreed(v, k) {
      if k == |c.accepted| {
        assert v.buffers[i].serial == k;
      } else if Outstanding(c, k) {
        var b :| 0 <= b < |c.buffers| && !c.buffers[b].Free? && c.buffers[b].serial == k;
        assert v.buffers[b] == c.buffers[b];
      }
    }
  }

  lemma CollectAccounted(c: Can, i: nat, reported: bool)
    requires Accounted(c) && i < SLOTS && c.buffers[i].Finished?
    ensures Accounted(Collect(c, i, reported))
  {
    var v := Collect(c, i, reported);
    var serial := c.buffers[i].serial;
    OccupiedUpdate(c.tx, i, None);
    hide Occupied;
    assert Outstanding(c, serial);
    forall k | 0 <= k < |v.accepted| ensures Outstanding(v, k) <==> !WasFreed(v, k) {
      if k == serial {
        assert v.freed[|c.freed|].serial == k;
      } else {
        assert WasFreed(v, k) ==> WasFreed(c, k);
        if WasFreed(c, k) {
          var j :| 0 <= j < |c.freed| && c.freed[j].serial == k;
          assert v.freed[j].serial == k;
        } else {
          var b :| 0 <= b < |c.buffers| && !c.buffers[b].Free? && c.buffers[b].serial == k;
          assert v.buffers[b] == c.buffers[b];
        }
      }
    }
  }

  lemma CompleteAccounted(c: Can, i: nat, err: bool)
    requires Accounted(c)
    ensures Accounted(Step(c, Complete(i, err)))
  {
    var v := Step(c, Complete(i, err));
    hide Occupied;
    forall k | 0 <= k < |v.accepted| ensures Outstanding(v, k) <==> Outstanding(c, k) {
      if Outstanding(c, k) {
        var b :| 0 <= b < |c.buffers| && !c.buffers[b].Free? && c.buffers[b].serial == k;
        assert v.buffers[b].serial == k;
      }
    }
  }

  // ---------------------------------------------------------------------
  // What was finished, and in which order
  // ---------------------------------------------------------------------

  predicate DoneWith(c: Can, k: nat, err: bool) {
    exists j :: 0 <= j < |c.done| && c.done[j] == Done(k, err)
  }

  /** The logs agree with the buffers: every message finishes once, and its error bit is what is reported. */
  ghost predicate Logged(c: Can) {
    && Shaped(c)
    && (forall i | 0 <= i < SLOTS && c.buffers[i].Sending? :: !WasDone(c, c.buffers[i].serial))
    && (forall i | 0 <= i < SLOTS && c.buffers[i].Finished? :: DoneWith(c, c.buffers[i].serial, c.buffers[i].err))
    && (forall j | 0 <= j < |c.done| :: c.done[j].serial < |c.accepted|)
    && (forall i, j | 0 <= i < j < |c.done| :: c.done[i].serial != c.done[j].serial)
    && (forall j | 0 <= j < |c.freed| :: WasDone(c, c.freed[j].serial))
    && (forall j | 0 <= j < |c.freed| && c.freed[j].reported :: DoneWith(c, c.freed[j].serial, c.freed[j].failed))
  }

  lemma OccupyLogged(c: Can, i: nat, id: nat, ordered: bool)
    requires Accounted(c) && Logged(c) && i < SLOTS && c.tx[i].None?
    ensures Logged(Occupy(c, i, id, ordered))
  {
    hide Occupied;
    var v := Occupy(c, i, id, ordered);
    assert forall k, err :: DoneWith(c, k, err) ==> DoneWith(v, k, err);
    assert forall k :: WasDone(c, k) <==> WasDone(v, k);
  }

  lemma CollectLogged(c: Can, i: nat, reported: bool)
    requires Logged(c) && i < SLOTS && c.buffers[i].Finished?
    ensures Logged(Collect(c, i, reported))
  {
    var v := Collect(c, i, reported);
    assert forall k, err :: DoneWith(c, k, err) ==> DoneWith(v, k, err);
    assert forall k :: WasDone(c, k) <==> WasDone(v, k);
    assert DoneWith(c, c.buffers[i].serial, c.buffers[i].err);
  }

  lemma CompleteLogged(c: Can, i: nat, err: bool)
    requires Accounted(c) && Logged(c) && i < SLOTS && c.buffers[i].Sending?
    ensures Logged(Step(c, Complete(i, err)))
  {
    hide Occupied;
    var v := Step(c, Complete(i, err));
    var serial := c.buffers[i].serial;
    assert v.done[|c.done|] == Done(serial, err);
    assert forall k, e :: DoneWith(c, k, e) ==> DoneWith(v, k, e) by {
      assert forall j | 0 <= j < |c.done| :: v.done[j] == c.done[j];
    }
    forall k | WasDone(c, k) ensures WasDone(v, k) {
      var j :| 0 <= j < |c.done| && c.done[j].serial == k;
      assert v.done[j].serial == k;
    }
    assert forall k | k != serial :: WasDone(v, k) ==> WasDone(c, k);
  }

  /** An ordered message is accepted only when no earlier message with its id is outstanding. */
  ghost predicate Exclusive(c: Can) {
    forall j, k | 0 <= j < k < |c.accepted| && c.accepted[j].id == c.accepted[k].id && c.accepted[k].ordered ::
      WasFreed(c, j)
  }

  /** Message j was finished before the message at position q of the log. */
  predicate DoneBefore(c: Can, j: nat, q: nat) {
    exists p :: 0 <= p < q <= |c.done| && c.done[p].serial == j
  }

  /** An ordered message is finished only after every earlier message with its id. */
  ghost predicate InOrder(c: Can) {
    forall q, j | 0 <= q < |c.done| && 0 <= j < c.done[q].serial < |c.accepted| &&
      c.accepted[j].id == c.accepted[c.done[q].serial].id && c.accepted[c.done[q].serial].ordered ::
      DoneBefore(c, j, q)
  }

  lemma OutstandingInTable(c: Can, k: nat)
    requires Mirrors(c) && k < |c.accepted|
    ensures Outstanding(c, k) ==> Some(c.accepted[k].id) in c.tx
  {
    if i :| 0 <= i < |c.buffers| && !c.buffers[i].Free? && c.buffers[i].serial == k {
      assert c.tx[i] == Some(c.accepted[k].id);
    }
  }

  lemma OccupyExclusive(c: Can, i: nat, id: nat, ordered: bool)
    requires Accounted(c) && Exclusive(c) && i < SLOTS && c.tx[i].None?
    requires ordered ==> Some(id) !in c.tx
    ensures Exclusive(Occupy(c, i, id, ordered))
  {
    hide Occupied;
    var v := Occupy(c, i, id, ordered);
    forall j, k | 0 <= j < k < |v.accepted| && v.accepted[j].id == v.accepted[k].id && v.accepted[k].ordered
      ensures WasFreed(v, j)
    {
      OutstandingInTable(c, j);
      assert WasFreed(c, j);
    }
  }

  lemma CompleteInOrder(c: Can, i: nat, err: bool)
    requires Accounted(c) && Logged(c) && Exclusive(c) && InOrder(c)
    requires i < SLOTS && c.buffers[i].Sending?
    ensures InOrder(Step(c, Complete(i, err)))
  {
    hide Occupied;
    var v := Step(c, Complete(i, err));
    forall q, j | 0 <= q < |v.done| && 0 <= j < v.done[q].serial < |v.accepted| &&
      v.accepted[j].id == v.accepted[v.done[q].serial].id && v.accepted[v.done[q].serial].ordered
      ensures DoneBefore(v, j, q)
    {
      if q == |c.done| {
        assert WasFreed(c, j);
        assert WasDone(c, j);
        var p :| 0 <= p < |c.done| && c.done[p].serial == j;
        assert v.done[p].serial == j;
      } else {
        assert DoneBefore(c, j, q);
        var p :| 0 <= p < q && c.done[p].serial == j;
        assert v.done[p].serial == j;
      }
    }
  }

  // ---------------------------------------------------------------------
  // Whole runs
  // ---------------------------------------------------------------------

  ghost predicate Reliable(c: Can) {
    Accounted(c) && Logged(c) && Exclusive(c) && InOrder(c)
  }

  lemma CollectReliable(c: Can, i: nat, reported: bool)
    requires Reliable(c) && i < SLOTS && c.buffers[i].Finished?
    ensures Reliable(Collect(c, i, reported))
  {
    var v := Collect(c, i, reported);
    CollectAccounted(c, i, reported);
    CollectLogged(c, i, reported);
    assert Exclusive(v) by {
      hide Accounted, Logged, InOrder;
      forall j | WasFreed(c, j) ensures WasFreed(v, j) {
        var k :| 0 <= k < |c.freed| && c.freed[k].serial == j;
        assert v.freed[k].serial == j;
      }
    }
    assert InOrder(v) by {
      hide Accounted, Logged, Exclusive;
      assert forall j, q :: DoneBefore(c, j, q) ==> DoneBefore(v, j, q);
    }
  }

  lemma {:induction false} CollectFromReliable(c: Can, i: nat)
    requires Reliable(c) && i <= SLOTS
    ensures Reliable(CollectFrom(c, i))
    decreases SLOTS - i
  {
    assert Shaped(c);
    hide Reliable, LowestFinished;
    var k := LowestFinished(c.buffers, i);
    if k < SLOTS {
      CollectReliable(c, k, false);
      CollectFromReliable(Collect(c, k, false), k + 1);
    }
  }

  /** The handler's loop leaves no finished buffer behind and touches no other. */
  lemma {:induction false} CollectFromEmpties(c: Can, i: nat)
    requires Shaped(c) && i <= SLOTS
    ensures var v := CollectFrom(c, i);
      && (forall b | 0 <= b < SLOTS && v.buffers[b].Finished? :: b < i && c.buffers[b].Finished?)
      && (forall b | 0 <= b < SLOTS && v.buffers[b] != c.buffers[b] :: c.buffers[b].Finished? && v.buffers[b].Free?)
      && v.txFlag == c.txFlag && v.accepted == c.accepted && v.done == c.done && v.subscribed == c.subscribed
    decreases SLOTS - i
  {
    hide LowestFinished;
    var k := LowestFinished(c.buffers, i);
    if k < SLOTS {
      CollectFromEmpties(Collect(c, k, false), k + 1);
    }
  }

  lemma SendReliable(c: Can, id: nat, unordered: bool)
    requires Reliable(c)
    ensures Reliable(Step(c, Send(id, unordered)))
  {
    if !Refused(c.tx, id, unordered) {
      var i := FirstEmpty(c.tx, 0);
      var v := Occupy(c, i, id, !unordered);
      OccupyAccounted(c, i, id, !unordered);
      OccupyLogged(c, i, id, !unordered);
      OccupyExclusive(c, i, id, !unordered);
      assert InOrder(v) by {
        hide Occupied, Exclusive, Accounted;
        assert forall j, q :: DoneBefore(c, j, q) ==> DoneBefore(v, j, q);
      }
    }
  }

  lemma CompleteReliable(c: Can, i: nat, err: bool)
    requires Reliable(c)
    ensures Reliable(Step(c, Complete(i, err)))
  {
    if i < SLOTS && c.buffers[i].Sending? {
      CompleteAccounted(c, i, err);
      CompleteLogged(c, i, err);
      CompleteInOrder(c, i, err);
      assert Exclusive(Step(c, Complete(i, err))) by {
        hide Accounted, Logged, InOrder;
        assert forall j :: WasFreed(c, j) ==> WasFreed(Step(c, Complete(i, err)), j);
      }
      hide Accounted, Logged, InOrder, Exclusive;
    }
  }

  /** The user's mask and the interrupt flag are nobody's account. */
  lemma SwitchReliable(c: Can, on: bool, flag: bool)
    requires Reliable(c)
    ensures Reliable(c.(subscribed := on, txFlag := flag))
  {
    var v := c.(subscribed := on, txFlag := flag);
    hide Occupied;
    assert forall j :: WasFreed(c, j) <==> WasFreed(v, j);
    assert forall j :: WasDone(c, j) <==> WasDone(v, j);
    assert forall j :: Outstanding(c, j) <==> Outstanding(v, j);
    assert forall j, e :: DoneWith(c, j, e) <==> DoneWith(v, j, e);
    assert forall j, q :: DoneBefore(c, j, q) <==> DoneBefore(v, j, q);
  }

  lemma TxIrqReliable(c: Can)
    requires Reliable(c)
    ensures Reliable(Step(c, TxIrq))
  {
    assert Shaped(c);
    hide Reliable;
    SwitchReliable(c, c.subscribed, false);
    if c.txFlag && !c.subscribed {
      CollectFromReliable(c.(txFlag := false), 0);
    }
  }

  lemma StepReliable(c: Can, e: Event)
    requires Reliable(c)
    ensures Reliable(Step(c, e))
  {
    match e
    case Send(id, unordered) => SendReliable(c, id, unordered);
    case Complete(i, err) => CompleteReliable(c, i, err);
    case TxIrq => TxIrqReliable(c);
    case Flags =>
      hide Reliable;
      var k := LowestFinished(c.buffers, 0);
      if c.subscribed && k < SLOTS { CollectReliable(c, k, true); }
    case Subscribe(on) => SwitchReliable(c, on, c.txFlag);
  }

  /**
   Main result: in every reachable state a slot is occupied exactly when its
   buffer is sending or finished and not collected; every accepted message is
   outstanding or was freed exactly once; a freed message that was reported
   was reported with its own error bit; and an ordered message is finished
   after every earlier message with the same id, whichever buffer the
   controller picks first.
   */
  lemma {:induction false} AlwaysReliable(c: Can, events: seq<Event>)
    requires Reliable(c)
    ensures Reliable(Run(c, events))
    decreases |events|
  {
    if events != [] {
      AlwaysReliable(c, events[..|events| - 1]);
      StepReliable(Run(c, events[..|events| - 1]), events[|events| - 1]);
    }
  }

  /** An ordered send is refused if and only if the table is full or holds the same id. */
  lemma RefusedIffOutstanding(c: Can, id: nat, unordered: bool)
    requires Accounted(c)
    ensures Refused(c.tx, id, unordered) <==>
      (forall i | 0 <= i < SLOTS :: !c.buffers[i].Free?) ||
      (!unordered && exists k :: 0 <= k < |c.accepted| && c.accepted[k].id == id && Outstanding(c, k))
  {
    hide Occupied;
    if !unordered && Some(id) in c.tx {
      var i :| 0 <= i < SLOTS && c.tx[i] == Some(id);
      assert Outstanding(c, c.buffers[i].serial);
    }
    if k :| 0 <= k < |c.accepted| && c.accepted[k].id == id && Outstanding(c, k) {
      var i :| 0 <= i < |c.buffers| && !c.buffers[i].Free? && c.buffers[i].serial == k;
      assert c.tx[i] == Some(id);
    }
  }

  function FinishedCount(buffers: seq<Buffer>): nat {
    if buffers == [] then 0 else FinishedCount(buffers[1..]) + (if buffers[0].Finished? then 1 else 0)
  }

  lemma {:induction false} FinishedUpdate(buffers: seq<Buffer>, i: nat)
    requires i < |buffers| && buffers[i].Finished?
    ensures FinishedCount(buffers[i := Free]) == FinishedCount(buffers) - 1
  {
    if i == 0 {
      assert buffers[i := Free][1..] == buffers[1..];
    } else {
      assert buffers[i := Free][1..] == buffers[1..][i - 1 := Free];
      FinishedUpdate(buffers[1..], i - 1);
    }
  }

  lemma {:induction false} NoneFinished(buffers: seq<Buffer>)
    requires forall k | 0 <= k < |buffers| :: !buffers[k].Finished?
    ensures FinishedCount(buffers) == 0
  {
    if buffers != [] { NoneFinished(buffers[1..]); }
  }

  /** While subscribed, each flags() call reports exactly one finished message, as long as there is one. */
  lemma FlagsReportsOne(c: Can)
    requires Reliable(c) && c.subscribed
    ensures var v := Step(c, Flags);
      if FinishedCount(c.buffers) == 0 then v == c
      else
        && FinishedCount(v.buffers) == FinishedCount(c.buffers) - 1
        && |v.freed| == |c.freed| + 1 && v.freed[..|c.freed|] == c.freed
        && v.freed[|c.freed|].reported
        && !WasFreed(c, v.freed[|c.freed|].serial)
        && exists k :: 0 <= k < SLOTS && v.buffers == c.buffers[k := Free] && v.tx == c.tx[k := None]
             && c.buffers[k] == Finished(v.freed[|c.freed|].serial, v.freed[|c.freed|].failed)
             && forall i | 0 <= i < k :: !c.buffers[i].Finished?
  {
    hide Occupied;
    var k := LowestFinished(c.buffers, 0);
    if k == SLOTS {
      NoneFinished(c.buffers);
    } else {
      FinishedUpdate(c.buffers, k);
      assert Outstanding(c, c.buffers[k].serial);
      hide FinishedCount;
    }
  }

  // ---------------------------------------------------------------------
  // Who frees a slot, and what is logged
  // ---------------------------------------------------------------------

  /** An accepted send puts the message, with its flag, into the lowest empty slot; a refused one changes nothing. */
  lemma SendIsLogged(c: Can, id: nat, unordered: bool)
    requires Accounted(c)
    ensures var v := Step(c, Send(id, unordered));
      if Refused(c.tx, id, unordered) then v == c
      else
        && v.accepted == c.accepted + [Msg(id, !unordered)]
        && v.done == c.done && v.freed == c.freed
        && exists k :: 0 <= k < SLOTS && c.buffers[k].Free? && v.buffers == c.buffers[k := Sending(|c.accepted|)]
             && forall i | 0 <= i < k :: !c.buffers[i].Free?
  {
    hide Occupied;
    if !Refused(c.tx, id, unordered) {
      var k := FirstEmpty(c.tx, 0);
      assert Step(c, Send(id, unordered)).buffers == c.buffers[k := Sending(|c.accepted|)];
    }
  }

  /** What the controller finished: the message of each Complete event that met one on its way. */
  function Completions(c: Can, events: seq<Event>): seq<Done>
    requires Shaped(c)
    decreases |events|
  {
    if events == [] then []
    else
      var front, e := events[..|events| - 1], events[|events| - 1];
      var now := Run(c, front);
      Completions(c, front) +
      (if e.Complete? && e.i < SLOTS && now.buffers[e.i].Sending? then [Done(now.buffers[e.i].serial, e.err)] else [])
  }

  /** The entries freed since the first `n` all went, or all did not go, to flags(). */
  predicate FreedBy(freed: seq<Freed>, n: nat, reported: bool) {
    n <= |freed| && forall j | n <= j < |freed| :: freed[j].reported == reported
  }

  lemma {:induction false} CollectFromFreed(c: Can, i: nat)
    requires Shaped(c) && i <= SLOTS
    ensures var v := CollectFrom(c, i);
      c.freed <= v.freed && FreedBy(v.freed, |c.freed|, false)
    decreases SLOTS - i
  {
    hide LowestFinished;
    var k := LowestFinished(c.buffers, i);
    if k < SLOTS {
      CollectFromFreed(Collect(c, k, false), k + 1);
    }
  }

  lemma StepFreed(c: Can, e: Event)
    requires Shaped(c) && !e.Subscribe?
    ensures var v := Step(c, e);
      && v.subscribed == c.subscribed && c.freed <= v.freed && FreedBy(v.freed, |c.freed|, c.subscribed)
      && v.done == c.done + (if e.Complete? && e.i < SLOTS && c.buffers[e.i].Sending?
                             then [Done(c.buffers[e.i].serial, e.err)] else [])
  {
    CollectFromFreed(c.(txFlag := false), 0);
    CollectFromEmpties(c.(txFlag := false), 0);
    hide CollectFrom;
  }

  /**
   Which collector frees the slots is decided by the user's trigger mask: while
   it has IRQ_TX, only flags() does, and reports each message; while it has
   not, only the interrupt handler does, and reports none.  The log of finished
   messages is what the controller finished.
   */
  lemma {:induction false} MaskDecidesCollector(c: Can, events: seq<Event>)
    requires Shaped(c) && NoSubscribe(events)
    ensures var v := Run(c, events);
      && v.subscribed == c.subscribed && c.freed <= v.freed && FreedBy(v.freed, |c.freed|, c.subscribed)
      && v.done == c.done + Completions(c, events)
    decreases |events|
  {
    hide Step;
    if events != [] {
      var front, e := events[..|events| - 1], events[|events| - 1];
      MaskDecidesCollector(c, front);
      assert e in events;
      StepFreed(Run(c, front), e);
    }
  }

  /** Message k was freed since the first `n` by a flags() call that reported its own error bit. */
  predicate ReportedSince(c: Can, n: nat, k: nat) {
    exists j :: n <= j < |c.freed| && c.freed[j].serial == k && c.freed[j].reported && DoneWith(c, k, c.freed[j].failed)
  }

  /**
   While the user listens, no finished message is lost: each one that leaves its
   slot has been reported, with its own error bit, by a flags() call of this run.
   */
  lemma FinishedAreReported(c: Can, events: seq<Event>, k: nat)
    requires Reliable(c) && c.subscribed && NoSubscribe(events)
    requires k < |Run(c, events).accepted| && !WasFreed(c, k)
    ensures var v := Run(c, events); Outstanding(v, k) <==> !ReportedSince(v, |c.freed|, k)
  {
    hide Run, Occupied;
    AlwaysReliable(c, events);
    MaskDecidesCollector(c, events);
    var v := Run(c, events);
    if WasFreed(v, k) {
      var j :| 0 <= j < |v.freed| && v.freed[j].serial == k;
      assert forall i | 0 <= i < |c.freed| :: c.freed[i] == v.freed[i];
      assert DoneWith(v, k, v.freed[j].failed);
    }
    assert ReportedSince(v, |c.freed|, k) ==> WasFreed(v, k);
  }

  predicate NoSubscribe(events: seq<Event>) {
    forall e | e in events :: !e.Subscribe?
  }

  // ---------------------------------------------------------------------
  // A table that stays full
  // ---------------------------------------------------------------------

  predicate Full(c: Can) {
    forall i | 0 <= i < |c.tx| :: c.tx[i].Some?
  }

  /** Every buffer is finished, nobody listens, and no interrupt is pending that would collect them. */
  predicate Stuck(c: Can)
    requires Shaped(c)
  {
    !c.subscribed && !c.txFlag && forall i | 0 <= i < SLOTS :: c.buffers[i].Finished?
  }

  lemma StuckStep(c: Can, e: Event)
    requires Mirrors(c) && Stuck(c) && !e.Subscribe?
    ensures Step(c, e) == c
  {
    if e.Send? {
      assert FirstEmpty(c.tx, 0) == SLOTS;
    }
  }

  lemma {:induction false} StuckStays(c: Can, events: seq<Event>)
    requires Mirrors(c) && Stuck(c) && NoSubscribe(events)
    ensures Run(c, events) == c
    decreases |events|
  {
    hide Step, Mirrors, Stuck;
    if events != [] {
      StuckStays(c, events[..|events| - 1]);
      StuckStep(c, events[|events| - 1]);
    }
  }

  lemma RunOne(c: Can, e: Event)
    requires Shaped(c)
    ensures Run(c, [e]) == Step(c, e)
  {
    assert [e][..0] == [];
  }

  lemma RunTwo(c: Can, e: Event, f: Event)
    requires Shaped(c)
    ensures Run(c, [e, f]) == Step(Step(c, e), f)
  {
    assert [e, f][..1] == [e];
    RunOne(c, e);
  }

  /** A finished message frees its slot, through flags() or through a pending interrupt. */
  lemma CollectedFrees(c: Can, i: nat)
    requires Reliable(c) && i < SLOTS && c.buffers[i].Finished? && (c.subscribed || c.txFlag)
    ensures !Full(Step(c, if c.subscribed then Flags else TxIrq))
  {
    assert Shaped(c);
    StepReliable(c, if c.subscribed then Flags else TxIrq);
    hide Accounted, Logged, Exclusive, InOrder;
    if c.subscribed {
      var k := LowestFinished(c.buffers, 0);
      assert Step(c, Flags).tx[k].None?;
    } else {
      CollectFromEmpties(c.(txFlag := false), 0);
      var v := Step(c, TxIrq);
      assert v.buffers[i].Free?;
      FreeIsEmpty(v, i);
    }
  }

  lemma FreeIsEmpty(c: Can, i: nat)
    requires Reliable(c) && i < SLOTS && c.buffers[i].Free?
    ensures !Full(c)
  {
    assert c.tx[i].None?;
  }

  lemma SendingCanEmpty(c: Can, i: nat)
    requires Reliable(c) && i < SLOTS && c.buffers[i].Sending?
    ensures exists events :: NoSubscribe(events) && !Full(Run(c, events))
  {
    assert Shaped(c);
    hide Reliable, Full, Run;
    var collect := if c.subscribed then Flags else TxIrq;
    var e := Complete(i, false);
    CompleteReliable(c, i, false);
    CollectedFrees(Step(c, e), i);
    RunTwo(c, e, collect);
    assert NoSubscribe([e, collect]);
  }

  lemma NotStuckCanEmpty(c: Can)
    requires Reliable(c) && !Stuck(c)
    ensures exists events :: NoSubscribe(events) && !Full(Run(c, events))
  {
    assert Shaped(c);
    hide Reliable, Full, Step;
    var i :| 0 <= i < SLOTS && (!c.buffers[i].Finished? || c.subscribed || c.txFlag);
    match c.buffers[i] {
      case Free =>
        FreeIsEmpty(c, i);
        assert NoSubscribe([]) && Run(c, []) == c;
      case Finished(_, _) =>
        var collect := if c.subscribed then Flags else TxIrq;
        CollectedFrees(c, i);
        RunOne(c, collect);
        assert NoSubscribe([collect]);
      case Sending(_) => SendingCanEmpty(c, i);
    }
  }

  /**
   The exact condition for a table that stays full, and send() refused, until
   the user's trigger mask changes: all eight messages are finished, nobody
   listens, and no interrupt is pending.  Unsubscribing from IRQ_TX before
   the last of eight finished messages has been reported leads there.
   */
  lemma FullForEverIffStuck(c: Can)
    requires Reliable(c)
    ensures (forall events | NoSubscribe(events) :: Full(Run(c, events))) <==> Stuck(c)
  {
    if Stuck(c) {
      forall events | NoSubscribe(events) ensures Full(Run(c, events)) {
        StuckStays(c, events);
      }
    } else {
      NotStuckCanEmpty(c);
    }
  }
}
