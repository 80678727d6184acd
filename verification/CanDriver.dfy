/**
 The CAN port as the driver executes it: the slot table is an array of ids in
 which one value marks an empty slot, and the loops scan and clear it.
 */
module CanDriver {
  import opened Prelude
  import opened CanSlots

  const TX_EMPTY: nat := 0xFFFF_FFFF

  /** What irq().flags() says about transmission: nothing, or a slot and whether it failed. */
  datatype TxFlags = NoTx | TxDone(idx: nat, failed: bool)

  /** The table entry for a slot of the model. */
  function Entry(slot: Option<nat>): nat {
    if slot.Some? then slot.value else TX_EMPTY
  }

  predicate RealIds(tx: seq<Option<nat>>) {
    forall i | 0 <= i < |tx| && tx[i].Some? :: tx[i].value < TX_EMPTY
  }

  class CanPort {
    const tx: array<nat>
    // The controller's buffers, with the status bits of the finished ones.
    var buffers: seq<Buffer>
    var sent: nat  // names the messages in the buffers
    var wantTx: bool
    var txInt: bool  // CAN_TX_INT is pending
    ghost var m: Can

    ghost predicate Mirrored()
      reads this, tx
    {
      && tx.Length == SLOTS && Shaped(m)
      && buffers == m.buffers && wantTx == m.subscribed && txInt == m.txFlag && sent == |m.accepted|
      && RealIds(m.tx)
      && forall i | 0 <= i < SLOTS :: tx[i] == Entry(m.tx[i])
    }

    ghost predicate Valid()
      reads this, tx
    {
      Mirrored() && Reliable(m)
    }

    constructor ()
      ensures Valid() && fresh(tx) && m == Empty()
    {
      tx := new nat[SLOTS](_ => TX_EMPTY);
      buffers := seq(SLOTS, _ => Free);
      sent, wantTx, txInt := 0, false, false;
      m := Empty();
      new;
      EmptyReliable();
    }

    /** The scan of machine_can_port_send: the first empty slot, or -1 if the message is refused. */
    method FindSlot(id: nat, unordered: bool) returns (empty: int)
      requires Mirrored() && id < TX_EMPTY
      ensures if Refused(m.tx, id, unordered) then empty == -1 else empty == FirstEmpty(m.tx, 0)
    {
      empty := -1;
      var i := 0;
      while i < SLOTS
        invariant 0 <= i <= SLOTS
        invariant empty == -1 ==> forall k | 0 <= k < i :: m.tx[k].Some?
        invariant empty != -1 ==> 0 <= empty < i && m.tx[empty].None? && forall k | 0 <= k < empty :: m.tx[k].Some?
        invariant !unordered ==> forall k | 0 <= k < i :: m.tx[k] != Some(id)
      {
        var txId := tx[i];
        if txId == TX_EMPTY {
          if empty == -1 {
            empty := i;
          }
        } else if txId == id && !unordered {
          assert m.tx[i] == Some(id);
          return -1;
        }
        i := i + 1;
      }
    }

    /** machine_can_port_send: the slot used, or -1. */
    method Send(id: nat, unordered: bool) returns (idx: int)
      requires Valid() && id < TX_EMPTY
      modifies this, tx
      ensures Valid() && m == Step(old(m), Event.Send(id, unordered))
      ensures idx == -1 <==> Refused(old(m).tx, id, unordered)
      ensures idx != -1 ==> 0 <= idx < SLOTS && old(m).tx[idx].None? && m.buffers[idx] == Sending(|old(m).accepted|)
      ensures idx != -1 ==> forall k :: 0 <= k < idx ==> old(m).tx[k].Some?
      ensures m.accepted == old(m).accepted + (if idx == -1 then [] else [Msg(id, !unordered)])
    {
      idx := FindSlot(id, unordered);
      if idx == -1 {
        return;
      }
      SendReliable(m, id, unordered);
      hide Reliable;
      buffers := buffers[idx := Sending(sent)];
      sent := sent + 1;
      tx[idx] := id;
      m := Step(m, Event.Send(id, unordered));
    }

    /** The controller finishes a transmission. */
    method HardwareCompletes(i: nat, err: bool)
      requires Valid() && i < SLOTS && buffers[i].Sending?
      modifies this
      ensures Valid() && m == Step(old(m), Complete(i, err)) && txInt
      ensures buffers == old(buffers)[i := Finished(old(buffers)[i].serial, err)]
    {
      CompleteReliable(m, i, err);
      hide Reliable;
      buffers := buffers[i := Finished(buffers[i].serial, err)];
      txInt := true;
      m := Step(m, Complete(i, err));
    }

    /** Clears a finished buffer's status bits and frees its slot. */
    method FreeSlot(idx: nat, ghost reported: bool)
      requires Valid() && idx < SLOTS && buffers[idx].Finished?
      modifies this, tx
      ensures Valid() && m == Collect(old(m), idx, reported)
    {
      CollectReliable(m, idx, reported);
      hide Reliable;
      buffers := buffers[idx := Free];
      tx[idx] := TX_EMPTY;
      m := Collect(m, idx, reported);
    }

    /** The loop of can_port_isr is at bit idx of its mask, and on its way to `goal`. */
    ghost predicate Clearing(pending: seq<bool>, idx: nat, goal: Can)
      reads this, tx
    {
      && Valid() && !wantTx && idx <= SLOTS
      && MaskOf(pending, m.buffers) && NoneBelow(pending, idx)
      && (idx < SLOTS ==> pending[idx])
      && CollectFrom(m, idx) == goal
    }

    /** The body of the loop: clear the bit, free the slot, find the next bit. */
    method ClearOne(pending: seq<bool>, idx: nat, ghost goal: Can) returns (rest: seq<bool>, next: nat)
      requires Clearing(pending, idx, goal) && idx < SLOTS
      modifies this, tx
      ensures Clearing(rest, next, goal) && idx < next
    {
      hide Reliable, LowestSet, LowestFinished;
      CollectFromHere(m, idx);
      FreeSlot(idx, false);
      rest := pending[idx := false];
      assert MaskOf(rest, m.buffers);
      next := LowestSet(rest, 0);
      LowestSetSkips(rest, idx + 1);
      MaskAgrees(rest, m.buffers, idx + 1);
      SkipUnfinished(m, idx + 1, next);
    }

    /** The mask of finished buffers, done and error bits combined, and its lowest bit. */
    method PendingMask() returns (pending: seq<bool>, idx: nat)
      requires Valid() && !wantTx
      ensures Clearing(pending, idx, CollectFrom(m, 0))
    {
      hide Reliable, LowestSet, LowestFinished;
      var bufs := buffers;
      pending := seq(SLOTS, i requires 0 <= i < |bufs| => bufs[i].Finished?);
      idx := LowestSet(pending, 0);
      MaskAgrees(pending, m.buffers, 0);
      SkipUnfinished(m, 0, idx);
    }

    /** The TX branch of can_port_isr: its loop clears the lowest pending bit until none is left. */
    method TxIsr()
      requires Valid()
      modifies this, tx
      ensures Valid() && m == Step(old(m), TxIrq) && !txInt
      ensures old(txInt) && !wantTx ==> forall i | 0 <= i < SLOTS :: !buffers[i].Finished?
      ensures wantTx || !old(txInt) ==> buffers == old(buffers) && tx[..] == old(tx[..]) && m.freed == old(m).freed
      ensures old(m).freed <= m.freed && FreedBy(m.freed, |old(m).freed|, false)
    {
      hide Reliable, CollectFrom;
      if !txInt {
        return;
      }
      SwitchReliable(m, m.subscribed, false);
      txInt := false;
      m := m.(txFlag := false);
      if wantTx {
        return;
      }
      CollectFromEmpties(m, 0);
      CollectFromFreed(m, 0);
      ghost var goal := CollectFrom(m, 0);
      var pending, idx := PendingMask();
      while idx < SLOTS
        invariant Clearing(pending, idx, goal)
        decreases SLOTS - idx
      {
        pending, idx := ClearOne(pending, idx, goal);
      }
      NoMoreToCollect(m);
    }

    /** The IRQ_TX part of machine_can_port_irq_flags. */
    method IrqFlags() returns (flags: TxFlags)
      requires Valid()
      modifies this, tx
      ensures Valid() && m == Step(old(m), Flags)
      ensures flags.NoTx? ==> m == old(m) && (wantTx ==> forall i | 0 <= i < SLOTS :: !buffers[i].Finished?)
      ensures flags.TxDone? ==>
        && old(wantTx) && flags.idx < SLOTS
        && old(buffers)[flags.idx].Finished? && flags.failed == old(buffers)[flags.idx].err
        && (forall i | 0 <= i < flags.idx :: !old(buffers)[i].Finished?)
        && m.freed == old(m).freed + [Freed(old(buffers)[flags.idx].serial, true, flags.failed)]
        && tx[flags.idx] == TX_EMPTY
    {
      if !wantTx {
        return NoTx;
      }
      var idx := LowestFinished(buffers, 0);
      if idx == SLOTS {
        return NoTx;
      }
      var failed := buffers[idx].err;
      FreeSlot(idx, true);
      return TxDone(idx, failed);
    }

    /** The loop of machine_can_port_update_counters: tx_pending is the number of outstanding messages. */
    method UpdateCounters() returns (txPending: nat)
      requires Valid()
      ensures txPending == |m.accepted| - |m.freed|
    {
      txPending := 0;
      var i := 0;
      while i < SLOTS
        invariant 0 <= i <= SLOTS
        invariant txPending + Occupied(m.tx[i..]) == Occupied(m.tx)
      {
        assert m.tx[i..][1..] == m.tx[i + 1..];
        if tx[i] != TX_EMPTY {
          txPending := txPending + 1;
        }
        i := i + 1;
      }
      assert m.tx[SLOTS..] == [];
    }

    /** The user changes the IRQ trigger mask. */
    method SetTrigger(wantTx: bool)
      requires Valid()
      modifies `wantTx, `m
      ensures Valid() && m == Step(old(m), Subscribe(wantTx))
    {
      SwitchReliable(m, wantTx, m.txFlag);
      hide Reliable;
      this.wantTx := wantTx;
      m := Step(m, Subscribe(wantTx));
    }
  }

  /** __builtin_ctz of a bit mask, at or after bit i. */
  function LowestSet(mask: seq<bool>, i: nat): (r: nat)
    requires i <= |mask|
    ensures i <= r <= |mask|
    ensures r < |mask| ==> mask[r]
    ensures forall k | i <= k < r :: !mask[k]
    decreases |mask| - i
  {
    if i == |mask| || mask[i] then i else LowestSet(mask, i + 1)
  }

  lemma {:induction false} LowestSetSkips(mask: seq<bool>, i: nat)
    requires NoneBelow(mask, i)
    ensures LowestSet(mask, 0) == LowestSet(mask, i)
  {
    if i > 0 {
      LowestSetSkips(mask, i - 1);
    }
  }

  /** The bits of the mask are those of the finished buffers. */
  ghost predicate MaskOf(mask: seq<bool>, buffers: seq<Buffer>) {
    |mask| == |buffers| && forall k | 0 <= k < |mask| :: mask[k] <==> buffers[k].Finished?
  }

  ghost predicate NoneBelow(mask: seq<bool>, i: nat) {
    i <= |mask| && forall k | 0 <= k < i :: !mask[k]
  }

  lemma NoMoreToCollect(c: Can)
    requires Shaped(c)
    ensures CollectFrom(c, SLOTS) == c
  {
  }

  lemma {:induction false} MaskAgrees(mask: seq<bool>, buffers: seq<Buffer>, i: nat)
    requires i <= |mask| && MaskOf(mask, buffers)
    ensures LowestSet(mask, i) == LowestFinished(buffers, i)
    decreases |mask| - i
  {
    if i < |mask| && !mask[i] {
      MaskAgrees(mask, buffers, i + 1);
    }
  }

  lemma CollectFromHere(c: Can, i: nat)
    requires Shaped(c) && i < SLOTS && c.buffers[i].Finished?
    ensures CollectFrom(c, i) == CollectFrom(Collect(c, i, false), i + 1)
  {
    assert LowestFinished(c.buffers, i) == i;
  }

  lemma SkipUnfinished(c: Can, i: nat, j: nat)
    requires Shaped(c) && i <= j <= SLOTS && LowestFinished(c.buffers, i) == j
    ensures CollectFrom(c, i) == CollectFrom(c, j)
  {
    assert LowestFinished(c.buffers, j) == j;
  }

  lemma EmptyReliable()
    ensures Reliable(Empty())
  {
    NoneOccupied(Empty().tx);
    hide Occupied;
  }

  lemma {:induction false} NoneOccupied(tx: seq<Option<nat>>)
    requires forall i | 0 <= i < |tx| :: tx[i].None?
    ensures Occupied(tx) == 0
  {
    if tx != [] {
      NoneOccupied(tx[1..]);
    }
  }
}
