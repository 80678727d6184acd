/**
 machine.I2CTarget's interrupt handler and FIFO read as the driver executes
 them.  The protocol layer's hooks are recorded as events of a trace.
 */
module I2cDriver {
  import opened Prelude
  import opened I2cTarget

  class TargetPort {
    var state: Mode
    var dataState: Mode     // the protocol layer's own state
    var stopPending: bool
    var rxFullMasked: bool
    var rxFifo: seq<byte>
    ghost var trace: seq<Hook>
    ghost var stops: nat
    ghost var merged: nat
    ghost var rxEntries: nat
    ghost var readCalls: nat

    ghost function Model(): Target
      reads this
    {
      Target(state, dataState, stopPending, rxFullMasked, rxFifo, trace, stops, merged, rxEntries, readCalls)
    }

    ghost predicate Valid()
      reads this
    {
      Sound(Model())
    }

    constructor ()
      ensures Valid() && Model() == INITIAL
    {
      state, dataState, stopPending, rxFullMasked, rxFifo := Idle, Idle, false, false, [];
      trace, stops, merged, rxEntries, readCalls := [], 0, 0, 0, 0;
    }

    method DataAddrMatch(read: bool)
      modifies `trace
      ensures Model() == Match(old(Model()), read)
    {
      trace := trace + [AddrMatch(read)];
    }

    method DataReadRequest()
      modifies `trace, `dataState
      ensures trace == old(trace) + [ReadRequest] && dataState == Reading
    {
      trace, dataState := trace + [ReadRequest], Reading;
    }

    method DataRestartOrStop(ghost late: bool)
      modifies `trace, `dataState
      ensures Model() == End(old(Model()), late)
    {
      trace, dataState := trace + [Finalise(late)], Idle;
    }

    /** The write hook: it may call read_bytes any number of times. */
    method DataWriteRequest(lens: seq<nat>)
      modifies this
      ensures Model() == ReadAll(old(Model()).(trace := old(trace) + [WriteRequest], dataMode := Writing), lens)
    {
      trace, dataState := trace + [WriteRequest], Writing;
      ghost var start := Model();
      for k := 0 to |lens|
        invariant Model() == ReadAll(start, lens[..k])
      {
        assert lens[..k + 1][..k] == lens[..k];
        var _ := FetchBytes(lens[k]);
      }
      assert lens[..|lens|] == lens;
    }

    /** mp_machine_i2c_target_read_bytes; the bytes returned are the oldest of the FIFO. */
    method FetchBytes(len: nat) returns (buf: seq<byte>)
      modifies `rxFifo, `rxFullMasked, `readCalls
      ensures Model() == Read(old(Model()), len)
      ensures buf + rxFifo == old(rxFifo) && (|buf| == len || (|buf| < len && rxFifo == []))
    {
      buf := [];
      while |buf| < len && rxFifo != []
        invariant buf + rxFifo == old(rxFifo) && |buf| <= len
        invariant rxFullMasked == old(rxFullMasked) && readCalls == old(readCalls)
        decreases len - |buf|
      {
        buf, rxFifo := buf + [rxFifo[0]], rxFifo[1..];
      }
      rxFullMasked := false;
      readCalls := readCalls + 1;
    }

    /** The shape shared by the RX_DONE and RD_REQ branches. */
    method ServeRead()
      modifies `state, `dataState, `trace
      ensures Model() == RequestRead(old(Model()))
    {
      var wasReading := state.Reading?;
      state := Reading;
      if !wasReading {
        DataAddrMatch(true);
      }
      DataReadRequest();
    }

    /** The STOP_DET branch. */
    method ServeStop(addrMatched: bool)
      modifies `state, `dataState, `stopPending, `trace, `stops, `merged
      ensures Model() == SeeStop(old(Model()), addrMatched)
      ensures rxFifo != [] ==> stopPending && trace == old(trace)
      ensures rxFifo == [] ==> state.Idle?
      ensures rxFifo == [] && old(dataState).Idle? && addrMatched ==>
        trace == old(trace) + [AddrMatch(false), Finalise(false)]
      ensures rxFifo == [] && !(old(dataState).Idle? && addrMatched) ==> trace == old(trace) + [Finalise(false)]
    {
      stops := stops + 1;
      if rxFifo != [] {
        merged := if stopPending then merged + 1 else merged;
        stopPending := true;
      } else {
        if dataState.Idle? && addrMatched {
          DataAddrMatch(false);
        }
        DataRestartOrStop(false);
        state := Idle;
      }
    }

    /** The RX_FULL branch. */
    method ServeRxFull(hookReads: seq<nat>)
      modifies this
      ensures Model() == RequestWrite(old(Model()), hookReads)
    {
      rxFullMasked := true;
      rxEntries := rxEntries + 1;
      var wasWriting := state.Writing?;
      state := Writing;
      if !wasWriting {
        DataAddrMatch(false);
      }
      DataWriteRequest(hookReads);
    }

    /** The last lines of the handler: a STOP that waited for the FIFO to drain. */
    method ServeLateStop()
      modifies `state, `dataState, `stopPending, `trace
      ensures Model() == LateStop(old(Model()))
    {
      if stopPending && rxFifo == [] {
        stopPending := false;
        state := Idle;
        DataRestartOrStop(true);
      }
    }

    /** i2c_target_irq_handler. */
    method IrqHandler(intr: Word)
      requires Valid() && Possible(Model(), intr)
      modifies this
      ensures Valid() && Model() == Handle(old(Model()), intr)
      ensures Reports(old(Model()), Model(), One(intr.rxDone) + One(intr.rdReq), One(intr.rxFull))
    {
      HandleSound(Model(), intr);
      HandleReports(Model(), intr);
      hide Reports, Sound, RequestRead, SeeStop, RequestWrite, LateStop, Possible;
      ghost var t := Model();
      if intr.rxDone {
        ServeRead();
      }
      t := OnRxDone(t, intr);
      if intr.stopDet {
        ServeStop(intr.addrMatched);
      }
      t := OnStop(t, intr);
      if intr.rxFull {
        ServeRxFull(intr.hookReads);
      }
      t := OnRxFull(t, intr);
      if intr.rdReq {
        ServeRead();
      }
      t := OnRdReq(t, intr);
      assert Model() == t;
      rxFifo := rxFifo + intr.late;
      ServeLateStop();
    }

    /** i2c_target.readinto() outside the handler. */
    method ReadInto(len: nat) returns (buf: seq<byte>)
      requires Valid()
      modifies this
      ensures Valid() && Model() == Step(old(Model()), ReadBytes(len))
      ensures buf + rxFifo == old(rxFifo)
    {
      StepSound(Model(), ReadBytes(len));
      buf := FetchBytes(len);
    }
  }
}
