/**
 machine.I2S as the driver executes it: the two half-buffers are one array,
 the ring is updated byte by byte, and the block-complete handlers toggle
 dma_half.
 */
module I2sDriver {
  import opened Prelude
  import opened ByteRing
  import I2sSizing
  import T = I2sTx
  import R = I2sRx

  /** The interrupt types a GDMA channel reports. */
  datatype IntStatus = IntStatus(block: bool, transfer: bool, error: bool)

  /** The bytes of a half-buffer that holds a block. */
  function Rendered(b: T.Block, half: nat): seq<byte> {
    if b.Samples? then b.bytes else seq(half, _ => 0)
  }

  /** One half of a two-half buffer. */
  function HalfOf(buffer: seq<byte>, half: nat, which: nat): seq<byte>
    requires |buffer| == 2 * half
  {
    if which == 0 then buffer[..half] else buffer[half..]
  }

  class Transmitter {
    const ringBuffer: RingBuf
    const dmaBuffer: array<byte>
    const half: nat
    var dmaHalf: nat
    ghost var m: T.Tx

    ghost predicate Sized()
      reads this, ringBuffer
    {
      && ringBuffer.Valid()
      && dmaBuffer != ringBuffer.buf && dmaBuffer.Length == 2 * half
      && 0 < half <= ringBuffer.Capacity()
    }

    ghost function HalfBytes(which: nat): seq<byte>
      requires dmaBuffer.Length == 2 * half
      reads dmaBuffer
    {
      HalfOf(dmaBuffer[..], half, which)
    }

    ghost predicate Valid()
      reads this, ringBuffer, ringBuffer.buf, dmaBuffer
    {
      && Sized()
      && T.InSync(m)
      && m.half == half && m.cap == ringBuffer.Capacity() && m.ring == ringBuffer.Contents() && m.dmaHalf == dmaHalf
      && HalfBytes(0) == Rendered(m.loaded[0], half)
      && HalfBytes(1) == Rendered(m.loaded[1], half)
    }

    /** The copy loop of i2s_tx_feed_half. */
    method PopHalf(p: nat)
      requires Sized() && p + half <= dmaBuffer.Length && half <= |ringBuffer.Contents()|
      modifies ringBuffer, dmaBuffer
      ensures Sized() && ringBuffer.Contents() == old(ringBuffer.Contents())[half..]
      ensures dmaBuffer[..] ==
        old(dmaBuffer[..p]) + old(ringBuffer.Contents())[..half] + old(dmaBuffer[p + half..])
    {
      hide RingBuf.Contents;
      ghost var ring, buffer := ringBuffer.Contents(), dmaBuffer[..];
      var i := 0;
      while i < half
        invariant 0 <= i <= half && Sized()
        invariant ringBuffer.Contents() == ring[i..]
        invariant forall k | 0 <= k < dmaBuffer.Length ::
          dmaBuffer[k] == if p <= k < p + i then ring[k - p] else buffer[k]
      {
        var c := ringBuffer.Get();
        dmaBuffer[p + i] := c.value;
        i := i + 1;
      }
    }

    /** The memset of i2s_tx_feed_half. */
    method ZeroHalf(p: nat)
      requires p + half <= dmaBuffer.Length
      modifies dmaBuffer
      ensures dmaBuffer[..] == old(dmaBuffer[..p]) + seq(half, _ => 0) + old(dmaBuffer[p + half..])
    {
      ghost var buffer := dmaBuffer[..];
      var i := 0;
      while i < half
        invariant 0 <= i <= half
        invariant forall k | 0 <= k < dmaBuffer.Length ::
          dmaBuffer[k] == if p <= k < p + i then 0 else buffer[k]
      {
        dmaBuffer[p + i] := 0;
        i := i + 1;
      }
    }

    /** i2s_tx_feed_half. */
    method FeedHalf(which: nat)
      requires Sized() && which < 2
      modifies ringBuffer, dmaBuffer
      ensures Sized()
      ensures ringBuffer.Contents() == T.Rest(old(ringBuffer.Contents()), half)
      ensures HalfBytes(which) == Rendered(T.Refill(old(ringBuffer.Contents()), half), half)
      ensures HalfBytes(1 - which) == old(HalfBytes(1 - which))
    {
      hide RingBuf.Contents;
      var p := if which == 0 then 0 else half;
      var avail := ringBuffer.Avail();
      if avail >= half {
        PopHalf(p);
      } else {
        ZeroHalf(p);
      }
    }

    /** The TX part of the constructor and start_transfer, for any accepted `ibuf`. */
    constructor (ibuf: nat)
      requires 256 <= ibuf
      ensures Valid() && fresh(ringBuffer) && fresh(ringBuffer.buf) && fresh(dmaBuffer)
      ensures half == I2sSizing.HalfSize(ibuf)
      ensures m == T.Start(half, ibuf - 1, [])
    {
      I2sSizing.HalvesFit(ibuf);
      half := I2sSizing.HalfSize(ibuf);
      dmaBuffer := new byte[I2sSizing.DmaBufferSize(ibuf)](_ => 0);
      ringBuffer := new RingBuf(ibuf - 1);
      dmaHalf := 0;
      new;
      hide RingBuf.Contents, T.InSync;
      FeedHalf(0);
      FeedHalf(1);
      m := T.Start(half, ibuf - 1, []);
      T.StartInSync(half, ibuf - 1, []);
    }

    /** ringbuf_push on behalf of write(). */
    method Push(b: byte) returns (ok: bool)
      requires Valid()
      modifies `m, ringBuffer, ringBuffer.buf
      ensures Valid() && m == T.Step(old(m), T.Push(b))
      ensures ok == (old(|m.ring|) < m.cap)
      ensures m.pushed == old(m.pushed) + (if ok then [b] else [])
    {
      hide RingBuf.Contents, Rendered;
      ok := ringBuffer.Put(b);
      T.StepInSync(m, T.Push(b));
      m := T.Step(m, T.Push(b));
    }

    /** The hardware finishes the half it is playing. */
    ghost method HardwareBlockDone()
      requires Valid()
      modifies `m
      ensures Valid() && m == T.Step(old(m), T.BlockDone)
    {
      T.StepInSync(m, T.BlockDone);
      m := T.Step(m, T.BlockDone);
    }

    /** i2s_tx_gdma_done. */
    method GdmaDone(status: IntStatus)
      requires Valid()
      requires (status.block || status.transfer) ==> m.pending
      modifies `dmaHalf, `m, ringBuffer, dmaBuffer
      ensures Valid()
      ensures m == T.Step(old(m), if status.block || status.transfer then T.Service else T.ErrorIrq)
      ensures HalfBytes(m.playing) == old(HalfBytes(m.playing))
      ensures !status.block && !status.transfer ==> m == old(m) && dmaHalf == old(dmaHalf)
    {
      hide RingBuf.Contents, Rendered, HalfBytes;
      if !(status.block || status.transfer) {
        return;
      }
      T.ServiceParts(m);
      hide T.InSync, T.Step;
      var completed := dmaHalf;
      dmaHalf := 1 - completed;
      FeedHalf(completed);
      m := T.Step(m, T.Service);
    }
  }

  class Receiver {
    const ringBuffer: RingBuf
    const dmaBuffer: array<byte>
    const half: nat
    var dmaHalf: nat
    ghost var m: R.Rx

    ghost predicate Sized()
      reads this, ringBuffer
    {
      && ringBuffer.Valid()
      && dmaBuffer != ringBuffer.buf && dmaBuffer.Length == 2 * half
      && 0 < half <= ringBuffer.Capacity()
    }

    ghost function HalfBytes(which: nat): seq<byte>
      requires dmaBuffer.Length == 2 * half
      reads dmaBuffer
    {
      HalfOf(dmaBuffer[..], half, which)
    }

    ghost predicate Valid()
      reads this, ringBuffer, ringBuffer.buf, dmaBuffer
    {
      && Sized()
      && R.InSync(m)
      && m.half == half && m.cap == ringBuffer.Capacity() && m.ring == ringBuffer.Contents() && m.dmaHalf == dmaHalf
      && HalfBytes(0) == m.halves[0] && HalfBytes(1) == m.halves[1]
    }

    /** i2s_rx_drain_half. */
    method DrainHalf(which: nat)
      requires Sized() && which < 2
      modifies ringBuffer, ringBuffer.buf
      ensures Sized()
      ensures ringBuffer.Contents() ==
        if half <= ringBuffer.Capacity() - |old(ringBuffer.Contents())|
        then old(ringBuffer.Contents()) + HalfBytes(which)
        else old(ringBuffer.Contents())
    {
      hide RingBuf.Contents;
      ghost var ring := ringBuffer.Contents();
      var p := if which == 0 then 0 else half;
      var space := ringBuffer.Free();
      if space >= half {
        var i := 0;
        while i < half
          invariant 0 <= i <= half && Sized() && dmaBuffer[..] == old(dmaBuffer[..])
          invariant ringBuffer.Contents() == ring + HalfBytes(which)[..i]
        {
          assert HalfBytes(which)[..i + 1] == HalfBytes(which)[..i] + [dmaBuffer[p + i]];
          var _ := ringBuffer.Put(dmaBuffer[p + i]);
          i := i + 1;
        }
        assert HalfBytes(which)[..half] == HalfBytes(which);
      }
    }

    constructor (ibuf: nat)
      requires 256 <= ibuf
      ensures Valid() && fresh(ringBuffer) && fresh(ringBuffer.buf) && fresh(dmaBuffer)
      ensures half == I2sSizing.HalfSize(ibuf) && half % 8 == 0
      ensures m.ring == [] && m.taken == [] && m.log == [] && !m.pending
    {
      I2sSizing.HalvesFit(ibuf);
      half := I2sSizing.HalfSize(ibuf);
      dmaBuffer := new byte[I2sSizing.DmaBufferSize(ibuf)](_ => 0);
      ringBuffer := new RingBuf(ibuf - 1);
      dmaHalf := 0;
      new;
      var halves := [HalfOf(dmaBuffer[..], half, 0), HalfOf(dmaBuffer[..], half, 1)];
      m := R.Rx(half, ibuf - 1, [], halves, 0, 0, false, [], []);
    }

    /** The hardware completes the half it is filling with `data`. */
    method HardwareFills(data: seq<byte>)
      requires Valid() && !m.pending && |data| == half
      modifies dmaBuffer, `m
      ensures Valid() && m == R.Step(old(m), R.BlockDone(data))
    {
      hide RingBuf.Contents, R.KeptBytes;
      var p := if dmaHalf == 0 then 0 else half;
      ghost var buffer := dmaBuffer[..];
      forall k | 0 <= k < half {
        dmaBuffer[p + k] := data[k];
      }
      assert HalfBytes(dmaHalf) == data;
      assert HalfBytes(1 - dmaHalf) == HalfOf(buffer, half, 1 - dmaHalf);
      R.StepInSync(m, R.BlockDone(data));
      m := R.Step(m, R.BlockDone(data));
    }

    /** i2s_rx_gdma_done. */
    method GdmaDone(status: IntStatus)
      requires Valid()
      requires (status.block || status.transfer) ==> m.pending
      modifies `dmaHalf, `m, ringBuffer, ringBuffer.buf
      ensures Valid()
      ensures m == R.Step(old(m), if status.block || status.transfer then R.Service else R.ErrorIrq)
      ensures !status.block && !status.transfer ==> m == old(m) && dmaHalf == old(dmaHalf)
    {
      hide RingBuf.Contents, R.KeptBytes, HalfBytes;
      if !(status.block || status.transfer) {
        return;
      }
      var completed := dmaHalf;
      dmaHalf := 1 - completed;
      DrainHalf(completed);
      R.StepInSync(m, R.Service);
      m := R.Step(m, R.Service);
    }

    /** ringbuf_pop on behalf of readinto(). */
    method Pop() returns (c: Option<byte>)
      requires Valid()
      modifies `m, ringBuffer
      ensures Valid() && m == R.Step(old(m), R.Take)
      ensures m.taken == old(m.taken) + (if c.Some? then [c.value] else [])
      ensures c.None? <==> old(m.ring) == []
    {
      hide RingBuf.Contents, R.KeptBytes, HalfBytes;
      c := ringBuffer.Get();
      R.StepInSync(m, R.Take);
      m := R.Step(m, R.Take);
    }
  }
}
