/**
 Buffer sizes of the I2S driver, shared by both directions.
 */
module I2sSizing {
  /** `x & ~63`. */
  function RoundDown64(x: nat): (r: nat)
    ensures r <= x < r + 64 && r % 64 == 0
  {
    x / 64 * 64
  }

  /** `x & ~31`. */
  function RoundDown32(x: nat): (r: nat)
    ensures r <= x < r + 32 && r % 32 == 0
  {
    x / 32 * 32
  }

  /** Size in bytes of the whole two-half DMA buffer for a ring of `ibuf` bytes. */
  function DmaBufferSize(ibuf: nat): nat {
    var size := RoundDown64(ibuf / 4);
    if size < 128 then 128 else size
  }

  function HalfSize(ibuf: nat): nat {
    DmaBufferSize(ibuf) / 2
  }

  /**
   For every buffer size the constructor accepts, each half is a whole number
   of 32-byte cache lines and of 8-byte frames, and fits a ring that keeps one
   slot free; even a full ring holds a half, and an empty one has room for it.
   */
  lemma HalvesFit(ibuf: nat)
    requires 256 <= ibuf
    ensures var half := HalfSize(ibuf);
      && 64 <= half && half % 32 == 0 && half % 8 == 0
      && DmaBufferSize(ibuf) == 2 * half
      && half <= ibuf - 1
  {
    BufferIsBlocks(ibuf);
    hide DmaBufferSize;
  }

  /** The buffer is a number of 64-byte blocks, at least two and no more than a quarter of `ibuf` or two. */
  lemma BufferIsBlocks(ibuf: nat)
    requires 256 <= ibuf
    ensures var k := DmaBufferSize(ibuf) / 64;
      2 <= k && DmaBufferSize(ibuf) == 64 * k && 32 * k <= ibuf - 1
  {
    var r := RoundDown64(ibuf / 4);
    assert r <= ibuf / 4;
  }

  /** The buffer is as large as a quarter of `ibuf` allows in blocks of 64, and at least 128 bytes. */
  lemma BufferIsLargest(ibuf: nat)
    ensures var size := DmaBufferSize(ibuf);
      128 <= size && size % 64 == 0 && (size == 128 || size <= ibuf / 4) && ibuf / 4 < size + 64
  {
  }

  /** The 32-byte-aligned view of a block over-allocated by 32 bytes lies inside the block. */
  lemma AlignedViewInside(raw: nat, size: nat)
    ensures var view := RoundDown32(raw + 31);
      view % 32 == 0 && raw <= view && view + size <= raw + (size + 32)
  {
  }
}

/**
 I2S transmission: two half-buffers that the hardware plays in turn forever,
 and an interrupt handler that refills the half that has just been played.
 */
module I2sTx {
  import opened Prelude

  /** What a half-buffer holds: a whole half of samples, or zeros after an underrun. */
  datatype Block = Silence | Samples(bytes: seq<byte>)

  /**
   `playing` is the half the hardware is transferring, `dmaHalf` the driver's
   idea of it; `pending` says that a block completion has not been serviced.
   `played` is every block transferred so far and `pushed` every byte the
   application has put into the ring.
   */
  datatype Tx = Tx(
    half: nat, cap: nat,
    ring: seq<byte>, loaded: seq<Block>,
    playing: nat, dmaHalf: nat, pending: bool,
    played: seq<Block>, pushed: seq<byte>)

  datatype Event =
    | Push(b: byte)      // the application offers a byte to the ring
    | BlockDone          // the hardware finishes a half and moves to the other one
    | Service            // the handler runs for a block completion
    | ErrorIrq           // the handler runs for an error interrupt only

  predicate Shaped(tx: Tx) {
    && 0 < tx.half <= tx.cap && |tx.ring| <= tx.cap
    && |tx.loaded| == 2 && tx.playing < 2 && tx.dmaHalf < 2
  }

  /** What a refill takes from the ring: its oldest `half` bytes, or nothing if there are fewer. */
  function Refill(ring: seq<byte>, half: nat): Block {
    if half <= |ring| then Samples(ring[..half]) else Silence
  }

  function Rest(ring: seq<byte>, half: nat): (r: seq<byte>)
    ensures |r| <= |ring|
  {
    if half <= |ring| then ring[half..] else ring
  }

  function Feed(tx: Tx, which: nat): (r: Tx)
    requires Shaped(tx) && which < 2
    ensures Shaped(r)
  {
    tx.(loaded := tx.loaded[which := Refill(tx.ring, tx.half)], ring := Rest(tx.ring, tx.half))
  }

  /** start_transfer: both halves are loaded before the chain is started on half 0. */
  function Start(half: nat, cap: nat, ring: seq<byte>): Tx
    requires 0 < half <= cap && |ring| <= cap
  {
    Feed(Feed(Tx(half, cap, ring, [Silence, Silence], 0, 0, false, [], ring), 0), 1)
  }

  function Step(tx: Tx, e: Event): (r: Tx)
    requires Shaped(tx)
    ensures Shaped(r)
  {
    match e
    case Push(b) =>
      if |tx.ring| < tx.cap then tx.(ring := tx.ring + [b], pushed := tx.pushed + [b]) else tx
    case BlockDone =>
      if tx.pending then tx
      else tx.(played := tx.played + [tx.loaded[tx.playing]], playing := 1 - tx.playing, pending := true)
    case Service =>
      if !tx.pending then tx
      else Feed(tx.(pending := false, dmaHalf := 1 - tx.dmaHalf), tx.dmaHalf)
    case ErrorIrq => tx
  }

  function Run(tx: Tx, events: seq<Event>): (r: Tx)
    requires Shaped(tx)
    ensures Shaped(r)
    decreases |events|
  {
    if events == [] then tx else Step(Run(tx, events[..|events| - 1]), events[|events| - 1])
  }

  function BytesOf(b: Block): seq<byte> {
    if b.Samples? then b.bytes else []
  }

  /** The samples among the blocks, silence omitted. */
  function Sound(blocks: seq<Block>): seq<byte>
    decreases |blocks|
  {
    if blocks == [] then [] else Sound(blocks[..|blocks| - 1]) + BytesOf(blocks[|blocks| - 1])
  }

  /** The samples that are loaded and not yet played, oldest first. */
  function Ahead(tx: Tx): seq<byte>
    requires Shaped(tx)
  {
    BytesOf(tx.loaded[tx.playing]) + (if tx.pending then [] else BytesOf(tx.loaded[1 - tx.playing]))
  }

  predicate WholeBlocks(blocks: seq<Block>, half: nat) {
    forall b | b in blocks :: b.Samples? ==> |b.bytes| == half
  }

  /** The driver knows where the hardware is, and every byte is where it should be. */
  ghost predicate InSync(tx: Tx) {
    && Shaped(tx)
    && tx.dmaHalf == (if tx.pending then 1 - tx.playing else tx.playing)
    && WholeBlocks(tx.loaded, tx.half) && WholeBlocks(tx.played, tx.half)
    && Sound(tx.played) + Ahead(tx) + tx.ring == tx.pushed
  }

  /** A refill moves bytes from the ring to a half and loses none. */
  lemma FeedKeepsBytes(tx: Tx, which: nat)
    requires Shaped(tx) && which < 2
    ensures BytesOf(Feed(tx, which).loaded[which]) + Feed(tx, which).ring == tx.ring
    ensures Feed(tx, which).loaded[1 - which] == tx.loaded[1 - which]
  {
    if tx.half <= |tx.ring| {
      assert tx.ring[..tx.half] + tx.ring[tx.half..] == tx.ring;
    } else {
      assert [] + tx.ring == tx.ring;
    }
  }

  lemma StartInSync(half: nat, cap: nat, ring: seq<byte>)
    requires 0 < half <= cap && |ring| <= cap
    ensures InSync(Start(half, cap, ring)) && Start(half, cap, ring).pushed == ring
  {
    var empty := Tx(half, cap, ring, [Silence, Silence], 0, 0, false, [], ring);
    FeedKeepsBytes(empty, 0);
    var first := Feed(empty, 0);
    FeedKeepsBytes(first, 1);
    var tx := Feed(first, 1);
    Assoc(BytesOf(tx.loaded[0]), BytesOf(tx.loaded[1]), tx.ring);
    assert Sound(tx.played) + Ahead(tx) == Ahead(tx);
  }

  /** Both halves are loaded before the start, as far as the ring goes. */
  lemma StartLoadsBoth(half: nat, cap: nat, ring: seq<byte>)
    requires 0 < half <= cap && |ring| <= cap
    ensures var tx := Start(half, cap, ring);
      && tx.loaded[0] == (if half <= |ring| then Samples(ring[..half]) else Silence)
      && tx.loaded[1] == (if 2 * half <= |ring| then Samples(ring[half..2 * half]) else Silence)
  {
    if 2 * half <= |ring| {
      assert ring[half..][..half] == ring[half..2 * half];
    }
  }

  lemma BlockDoneInSync(tx: Tx)
    requires InSync(tx) && !tx.pending
    ensures InSync(Step(tx, BlockDone))
  {
    var v := Step(tx, BlockDone);
    assert v.played[..|tx.played|] == tx.played;
    assert Sound(v.played) + Ahead(v) == Sound(tx.played) + Ahead(tx);
  }

  lemma ServiceBalances(tx: Tx)
    requires InSync(tx) && tx.pending
    ensures var v := Step(tx, Service);
      Sound(v.played) + Ahead(v) + v.ring == v.pushed
  {
    var v := Step(tx, Service);
    FeedKeepsBytes(tx.(pending := false, dmaHalf := 1 - tx.dmaHalf), tx.dmaHalf);
    hide Sound, BytesOf, Feed;
    var current, refilled := BytesOf(tx.loaded[tx.playing]), BytesOf(v.loaded[tx.dmaHalf]);
    Assoc(Sound(tx.played), current, refilled);
    Assoc(Sound(tx.played) + current, refilled, v.ring);
    assert Ahead(tx) == current + [] == current;
  }

  lemma ServiceInSync(tx: Tx)
    requires InSync(tx) && tx.pending
    ensures InSync(Step(tx, Service))
  {
    ServiceBalances(tx);
    hide Sound;
  }

  lemma PushInSync(tx: Tx, b: byte)
    requires InSync(tx)
    ensures InSync(Step(tx, Push(b)))
  {
    hide Sound, BytesOf;
    Assoc(Sound(tx.played) + Ahead(tx), tx.ring, [b]);
  }

  lemma StepInSync(tx: Tx, e: Event)
    requires InSync(tx)
    ensures InSync(Step(tx, e))
  {
    hide InSync, Sound, Ahead;
    match e
    case Push(b) => PushInSync(tx, b);
    case BlockDone => if !tx.pending { BlockDoneInSync(tx); }
    case Service => if tx.pending { ServiceInSync(tx); }
    case ErrorIrq =>
  }

  /**
   Main result: in every run of pushes, block completions, handler calls and
   error interrupts, the driver's half is the hardware's (the other one while
   a completion waits to be serviced), and the samples played, then those
   loaded, then the ring are exactly the bytes pushed, in order.
   */
  lemma {:induction false} PlaysWhatWasPushed(tx: Tx, events: seq<Event>)
    requires InSync(tx)
    ensures InSync(Run(tx, events))
    decreases |events|
  {
    if events != [] {
      PlaysWhatWasPushed(tx, events[..|events| - 1]);
      StepInSync(Run(tx, events[..|events| - 1]), events[|events| - 1]);
    }
  }

  /** The handler never writes to the half the hardware is transferring. */
  lemma RefillLeavesPlayingHalf(tx: Tx)
    requires InSync(tx) && tx.pending
    ensures tx.dmaHalf != tx.playing
    ensures Step(tx, Service).loaded[tx.playing] == tx.loaded[tx.playing]
  {
  }

  /** What servicing a completion changes. */
  lemma ServiceParts(tx: Tx)
    requires InSync(tx) && tx.pending
    ensures Shaped(tx) && tx.dmaHalf < 2 && tx.playing == 1 - tx.dmaHalf
    ensures var v := Step(tx, Service);
      && v.ring == Rest(tx.ring, tx.half) && v.dmaHalf == 1 - tx.dmaHalf && v.playing == tx.playing
      && v.loaded[tx.dmaHalf] == Refill(tx.ring, tx.half) && v.loaded[1 - tx.dmaHalf] == tx.loaded[1 - tx.dmaHalf]
      && v.half == tx.half && v.cap == tx.cap && InSync(v)
  {
    ServiceInSync(tx);
  }

  /** A refill is silence if and only if the ring has less than a half; otherwise it takes exactly a half from it. */
  lemma SilenceIffUnderrun(tx: Tx)
    requires InSync(tx) && tx.pending
    ensures var v := Step(tx, Service);
      && (v.loaded[1 - tx.playing].Silence? <==> |tx.ring| < tx.half)
      && |v.ring| == |tx.ring| - (if |tx.ring| < tx.half then 0 else tx.half)
  {
  }

  /** A full ring is relieved of half a buffer by the next block completion. */
  lemma FullRingRelieved(tx: Tx)
    requires InSync(tx) && |tx.ring| == tx.cap
    ensures var done := if tx.pending then tx else Step(tx, BlockDone);
      |Step(done, Service).ring| == tx.cap - tx.half < tx.cap
  {
  }
}
