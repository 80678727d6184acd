/**
 machine.bitstream: a byte buffer goes out on a pin one bit at a time, most
 significant first, each bit a high and a low time.  Buffers of whole RGB
 triples can be packed into 24-bit words for the LED controller; everything
 else is clocked out in software.
 */
module Bitstream {
  import opened Prelude

  /** The bits of a byte, most significant first. */
  function ByteBits(b: byte): (bits: seq<bool>)
    ensures |bits| == 8
  {
    [b & 0x80 != 0, b & 0x40 != 0, b & 0x20 != 0, b & 0x10 != 0,
     b & 0x08 != 0, b & 0x04 != 0, b & 0x02 != 0, b & 0x01 != 0]
  }

  /** The bits the LED controller sends for one word: the lower 24, most significant first. */
  function WordBits(w: bv32): (bits: seq<bool>) {
    Bits16To23(w) + Bits8To15(w) + Bits0To7(w)
  }

  function Bits16To23(w: bv32): seq<bool> {
    [w & 0x800000 != 0, w & 0x400000 != 0, w & 0x200000 != 0, w & 0x100000 != 0,
     w & 0x080000 != 0, w & 0x040000 != 0, w & 0x020000 != 0, w & 0x010000 != 0]
  }

  function Bits8To15(w: bv32): seq<bool> {
    [w & 0x008000 != 0, w & 0x004000 != 0, w & 0x002000 != 0, w & 0x001000 != 0,
     w & 0x000800 != 0, w & 0x000400 != 0, w & 0x000200 != 0, w & 0x000100 != 0]
  }

  function Bits0To7(w: bv32): seq<bool> {
    [w & 0x000080 != 0, w & 0x000040 != 0, w & 0x000020 != 0, w & 0x000010 != 0,
     w & 0x000008 != 0, w & 0x000004 != 0, w & 0x000002 != 0, w & 0x000001 != 0]
  }

  function DataBits(data: seq<byte>): seq<bool> {
    if data == [] then [] else ByteBits(data[0]) + DataBits(data[1..])
  }

  function Expand(words: seq<bv32>): seq<bool> {
    if words == [] then [] else WordBits(words[0]) + Expand(words[1..])
  }

  /** One 24-in-32-bit word from three bytes. */
  function Word(r: byte, g: byte, b: byte): bv32 {
    ((r as bv32) << 16) | ((g as bv32) << 8) | (b as bv32)
  }

  function Packed(data: seq<byte>): (words: seq<bv32>)
    ensures |words| == |data| / 3
  {
    seq(|data| / 3, i requires 0 <= i < |data| / 3 => Word(data[i * 3], data[i * 3 + 1], data[i * 3 + 2]))
  }

  lemma HighByte(r: byte, g: byte, b: byte)
    ensures Word(r, g, b) & 0x800000 != 0 <==> r & 0x80 != 0
    ensures Word(r, g, b) & 0x400000 != 0 <==> r & 0x40 != 0
    ensures Word(r, g, b) & 0x200000 != 0 <==> r & 0x20 != 0
    ensures Word(r, g, b) & 0x100000 != 0 <==> r & 0x10 != 0
    ensures Word(r, g, b) & 0x080000 != 0 <==> r & 0x08 != 0
    ensures Word(r, g, b) & 0x040000 != 0 <==> r & 0x04 != 0
    ensures Word(r, g, b) & 0x020000 != 0 <==> r & 0x02 != 0
    ensures Word(r, g, b) & 0x010000 != 0 <==> r & 0x01 != 0
  {
  }

  lemma MiddleByte(r: byte, g: byte, b: byte)
    ensures Word(r, g, b) & 0x008000 != 0 <==> g & 0x80 != 0
    ensures Word(r, g, b) & 0x004000 != 0 <==> g & 0x40 != 0
    ensures Word(r, g, b) & 0x002000 != 0 <==> g & 0x20 != 0
    ensures Word(r, g, b) & 0x001000 != 0 <==> g & 0x10 != 0
    ensures Word(r, g, b) & 0x000800 != 0 <==> g & 0x08 != 0
    ensures Word(r, g, b) & 0x000400 != 0 <==> g & 0x04 != 0
    ensures Word(r, g, b) & 0x000200 != 0 <==> g & 0x02 != 0
    ensures Word(r, g, b) & 0x000100 != 0 <==> g & 0x01 != 0
  {
  }

  lemma LowByte(r: byte, g: byte, b: byte)
    ensures Word(r, g, b) & 0x000080 != 0 <==> b & 0x80 != 0
    ensures Word(r, g, b) & 0x000040 != 0 <==> b & 0x40 != 0
    ensures Word(r, g, b) & 0x000020 != 0 <==> b & 0x20 != 0
    ensures Word(r, g, b) & 0x000010 != 0 <==> b & 0x10 != 0
    ensures Word(r, g, b) & 0x000008 != 0 <==> b & 0x08 != 0
    ensures Word(r, g, b) & 0x000004 != 0 <==> b & 0x04 != 0
    ensures Word(r, g, b) & 0x000002 != 0 <==> b & 0x02 != 0
    ensures Word(r, g, b) & 0x000001 != 0 <==> b & 0x01 != 0
  {
  }

  lemma HighBits(r: byte, g: byte, b: byte)
    ensures Bits16To23(Word(r, g, b)) == ByteBits(r)
  {
    hide Word;
    HighByte(r, g, b);
  }

  lemma MiddleBits(r: byte, g: byte, b: byte)
    ensures Bits8To15(Word(r, g, b)) == ByteBits(g)
  {
    hide Word;
    MiddleByte(r, g, b);
  }

  lemma LowBits(r: byte, g: byte, b: byte)
    ensures Bits0To7(Word(r, g, b)) == ByteBits(b)
  {
    hide Word;
    LowByte(r, g, b);
  }

  lemma WordIsThreeBytes(r: byte, g: byte, b: byte)
    ensures WordBits(Word(r, g, b)) == ByteBits(r) + ByteBits(g) + ByteBits(b)
  {
    hide Word, ByteBits;
    HighBits(r, g, b);
    MiddleBits(r, g, b);
    LowBits(r, g, b);
  }

  lemma DataBitsOfTriple(data: seq<byte>)
    requires 3 <= |data|
    ensures DataBits(data) == ByteBits(data[0]) + (ByteBits(data[1]) + (ByteBits(data[2]) + DataBits(data[3..])))
  {
    hide ByteBits;
    assert data[1..][1..] == data[2..] && data[2..][1..] == data[3..];
    assert DataBits(data[2..]) == ByteBits(data[2]) + DataBits(data[3..]);
    assert DataBits(data[1..]) == ByteBits(data[1]) + DataBits(data[2..]);
  }

  /**
   Main result: for every buffer of whole triples, the packed words expanded by
   the LED controller give exactly the bits of the buffer, in order.
   */
  lemma {:induction false} PackingKeepsBits(data: seq<byte>)
    requires |data| % 3 == 0
    ensures Expand(Packed(data)) == DataBits(data)
    decreases |data|
  {
    if data != [] {
      DataBitsOfTriple(data);
      WordIsThreeBytes(data[0], data[1], data[2]);
      PackingKeepsBits(data[3..]);
      hide WordBits, ByteBits, Word, DataBits;
      assert Packed(data)[1..] == Packed(data[3..]);
      var r, g, b := ByteBits(data[0]), ByteBits(data[1]), ByteBits(data[2]);
      Assoc(r + g, b, DataBits(data[3..]));
      Assoc(r, g, b + DataBits(data[3..]));
    }
  }

  /** Reading eight bits back into a byte. */
  function ByteOf(bits: seq<bool>): byte
    requires |bits| == 8
  {
    (if bits[0] then 0x80 else 0) | (if bits[1] then 0x40 else 0) |
    (if bits[2] then 0x20 else 0) | (if bits[3] then 0x10 else 0) |
    (if bits[4] then 0x08 else 0) | (if bits[5] then 0x04 else 0) |
    (if bits[6] then 0x02 else 0) | (if bits[7] then 0x01 else 0)
  }

  function Received(bits: seq<bool>): seq<byte> {
    if |bits| < 8 then [] else [ByteOf(bits[..8])] + Received(bits[8..])
  }

  lemma ByteOfBits(b: byte)
    ensures ByteOf(ByteBits(b)) == b
  {
  }

  /** Round trip: a receiver that groups the bits by eight has the buffer back. */
  lemma {:induction false} ReceivedIsSent(data: seq<byte>)
    ensures Received(DataBits(data)) == data
  {
    if data != [] {
      ByteOfBits(data[0]);
      ReceivedIsSent(data[1..]);
      hide ByteBits, ByteOf;
      var bits := DataBits(data);
      assert bits[..8] == ByteBits(data[0]) && bits[8..] == DataBits(data[1..]);
    }
  }

  // ---- the software loop --------------------------------------------------

  /** The index the loop computes from the top of its copy of the byte. */
  function TimingIndex(b: byte): (t: nat)
    ensures t == 0 || t == 2
  {
    if (b >> 6) & 2 == 2 then 2 else 0
  }

  /** The assignment that shifts the loop's copy by one. */
  function Shift(b: byte): byte {
    b << 1
  }

  /** The bits the loop takes from `b` in n rounds of testing and shifting. */
  function ShiftedOut(b: byte, n: nat): (bits: seq<bool>)
    ensures |bits| == n
    decreases n
  {
    if n == 0 then [] else [TimingIndex(b) != 0] + ShiftedOut(Shift(b), n - 1)
  }

  lemma TopBit(b: byte)
    ensures TimingIndex(b) == if b & 0x80 != 0 then 2 else 0
  {
  }

  /** Shifting moves every bit one mask up. */
  lemma ShiftMovesBits(b: byte)
    ensures ((b << 1) & 0x80 != 0 <==> b & 0x40 != 0) && ((b << 1) & 0x40 != 0 <==> b & 0x20 != 0)
    ensures ((b << 1) & 0x20 != 0 <==> b & 0x10 != 0) && ((b << 1) & 0x10 != 0 <==> b & 0x08 != 0)
    ensures ((b << 1) & 0x08 != 0 <==> b & 0x04 != 0) && ((b << 1) & 0x04 != 0 <==> b & 0x02 != 0)
    ensures (b << 1) & 0x02 != 0 <==> b & 0x01 != 0
  {
  }

  /** Testing and shifting eight times yields the bits of the byte, most significant first. */
  lemma ShiftsAreBits(b: byte)
    ensures ShiftedOut(b, 8) == ByteBits(b)
  {
    ShiftsAreBitsFrom(b, 8);
  }

  /** After 8 - n shifts the loop still has the last n bits to test, now at the top of the byte. */
  lemma {:induction false} ShiftsAreBitsFrom(b: byte, n: nat)
    requires n <= 8
    ensures ShiftedOut(b, n) == ByteBits(b)[..n]
    decreases n
  {
    if 0 < n {
      ShiftsAreBitsFrom(Shift(b), n - 1);
      TopBit(b);
      ShiftedTail(b);
      hide ByteBits, TimingIndex;
      var bits := ByteBits(b);
      assert bits[1..][..n - 1] == bits[..n][1..];
      assert ByteBits(Shift(b))[..7][..n - 1] == ByteBits(Shift(b))[..n - 1];
      assert bits[..n] == [bits[0]] + bits[..n][1..];
    }
  }

  lemma ShiftedTail(b: byte)
    ensures ByteBits(Shift(b))[..7] == ByteBits(b)[1..]
    ensures ByteBits(b)[0] <==> b & 0x80 != 0
  {
    ShiftMovesBits(b);
  }

  // ---- timing -------------------------------------------------------------

  /** How long a bit is high and how long its whole period is, in ticks of whoever makes it. */
  datatype Pulse = Pulse(high: nat, total: nat)

  /** The pulses for a bit string, given those of a 0 and of a 1. */
  function Wave(bits: seq<bool>, zero: Pulse, one: Pulse): (wave: seq<Pulse>)
    ensures |wave| == |bits|
  {
    seq(|bits|, i requires 0 <= i < |bits| => if bits[i] then one else zero)
  }

  lemma NothingSent(zero: Pulse, one: Pulse)
    ensures Wave(DataBits([]), zero, one) == []
  {
  }

  lemma WaveAppends(a: seq<bool>, b: seq<bool>, zero: Pulse, one: Pulse)
    ensures Wave(a + b, zero, one) == Wave(a, zero, one) + Wave(b, zero, one)
  {
  }

  /** One round of the loop, with the bits from j on still in its copy of the byte. */
  lemma ClockOneBit(bits: seq<bool>, j: nat, b: byte, zero: Pulse, one: Pulse)
    requires j < |bits| && ShiftedOut(b, |bits| - j) == bits[j..]
    ensures ShiftedOut(Shift(b), |bits| - (j + 1)) == bits[j + 1..]
    ensures TimingIndex(b) == if bits[j] then 2 else 0
    ensures Wave(bits[..j + 1], zero, one) == Wave(bits[..j], zero, one) + [if bits[j] then one else zero]
  {
    hide Shift;
    assert ShiftedOut(b, |bits| - j)[1..] == ShiftedOut(Shift(b), |bits| - (j + 1));
    assert bits[j..][1..] == bits[j + 1..];
    assert bits[j..][0] == bits[j];
  }

  lemma DataBitsAppend(data: seq<byte>, b: byte)
    ensures DataBits(data + [b]) == DataBits(data) + ByteBits(b)
  {
    hide ByteBits;
    if data == [] {
      assert (data + [b])[1..] == [];
      assert DataBits([]) == [];
    } else {
      assert (data + [b])[1..] == data[1..] + [b];
      DataBitsAppend(data[1..], b);
      Assoc(ByteBits(data[0]), DataBits(data[1..]), ByteBits(b));
    }
  }

  /** Nanoseconds to processor ticks, the product being 32 bits wide. */
  function TicksOf(mhz: nat, ns: nat): nat {
    U32(mhz * ns) / 1000
  }

  /** The four timing words after the software path has converted them in place. */
  function Converted(mhz: nat, t: seq<nat>): (r: seq<nat>)
    requires |t| == 4
    ensures |r| == 4
  {
    var a, b, c, d := TicksOf(mhz, t[0]), TicksOf(mhz, t[1]), TicksOf(mhz, t[2]), TicksOf(mhz, t[3]);
    [a, U32(a + b), c, U32(c + d)]
  }

  const LEDC_NS_PER_TICK := 25

  /** The pulse of a 0 or a 1 in the controller's 25 ns ticks. */
  function LedcPulse(high: nat, low: nat): Pulse {
    Pulse(high / LEDC_NS_PER_TICK, high / LEDC_NS_PER_TICK + low / LEDC_NS_PER_TICK)
  }

  /** A tick count is the longest whole number of ticks that does not exceed the time asked for. */
  predicate Nearest(ticks: nat, ns: nat, ticksPerMicro: nat) {
    ticks * 1000 <= ns * ticksPerMicro < (ticks + 1) * 1000
  }

  /** The 32-bit product of the conversion is the true one. */
  predicate ProductFits(mhz: nat, ns: nat) {
    mhz * ns < TWO_32
  }

  /** A product that does not fit 32 bits gives a pulse that is too short; exactly then. */
  lemma NearestIffProductFits(mhz: nat, ns: nat)
    ensures Nearest(TicksOf(mhz, ns), ns, mhz) <==> ProductFits(mhz, ns)
  {
    var a := mhz * ns;
    assert ns * mhz == a;
    assert a == U32(a) + TWO_32 * (a / TWO_32);
    assert U32(a) / 1000 * 1000 <= U32(a) < U32(a) / 1000 * 1000 + 1000;
  }

  lemma TicksBounded(mhz: nat, ns: nat)
    ensures TicksOf(mhz, ns) <= TWO_32 / 1000
  {
  }

  lemma PeriodIsSum(mhz: nat, high: nat, low: nat)
    ensures var a, b := TicksOf(mhz, high), TicksOf(mhz, low); U32(a + b) == a + b
  {
    TicksBounded(mhz, high);
    TicksBounded(mhz, low);
    hide TicksOf;
  }

  /**
   The software path's conversion is right within one processor tick, for a
   pair's high and low times alike, if and only if both 32-bit products fit;
   the second word of each pair becomes the whole period.
   */
  lemma ConvertedIsNearestIff(mhz: nat, t: seq<nat>, i: nat)
    requires |t| == 4 && (i == 0 || i == 2)
    ensures var r := Converted(mhz, t);
      && r[i] <= r[i + 1]
      && (Nearest(r[i], t[i], mhz) && Nearest(r[i + 1] - r[i], t[i + 1], mhz)
          <==> ProductFits(mhz, t[i]) && ProductFits(mhz, t[i + 1]))
  {
    hide Nearest, TicksOf, ProductFits, U32;
    PeriodIsSum(mhz, t[i], t[i + 1]);
    NearestIffProductFits(mhz, t[i]);
    NearestIffProductFits(mhz, t[i + 1]);
  }

  lemma LedcIsNearest(high: nat, low: nat)
    ensures var p := LedcPulse(high, low);
      Nearest(p.high, high, 1000 / LEDC_NS_PER_TICK) && Nearest(p.total - p.high, low, 1000 / LEDC_NS_PER_TICK)
  {
  }

  // ---- the staging area ---------------------------------------------------

  /** `(raw + line - 1) & ~(line - 1)` for a cache line of a power of two of bytes. */
  function AlignUp(raw: nat, line: nat): nat
    requires 0 < line
  {
    (raw + line - 1) / line * line
  }

  /**
   Wherever the allocator puts a block of n words and one cache line, the
   staging area starts on a line and all its words lie inside the block.
   */
  lemma StagingInside(raw: nat, line: nat, n: nat, i: nat)
    requires 0 < line && i < n
    ensures var staging := AlignUp(raw, line);
      && staging % line == 0 && raw <= staging < raw + line
      && staging + 4 * i + 4 <= raw + (n * 4 + line)
  {
    var x := raw + line - 1;
    assert x == line * (x / line) + x % line;
    ModOfProduct(x / line, line);
  }

  lemma ModOfProduct(k: nat, line: nat)
    requires 0 < line
    ensures k * line % line == 0
  {
    var q, r := k * line / line, k * line % line;
    assert (k - q) * line == r;
    if k - q < 0 {
      MulMonotone(k - q, -1, line);
    } else if 0 < k - q {
      MulMonotone(1, k - q, line);
    }
  }

  lemma MulMonotone(a: int, b: int, c: nat)
    requires a <= b
    ensures a * c <= b * c
  {
  }
}
