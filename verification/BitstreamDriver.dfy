/**
 machine.bitstream as the port executes it: timing words converted in place, a
 staging array filled word by word, and the choice between the two paths.
 */
module BitstreamDriver {
  import opened Prelude
  import opened Bitstream

  const MAX_LEDS := 1024

  /** Raised: the allocator's exception has left the call. */
  datatype Path = Nothing | Ledc | Software | Raised

  /** What m_new does: it has the memory at an address, returns NULL, or raises. */
  datatype Memory = At(raw: nat) | Null | Raises

  datatype Staging = Packed(words: array<bv32>, address: nat) | NoStaging | StagingRaised

  const CACHE_LINE := 32

  /** The DMA channels that are free; None stands for the allocator's 0xFF. */
  class Gdma {
    var free: set<nat>

    constructor (free: set<nat>)
      ensures this.free == free
    {
      this.free := free;
    }

    method Alloc() returns (ch: Option<nat>)
      modifies this
      ensures ch.None? <==> old(free) == {}
      ensures ch.None? ==> free == old(free)
      ensures ch.Some? ==> ch.value in old(free) && free == old(free) - {ch.value}
    {
      if free == {} {
        return None;
      }
      var c :| c in free;
      free := free - {c};
      return Some(c);
    }

    method Release(ch: nat)
      modifies this
      ensures free == old(free) + {ch}
    {
      free := free + {ch};
    }
  }

  /** The first loop of bitstream_software_fallback. */
  method ConvertTiming(mhz: nat, timing: array<nat>)
    requires timing.Length == 4
    modifies timing
    ensures timing[..] == Converted(mhz, old(timing[..]))
  {
    hide TicksOf, U32;
    ghost var before := timing[..];
    ghost var after := Converted(mhz, before);
    for i := 0 to 4
      invariant forall k :: 0 <= k < i ==> timing[k] == after[k]
      invariant forall k :: i <= k < 4 ==> timing[k] == before[k]
    {
      timing[i] := TicksOf(mhz, timing[i]);
      if i % 2 == 1 {
        timing[i] := U32(timing[i] + timing[i - 1]);
      }
    }
  }

  /** bitstream_software_fallback, which leaves the timing words converted. */
  method SoftwareFallback(mhz: nat, timing: array<nat>, buf: seq<byte>) returns (wave: seq<Pulse>)
    requires timing.Length == 4
    modifies timing
    ensures timing[..] == Converted(mhz, old(timing[..]))
    ensures wave == Wave(DataBits(buf), Pulse(timing[0], timing[1]), Pulse(timing[2], timing[3]))
  {
    ConvertTiming(mhz, timing);
    ghost var converted := timing[..];
    ghost var zero, one := Pulse(timing[0], timing[1]), Pulse(timing[2], timing[3]);
    wave := [];
    assert buf[..0] == [];
    hide DataBits, ByteBits, Converted, Wave;
    NothingSent(zero, one);
    for i := 0 to |buf|
      invariant timing[..] == converted
      invariant wave == Wave(DataBits(buf[..i]), zero, one)
    {
      var pulses := ClockOut(buf[i], timing);
      WaveAppends(DataBits(buf[..i]), ByteBits(buf[i]), zero, one);
      DataBitsAppend(buf[..i], buf[i]);
      assert buf[..i + 1] == buf[..i] + [buf[i]];
      wave := wave + pulses;
    }
    assert buf[..|buf|] == buf;
  }

  /** The inner loop, for one byte. */
  method ClockOut(data: byte, timing: array<nat>) returns (wave: seq<Pulse>)
    requires timing.Length == 4
    ensures wave == Wave(ByteBits(data), Pulse(timing[0], timing[1]), Pulse(timing[2], timing[3]))
  {
    hide ByteBits, TimingIndex, Shift, Wave, ShiftedOut;
    ghost var zero, one := Pulse(timing[0], timing[1]), Pulse(timing[2], timing[3]);
    ghost var bits := ByteBits(data);
    ShiftsAreBits(data);
    assert bits[0..] == bits;
    var b := data;
    wave := [];
    for j := 0 to 8
      invariant ShiftedOut(b, 8 - j) == bits[j..]
      invariant wave == Wave(bits[..j], zero, one)
    {
      ClockOneBit(bits, j, b, zero, one);
      var t := TimingIndex(b);
      wave := wave + [Pulse(timing[t], timing[t + 1])];
      b := Shift(b);
    }
    assert bits[..8] == bits;
  }

  /**
   bitstream_ledc_pack.  The staging words hold the packed buffer and lie, on
   a cache line, inside the block the allocator returned.
   */
  method LedcPack(buf: seq<byte>, nLeds: nat, memory: Memory) returns (staging: Staging)
    requires |buf| == 3 * nLeds
    ensures staging.Packed? <==> memory.At?
    ensures staging.StagingRaised? <==> memory.Raises?
    ensures staging.Packed? ==> fresh(staging.words) && staging.words[..] == Bitstream.Packed(buf)
    ensures staging.Packed? ==>
              && staging.address % CACHE_LINE == 0 && memory.raw <= staging.address
              && staging.address + 4 * staging.words.Length <= memory.raw + (nLeds * 4 + CACHE_LINE)
  {
    if memory.Raises? {
      return StagingRaised;
    }
    if memory.Null? {
      return NoStaging;
    }
    var address := AlignUp(memory.raw, CACHE_LINE);
    var words := new bv32[nLeds](_ => 0);
    hide Word;
    for i := 0 to nLeds
      invariant words[..i] == Bitstream.Packed(buf)[..i]
    {
      words[i] := Word(buf[i * 3], buf[i * 3 + 1], buf[i * 3 + 2]);
    }
    assert words[..] == words[..nLeds];
    return Packed(words, address);
  }

  /** The DMA feeds the staging words to the controller, which sends each one's lower 24 bits. */
  method LedcSend(staging: array<bv32>, timing: array<nat>) returns (wave: seq<Pulse>)
    requires timing.Length == 4
    ensures wave == Wave(Expand(staging[..]), LedcPulse(timing[0], timing[1]), LedcPulse(timing[2], timing[3]))
  {
    wave := Wave(Expand(staging[..]), LedcPulse(timing[0], timing[1]), LedcPulse(timing[2], timing[3]));
  }

  /**
   machine_bitstream_high_low.  Whichever path is taken, the pin carries the
   bits of the buffer, most significant first.  The DMA channel is given back
   unless the allocator raises, which skips the code that frees it.
   */
  method HighLow(gdma: Gdma, mhz: nat, timing: array<nat>, buf: seq<byte>, memory: Memory)
    returns (path: Path, wave: seq<Pulse>)
    requires timing.Length == 4
    modifies gdma, timing
    ensures gdma.free == old(gdma.free) <==> !path.Raised?
    ensures path.Nothing? <==> buf == []
    ensures path.Ledc? <==> ForLedc(buf) && old(gdma.free) != {} && memory.At?
    ensures path.Raised? <==> ForLedc(buf) && old(gdma.free) != {} && memory.Raises?
    ensures path.Nothing? || path.Raised? ==> wave == [] && timing[..] == old(timing[..])
    ensures path.Ledc? ==>
              && timing[..] == old(timing[..])
              && wave == Wave(DataBits(buf), LedcPulse(timing[0], timing[1]), LedcPulse(timing[2], timing[3]))
    ensures path.Software? ==>
              && timing[..] == Converted(mhz, old(timing[..]))
              && wave == Wave(DataBits(buf), Pulse(timing[0], timing[1]), Pulse(timing[2], timing[3]))
  {
    hide Converted, Wave, DataBits;
    if |buf| == 0 {
      return Nothing, [];
    }
    var nLeds := |buf| / 3;
    if |buf| % 3 == 0 && nLeds > 0 && nLeds <= MAX_LEDS {
      var ch := gdma.Alloc();
      if ch.Some? {
        var staging := LedcPack(buf, nLeds, memory);
        match staging {
          case Packed(words, _) =>
            PackingKeepsBits(buf);
            wave := LedcSend(words, timing);
            gdma.Release(ch.value);
            assert gdma.free == old(gdma.free);
            return Ledc, wave;
          case StagingRaised =>
            return Raised, [];
          case NoStaging =>
            gdma.Release(ch.value);
            assert gdma.free == old(gdma.free);
        }
      }
    }
    wave := SoftwareFallback(mhz, timing, buf);
    path := Software;
  }

  /** The buffers the LED controller is considered for. */
  predicate ForLedc(buf: seq<byte>) {
    buf != [] && |buf| % 3 == 0 && |buf| / 3 <= MAX_LEDS
  }
}
