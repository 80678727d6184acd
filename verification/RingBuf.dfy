/**
 The byte ring buffer behind the UART and I2S drivers: an array with a read
 index, a write index and one slot that always stays free.  The UART calls the
 indices iget/iput, the I2S framework calls them head/tail.
 */
module ByteRing {
  import opened Prelude

  /** What offering a byte to a bounded queue leaves in it: a full queue drops the byte. */
  function Offer(q: seq<byte>, cap: nat, v: byte): (r: seq<byte>)
    requires |q| <= cap
    ensures |r| <= cap
  {
    if |q| < cap then q + [v] else q
  }

  lemma ModuloRange(x: int, n: int)
    requires 0 <= x < n
    ensures x % n == x && (n + x) % n == x
  {
  }

  class RingBuf {
    const buf: array<byte>
    var iget: nat
    var iput: nat

    ghost predicate Valid()
      reads this
    {
      iget < buf.Length && iput < buf.Length
    }

    ghost function Capacity(): nat
      requires 0 < buf.Length
    {
      buf.Length - 1
    }

    /** The abstract value: the queued bytes, oldest first. */
    ghost function Contents(): (q: seq<byte>)
      requires Valid()
      reads this, buf
      ensures |q| <= Capacity()
    {
      if iget <= iput then buf[iget..iput] else buf[iget..] + buf[..iput]
    }

    constructor (capacity: nat)
      ensures Valid() && fresh(buf)
      ensures Capacity() == capacity && Contents() == []
    {
      buf := new byte[capacity + 1](_ => 0);
      iget, iput := 0, 0;
    }

    method Avail() returns (n: nat)
      requires Valid()
      ensures n == |Contents()|
    {
      ModuloRange(if iget <= iput then iput - iget else buf.Length + iput - iget, buf.Length);
      n := (buf.Length + iput - iget) % buf.Length;
    }

    method Free() returns (n: nat)
      requires Valid()
      ensures n == Capacity() - |Contents()|
    {
      ModuloRange(if iput < iget then iget - iput - 1 else buf.Length + iget - iput - 1, buf.Length);
      n := (buf.Length + iget - iput - 1) % buf.Length;
    }

    method Put(v: byte) returns (ok: bool)
      requires Valid()
      modifies `iput, buf
      ensures Valid()
      ensures ok == (old(|Contents()|) < Capacity())
      ensures Contents() == Offer(old(Contents()), Capacity(), v)
    {
      var next := iput + 1;
      if next >= buf.Length {
        next := 0;
      }
      if next == iget {
        return false;
      }
      buf[iput] := v;
      iput := next;
      return true;
    }

    method Get() returns (c: Option<byte>)
      requires Valid()
      modifies `iget
      ensures Valid()
      ensures old(Contents()) == [] ==> c == None && Contents() == []
      ensures old(Contents()) != [] ==> c == Some(old(Contents())[0]) && Contents() == old(Contents())[1..]
    {
      if iget == iput {
        return None;
      }
      c := Some(buf[iget]);
      iget := iget + 1;
      if iget >= buf.Length {
        iget := 0;
      }
    }
  }
}
