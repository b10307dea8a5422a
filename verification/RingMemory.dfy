/** A circular byte area addressed by ever-growing positions. */
module RingMemory {
  import opened Words
  import opened Division

  type Memory = m: seq<u8> | |m| > 0 witness [0]

  /** The offset of position `p`: whole laps removed. */
  function Offset(p: nat, lap: nat): (r: nat)
    requires lap > 0
    ensures r < lap
  {
    if p < lap then p else Offset(p - lap, lap)
  }

  /** Positions less than one lap apart have different offsets. */
  lemma {:induction false} OffsetsDiffer(p: nat, q: nat, lap: nat)
    requires lap > 0 && p < q < p + lap
    ensures Offset(p, lap) != Offset(q, lap)
  {
    if p >= lap {
      OffsetsDiffer(p - lap, q - lap, lap);
    }
  }

  /** The offset is the remainder, so for a power of two it is the position masked with lap - 1. */
  lemma {:induction false} OffsetIsRemainder(p: nat, lap: nat)
    requires lap > 0
    ensures Offset(p, lap) == p % lap
  {
    var k := p / lap;
    assert p == lap * k + p % lap;
    if p < lap {
      QuotientIs(p, lap, 0);
    } else {
      OffsetIsRemainder(p - lap, lap);
      OneMore(p, lap);
      assert p - lap == lap * ((p - lap) / lap) + (p - lap) % lap;
      Distribute(k - 1, 1, lap);
    }
  }

  /** The byte at position `p`. */
  function Fetch(mem: Memory, p: nat): (r: u8) { mem[Offset(p, |mem|)] }

  /** `n` bytes from position `p`, wrapping at the end of the area. */
  function Slice(mem: Memory, p: nat, n: nat): (r: seq<u8>)
    ensures |r| == n
  {
    if n == 0 then [] else Slice(mem, p, n - 1) + [Fetch(mem, p + n - 1)]
  }

  lemma {:induction false} SliceAt(mem: Memory, p: nat, n: nat, i: nat)
    requires i < n
    ensures Slice(mem, p, n)[i] == Fetch(mem, p + i)
  {
    if i < n - 1 {
      SliceAt(mem, p, n - 1, i);
    }
  }

  /** The area after writing `bytes` from position `p`. */
  function Overwrite(mem: Memory, p: nat, bytes: seq<u8>): (r: Memory)
    ensures |r| == |mem|
  {
    if bytes == [] then mem
    else
      var n := |bytes| - 1;
      Overwrite(mem, p, bytes[..n])[Offset(p + n, |mem|) := bytes[n]]
  }

  /** One byte of the area after a write, for positions less than one lap apart. */
  lemma {:induction false} ByteAfter(mem: Memory, p: nat, bytes: seq<u8>, q: nat)
    requires p + |bytes| <= q + |mem| && q < p + |mem|
    ensures Fetch(Overwrite(mem, p, bytes), q) == if p <= q < p + |bytes| then bytes[q - p] else Fetch(mem, q)
  {
    if bytes != [] {
      var n := |bytes| - 1;
      ByteAfter(mem, p, bytes[..n], q);
      if q < p + n {
        OffsetsDiffer(q, p + n, |mem|);
      } else if p + n < q {
        OffsetsDiffer(p + n, q, |mem|);
      }
    }
  }

  /** What a write leaves alone. */
  lemma Untouched(mem: Memory, p: nat, bytes: seq<u8>, q: nat, n: nat)
    requires q + n <= p || p + |bytes| <= q
    requires p + |bytes| <= q + |mem| && q + n <= p + |mem|
    ensures Slice(Overwrite(mem, p, bytes), q, n) == Slice(mem, q, n)
  {
    var after := Overwrite(mem, p, bytes);
    forall i | 0 <= i < n ensures Slice(after, q, n)[i] == Slice(mem, q, n)[i] {
      ByteAfter(mem, p, bytes, q + i);
      SliceAt(mem, q, n, i);
      SliceAt(after, q, n, i);
    }
  }

  /** What a write leaves behind. */
  lemma Written(mem: Memory, p: nat, bytes: seq<u8>)
    requires |bytes| <= |mem|
    ensures Slice(Overwrite(mem, p, bytes), p, |bytes|) == bytes
  {
    var after := Overwrite(mem, p, bytes);
    forall i | 0 <= i < |bytes| ensures Slice(after, p, |bytes|)[i] == bytes[i] {
      ByteAfter(mem, p, bytes, p + i);
      SliceAt(after, p, |bytes|, i);
    }
  }

  lemma {:induction false} SlicePrefix(mem: Memory, p: nat, n: nat, k: nat)
    requires k <= n
    ensures Slice(mem, p, n)[..k] == Slice(mem, p, k)
  {
    if k < n {
      SlicePrefix(mem, p, n - 1, k);
      assert Slice(mem, p, n)[..k] == Slice(mem, p, n - 1)[..k];
    }
  }

  /** The area mapped twice in a row. */
  function Mapped(mem: Memory): (r: seq<u8>) { mem + mem }

  lemma {:induction false} OffsetAhead(p: nat, k: nat, lap: nat)
    requires k < lap
    ensures Offset(p + k, lap) == if Offset(p, lap) + k < lap then Offset(p, lap) + k else Offset(p, lap) + k - lap
  {
    if p >= lap {
      OffsetAhead(p - lap, k, lap);
    }
  }

  /**
    A plain read of the double mapping from a masked position is the wrapping
    read, for anything up to one lap long.
   */
  lemma DoubleMapping(mem: Memory, p: nat, skip: nat, n: nat, off: nat)
    requires skip + n <= |mem| && off == p % |mem|
    ensures off + skip + n <= |Mapped(mem)|
    ensures Mapped(mem)[off + skip..off + skip + n] == Slice(mem, p + skip, n)
  {
    OffsetIsRemainder(p, |mem|);
    var read := Mapped(mem)[off + skip..off + skip + n];
    forall i | 0 <= i < n ensures read[i] == Slice(mem, p + skip, n)[i] {
      OffsetAhead(p, skip + i, |mem|);
      SliceAt(mem, p + skip, n, i);
    }
  }

  // ---------------------------------------------------------------- little-endian words

  function ToLe(x: nat, n: nat): (r: seq<u8>)
    ensures |r| == n
  {
    if n == 0 then [] else [x % 0x100] + ToLe(x / 0x100, n - 1)
  }

  function FromLe(b: seq<u8>): (x: nat)
  {
    if b == [] then 0
    else
      var low: int := b[0];
      low + 0x100 * FromLe(b[1..])
  }

  /** How many values `n` bytes can hold. */
  function Span(n: nat): (r: nat) { if n == 0 then 1 else 0x100 * Span(n - 1) }

  lemma {:induction false} LeRoundTrip(x: nat, n: nat)
    requires x < Span(n)
    ensures FromLe(ToLe(x, n)) == x
  {
    if n > 0 {
      LeRoundTrip(x / 0x100, n - 1);
      assert ToLe(x, n)[1..] == ToLe(x / 0x100, n - 1);
    }
  }

  /** The little-endian value of the `n` bytes at position `p`. */
  function LeAt(mem: Memory, p: nat, n: nat): (x: nat)
    decreases n, p
  {
    if n == 0 then 0
    else
      var low: int := Fetch(mem, p);
      low + 0x100 * LeAt(mem, p + 1, n - 1)
  }

  lemma {:induction false} SliceTail(mem: Memory, p: nat, n: nat)
    requires n > 0
    ensures Slice(mem, p, n)[0] == Fetch(mem, p) && Slice(mem, p, n)[1..] == Slice(mem, p + 1, n - 1)
  {
    if n > 1 {
      SliceTail(mem, p, n - 1);
    }
  }

  lemma {:induction false} LeAtSlice(mem: Memory, p: nat, n: nat)
    ensures LeAt(mem, p, n) == FromLe(Slice(mem, p, n))
    decreases n
  {
    if n > 0 {
      LeAtSlice(mem, p + 1, n - 1);
      SliceTail(mem, p, n);
    }
  }

  /** A word is what was written. */
  lemma WordWritten(mem: Memory, p: nat, bytes: seq<u8>, n: nat)
    requires n <= |bytes| <= |mem|
    ensures LeAt(Overwrite(mem, p, bytes), p, n) == FromLe(bytes[..n])
  {
    Written(mem, p, bytes);
    SlicePrefix(Overwrite(mem, p, bytes), p, |bytes|, n);
    LeAtSlice(Overwrite(mem, p, bytes), p, n);
  }

  lemma WordUntouched(mem: Memory, p: nat, bytes: seq<u8>, q: nat, n: nat)
    requires q + n <= p || p + |bytes| <= q
    requires p + |bytes| <= q + |mem| && q + n <= p + |mem|
    ensures LeAt(Overwrite(mem, p, bytes), q, n) == LeAt(mem, q, n)
  {
    Untouched(mem, p, bytes, q, n);
    LeAtSlice(mem, q, n);
    LeAtSlice(Overwrite(mem, p, bytes), q, n);
  }

  lemma {:induction false} LeAtBound(mem: Memory, p: nat, n: nat)
    ensures LeAt(mem, p, n) < Span(n)
    decreases n
  {
    if n > 0 {
      LeAtBound(mem, p + 1, n - 1);
    }
  }
}
