/**
  Machine words of the packet programs: unsigned 32- and 64-bit values with the
  wrap-around of C written out, and the (tick, count) word that the shared
  limiters swap as one unit.
 */
module Words {
  type u8 = x: int | 0 <= x < 0x100
  type u32 = x: int | 0 <= x < 0x1_0000_0000
  type u64 = x: int | 0 <= x < 0x1_0000_0000_0000_0000

  datatype Option<+T> = None | Some(value: T)

  datatype Verdict = Pass | Drop

  /** The low 32 bits of a mathematical integer. */
  function Low32(x: int): (r: u32) { x % 0x1_0000_0000 }

  /** Unsigned 32-bit subtraction. */
  function Sub32(a: u32, b: u32): (r: u32) { (a - b) % 0x1_0000_0000 }

  function Wrap64(x: int): (r: u64) { x % 0x1_0000_0000_0000_0000 }

  /** Unsigned 64-bit subtraction. */
  function Sub64(a: nat, b: nat): (r: nat) { if b <= a then a - b else Wrap64(a - b) }

  lemma Sub64Wraps(a: u64, b: u64)
    ensures Sub64(a, b) == Wrap64(a - b)
  {
  }

  /** `((u64)hi << 32) | lo`. */
  function Pack(hi: u32, lo: u32): (r: u64) { hi * 0x1_0000_0000 + lo }

  function High(w: u64): (r: u32) { w / 0x1_0000_0000 }

  function Low(w: u64): (r: u32) { w % 0x1_0000_0000 }

  lemma Unpack(hi: u32, lo: u32)
    ensures High(Pack(hi, lo)) == hi && Low(Pack(hi, lo)) == lo
  {
  }

  /** A wrapped difference never exceeds the true one, so an expiry seen through 32 bits is real. */
  lemma WrappedGap(later: int, earlier: int)
    requires earlier <= later
    ensures Sub32(Low32(later), Low32(earlier)) == (later - earlier) % 0x1_0000_0000
    ensures Sub32(Low32(later), Low32(earlier)) <= later - earlier
  {
  }

  /** Ceiling division, for a positive divisor. */
  function CeilDiv(a: nat, b: int): (r: nat)
    requires b > 0
  {
    (a + b - 1) / b
  }

  // ---------------------------------------------------------------- contention

  /** A shared value after the first `k` opportunities other CPUs had to store into it. */
  function AfterRivals<T>(x: T, rivals: seq<Option<T>>, k: nat): (r: T)
    requires k <= |rivals|
  {
    if k == 0 then x else if rivals[k - 1].Some? then rivals[k - 1].value else AfterRivals(x, rivals, k - 1)
  }

  lemma {:induction false} NoRivals<T>(x: T, rivals: seq<Option<T>>, k: nat)
    requires k <= |rivals| && forall i :: 0 <= i < |rivals| ==> rivals[i].None?
    ensures AfterRivals(x, rivals, k) == x
  {
    if k > 0 {
      NoRivals(x, rivals, k - 1);
    }
  }
}
