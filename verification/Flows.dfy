/** Addresses, flows, and the source-prefix masking that keys the shared limiters. */
module Flows {
  import opened Words
  import opened Division

  /** Four 32-bit words in network order, most significant first; an IPv4 address is the first word. */
  datatype Addr = Addr(w0: u32, w1: u32, w2: u32, w3: u32)

  datatype Family = V4 | V6

  /** A 5-tuple of one protocol.  The tables are split by family; here the family is part of the key. */
  datatype Flow = Flow(family: Family, src: Addr, dst: Addr, sport: nat, dport: nat)

  function Reverse(f: Flow): (r: Flow)
    ensures Flow(r.family, r.dst, r.src, r.dport, r.sport) == f
  {
    Flow(f.family, f.dst, f.src, f.dport, f.sport)
  }

  // ---------------------------------------------------------------- prefix masks

  function Pow2(n: nat): (r: int)
    ensures r > 0
  {
    if n == 0 then 1 else 2 * Pow2(n - 1)
  }

  /** The top `bits` bits of a word, the rest cleared. */
  function MaskWord(word: u32, bits: nat): (r: u32)
  {
    if bits >= 32 then word
    else if bits == 0 then 0
    else
      QuotientBounds(word, Pow2(32 - bits));
      (word / Pow2(32 - bits)) * Pow2(32 - bits)
  }

  /** `fill_masked_source_words`: 32 bits at a time, the remaining words zero. */
  function MaskedSource(a: Addr, family: Family, prefix4: nat, prefix6: nat): (r: Addr)
  {
    if family == V4 then Addr(MaskWord(a.w0, if prefix4 > 32 then 32 else prefix4), 0, 0, 0)
    else
      var p := if prefix6 > 128 then 128 else prefix6;
      if p < 32 then Addr(MaskWord(a.w0, p), 0, 0, 0)
      else if p < 64 then Addr(a.w0, MaskWord(a.w1, p - 32), 0, 0)
      else if p < 96 then Addr(a.w0, a.w1, MaskWord(a.w2, p - 64), 0)
      else Addr(a.w0, a.w1, a.w2, MaskWord(a.w3, p - 96))
  }

  function Word(a: Addr, i: nat): (r: u32)
    requires i < 4
  {
    if i == 0 then a.w0 else if i == 1 then a.w1 else if i == 2 then a.w2 else a.w3
  }

  /** Bit `i` of a word, counted from the most significant. */
  function WordBit(w: u32, i: nat): (b: int)
    requires i < 32
  {
    (w / Pow2(31 - i)) % 2
  }

  /** Bit `i` of an address, counted from the most significant of 128. */
  function Bit(a: Addr, i: nat): (b: int)
    requires i < 128
  {
    WordBit(Word(a, i / 32), i % 32)
  }

  lemma TopOf32(w: u32)
    ensures Pow2(32) == 0x1_0000_0000 && w / Pow2(32) == 0
  {
    assert Pow2(8) == 256;
    assert Pow2(16) == 65536;
    assert Pow2(24) == 16777216;
    assert Pow2(32) == 0x1_0000_0000;
  }

  /** Dividing by the next smaller power keeps one more bit. */
  lemma NextBit(w: u32, k: nat)
    requires k < 32
    ensures w / Pow2(31 - k) == 2 * (w / Pow2(32 - k)) + WordBit(w, k)
  {
    var n := Pow2(31 - k);
    var q := w / n;
    Remainder(w, n);
    Remainder(q, 2);
    var h := q / 2;
    assert Pow2(32 - k) == 2 * n;
    assert h * (2 * n) == (2 * h) * n;
    Distribute(2 * h, q - 2 * h, n);
    QuotientIs(w, 2 * n, h);
  }

  lemma {:induction false} EqualQuotients(a: u32, b: u32, k: nat)
    requires k <= 32
    ensures a / Pow2(32 - k) == b / Pow2(32 - k) <==> forall i :: 0 <= i < k ==> WordBit(a, i) == WordBit(b, i)
  {
    if k == 0 {
      TopOf32(a);
      TopOf32(b);
    } else {
      EqualQuotients(a, b, k - 1);
      NextBit(a, k - 1);
      NextBit(b, k - 1);
    }
  }

  /** Two words mask to the same value exactly when their first `k` bits agree. */
  lemma WordsShareMask(a: u32, b: u32, k: nat)
    requires k <= 32
    ensures MaskWord(a, k) == MaskWord(b, k) <==> forall i :: 0 <= i < k ==> WordBit(a, i) == WordBit(b, i)
  {
    EqualQuotients(a, b, k);
    if 0 < k < 32 {
      var n := Pow2(32 - k);
      var p, q := a / n, b / n;
      if p > q {
        AtLeastOne(p - q, n);
        Distribute(p, q, n);
      } else if p < q {
        AtLeastOne(q - p, n);
        Distribute(q, p, n);
      }
    }
  }

  function PrefixBits(family: Family, prefix4: nat, prefix6: nat): (p: nat)
    ensures p <= 128
  {
    if family == V4 then if prefix4 > 32 then 32 else prefix4
    else if prefix6 > 128 then 128 else prefix6
  }

  /** How many of the first `p` bits fall into word `k`. */
  function Share(p: nat, k: nat): (r: nat)
    ensures r <= 32
  {
    if p <= 32 * k then 0 else if p >= 32 * k + 32 then 32 else p - 32 * k
  }

  /** The bits of a prefix, word by word. */
  lemma BitsByWord(a: Addr, b: Addr, p: nat)
    requires p <= 128
    ensures (forall i :: 0 <= i < p ==> Bit(a, i) == Bit(b, i)) <==>
            forall k :: 0 <= k < 4 ==> forall i :: 0 <= i < Share(p, k) ==>
                WordBit(Word(a, k), i) == WordBit(Word(b, k), i)
  {
    if forall i :: 0 <= i < p ==> Bit(a, i) == Bit(b, i) {
      forall k, i | 0 <= k < 4 && 0 <= i < Share(p, k) ensures WordBit(Word(a, k), i) == WordBit(Word(b, k), i) {
        assert (32 * k + i) / 32 == k && (32 * k + i) % 32 == i;
        assert Bit(a, 32 * k + i) == Bit(b, 32 * k + i);
      }
    }
    if forall k :: 0 <= k < 4 ==> forall i :: 0 <= i < Share(p, k) ==>
        WordBit(Word(a, k), i) == WordBit(Word(b, k), i) {
      forall i | 0 <= i < p ensures Bit(a, i) == Bit(b, i) {
        assert 0 <= i % 32 < Share(p, i / 32);
      }
    }
  }

  lemma MaskByWord(a: Addr, family: Family, prefix4: nat, prefix6: nat, k: nat)
    requires k < 4
    ensures Word(MaskedSource(a, family, prefix4, prefix6), k) ==
            MaskWord(Word(a, k), Share(PrefixBits(family, prefix4, prefix6), k))
  {
  }

  /** Two sources share a limiter key exactly when the configured leading bits of their addresses agree. */
  lemma SharedPrefix(a: Addr, b: Addr, family: Family, prefix4: nat, prefix6: nat)
    ensures MaskedSource(a, family, prefix4, prefix6) == MaskedSource(b, family, prefix4, prefix6) <==>
            forall i :: 0 <= i < PrefixBits(family, prefix4, prefix6) ==> Bit(a, i) == Bit(b, i)
  {
    var p := PrefixBits(family, prefix4, prefix6);
    BitsByWord(a, b, p);
    var ma, mb := MaskedSource(a, family, prefix4, prefix6), MaskedSource(b, family, prefix4, prefix6);
    forall k | 0 <= k < 4
      ensures Word(ma, k) == Word(mb, k) <==> forall i :: 0 <= i < Share(p, k) ==>
              WordBit(Word(a, k), i) == WordBit(Word(b, k), i)
    {
      MaskByWord(a, family, prefix4, prefix6, k);
      MaskByWord(b, family, prefix4, prefix6, k);
      WordsShareMask(Word(a, k), Word(b, k), Share(p, k));
    }
    assert ma == mb <==>
           && Word(ma, 0) == Word(mb, 0) && Word(ma, 1) == Word(mb, 1)
           && Word(ma, 2) == Word(mb, 2) && Word(ma, 3) == Word(mb, 3);
  }
}
