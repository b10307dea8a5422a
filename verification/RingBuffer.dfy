/**
  The kernel's ring buffer and the userspace reader that drains it.  Producers
  reserve, fill, and submit or discard records concurrently with the reader.
 */
module RingBuffer {
  import opened Words
  import opened RingMemory

  datatype Status = Busy | Submitted | Discarded

  /** A reservation: where it starts, the payload bytes now in its area, and what became of it. */
  datatype Record = Record(start: nat, data: seq<u8>, status: Status)

  /**
    The shared memory: data area, consumer and producer positions.  `recs` and
    `taken` are the history: every reservation ever made, in order, and how many
    of them the reader has stepped over.
   */
  datatype Ring = Ring(mem: Memory, cons: nat, prod: nat, recs: seq<Record>, taken: nat)

  /** Bytes a record of `n` payload bytes occupies: an 8-byte header and the payload in whole groups of 8. */
  function Size(n: nat): (r: nat)
    ensures 8 + n <= r
  {
    if n == 0 then 8 else if n <= 8 then 16 else 8 + Size(n - 8)
  }

  /** The reader's rounding agrees. */
  lemma {:induction false} SizeRounds(n: nat)
    ensures Size(n) == 8 + (n + 7) / 8 * 8
  {
    if n > 8 {
      SizeRounds(n - 8);
    }
  }

  function Finish(rec: Record): (r: nat) { rec.start + Size(|rec.data|) }

  function Position(r: Ring, k: nat): (p: nat)
    requires k <= |r.recs|
  {
    if k < |r.recs| then r.recs[k].start else r.prod
  }

  /** The header word: length, busy bit 31, discard bit 30. */
  function Header(n: nat, st: Status): (w: u32)
    requires n < 0x4000_0000
  {
    n + (match st case Busy => 0x8000_0000 case Discarded => 0x4000_0000 case Submitted => 0)
  }

  predicate BusyBit(hdr: u32) { hdr >= 0x8000_0000 }

  /** The word with bit 31 cleared. */
  function Unbusy(hdr: u32): (w: u32) { if BusyBit(hdr) then hdr - 0x8000_0000 else hdr }

  predicate DiscardBit(hdr: u32) { Unbusy(hdr) >= 0x4000_0000 }

  /** The word with bits 31 and 30 cleared. */
  function Length(hdr: u32): (n: nat) { if DiscardBit(hdr) then Unbusy(hdr) - 0x4000_0000 else Unbusy(hdr) }

  lemma HeaderBits(n: nat, st: Status)
    requires n < 0x4000_0000
    ensures BusyBit(Header(n, st)) <==> st == Busy
    ensures DiscardBit(Header(n, st)) <==> st == Discarded
    ensures Length(Header(n, st)) == n
  {
  }

  lemma HeaderRoundTrip(n: nat, st: Status)
    requires n < 0x4000_0000
    ensures FromLe(ToLe(Header(n, st), 4)) == Header(n, st)
  {
    assert Span(4) == 0x1_0000_0000;
    LeRoundTrip(Header(n, st), 4);
  }

  // ---------------------------------------------------------------- the producers

  datatype Op =
    | Reserve(len: nat, pad: seq<u8>)
    | Fill(i: nat, k: nat, byte: u8)
    | Submit(i: nat)
    | Discard(i: nat)

  predicate Outstanding(r: Ring, i: nat) { i < |r.recs| && r.recs[i].status == Busy && |r.recs[i].data| < 0x4000_0000 }

  predicate Fits(r: Ring, len: nat) { len < 0x4000_0000 && r.prod + Size(len) <= r.cons + |r.mem| }

  /** One producer step; steps that are not possible change nothing. */
  function Produce(r: Ring, op: Op): (r': Ring)
    ensures |r'.mem| == |r.mem| && r'.cons == r.cons && r'.taken == r.taken
  {
    match op
    case Reserve(len, pad) => if |pad| == 4 && Fits(r, len) then Open(r, len, ToLe(Header(len, Busy), 4) + pad) else r
    case Fill(i, k, byte) => if Outstanding(r, i) && k < |r.recs[i].data| then Put(r, i, k, byte) else r
    case Submit(i) =>
      if Outstanding(r, i) then Settle(r, i, Submitted, ToLe(Header(|r.recs[i].data|, Submitted), 4)) else r
    case Discard(i) =>
      if Outstanding(r, i) then Settle(r, i, Discarded, ToLe(Header(|r.recs[i].data|, Discarded), 4)) else r
  }

  function Append(r: Ring, mem: Memory, rec: Record): (r': Ring)
  {
    r.(mem := mem, prod := Finish(rec), recs := r.recs + [rec])
  }

  function Replace(r: Ring, mem: Memory, i: nat, rec: Record): (r': Ring)
    requires i < |r.recs|
  {
    r.(mem := mem, recs := r.recs[i := rec])
  }

  /** Claim space for a record and write its header. */
  function Open(r: Ring, len: nat, head: seq<u8>): (r': Ring)
    ensures |r'.mem| == |r.mem| && r'.cons == r.cons && r'.taken == r.taken
  {
    var mem := Overwrite(r.mem, r.prod, head);
    Append(r, mem, Record(r.prod, Slice(mem, r.prod + 8, len), Busy))
  }

  /** Write one payload byte. */
  function Put(r: Ring, i: nat, k: nat, byte: u8): (r': Ring)
    requires Outstanding(r, i) && k < |r.recs[i].data|
    ensures |r'.mem| == |r.mem| && r'.cons == r.cons && r'.taken == r.taken
  {
    var rec := r.recs[i];
    Replace(r, Overwrite(r.mem, rec.start + 8 + k, [byte]), i, rec.(data := rec.data[k := byte]))
  }

  /** Rewrite the header of an outstanding record. */
  function Settle(r: Ring, i: nat, st: Status, head: seq<u8>): (r': Ring)
    requires Outstanding(r, i)
    ensures |r'.mem| == |r.mem| && r'.cons == r.cons && r'.taken == r.taken
  {
    var rec := r.recs[i];
    Replace(r, Overwrite(r.mem, rec.start, head), i, rec.(status := st))
  }

  function Work(r: Ring, ops: seq<Op>): (r': Ring)
    ensures |r'.mem| == |r.mem|
  {
    if ops == [] then r else Produce(Work(r, ops[..|ops| - 1]), ops[|ops| - 1])
  }

  // ---------------------------------------------------------------- what producers keep

  /** The area holds the record's header and payload. */
  predicate Stored(mem: Memory, rec: Record)
  {
    && |rec.data| < 0x4000_0000
    && LeAt(mem, rec.start, 4) == Header(|rec.data|, rec.status)
    && Slice(mem, rec.start + 8, |rec.data|) == rec.data
  }

  /** Records follow one another without a gap, from 0 to `end`. */
  predicate Gapless(recs: seq<Record>, end: nat)
  {
    if recs == [] then end == 0
    else
      var last := recs[|recs| - 1];
      Finish(last) == end && Gapless(recs[..|recs| - 1], last.start)
  }

  ghost predicate Ordered(recs: seq<Record>, end: nat)
  {
    && (forall i {:trigger Finish(recs[i])} :: 0 <= i < |recs| ==> Finish(recs[i]) <= end)
    && (forall i, j {:trigger Finish(recs[i]), Finish(recs[j])} :: 0 <= i < j < |recs| ==>
        Finish(recs[i]) <= recs[j].start)
  }

  lemma {:induction false} GaplessOrdered(recs: seq<Record>, end: nat)
    requires Gapless(recs, end)
    ensures Ordered(recs, end)
  {
    if recs != [] {
      var front, last := recs[..|recs| - 1], recs[|recs| - 1];
      GaplessOrdered(front, last.start);
      forall i, j | 0 <= i < j < |recs| ensures Finish(recs[i]) <= recs[j].start {
        assert Finish(front[i]) <= last.start;
        assert j < |front| ==> Finish(front[j]) <= last.start;
      }
      forall i | 0 <= i < |recs| ensures Finish(recs[i]) <= end {
        assert i < |front| ==> Finish(front[i]) <= last.start;
      }
    }
  }

  lemma {:induction false} NextStart(recs: seq<Record>, end: nat, k: nat)
    requires Gapless(recs, end) && k < |recs|
    ensures Finish(recs[k]) == if k + 1 < |recs| then recs[k + 1].start else end
  {
    if k + 1 < |recs| {
      NextStart(recs[..|recs| - 1], recs[|recs| - 1].start, k);
    }
  }

  lemma {:induction false} FirstStart(recs: seq<Record>, end: nat)
    requires Gapless(recs, end)
    ensures recs == [] || recs[0].start == 0
  {
    if |recs| > 1 {
      FirstStart(recs[..|recs| - 1], recs[|recs| - 1].start);
    }
  }

  /** Only places and lengths matter. */
  lemma {:induction false} GaplessAfter(recs: seq<Record>, end: nat, i: nat, rec: Record)
    requires Gapless(recs, end) && i < |recs| && rec.start == recs[i].start && |rec.data| == |recs[i].data|
    ensures Gapless(recs[i := rec], end)
  {
    var n := |recs| - 1;
    if i < n {
      GaplessAfter(recs[..n], recs[n].start, i, rec);
      assert recs[i := rec][..n] == recs[..n][i := rec];
    } else {
      assert recs[i := rec][..n] == recs[..n];
    }
  }

  /** Positions and history, apart from the bytes. */
  ghost predicate Shaped(r: Ring)
  {
    && Gapless(r.recs, r.prod) && Ordered(r.recs, r.prod)
    && r.taken <= |r.recs| && r.cons == Position(r, r.taken)
    && r.prod <= r.cons + |r.mem|
    && (forall i :: 0 <= i < r.taken ==> r.recs[i].status != Busy)
  }

  /** The area holds every record not yet stepped over. */
  ghost predicate Held(mem: Memory, recs: seq<Record>, from: nat)
  {
    forall i {:trigger Stored(mem, recs[i])} :: from <= i < |recs| ==> Stored(mem, recs[i])
  }

  ghost predicate Valid(r: Ring) { Shaped(r) && Held(r.mem, r.recs, r.taken) }

  /**
    How producers may change what the reader has seen: records appear at the
    end, and settled ones stay as they are.
   */
  ghost predicate Grows(r: Ring, r': Ring)
  {
    && |r.recs| <= |r'.recs| && r.prod <= r'.prod && r.cons == r'.cons && r.taken == r'.taken && |r.mem| == |r'.mem|
    && (forall k :: 0 <= k <= |r.recs| ==> Position(r, k) == Position(r', k))
    && (forall i :: 0 <= i < |r.recs| && r.recs[i].status != Busy ==> r'.recs[i] == r.recs[i])
  }

  lemma InWindow(r: Ring, i: nat)
    requires Shaped(r) && r.taken <= i < |r.recs|
    ensures r.cons <= r.recs[i].start && Finish(r.recs[i]) <= r.prod <= r.cons + |r.mem|
  {
    assert Finish(r.recs[i]) <= r.prod;
    if r.taken < i {
      assert Finish(r.recs[r.taken]) <= r.recs[i].start;
    }
  }

  /** A write outside a record's area, less than a lap away, leaves it as stored. */
  lemma StoredAfter(mem: Memory, p: nat, bytes: seq<u8>, rec: Record)
    requires Stored(mem, rec)
    requires (Finish(rec) <= p && p + |bytes| <= rec.start + |mem|)
            || (p + |bytes| <= rec.start && Finish(rec) <= p + |mem|)
    ensures Stored(Overwrite(mem, p, bytes), rec)
  {
    WordUntouched(mem, p, bytes, rec.start, 4);
    Untouched(mem, p, bytes, rec.start + 8, |rec.data|);
  }

  /** A new record at the producer position. */
  lemma Appended(r: Ring, mem: Memory, rec: Record)
    requires Shaped(r) && |mem| == |r.mem| && rec.start == r.prod && Finish(rec) <= r.cons + |r.mem|
    requires Held(mem, r.recs, r.taken) && Stored(mem, rec)
    ensures Valid(Append(r, mem, rec)) && Grows(r, Append(r, mem, rec))
  {
    var r' := Append(r, mem, rec);
    assert r'.recs[..|r.recs|] == r.recs;
    assert Gapless(r'.recs, r'.prod);
    GaplessOrdered(r'.recs, r'.prod);
    assert Held(mem, r'.recs, r.taken);
    assert Shaped(r');
  }

  /** An outstanding record replaced by one of the same place and length. */
  lemma Replaced(r: Ring, mem: Memory, i: nat, rec: Record)
    requires Shaped(r) && |mem| == |r.mem| && Outstanding(r, i)
    requires rec.start == r.recs[i].start && |rec.data| == |r.recs[i].data|
    requires Held(mem, r.recs[i := rec], r.taken)
    ensures Valid(Replace(r, mem, i, rec)) && Grows(r, Replace(r, mem, i, rec))
  {
    var r' := Replace(r, mem, i, rec);
    GaplessAfter(r.recs, r.prod, i, rec);
    GaplessOrdered(r'.recs, r'.prod);
  }

  lemma OpenStored(mem: Memory, p: nat, len: nat, head: seq<u8>)
    requires len < 0x4000_0000 && |head| == 8 && FromLe(head[..4]) == Header(len, Busy) && Size(len) <= |mem|
    ensures Stored(Overwrite(mem, p, head), Record(p, Slice(Overwrite(mem, p, head), p + 8, len), Busy))
  {
    WordWritten(mem, p, head, 4);
  }

  /** Writing at the producer position leaves what is held. */
  lemma OpenHeld(r: Ring, head: seq<u8>)
    requires Valid(r) && r.prod + |head| <= r.cons + |r.mem|
    ensures Held(Overwrite(r.mem, r.prod, head), r.recs, r.taken)
  {
    forall j | r.taken <= j < |r.recs| ensures Stored(Overwrite(r.mem, r.prod, head), r.recs[j]) {
      InWindow(r, j);
      StoredAfter(r.mem, r.prod, head, r.recs[j]);
    }
  }

  lemma OpenKeeps(r: Ring, len: nat, head: seq<u8>)
    requires Valid(r) && Fits(r, len) && |head| == 8 && FromLe(head[..4]) == Header(len, Busy)
    ensures Valid(Open(r, len, head)) && Grows(r, Open(r, len, head))
  {
    var mem := Overwrite(r.mem, r.prod, head);
    var rec := Record(r.prod, Slice(mem, r.prod + 8, len), Busy);
    assert Open(r, len, head) == Append(r, mem, rec);
    if r.taken < |r.recs| {
      InWindow(r, r.taken);
    }
    assert rec.start == r.prod && Finish(rec) == r.prod + Size(len);
    OpenStored(r.mem, r.prod, len, head);
    OpenHeld(r, head);
    Appended(r, mem, rec);
  }

  /** Writing inside one outstanding record's area leaves the others as stored. */
  lemma ReplaceHeld(r: Ring, i: nat, p: nat, bytes: seq<u8>, rec: Record)
    requires Valid(r) && Outstanding(r, i)
    requires r.recs[i].start <= p && p + |bytes| <= Finish(r.recs[i])
    requires Stored(Overwrite(r.mem, p, bytes), rec)
    ensures Held(Overwrite(r.mem, p, bytes), r.recs[i := rec], r.taken)
  {
    InWindow(r, i);
    forall j | r.taken <= j < |r.recs| && j != i ensures Stored(Overwrite(r.mem, p, bytes), r.recs[j]) {
      InWindow(r, j);
      StoredAfter(r.mem, p, bytes, r.recs[j]);
    }
  }

  lemma ByteWritten(mem: Memory, p: nat, data: seq<u8>, k: nat, byte: u8)
    requires Slice(mem, p, |data|) == data && k < |data| <= |mem|
    ensures Slice(Overwrite(mem, p + k, [byte]), p, |data|) == data[k := byte]
  {
    var mem', wanted := Overwrite(mem, p + k, [byte]), data[k := byte];
    forall j | 0 <= j < |data| ensures Slice(mem', p, |data|)[j] == wanted[j] {
      ByteAfter(mem, p + k, [byte], p + j);
      SliceAt(mem, p, |data|, j);
      SliceAt(mem', p, |data|, j);
    }
  }

  lemma FillStored(mem: Memory, rec: Record, k: nat, byte: u8)
    requires Stored(mem, rec) && k < |rec.data| && Size(|rec.data|) <= |mem|
    ensures Stored(Overwrite(mem, rec.start + 8 + k, [byte]), rec.(data := rec.data[k := byte]))
  {
    WordUntouched(mem, rec.start + 8 + k, [byte], rec.start, 4);
    ByteWritten(mem, rec.start + 8, rec.data, k, byte);
  }

  lemma PutKeeps(r: Ring, i: nat, k: nat, byte: u8)
    requires Valid(r) && Outstanding(r, i) && k < |r.recs[i].data|
    ensures Valid(Put(r, i, k, byte)) && Grows(r, Put(r, i, k, byte))
  {
    var rec := r.recs[i];
    var rec' := rec.(data := rec.data[k := byte]);
    var p := rec.start + 8 + k;
    var mem := Overwrite(r.mem, p, [byte]);
    assert Put(r, i, k, byte) == Replace(r, mem, i, rec');
    InWindow(r, i);
    FillStored(r.mem, rec, k, byte);
    ReplaceHeld(r, i, p, [byte], rec');
    Replaced(r, mem, i, rec');
  }

  lemma SettleStored(mem: Memory, rec: Record, st: Status, head: seq<u8>)
    requires |rec.data| < 0x4000_0000 && Slice(mem, rec.start + 8, |rec.data|) == rec.data && 8 + |rec.data| <= |mem|
    requires |head| == 4 && FromLe(head) == Header(|rec.data|, st)
    ensures Stored(Overwrite(mem, rec.start, head), rec.(status := st))
  {
    HeadWritten(mem, rec.start, head, |rec.data|, Header(|rec.data|, st));
  }

  /** Writing a header word leaves the payload after it. */
  lemma HeadWritten(mem: Memory, p: nat, head: seq<u8>, n: nat, word: nat)
    requires |head| == 4 && 8 + n <= |mem| && FromLe(head) == word
    ensures LeAt(Overwrite(mem, p, head), p, 4) == word
    ensures Slice(Overwrite(mem, p, head), p + 8, n) == Slice(mem, p + 8, n)
  {
    WordWritten(mem, p, head, 4);
    assert head[..4] == head;
    Untouched(mem, p, head, p + 8, n);
  }

  lemma SettleKeeps(r: Ring, i: nat, st: Status, head: seq<u8>)
    requires Valid(r) && Outstanding(r, i) && |head| == 4 && FromLe(head) == Header(|r.recs[i].data|, st)
    ensures Valid(Settle(r, i, st, head)) && Grows(r, Settle(r, i, st, head))
  {
    var rec := r.recs[i];
    var mem := Overwrite(r.mem, rec.start, head);
    assert Settle(r, i, st, head) == Replace(r, mem, i, rec.(status := st));
    InWindow(r, i);
    assert Stored(r.mem, rec);
    SettleStored(r.mem, rec, st, head);
    ReplaceHeld(r, i, rec.start, head, rec.(status := st));
    Replaced(r, mem, i, rec.(status := st));
  }

  lemma ProduceKeeps(r: Ring, op: Op)
    requires Valid(r)
    ensures Valid(Produce(r, op)) && Grows(r, Produce(r, op))
  {
    match op
    case Reserve(len, pad) =>
      if |pad| == 4 && Fits(r, len) {
        var word := ToLe(Header(len, Busy), 4);
        HeaderRoundTrip(len, Busy);
        assert (word + pad)[..4] == word;
        OpenKeeps(r, len, word + pad);
      }
    case Fill(i, k, byte) => if Outstanding(r, i) && k < |r.recs[i].data| { PutKeeps(r, i, k, byte); }
    case Submit(i) => if Outstanding(r, i) { SettledKeeps(r, i, Submitted); }
    case Discard(i) => if Outstanding(r, i) { SettledKeeps(r, i, Discarded); }
  }

  lemma SettledKeeps(r: Ring, i: nat, st: Status)
    requires Valid(r) && Outstanding(r, i)
    ensures var r' := Settle(r, i, st, ToLe(Header(|r.recs[i].data|, st), 4)); Valid(r') && Grows(r, r')
  {
    HeaderRoundTrip(|r.recs[i].data|, st);
    SettleKeeps(r, i, st, ToLe(Header(|r.recs[i].data|, st), 4));
  }

  lemma GrowsOn(a: Ring, b: Ring, c: Ring)
    requires Grows(a, b) && Grows(b, c)
    ensures Grows(a, c)
  {
  }

  lemma {:induction false} WorkKeeps(r: Ring, ops: seq<Op>)
    requires Valid(r)
    ensures Valid(Work(r, ops)) && Grows(r, Work(r, ops))
  {
    if ops != [] {
      var before := ops[..|ops| - 1];
      WorkKeeps(r, before);
      ProduceKeeps(Work(r, before), ops[|ops| - 1]);
      GrowsOn(r, Work(r, before), Work(r, ops));
    }
  }
}
