/**
  What producers and reader are for: a record that fits is written and
  submitted, and a drain brings out everything before the position it aims at.
 */
module RingDelivery {
  import opened Words
  import opened RingMemory
  import opened RingBuffer
  import opened RingReader

  // ---------------------------------------------------------------- writing a record

  function Fills(i: nat, bytes: seq<u8>): (ops: seq<Op>)
  {
    if bytes == [] then [] else Fills(i, bytes[..|bytes| - 1]) + [Fill(i, |bytes| - 1, bytes[|bytes| - 1])]
  }

  /** Reserve, fill byte by byte, submit. */
  function WriteOps(i: nat, bytes: seq<u8>, pad: seq<u8>): (ops: seq<Op>)
  {
    [Reserve(|bytes|, pad)] + Fills(i, bytes) + [Submit(i)]
  }

  lemma WorkSnoc(r: Ring, ops: seq<Op>, op: Op)
    ensures Work(r, ops + [op]) == Produce(Work(r, ops), op)
  {
    assert (ops + [op])[..|ops|] == ops;
  }

  lemma WorkOne(r: Ring, op: Op)
    ensures Work(r, [op]) == Produce(r, op)
  {
    assert [op][..0] == [];
    assert Work(r, []) == r;
  }

  /** The last record is being written, its first bytes already those of `bytes`. */
  predicate Writing(r: Ring, before: seq<Record>, start: nat, bytes: seq<u8>, k: nat)
  {
    && k <= |bytes| && |r.recs| == |before| + 1 && r.recs[..|before|] == before
    && var rec := r.recs[|before|];
    && rec.start == start && rec.status == Busy && |rec.data| == |bytes| && rec.data[..k] == bytes[..k]
  }

  lemma {:induction false} Filled(r: Ring, before: seq<Record>, start: nat, bytes: seq<u8>, first: seq<Op>, k: nat)
    requires Writing(Work(r, first), before, start, bytes, 0) && k <= |bytes| < 0x4000_0000
    ensures Writing(Work(r, first + Fills(|before|, bytes[..k])), before, start, bytes, k)
  {
    if k == 0 {
      assert first + Fills(|before|, bytes[..0]) == first;
    } else {
      Filled(r, before, start, bytes, first, k - 1);
      var ops, op := first + Fills(|before|, bytes[..k - 1]), Fill(|before|, k - 1, bytes[k - 1]);
      assert bytes[..k][..k - 1] == bytes[..k - 1];
      assert first + Fills(|before|, bytes[..k]) == ops + [op];
      WorkSnoc(r, ops, op);
      FilledOne(Work(r, ops), before, start, bytes, k - 1);
    }
  }

  lemma FilledOne(r: Ring, before: seq<Record>, start: nat, bytes: seq<u8>, k: nat)
    requires Writing(r, before, start, bytes, k) && k < |bytes| < 0x4000_0000
    ensures Writing(Produce(r, Fill(|before|, k, bytes[k])), before, start, bytes, k + 1)
  {
    var rec := r.recs[|before|];
    assert rec.data[k := bytes[k]][..k + 1] == rec.data[..k] + [bytes[k]];
    assert bytes[..k + 1] == bytes[..k] + [bytes[k]];
  }

  /** A reservation is granted exactly when the record fits between producer and consumer. */
  lemma ReservedExactly(r: Ring, bytes: seq<u8>, pad: seq<u8>)
    requires |pad| == 4
    ensures var r' := Produce(r, Reserve(|bytes|, pad));
            if Fits(r, |bytes|) then Writing(r', r.recs, r.prod, bytes, 0) && r'.prod == r.prod + Size(|bytes|)
                else r' == r
  {
  }

  lemma {:induction false} FillsAbsent(r: Ring, first: seq<Op>, i: nat, bytes: seq<u8>)
    requires Work(r, first) == r && i >= |r.recs|
    ensures Work(r, first + Fills(i, bytes)) == r
  {
    if bytes == [] {
      assert first + Fills(i, bytes) == first;
    } else {
      var front, op := bytes[..|bytes| - 1], Fill(i, |bytes| - 1, bytes[|bytes| - 1]);
      FillsAbsent(r, first, i, front);
      assert first + Fills(i, bytes) == (first + Fills(i, front)) + [op];
      WorkSnoc(r, first + Fills(i, front), op);
    }
  }

  /** Settling changes the status of one outstanding record, and nothing else of the history. */
  lemma SettledExactly(r: Ring, i: nat)
    ensures Produce(r, Submit(i)).recs ==
            if Outstanding(r, i) then r.recs[i := r.recs[i].(status := Submitted)] else r.recs
    ensures Produce(r, Discard(i)).recs ==
            if Outstanding(r, i) then r.recs[i := r.recs[i].(status := Discarded)] else r.recs
  {
  }

  lemma Settled(r: Ring, before: seq<Record>, start: nat, bytes: seq<u8>)
    requires Writing(r, before, start, bytes, |bytes|) && |bytes| < 0x4000_0000
    ensures Produce(r, Submit(|before|)).recs == before + [Record(start, bytes, Submitted)]
  {
    var rec := r.recs[|before|];
    assert rec.data == rec.data[..|bytes|] && bytes == bytes[..|bytes|];
    assert r.recs == before + [rec];
  }

  /** Writing a record appends it, submitted and with exactly its bytes, if it fits, and otherwise changes nothing. */
  lemma WrittenExactly(r: Ring, bytes: seq<u8>, pad: seq<u8>)
    requires |pad| == 4
    ensures Work(r, WriteOps(|r.recs|, bytes, pad)).recs ==
            if |bytes| < 0x4000_0000 && r.prod + Size(|bytes|) <= r.cons + |r.mem|
            then r.recs + [Record(r.prod, bytes, Submitted)] else r.recs
  {
    var i, first := |r.recs|, [Reserve(|bytes|, pad)];
    WorkOne(r, Reserve(|bytes|, pad));
    ReservedExactly(r, bytes, pad);
    WorkSnoc(r, first + Fills(i, bytes), Submit(i));
    if Fits(r, |bytes|) {
      assert bytes[..|bytes|] == bytes;
      Filled(r, r.recs, r.prod, bytes, first, |bytes|);
      Settled(Work(r, first + Fills(i, bytes)), r.recs, r.prod, bytes);
    } else {
      FillsAbsent(r, first, i, bytes);
    }
  }

  // ---------------------------------------------------------------- reading everything

  /** No drain ends within `mid` after its first step. */
  ghost predicate Unended(mem: Memory, size: nat, before: seq<Action>, mid: seq<Action>)
  {
    forall j :: 0 < j <= |mid| ==> !Exec(mem, size, before + mid[..j]).phase.Idle?
  }

  /** A drain in progress aims at the producer position of the moment it began. */
  lemma {:induction false} AimsAt(mem: Memory, size: nat, before: seq<Action>, mid: seq<Action>)
    requires Exec(mem, size, before).phase.Idle? && mid != [] && mid[0] == Reader && Unended(mem, size, before, mid)
    ensures var s := Exec(mem, size, before + mid);
            !s.phase.Idle? && s.phase.ppos == Exec(mem, size, before).ring.prod
  {
    var front, a := mid[..|mid| - 1], mid[|mid| - 1];
    assert mid[..|mid|] == mid;
    assert (before + mid)[..|before + mid| - 1] == before + front && (before + mid)[|before + mid| - 1] == a;
    if front == [] {
      assert before + front == before;
    } else {
      assert forall j :: 0 < j <= |front| ==> front[..j] == mid[..j];
      AimsAt(mem, size, before, front);
    }
  }

  /**
    Under every interleaving, a drain that ends has reached the producer position
    of the moment it began, or stands before a record still being written.
   */
  lemma DrainReaches(mem: Memory, size: nat, before: seq<Action>, mid: seq<Action>)
    requires Exec(mem, size, before).phase.Idle? && mid != [] && mid[0] == Reader && Unended(mem, size, before, mid)
    requires Exec(mem, size, before + mid + [Reader]).phase.Idle?
    ensures var r := Exec(mem, size, before + mid + [Reader]).ring;
            r.cons == Exec(mem, size, before).ring.prod || (r.taken < |r.recs| && r.recs[r.taken].status == Busy)
  {
    AimsAt(mem, size, before, mid);
    var all := before + mid + [Reader];
    assert all[..|all| - 1] == before + mid;
    DrainEnds(mem, size, before + mid);
  }
}
