/** The userspace reader of the ring buffer: what its drains yield under every interleaving with the producers. */
module RingReader {
  import opened Words
  import opened RingMemory
  import opened RingBuffer

  /** The payloads of submitted records of the expected size, in reservation order. */
  function Delivered(recs: seq<Record>, size: nat): (out: seq<seq<u8>>)
  {
    if recs == [] then []
    else
      var rec := recs[|recs| - 1];
      Delivered(recs[..|recs| - 1], size) + (if rec.status == Submitted && |rec.data| == size then [rec.data] else [])
  }

  lemma {:induction false} DeliveredSplit(a: seq<Record>, b: seq<Record>, size: nat)
    ensures Delivered(a + b, size) == Delivered(a, size) + Delivered(b, size)
  {
    if b == [] {
      assert a + b == a;
    } else {
      var n := |b| - 1;
      DeliveredSplit(a, b[..n], size);
      assert (a + b)[..|a + b| - 1] == a + b[..n];
    }
  }

  /** The header word a reader at position `p` sees through the double mapping. */
  function HeaderAt(mem: Memory, p: nat): (hdr: u32)
  {
    LeAtBound(mem, p, 4);
    assert Span(4) == 0x1_0000_0000;
    LeAt(mem, p, 4)
  }

  /** What an iteration yields for the record at `p`, going by its header. */
  function Wanted(mem: Memory, p: nat, hdr: u32, size: nat): (more: seq<seq<u8>>)
  {
    if !DiscardBit(hdr) && Length(hdr) == size then [Slice(mem, p + 8, Length(hdr))] else []
  }

  /** What the reader learns of the next record from its header. */
  lemma HeaderSeen(r: Ring)
    requires Valid(r) && r.taken < |r.recs|
    ensures var rec, hdr := r.recs[r.taken], HeaderAt(r.mem, r.cons);
            && (BusyBit(hdr) <==> rec.status == Busy)
            && (DiscardBit(hdr) <==> rec.status == Discarded)
            && Length(hdr) == |rec.data|
    ensures Slice(r.mem, r.cons + 8, |r.recs[r.taken].data|) == r.recs[r.taken].data
    ensures Size(|r.recs[r.taken].data|) <= |r.mem|
  {
    var rec := r.recs[r.taken];
    assert Stored(r.mem, rec);
    HeaderBits(|rec.data|, rec.status);
    InWindow(r, r.taken);
  }

  /** Stepping over the next record, once it is settled. */
  function Skip(r: Ring, to: nat): (r': Ring) { r.(cons := to, taken := r.taken + 1) }

  lemma SkipKeeps(r: Ring)
    requires Valid(r) && r.taken < |r.recs| && r.recs[r.taken].status != Busy
    ensures var to := r.cons + Size(|r.recs[r.taken].data|);
            Valid(Skip(r, to)) && r.cons < to <= r.prod && to == Position(r, r.taken + 1)
  {
    InWindow(r, r.taken);
    NextStart(r.recs, r.prod, r.taken);
  }

  // ---------------------------------------------------------------- every interleaving

  /** Where a drain stands: between drains, at the loop head, after reading a header, after yielding. */
  datatype Phase =
    | Idle
    | Looping(ppos: nat)
    | HasHeader(ppos: nat, hdr: u32)
    | HasYielded(ppos: nat, hdr: u32)

  datatype System = System(ring: Ring, phase: Phase, out: seq<seq<u8>>)

  datatype Action = Producer(op: Op) | Reader

  /** One step of `drain`; starting a drain is a step as well. */
  function ReaderStep(s: System, size: nat): (s': System)
  {
    match s.phase
    case Idle => s.(phase := Looping(s.ring.prod))
    case Looping(ppos) =>
      if s.ring.cons == ppos then s.(phase := Idle)
      else
        var hdr := HeaderAt(s.ring.mem, s.ring.cons);
        if BusyBit(hdr) then s.(phase := Idle) else s.(phase := HasHeader(ppos, hdr))
    case HasHeader(ppos, hdr) =>
      s.(phase := HasYielded(ppos, hdr), out := s.out + Wanted(s.ring.mem, s.ring.cons, hdr, size))
    case HasYielded(ppos, hdr) =>
      s.(phase := Looping(ppos), ring := Skip(s.ring, s.ring.cons + Size(Length(hdr))))
  }

  function Next(s: System, size: nat, a: Action): (s': System)
  {
    if a.Producer? then s.(ring := Produce(s.ring, a.op)) else ReaderStep(s, size)
  }

  function Start(mem: Memory): (s: System) { System(Ring(mem, 0, 0, [], 0), Idle, []) }

  function Exec(mem: Memory, size: nat, acts: seq<Action>): (s: System)
  {
    if acts == [] then Start(mem) else Next(Exec(mem, size, acts[..|acts| - 1]), size, acts[|acts| - 1])
  }

  /** The snapshot of the producer position taken at the start of a drain is a record boundary not yet passed. */
  ghost predicate Ahead(r: Ring, ppos: nat)
  {
    exists k :: r.taken <= k <= |r.recs| && ppos == Position(r, k)
  }

  /** A header read earlier still describes the next record, because settled records do not change. */
  ghost predicate Described(r: Ring, ppos: nat, hdr: u32)
  {
    && r.taken < |r.recs| && r.cons < ppos
    && r.recs[r.taken].status != Busy
    && (DiscardBit(hdr) <==> r.recs[r.taken].status == Discarded)
    && Length(hdr) == |r.recs[r.taken].data|
  }

  /** The records whose output has been yielded. */
  function Yielded(s: System): (recs: seq<Record>)
  {
    var n := s.ring.taken + (if s.phase.HasYielded? then 1 else 0);
    if n <= |s.ring.recs| then s.ring.recs[..n] else []
  }

  ghost predicate PhaseOk(r: Ring, ph: Phase)
  {
    match ph
    case Idle => true
    case Looping(ppos) => Ahead(r, ppos)
    case HasHeader(ppos, hdr) => Ahead(r, ppos) && Described(r, ppos, hdr)
    case HasYielded(ppos, hdr) => Ahead(r, ppos) && Described(r, ppos, hdr)
  }

  ghost predicate Inv(s: System, size: nat)
  {
    Valid(s.ring) && PhaseOk(s.ring, s.phase) && s.out == Delivered(Yielded(s), size)
  }

  lemma AheadGrows(r: Ring, r': Ring, ppos: nat)
    requires Ahead(r, ppos) && Grows(r, r')
    ensures Ahead(r', ppos)
  {
  }

  lemma GrowthKeeps(s: System, size: nat, r': Ring)
    requires Inv(s, size) && Valid(r') && Grows(s.ring, r')
    ensures Inv(s.(ring := r'), size)
  {
    if !s.phase.Idle? {
      AheadGrows(s.ring, r', s.phase.ppos);
    }
    SettledPrefix(s.ring, r', |Yielded(s)|);
    assert Yielded(s.(ring := r')) == Yielded(s);
  }

  /** What has been stepped over stays as it was. */
  lemma SettledPrefix(r: Ring, r': Ring, n: nat)
    requires Grows(r, r') && n <= |r.recs| && forall i :: 0 <= i < n ==> r.recs[i].status != Busy
    ensures r'.recs[..n] == r.recs[..n]
  {
  }

  /** Not at the snapshot means another record lies before it. */
  lemma MoreToRead(r: Ring, ppos: nat)
    requires Valid(r) && Ahead(r, ppos)
    ensures r.cons <= ppos <= r.prod && (r.cons != ppos ==> r.taken < |r.recs| && Position(r, r.taken + 1) <= ppos)
  {
    var k :| r.taken <= k <= |r.recs| && ppos == Position(r, k);
    if r.taken < |r.recs| {
      InWindow(r, r.taken);
      NextStart(r.recs, r.prod, r.taken);
    }
    if r.taken < k < |r.recs| {
      InWindow(r, k);
      assert Finish(r.recs[r.taken]) <= r.recs[k].start;
    }
  }

  lemma AheadSkipped(r: Ring, to: nat, ppos: nat)
    requires Valid(r) && Ahead(r, ppos) && r.cons < ppos && r.taken < |r.recs|
    ensures Ahead(Skip(r, to), ppos)
  {
    var k :| r.taken <= k <= |r.recs| && ppos == Position(r, k);
    assert k != r.taken;
    assert Position(Skip(r, to), k) == ppos;
  }

  lemma LoopHeadKeeps(s: System, size: nat)
    requires Inv(s, size) && s.phase.Looping?
    ensures Inv(ReaderStep(s, size), size)
  {
    if s.ring.cons != s.phase.ppos {
      MoreToRead(s.ring, s.phase.ppos);
      HeaderSeen(s.ring);
    }
  }

  /** What the reader yields for the next record. */
  lemma YieldedBytes(r: Ring, ppos: nat, hdr: u32, size: nat)
    requires Valid(r) && Described(r, ppos, hdr)
    ensures Wanted(r.mem, r.cons, hdr, size)
         == (if r.recs[r.taken].status == Submitted && |r.recs[r.taken].data| == size then [r.recs[r.taken].data]
             else [])
  {
    HeaderSeen(r);
  }

  lemma YieldKeeps(s: System, size: nat)
    requires Inv(s, size) && s.phase.HasHeader?
    ensures Inv(ReaderStep(s, size), size)
  {
    var s' := ReaderStep(s, size);
    assert s'.ring == s.ring && PhaseOk(s.ring, s'.phase);
    YieldedBytes(s.ring, s.phase.ppos, s.phase.hdr, size);
    OutputGrows(s.ring.recs, 0, s.ring.taken, size);
    assert Yielded(s) == s.ring.recs[..s.ring.taken] && Yielded(s') == s.ring.recs[..s.ring.taken + 1];
  }

  lemma AdvanceKeeps(s: System, size: nat)
    requires Inv(s, size) && s.phase.HasYielded?
    ensures Inv(ReaderStep(s, size), size)
  {
    SkipKeeps(s.ring);
    AheadSkipped(s.ring, s.ring.cons + Size(Length(s.phase.hdr)), s.phase.ppos);
  }

  lemma NextKeeps(s: System, size: nat, a: Action)
    requires Inv(s, size)
    ensures Inv(Next(s, size, a), size)
  {
    if a.Producer? {
      ProduceKeeps(s.ring, a.op);
      GrowthKeeps(s, size, Produce(s.ring, a.op));
    } else {
      match s.phase
      case Idle => assert Position(s.ring, |s.ring.recs|) == s.ring.prod;
      case Looping(_) => LoopHeadKeeps(s, size);
      case HasHeader(_, _) => YieldKeeps(s, size);
      case HasYielded(_, _) => AdvanceKeeps(s, size);
    }
  }

  lemma {:induction false} EveryRun(mem: Memory, size: nat, acts: seq<Action>)
    ensures Inv(Exec(mem, size, acts), size)
  {
    if acts != [] {
      EveryRun(mem, size, acts[..|acts| - 1]);
      NextKeeps(Exec(mem, size, acts[..|acts| - 1]), size, acts[|acts| - 1]);
    }
  }

  /**
    Exactly once, under every interleaving: between iterations the concatenated
    output of all drains is the submitted records of the expected size before the
    consumer position, in reservation order; that position is a record boundary,
    never passes the producer, and every record before it is settled.
   */
  lemma ExactlyOnce(mem: Memory, size: nat, acts: seq<Action>)
    ensures var s := Exec(mem, size, acts);
            && s.ring.taken <= |s.ring.recs|
            && s.ring.cons == Position(s.ring, s.ring.taken) <= s.ring.prod
            && (forall i :: 0 <= i < s.ring.taken ==> s.ring.recs[i].status != Busy)
            && (!s.phase.HasYielded? ==> s.out == Delivered(s.ring.recs[..s.ring.taken], size))
  {
    EveryRun(mem, size, acts);
    var r := Exec(mem, size, acts).ring;
    if r.taken < |r.recs| {
      InWindow(r, r.taken);
    }
  }

  /** A drain ends only at the producer position it saw, or in front of a record still being written. */
  lemma DrainEnds(mem: Memory, size: nat, acts: seq<Action>)
    requires var s := Exec(mem, size, acts); s.phase.Looping? && ReaderStep(s, size).phase.Idle?
    ensures var s := Exec(mem, size, acts);
            s.ring.cons == s.phase.ppos || (s.ring.taken < |s.ring.recs| && s.ring.recs[s.ring.taken].status == Busy)
  {
    EveryRun(mem, size, acts);
    var s := Exec(mem, size, acts);
    if s.ring.cons != s.phase.ppos {
      MoreToRead(s.ring, s.phase.ppos);
      HeaderSeen(s.ring);
    }
  }

  /** Steps a drain in progress can still take at most. */
  function Remaining(s: System): (n: int)
  {
    match s.phase
    case Idle => 0
    case Looping(ppos) => 3 * (ppos - s.ring.cons) + 1
    case HasHeader(ppos, _) => 3 * (ppos - s.ring.cons)
    case HasYielded(ppos, _) => 3 * (ppos - s.ring.cons) - 1
  }

  /** Every drain terminates: each reader step uses up some of a bound that producers cannot extend. */
  lemma DrainTerminates(mem: Memory, size: nat, acts: seq<Action>, op: Op)
    requires !Exec(mem, size, acts).phase.Idle?
    ensures var s := Exec(mem, size, acts);
            && 0 < Remaining(s)
            && Remaining(ReaderStep(s, size)) < Remaining(s)
            && Remaining(Next(s, size, Producer(op))) == Remaining(s)
  {
    EveryRun(mem, size, acts);
    var s := Exec(mem, size, acts);
    MoreToRead(s.ring, s.phase.ppos);
  }

  // ---------------------------------------------------------------- the reader's own form

  /**
    Where a drain stands between two iterations: from which record it began,
    what it has yielded, where it must stop.
   */
  ghost predicate Midway(r: Ring, from: nat, ppos: nat, out: seq<seq<u8>>, size: nat)
  {
    Valid(r) && Ahead(r, ppos) && from <= r.taken && out == Delivered(r.recs[from..r.taken], size)
  }

  lemma MidwayGrows(r: Ring, from: nat, ppos: nat, out: seq<seq<u8>>, size: nat, ops: seq<Op>)
    requires Midway(r, from, ppos, out, size)
    ensures Midway(Work(r, ops), from, ppos, out, size) && Grows(r, Work(r, ops))
  {
    var r' := Work(r, ops);
    WorkKeeps(r, ops);
    AheadGrows(r, r', ppos);
    SettledPrefix(r, r', r.taken);
    assert r'.recs[from..r.taken] == r'.recs[..r.taken][from..];
    assert r.recs[from..r.taken] == r.recs[..r.taken][from..];
  }

  lemma StillDescribed(r: Ring, from: nat, ppos: nat, out: seq<seq<u8>>, size: nat, hdr: u32, ops: seq<Op>)
    requires Midway(r, from, ppos, out, size) && Described(r, ppos, hdr)
    ensures Midway(Work(r, ops), from, ppos, out, size) && Described(Work(r, ops), ppos, hdr) && Grows(r, Work(r, ops))
  {
    MidwayGrows(r, from, ppos, out, size, ops);
  }

  lemma Extent(r: Ring, ppos: nat, hdr: u32)
    requires Valid(r) && Described(r, ppos, hdr)
    ensures 8 + (Length(hdr) + 7) / 8 * 8 == Size(Length(hdr)) && 8 + Length(hdr) <= |r.mem|
  {
    SizeRounds(Length(hdr));
    InWindow(r, r.taken);
  }

  lemma SkipAhead(r: Ring, ppos: nat, hdr: u32)
    requires Valid(r) && Ahead(r, ppos) && Described(r, ppos, hdr)
    ensures var to := r.cons + Size(Length(hdr)); r.cons < to <= ppos && Valid(Skip(r, to)) && Ahead(Skip(r, to), ppos)
  {
    SkipKeeps(r);
    MoreToRead(r, ppos);
    AheadSkipped(r, r.cons + Size(Length(hdr)), ppos);
  }

  lemma OutputGrows(recs: seq<Record>, from: nat, k: nat, size: nat)
    requires from <= k < |recs|
    ensures Delivered(recs[from..k + 1], size) ==
            Delivered(recs[from..k], size) +
            (if recs[k].status == Submitted && |recs[k].data| == size then [recs[k].data] else [])
  {
    assert recs[from..k + 1][..k - from] == recs[from..k];
  }

  lemma MidwaySkip(r: Ring, from: nat, ppos: nat, out: seq<seq<u8>>, size: nat, hdr: u32, to: nat, more: seq<seq<u8>>)
    requires Midway(r, from, ppos, out, size) && Described(r, ppos, hdr)
    requires to == r.cons + Size(Length(hdr)) && more == Wanted(r.mem, r.cons, hdr, size)
    ensures r.cons < to <= ppos && Midway(Skip(r, to), from, ppos, out + more, size)
  {
    SkipAhead(r, ppos, hdr);
    YieldedBytes(r, ppos, hdr, size);
    OutputGrows(r.recs, from, r.taken, size);
  }

  /** The history only grows, and what was settled stays. */
  ghost predicate Continues(recs: seq<Record>, recs': seq<Record>)
  {
    |recs| <= |recs'| && forall i :: 0 <= i < |recs| && recs[i].status != Busy ==> recs'[i] == recs[i]
  }

  /** `RingBufReader`; `ring` is memory shared with the kernel. */
  class Consumer {
    var ring: Ring

    constructor (mem: Memory)
      ensures ring == Start(mem).ring
    {
      ring := Ring(mem, 0, 0, [], 0);
    }

    /** `struct.unpack_from("<I", data, off)` on the double mapping. */
    method ReadHeader(cpos: nat) returns (hdr: u32)
      requires |ring.mem| >= 4
      ensures hdr == HeaderAt(ring.mem, cpos)
    {
      var off := cpos % |ring.mem|;
      DoubleMapping(ring.mem, cpos, 0, 4, off);
      LeAtBound(ring.mem, cpos, 4);
      LeAtSlice(ring.mem, cpos, 4);
      assert Span(4) == 0x1_0000_0000;
      hdr := FromLe(Mapped(ring.mem)[off..off + 4]);
    }

    method ReadPayload(cpos: nat, len: nat) returns (data: seq<u8>)
      requires 8 + len <= |ring.mem|
      ensures data == Slice(ring.mem, cpos + 8, len)
    {
      var off := cpos % |ring.mem|;
      DoubleMapping(ring.mem, cpos, 8, len, off);
      data := Mapped(ring.mem)[off + 8..off + 8 + len];
    }

    /** The first half of an iteration: the header at `cpos`, read after the producers' `ops`. */
    method LookAt(cpos: nat, ghost from: nat, ghost ppos: nat, ghost out: seq<seq<u8>>, size: nat, ops: seq<Op>)
        returns (hdr: u32)
      requires Midway(ring, from, ppos, out, size) && cpos == ring.cons && cpos != ppos
      modifies this
      ensures Midway(ring, from, ppos, out, size) && cpos == ring.cons && Continues(old(ring.recs), ring.recs)
      ensures if BusyBit(hdr) then ring.taken < |ring.recs| && ring.recs[ring.taken].status == Busy
              else Described(ring, ppos, hdr)
    {
      MidwayGrows(ring, from, ppos, out, size, ops);
      ring := Work(ring, ops);
      MoreToRead(ring, ppos);
      HeaderSeen(ring);
      hdr := ReadHeader(cpos);
    }

    method ReadWanted(cpos: nat, hdr: u32, size: nat) returns (more: seq<seq<u8>>)
      requires 8 + Length(hdr) <= |ring.mem|
      ensures more == Wanted(ring.mem, cpos, hdr, size)
    {
      more := [];
      if !DiscardBit(hdr) && Length(hdr) == size {
        var data := ReadPayload(cpos, Length(hdr));
        more := [data];
      }
    }

    /**
      The second half: the payload, if it is wanted, read after the producers'
      `ops`, and the new consumer position.
     */
    method StepOver(cpos: nat, hdr: u32, ghost from: nat, ghost ppos: nat, out: seq<seq<u8>>, size: nat, ops: seq<Op>)
      returns (cpos': nat, out': seq<seq<u8>>)
      requires Midway(ring, from, ppos, out, size) && cpos == ring.cons && Described(ring, ppos, hdr)
      modifies this
      ensures Midway(ring, from, ppos, out', size) && cpos' == ring.cons && cpos < cpos' <= ppos
      ensures Continues(old(ring.recs), ring.recs)
    {
      StillDescribed(ring, from, ppos, out, size, hdr, ops);
      ring := Work(ring, ops);
      var dataLen := Length(hdr);
      Extent(ring, ppos, hdr);
      cpos' := cpos + 8 + (dataLen + 7) / 8 * 8;
      var more := ReadWanted(cpos, hdr, size);
      MidwaySkip(ring, from, ppos, out, size, hdr, cpos', more);
      out' := out + more;
      ring := Skip(ring, cpos');
    }

    /**
      `drain`, with the producers doing `turns(0)`, `turns(1)`, ... between its
      reads.  It yields the payloads of exactly the records it steps over, and
      stops at the producer position it saw first or at a busy record.
     */
    method Drain(size: nat, turns: nat -> seq<Op>) returns (out: seq<seq<u8>>)
      requires Valid(ring)
      modifies this
      ensures Valid(ring) && ring.taken >= old(ring.taken) && Continues(old(ring.recs), ring.recs)
      ensures out == Delivered(ring.recs[old(ring.taken)..ring.taken], size)
      ensures ring.cons == old(ring.prod) || (ring.taken < |ring.recs| && ring.recs[ring.taken].status == Busy)
    {
      var cpos, ppos, turn := ring.cons, ring.prod, 0;
      ghost var from := ring.taken;
      out := [];
      Beginning(ring, size);
      while cpos != ppos
        invariant cpos == ring.cons <= ppos && turn >= 0
        invariant Midway(ring, from, ppos, out, size) && Continues(old(ring.recs), ring.recs)
        decreases ppos - cpos
      {
        var hdr := LookAt(cpos, from, ppos, out, size, turns(turn));
        if BusyBit(hdr) {
          break;
        }
        cpos, out := StepOver(cpos, hdr, from, ppos, out, size, turns(turn + 1));
        turn := turn + 2;
      }
    }
  }

  lemma Beginning(r: Ring, size: nat)
    requires Valid(r)
    ensures Midway(r, r.taken, r.prod, [], size) && r.cons <= r.prod
  {
    assert Position(r, |r.recs|) == r.prod;
    assert r.recs[r.taken..r.taken] == [];
    MoreToRead(r, r.prod);
  }
}
