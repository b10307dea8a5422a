/**
  Exactly which packets the UDP limiter drops, told from its history alone: the
  batches charged, the blocks set and the refusals each CPU has seen.
 */
module UdpVerdicts {
  import opened Words
  import opened SpanBound
  import opened UdpLimiter
  import opened UdpWindow

  /** How many batches had been charged when the latest block was set. */
  function Since(s: System): (n: nat) { if s.blocks == [] then 0 else s.blocks[|s.blocks| - 1].at }

  /** The batches charged since the latest block, which ended all earlier buckets. */
  function Recent(s: System): (cs: seq<Charge>)
    requires Since(s) <= |s.charges|
  {
    s.charges[Since(s)..]
  }

  /** No bucket is left that counts at `now`. */
  predicate Forgotten(recent: seq<Charge>, window: int, now: int)
  {
    recent == [] || now - recent[|recent| - 1].start >= 2 * window
  }

  /**
    What recent batches weigh at `now`, times the window: the current bucket
    fully, the one before it by its overlap.
   */
  function Weight(recent: seq<Charge>, window: int, now: int): (x: int)
  {
    if Forgotten(recent, window, now) then 0
    else
      var start := recent[|recent| - 1].start;
      if now - start < window then
        ChargedTo(recent, start - window) * (window - (now - start)) + ChargedTo(recent, start) * window
      else ChargedTo(recent, start) * (2 * window - (now - start))
  }

  /** A batch of `flush` bytes would exceed the rate; where nothing counts any more it never does. */
  predicate OverRate(c: Config, recent: seq<Charge>, now: int, flush: nat)
  {
    !Forgotten(recent, c.window, now) && Weight(recent, c.window, now) + flush * c.window > c.rate * c.window
  }

  /** The bucket a batch is charged to. */
  function BucketAt(recent: seq<Charge>, window: int, now: int): (start: int)
  {
    if Forgotten(recent, window, now) then now
    else
      var start := recent[|recent| - 1].start;
      if now - start < window then start else start + window
  }

  // ---------------------------------------------------------------- the state is what the history says

  ghost predicate LocalsSeen(s: System)
  {
    && |s.locals| == |s.refusals| == |s.lost|
    && forall i :: 0 <= i < |s.locals| && s.locals[i].blocked != 0 ==> s.locals[i].blocked == Seen(s, i)
  }

  /** No charge belongs to a bucket after `start`. */
  predicate Until(cs: seq<Charge>, start: int) { forall i :: 0 <= i < |cs| ==> cs[i].start <= start }

  /** The shared buckets hold exactly what was charged since the latest block. */
  ghost predicate Mirrors(window: int, g: Global, recent: seq<Charge>)
  {
    && (g.blocked != 0 ==> recent == [])
    && (g.blocked == 0 ==> (recent == [] <==> g.start == 0))
    && (g.blocked == 0 && recent != [] ==>
          && recent[|recent| - 1].start == g.start
          && g.curr == ChargedTo(recent, g.start) && g.prev == ChargedTo(recent, g.start - window)
          && Until(recent, g.start))
  }

  ghost predicate Told(window: int, s: System)
  {
    LocalsSeen(s) && Since(s) <= |s.charges| && Mirrors(window, s.g, Recent(s))
  }

  lemma ChargedToNext(cs: seq<Charge>, charge: Charge, start: int)
    ensures ChargedTo(cs + [charge], start) == ChargedTo(cs, start) + if charge.start == start then charge.amount else 0
  {
    assert (cs + [charge])[..|cs|] == cs;
  }

  /** A batch into a new bucket at `now`, with nothing before it that counts. */
  lemma MirrorsFresh(window: int, recent: seq<Charge>, now: u64, flush: u64)
    requires window > 0 && 0 < now
    requires forall i :: 0 <= i < |recent| ==> recent[i].start < now - window
    ensures Mirrors(window, Global(now, 0, flush, 0), recent + [Charge(now, flush, now)])
  {
    var charge := Charge(now, flush, now);
    ChargedToNext(recent, charge, now);
    ChargedToNext(recent, charge, now - window);
    UntouchedWindow(recent, now);
    UntouchedWindow(recent, now - window);
  }

  lemma MirrorsRotated(window: u64, g: Global, recent: seq<Charge>, now: u64)
    requires Mirrors(window, g, recent) && recent != [] && g.blocked == 0 && 0 < window < 0x8000_0000_0000_0000
    requires g.start <= now < g.start + 2 * window && now < 0x8000_0000_0000_0000
    ensures var g1 := Rotated(window, g, now);
            && g1.start == BucketAt(recent, window, now) && g1.blocked == 0
            && g1.curr == ChargedTo(recent, g1.start) && g1.prev == ChargedTo(recent, g1.start - window)
            && Until(recent, g1.start)
  {
    assert Wrap64(now - g.start) == now - g.start;
    if now - g.start >= window {
      UntouchedWindow(recent, g.start + window);
    }
  }

  lemma UntilNext(cs: seq<Charge>, charge: Charge)
    requires Until(cs, charge.start)
    ensures Until(cs + [charge], charge.start)
  {
  }

  lemma NextMirrors(window: int, g: Global, cs: seq<Charge>)
    requires g.blocked == 0 && g.start > 0 && cs != [] && cs[|cs| - 1].start == g.start && Until(cs, g.start)
    requires g.curr == ChargedTo(cs, g.start) && g.prev == ChargedTo(cs, g.start - window)
    ensures Mirrors(window, g, cs)
  {
  }

  lemma MirrorsCharged(window: int, g1: Global, recent: seq<Charge>, now: u64, flush: u64)
    requires window > 0 && g1.blocked == 0 && g1.start > 0 && g1.curr + flush < 0x1_0000_0000_0000_0000
    requires g1.curr == ChargedTo(recent, g1.start) && g1.prev == ChargedTo(recent, g1.start - window)
    requires Until(recent, g1.start)
    ensures Mirrors(window, g1.(curr := g1.curr + flush), recent + [Charge(now, flush, g1.start)])
  {
    var charge := Charge(now, flush, g1.start);
    ChargedToNext(recent, charge, g1.start);
    ChargedToNext(recent, charge, g1.start - window);
    UntilNext(recent, charge);
    NextMirrors(window, g1.(curr := g1.curr + flush), recent + [charge]);
  }

  /** Whether the buckets are stale is the same question of state and history. */
  lemma FreshIsForgotten(window: u64, g: Global, recent: seq<Charge>, now: u64)
    requires Mirrors(window, g, recent) && 0 < window < 0x8000_0000_0000_0000
    requires g.start <= now < 0x8000_0000_0000_0000
    ensures Fresh(window, g, now) <==> Forgotten(recent, window, now)
  {
    assert Wrap64(now - g.start) == now - g.start && Wrap64(2 * window) == 2 * window;
  }

  /** And so is what they weigh. */
  lemma ScaledIsWeight(c: Config, g: Global, recent: seq<Charge>, now: u64, flush: u64)
    requires Mirrors(c.window, g, recent) && 0 < c.window < 0x8000_0000_0000_0000
    requires g.start <= now < 0x8000_0000_0000_0000 && !Forgotten(recent, c.window, now) && g.blocked == 0
    ensures Scaled(c, Rotated(c.window, g, now), now, flush) == Weight(recent, c.window, now) + flush * c.window
  {
    MirrorsRotated(c.window, g, recent, now);
    RotatedIs(c.window, g, now);
  }

  lemma RotatedIs(window: u64, g: Global, now: u64)
    requires g.blocked == 0 && g.start <= now < 0x8000_0000_0000_0000 && window < 0x8000_0000_0000_0000
    ensures Rotated(window, g, now) == if now - g.start >= window then Global(g.start + window, g.curr, 0, 0) else g
  {
    assert Wrap64(now - g.start) == now - g.start;
  }

  // ---------------------------------------------------------------- the critical section

  /** What the shared window answers, from the history: refused by the latest block, by a new one, or charged. */
  ghost predicate AnswersAs(window: int, recent: seq<Charge>, latest: int, over: bool, g: Global, now: u64, flush: u64,
      answer: (Global, u64))
  {
    if latest > now then answer == (g, latest)
    else if over then answer.1 == now + window == answer.0.blocked
    else
      && answer.1 == 0 && answer.0.start == BucketAt(recent, window, now)
      && Mirrors(window, answer.0, recent + [Charge(now, flush, answer.0.start)])
  }

  ghost predicate BlockKnown(g: Global, latest: int, now: int)
  {
    (g.blocked != 0 ==> g.blocked == latest) && (g.blocked == 0 ==> latest <= now)
  }

  lemma FlushExactly(window: u64, g: Global, recent: seq<Charge>, latest: int, now: u64, flush: u64, over: bool)
    requires Mirrors(window, g, recent) && BlockKnown(g, latest, now)
    requires 0 < window < 0x8000_0000_0000_0000 && g.start <= now && 0 < now < 0x8000_0000_0000_0000
    requires !Fresh(window, g, now) && !over ==> Rotated(window, g, now).curr + flush < 0x1_0000_0000_0000_0000
    ensures AnswersAs(window, recent, latest, over && !Fresh(window, g, now), g, now, flush,
              Flush(window, g, now, flush, over))
  {
    FlushValue(window, g, now, flush, over);
    FreshIsForgotten(window, g, recent, now);
    if latest <= now {
      if Fresh(window, g, now) {
        MirrorsFresh(window, recent, now, flush);
      } else {
        MirrorsRotated(window, g, recent, now);
        if !over {
          MirrorsCharged(window, Rotated(window, g, now), recent, now, flush);
        }
      }
    }
  }

  /** The program's comparison is the one told from the history. */
  lemma OverIsOverRate(c: Config, s: System, clock: int, now: u64, flush: u64)
    requires WindowConfig(c, MAX_FLUSH) && Fits(c, MAX_FLUSH) && BucketSound(c, MAX_FLUSH, s, clock)
    requires Poised(c, MAX_FLUSH, s.g, clock) && Told(c.window, s)
    requires clock <= now < 0x8000_0000_0000_0000 && flush <= MAX_FLUSH && !Fresh(c.window, s.g, now)
    ensures var g1 := Rotated(c.window, s.g, now);
            && (Exceeds(c, g1, now, flush) <==> OverRate(c, Recent(s), now, flush))
            && (!Exceeds(c, g1, now, flush) ==> g1.curr + flush < 0x1_0000_0000_0000_0000)
  {
    ComparisonJustified(c, MAX_FLUSH, s, clock, now, flush);
    FreshIsForgotten(c.window, s.g, Recent(s), now);
    ScaledIsWeight(c, s.g, Recent(s), now, flush);
    ExceedsIs(c, Rotated(c.window, s.g, now), now, flush);
  }

  // ---------------------------------------------------------------- one operation

  /** Everything the history invariants need of a reachable state. */
  ghost predicate Known(c: Config, s: System, clock: int)
  {
    && Told(c.window, s) && LocalsBounded(s) && RefusalsSound(s, clock)
    && BucketSound(c, MAX_FLUSH, s, clock) && Poised(c, MAX_FLUSH, s.g, clock)
  }

  /** The packet completes a batch of 64 KiB on a CPU that is not blocked. */
  predicate Hands(s: System, op: Op)
    requires op.cpu < |s.locals| == |s.refusals|
  {
    Seen(s, op.cpu) <= op.now && op.Rate? && s.locals[op.cpu].bytes + op.bytes >= 65536
  }

  /** The packet is dropped: its CPU is blocked, or the batch it completes meets a block or exceeds the rate. */
  predicate Refuses(c: Config, s: System, op: Op)
    requires op.cpu < |s.locals| == |s.refusals| && Since(s) <= |s.charges|
  {
    || Seen(s, op.cpu) > op.now
    || (Hands(s, op)
        && (Latest(s) > op.now || OverRate(c, Recent(s), op.now, s.locals[op.cpu].bytes + op.bytes)))
  }

  /** What the history becomes, given whether the packet is refused. */
  ghost predicate Recorded(window: int, s: System, op: Op, refused: bool, s': System)
    requires op.cpu < |s.locals| == |s.refusals| && Since(s) <= |s.charges|
  {
    var cpu, now, held := op.cpu, op.now, s.locals[op.cpu].bytes;
    var bytes := if op.Rate? then op.bytes else 0;
    var until := if Latest(s) > now then Latest(s) else now + window;
    var charge := Charge(now, held + bytes, BucketAt(Recent(s), window, now));
    && |s'.locals| == |s.locals| && (forall i :: 0 <= i < |s.locals| && i != cpu ==> s'.locals[i] == s.locals[i])
    && s'.locals[cpu].bytes == (if Hands(s, op) then 0 else if refused then held else held + bytes)
    && s'.passed == (if refused then s.passed else s.passed + bytes)
    && s'.charges == (if Hands(s, op) && !refused then s.charges + [charge] else s.charges)
    && s'.refusals == (if Hands(s, op) && refused then s.refusals[cpu := s.refusals[cpu] + [until]] else s.refusals)
    && s'.blocks == (if Hands(s, op) && refused && Latest(s) <= now then s.blocks + [Block(|s.charges|, until)]
                     else s.blocks)
  }

  /** The CPU's own block is the one its latest refusal named. */
  lemma FastPathSeen(s: System, clock: int, cpu: nat, now: u64)
    requires cpu < |s.locals| && LocalsSeen(s) && RefusalsSound(s, clock) && clock <= now
    ensures FastPath(s.locals[cpu], now).1 == Drop <==> Seen(s, cpu) > now
  {
    assert CpuRefusals(s, cpu, clock);
  }

  lemma LaterPart(cs: seq<Charge>, charge: Charge, n: nat)
    requires n <= |cs|
    ensures (cs + [charge])[n..] == cs[n..] + [charge]
  {
  }

  lemma TakenSeen(s: System, cpu: nat, now: u64, bytes: nat, flush: u64, g: Global)
    requires cpu < |s.locals| && LocalsSeen(s)
    ensures LocalsSeen(Taken(s, cpu, now, bytes, flush, g))
  {
  }

  lemma RefusedSeen(s: System, cpu: nat, residue: nat, g: Global, until: u64, blocks: seq<Block>)
    requires cpu < |s.locals| && LocalsSeen(s)
    ensures LocalsSeen(Refused(s, cpu, residue, g, until, blocks))
  {
  }

  lemma HandedTold(window: int, s: System, op: Op, over: bool, flush: u64, answer: (Global, u64))
    requires op.cpu < |s.locals| && op.Rate? && Told(window, s) && window > 0 && BlockKnown(s.g, Latest(s), op.now)
    requires AnswersAs(window, Recent(s), Latest(s), over, s.g, op.now, flush, answer)
    ensures Told(window, Batch(s, op.cpu, op.now, op.bytes, s.locals[op.cpu].bytes, flush, answer))
  {
    var held := s.locals[op.cpu].bytes;
    if answer.1 == 0 {
      TakenSeen(s, op.cpu, op.now, op.bytes, flush, answer.0);
      LaterPart(s.charges, Charge(op.now, flush, answer.0.start), Since(s));
    } else {
      var blocks := Batch(s, op.cpu, op.now, op.bytes, held, flush, answer).blocks;
      RefusedSeen(s, op.cpu, held, answer.0, answer.1, blocks);
    }
  }

  lemma TakenRecorded(window: int, s: System, op: Op, flush: u64, g: Global)
    requires op.cpu < |s.locals| == |s.refusals| == |s.lost| && Since(s) <= |s.charges| && Hands(s, op)
    requires flush == s.locals[op.cpu].bytes + op.bytes && g.start == BucketAt(Recent(s), window, op.now)
    ensures Recorded(window, s, op, false, Taken(s, op.cpu, op.now, op.bytes, flush, g))
  {
  }

  lemma RefusedRecorded(window: int, s: System, op: Op, g: Global, until: u64, blocks: seq<Block>)
    requires op.cpu < |s.locals| == |s.refusals| == |s.lost| && Since(s) <= |s.charges| && Hands(s, op)
    requires if Latest(s) > op.now then until == Latest(s) && blocks == s.blocks
             else until == op.now + window && blocks == s.blocks + [Block(|s.charges|, until)]
    ensures Recorded(window, s, op, true, Refused(s, op.cpu, s.locals[op.cpu].bytes, g, until, blocks))
  {
  }

  lemma HandedRecorded(window: int, s: System, op: Op, over: bool, flush: u64, answer: (Global, u64))
    requires op.cpu < |s.locals| == |s.refusals| == |s.lost| && Since(s) <= |s.charges| && Hands(s, op) && window > 0
    requires flush == s.locals[op.cpu].bytes + op.bytes && BlockKnown(s.g, Latest(s), op.now)
    requires AnswersAs(window, Recent(s), Latest(s), over, s.g, op.now, flush, answer)
    ensures var s' := Batch(s, op.cpu, op.now, op.bytes, s.locals[op.cpu].bytes, flush, answer);
            Recorded(window, s, op, Latest(s) > op.now || over, s') && (answer.1 != 0 <==> Latest(s) > op.now || over)
  {
    if answer.1 == 0 {
      TakenRecorded(window, s, op, flush, answer.0);
    } else {
      var blocks := Batch(s, op.cpu, op.now, op.bytes, s.locals[op.cpu].bytes, flush, answer).blocks;
      RefusedRecorded(window, s, op, answer.0, answer.1, blocks);
    }
  }

  /** An operation that ends on the fast path or joins the residue. */
  lemma NotHanded(window: u64, s: System, clock: int, op: Op, over: bool)
    requires op.cpu < |s.locals| && Told(window, s) && RefusalsSound(s, clock) && LocalsBounded(s) && clock <= op.now
    requires (op.Rate? ==> op.bytes <= MAX_PACKET) && !Hands(s, op)
    ensures var s', refused := Step(window, s, op, over), Seen(s, op.cpu) > op.now;
            && Told(window, s') && Recorded(window, s, op, refused, s')
            && (Answer(window, s, op, over) == Drop <==> refused)
  {
    FastPathSeen(s, clock, op.cpu, op.now);
    AccumulatedExact(s, op);
    var s' := Step(window, s, op, over);
    assert LocalsSeen(s') by {
      forall i | 0 <= i < |s'.locals| && s'.locals[i].blocked != 0 ensures s'.locals[i].blocked == Seen(s', i) {
        assert s'.refusals == s.refusals && s'.locals[i].blocked == s.locals[i].blocked;
      }
    }
  }

  /** The critical section meets what the history says, and answers by it. */
  lemma AnsweredAs(c: Config, s: System, clock: int, op: Op, flush: u64)
    requires WindowConfig(c, MAX_FLUSH) && Fits(c, MAX_FLUSH) && op.cpu < |s.locals| && Known(c, s, clock)
    requires clock <= op.now && 0 < op.now < 0x8000_0000_0000_0000 && flush == Accumulated(s, op) <= MAX_FLUSH
    ensures BlockKnown(s.g, Latest(s), op.now)
    ensures AnswersAs(c.window, Recent(s), Latest(s), OverRate(c, Recent(s), op.now, flush), s.g, op.now, flush,
              Flush(c.window, s.g, op.now, flush, Over(c, s, op)))
  {
    FreshIsForgotten(c.window, s.g, Recent(s), op.now);
    if !Fresh(c.window, s.g, op.now) {
      OverIsOverRate(c, s, clock, op.now, flush);
    }
    FlushExactly(c.window, s.g, Recent(s), Latest(s), op.now, flush, Over(c, s, op));
  }

  lemma HandedStep(window: u64, s: System, clock: int, op: Op, over: bool, flush: u64, exceeds: bool)
    requires op.cpu < |s.locals| && Told(window, s) && RefusalsSound(s, clock) && LocalsBounded(s) && window > 0
    requires clock <= op.now && (op.Rate? ==> op.bytes <= MAX_PACKET) && Hands(s, op) && flush == Accumulated(s, op)
    requires BlockKnown(s.g, Latest(s), op.now)
    requires AnswersAs(window, Recent(s), Latest(s), over, s.g, op.now, flush,
            Flush(window, s.g, op.now, flush, exceeds))
    ensures var s', refused := Step(window, s, op, exceeds), Latest(s) > op.now || over;
            && Told(window, s') && Recorded(window, s, op, refused, s')
            && (Answer(window, s, op, exceeds) == Drop <==> refused)
  {
    var answer := Flush(window, s.g, op.now, flush, exceeds);
    FastPathSeen(s, clock, op.cpu, op.now);
    AccumulatedExact(s, op);
    FastPathKeepsBytes(s, op.cpu, op.now);
    HandedTold(window, s, op, over, flush, answer);
    HandedRecorded(window, s, op, over, flush, answer);
  }

  lemma FastPathKeepsBytes(s: System, cpu: nat, now: u64)
    requires cpu < |s.locals| && LocalsBounded(s)
    ensures FastPath(s.locals[cpu], now).0.bytes == s.locals[cpu].bytes
  {
  }

  lemma OneStep(c: Config, s: System, clock: int, op: Op) returns (refused: bool)
    requires WindowConfig(c, MAX_FLUSH) && Fits(c, MAX_FLUSH) && op.cpu < |s.locals| && Known(c, s, clock)
    requires clock <= op.now && 0 < op.now < 0x8000_0000_0000_0000 && (op.Rate? ==> op.bytes <= MAX_PACKET)
    ensures refused == Refuses(c, s, op)
    ensures Told(c.window, Next(c, s, op)) && Recorded(c.window, s, op, refused, Next(c, s, op))
    ensures Answer(c.window, s, op, Over(c, s, op)) == Drop <==> refused
  {
    AccumulatedExact(s, op);
    if Hands(s, op) {
      var flush := Accumulated(s, op);
      var over := OverRate(c, Recent(s), op.now, flush);
      refused := Latest(s) > op.now || over;
      AnsweredAs(c, s, clock, op, flush);
      HandedStep(c.window, s, clock, op, over, flush, Over(c, s, op));
    } else {
      refused := Seen(s, op.cpu) > op.now;
      NotHanded(c.window, s, clock, op, Over(c, s, op));
    }
  }

  // ---------------------------------------------------------------- every run

  lemma {:induction false} EveryRunTold(c: Config, cpus: nat, ops: seq<Op>)
    requires Admissible(ops, cpus) && c.window > 0 && Fits(c, MAX_FLUSH)
    ensures Known(c, Exec(c, cpus, ops), Clock(ops)) && WindowConfig(c, MAX_FLUSH)
  {
    FitsIsNarrow(c, MAX_FLUSH);
    LargestBatchBound(c, cpus, ops);
    EveryRunWindowSound(c, cpus, ops, MAX_FLUSH);
    Ledger(c, cpus, ops);
    OneRefusalPerBlock(c, cpus, ops);
    if ops != [] {
      var before := ops[..|ops| - 1];
      EveryRunTold(c, cpus, before);
      var refused := OneStep(c, Exec(c, cpus, before), Clock(before), ops[|ops| - 1]);
    }
  }

  /**
    After every multi-CPU run, a packet is dropped exactly when its CPU's latest
    refusal still lasts, or it completes a batch and the latest block still lasts
    or the rate would be exceeded; and the history moves on accordingly.
   */
  lemma DropsExactly(c: Config, cpus: nat, ops: seq<Op>, op: Op)
    requires Admissible(ops + [op], cpus) && c.window > 0 && Fits(c, MAX_FLUSH)
    ensures Admissible(ops, cpus) && op.cpu < cpus
    ensures var s := Exec(c, cpus, ops);
            && Since(s) <= |s.charges|
            && (Answer(c.window, s, op, Over(c, s, op)) == Drop <==> Refuses(c, s, op))
            && Recorded(c.window, s, op, Refuses(c, s, op), Exec(c, cpus, ops + [op]))
  {
    var all := ops + [op];
    assert all[..|ops|] == ops && all[|ops|] == op;
    assert forall i :: 0 <= i < |ops| ==> all[i] == ops[i];
    EveryRunTold(c, cpus, ops);
    var refused := OneStep(c, Exec(c, cpus, ops), Clock(ops), op);
  }

  lemma StepSeen(window: u64, s: System, op: Op, over: bool)
    requires op.cpu < |s.locals| && LocalsSeen(s)
    ensures LocalsSeen(Step(window, s, op, over))
  {
    var (l, v) := FastPath(s.locals[op.cpu], op.now);
    var acc := Accumulated(s, op);
    if v == Pass && op.Rate? && acc >= BATCH {
      var answer := Flush(window, s.g, op.now, acc, over);
      if answer.1 == 0 {
        TakenSeen(s, op.cpu, op.now, op.bytes, acc, answer.0);
      } else {
        var blocks := Batch(s, op.cpu, op.now, op.bytes, l.bytes, acc, answer).blocks;
        RefusedSeen(s, op.cpu, l.bytes, answer.0, answer.1, blocks);
      }
    }
  }

  lemma {:induction false} EveryRunSeen(c: Config, cpus: nat, ops: seq<Op>)
    requires Admissible(ops, cpus)
    ensures LocalsSeen(Exec(c, cpus, ops))
  {
    if ops != [] {
      var before, op := ops[..|ops| - 1], ops[|ops| - 1];
      EveryRunSeen(c, cpus, before);
      StepSeen(c.window, Exec(c, cpus, before), op, Over(c, Exec(c, cpus, before), op));
    }
  }

  /**
    Whatever the window, a packet that completes no batch is dropped exactly while
    its CPU's latest refusal lasts: a block ends at its deadline.
   */
  lemma BelowBatchExactly(c: Config, cpus: nat, ops: seq<Op>, op: Op)
    requires Admissible(ops + [op], cpus) && Admissible(ops, cpus) && op.cpu < cpus
    requires 0 < c.window < 0x8000_0000_0000_0000
    requires op.Rate? ==> Exec(c, cpus, ops).locals[op.cpu].bytes + op.bytes < 65536
    ensures var s := Exec(c, cpus, ops);
            Answer(c.window, s, op, Over(c, s, op)) == Drop <==> Seen(s, op.cpu) > op.now
  {
    var all := ops + [op];
    assert all[|ops|] == op && forall i :: 0 <= i < |ops| ==> all[i] == ops[i];
    EveryRunSeen(c, cpus, ops);
    OneRefusalPerBlock(c, cpus, ops);
    Ledger(c, cpus, ops);
    FastPathSeen(Exec(c, cpus, ops), Clock(ops), op.cpu, op.now);
    AccumulatedExact(Exec(c, cpus, ops), op);
  }
}
