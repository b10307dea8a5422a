/**
  The two-level global UDP limiter: each CPU accumulates bytes without a lock
  and flushes a batch into one spinlocked sliding window, which answers either
  by charging the batch or by blocking everybody until a deadline.
 */
module UdpLimiter {
  import opened Words
  import opened SpanBound

  const BATCH: nat := 65536

  /** IPv6 header plus a 16-bit payload length: no packet is charged for more. */
  const MAX_PACKET: nat := 65575

  const MAX_FLUSH: nat := 131110

  datatype Config = Config(rate: u32, window: u64)

  /** `udp_global_state` without its lock and its configured rate. */
  datatype Global = Global(start: u64, prev: u64, curr: u64, blocked: u64)

  /** `udp_percpu_local`. */
  datatype Local = Local(bytes: u64, blocked: u64)

  /** The whole-packet check, or the early block check that precedes the other limiters. */
  datatype Op = Rate(cpu: nat, now: u64, bytes: nat) | Precheck(cpu: nat, now: u64)

  /** The per-CPU fast path: the local state it leaves, and whether it drops. */
  function FastPath(l: Local, now: u64): (r: (Local, Verdict))
  {
    if l.blocked != 0 && now < l.blocked then (l.(bytes := 0), Drop) else (l.(blocked := 0), Pass)
  }

  /** The shared state with an expired block forgotten and the bucket rotated once, as the comparison sees it. */
  function Rotated(window: u64, g: Global, now: u64): (r: Global)
  {
    if g.blocked != 0 then Global(0, 0, 0, 0)
    else if Wrap64(now - g.start) >= window then Global(Wrap64(g.start + window), g.curr, 0, 0)
    else g
  }

  /** The scaled comparison, in 64-bit arithmetic. */
  function Exceeds(c: Config, g: Global, now: u64, flush: u64): (r: bool)
  {
    var elapsed := Wrap64(now - g.start);
    Wrap64(g.prev * (c.window - elapsed) + g.curr * c.window + flush * c.window) > Wrap64(c.rate * c.window)
  }

  /** Whether the bucket is missing or two windows old, and is replaced without comparing. */
  function Fresh(window: u64, g: Global, now: u64): (r: bool)
  {
    g.start == 0 || g.blocked != 0 || Wrap64(now - g.start) >= Wrap64(2 * window)
  }

  /**
    The critical section, given the outcome of the comparison: the new state,
    and the deadline of the block that refuses the batch, or 0.
   */
  function Flush(window: u64, g: Global, now: u64, flush: u64, over: bool): (r: (Global, u64))
  {
    if g.blocked != 0 && now < g.blocked then (g, g.blocked)
    else if Fresh(window, g, now) then (Global(now, 0, flush, 0), 0)
    else
      var g1 := Rotated(window, g, now);
      if over then (g1.(blocked := Wrap64(now + window)), Wrap64(now + window))
      else (g1.(curr := Wrap64(g1.curr + flush)), 0)
  }

  // ---------------------------------------------------------------- runs with their history

  /** A block: how many batches had been charged when it was set, and until when it lasts. */
  datatype Block = Block(at: nat, deadline: int)

  /**
    The shared and per-CPU state, and what happened so far: bytes passed, the
    batches charged, per CPU the deadlines of its refused batches and the part
    of those batches that had already passed, and every block.
   */
  datatype System = System(g: Global, locals: seq<Local>,
                           passed: nat, charges: seq<Charge>, refusals: seq<seq<int>>,
                           lost: seq<nat>, blocks: seq<Block>)

  function Start(cpus: nat): (s: System)
  {
    System(Global(0, 0, 0, 0), seq(cpus, _ => Local(0, 0)), 0, [], seq(cpus, _ => []), seq(cpus, _ => 0), [])
  }

  function Latest(s: System): (d: int) { if s.blocks == [] then 0 else s.blocks[|s.blocks| - 1].deadline }

  function Seen(s: System, cpu: nat): (d: int)
    requires cpu < |s.refusals|
  {
    if s.refusals[cpu] == [] then 0 else s.refusals[cpu][|s.refusals[cpu]| - 1]
  }

  predicate Shaped(s: System, cpus: nat)
  {
    |s.locals| == |s.refusals| == |s.lost| == cpus
  }

  /** A batch charged to the bucket of `g`. */
  function Taken(s: System, cpu: nat, now: u64, bytes: nat, flush: u64, g: Global): (s': System)
    requires cpu < |s.locals| == |s.refusals| == |s.lost|
  {
    s.(g := g, locals := s.locals[cpu := Local(0, 0)], passed := s.passed + bytes,
       charges := s.charges + [Charge(now, flush, g.start)])
  }

  /** A batch refused until `until`; `residue` of it belongs to packets that had passed. */
  function Refused(s: System, cpu: nat, residue: nat, g: Global, until: u64, blocks: seq<Block>): (s': System)
    requires cpu < |s.locals| == |s.refusals| == |s.lost|
  {
    s.(g := g, locals := s.locals[cpu := Local(0, until)], refusals := s.refusals[cpu := s.refusals[cpu] + [until]],
       lost := s.lost[cpu := s.lost[cpu] + residue], blocks := blocks)
  }

  /** A batch from `cpu`, given what the critical section answered. */
  function Batch(s: System, cpu: nat, now: u64, bytes: nat, residue: nat, flush: u64,
      answer: (Global, u64)): (s': System)
    requires cpu < |s.locals| == |s.refusals| == |s.lost|
  {
    if answer.1 == 0 then Taken(s, cpu, now, bytes, flush, answer.0)
    else
      var known := s.g.blocked != 0 && now < s.g.blocked;
      var blocks := if known then s.blocks else s.blocks + [Block(|s.charges|, answer.1)];
      Refused(s, cpu, residue, answer.0, answer.1, blocks)
  }

  /** What the CPU would hold after this packet, if it is not dropped first. */
  function Accumulated(s: System, op: Op): (n: u64)
    requires op.cpu < |s.locals|
  {
    var l := FastPath(s.locals[op.cpu], op.now).0;
    if op.Rate? then Wrap64(l.bytes + op.bytes) else l.bytes
  }

  function Step(window: u64, s: System, op: Op, over: bool): (s': System)
    requires op.cpu < |s.locals| == |s.refusals| == |s.lost|
  {
    var (l, v) := FastPath(s.locals[op.cpu], op.now);
    if v == Drop || op.Precheck? then s.(locals := s.locals[op.cpu := l])
    else
      var acc := Accumulated(s, op);
      if acc < BATCH then s.(locals := s.locals[op.cpu := l.(bytes := acc)], passed := s.passed + op.bytes)
      else Batch(s, op.cpu, op.now, op.bytes, l.bytes, acc, Flush(window, s.g, op.now, acc, over))
  }

  /** The verdict the caller sees. */
  function Answer(window: u64, s: System, op: Op, over: bool): (v: Verdict)
    requires op.cpu < |s.locals|
  {
    var (l, v) := FastPath(s.locals[op.cpu], op.now);
    if v == Drop || op.Precheck? || Accumulated(s, op) < BATCH then v
    else if Flush(window, s.g, op.now, Accumulated(s, op), over).1 == 0 then Pass else Drop
  }

  /** The comparison this operation would make. */
  function Over(c: Config, s: System, op: Op): (r: bool)
    requires op.cpu < |s.locals|
  {
    Exceeds(c, Rotated(c.window, s.g, op.now), op.now, Accumulated(s, op))
  }

  function Next(c: Config, s: System, op: Op): (s': System)
    requires op.cpu < |s.locals| == |s.refusals| == |s.lost|
  {
    Step(c.window, s, op, Over(c, s, op))
  }

  /** Operations of `cpus` CPUs in the order they take effect, with a nondecreasing clock. */
  predicate Admissible(ops: seq<Op>, cpus: nat)
  {
    && (forall i :: 0 <= i < |ops| ==> ops[i].cpu < cpus && 0 < ops[i].now < 0x8000_0000_0000_0000)
    && (forall i :: 0 <= i < |ops| && ops[i].Rate? ==> ops[i].bytes <= MAX_PACKET)
    && (forall i, j :: 0 <= i < j < |ops| ==> ops[i].now <= ops[j].now)
  }

  function Exec(c: Config, cpus: nat, ops: seq<Op>): (s: System)
    requires Admissible(ops, cpus)
    ensures Shaped(s, cpus)
  {
    if ops == [] then Start(cpus) else Next(c, Exec(c, cpus, ops[..|ops| - 1]), ops[|ops| - 1])
  }

  function Clock(ops: seq<Op>): (t: int) { if ops == [] then 0 else ops[|ops| - 1].now }

  // ---------------------------------------------------------------- the ledger

  function Sum(xs: seq<nat>): (n: nat) { if xs == [] then 0 else Sum(xs[..|xs| - 1]) + xs[|xs| - 1] }

  function Residue(ls: seq<Local>): (n: nat) { if ls == [] then 0 else Residue(ls[..|ls| - 1]) + ls[|ls| - 1].bytes }

  function Charged(cs: seq<Charge>): (n: nat) { if cs == [] then 0 else Charged(cs[..|cs| - 1]) + cs[|cs| - 1].amount }

  lemma {:induction false} SumUpdate(xs: seq<nat>, i: nat, v: nat)
    requires i < |xs|
    ensures Sum(xs[i := v]) == Sum(xs) - xs[i] + v
  {
    var ys := xs[i := v];
    if i < |xs| - 1 {
      SumUpdate(xs[..|xs| - 1], i, v);
      assert ys[..|ys| - 1] == xs[..|xs| - 1][i := v];
    } else {
      assert ys[..|ys| - 1] == xs[..|xs| - 1];
    }
  }

  lemma {:induction false} ResidueUpdate(ls: seq<Local>, i: nat, l: Local)
    requires i < |ls|
    ensures Residue(ls[i := l]) == Residue(ls) - ls[i].bytes + l.bytes
  {
    var ys := ls[i := l];
    if i < |ls| - 1 {
      ResidueUpdate(ls[..|ls| - 1], i, l);
      assert ys[..|ys| - 1] == ls[..|ls| - 1][i := l];
    } else {
      assert ys[..|ys| - 1] == ls[..|ls| - 1];
    }
  }

  lemma {:induction false} StartEmpty(cpus: nat)
    ensures Residue(Start(cpus).locals) == 0 && Sum(Start(cpus).lost) == 0
  {
    var s := Start(cpus);
    if cpus > 0 {
      StartEmpty(cpus - 1);
      assert s.locals[..cpus - 1] == Start(cpus - 1).locals && s.lost[..cpus - 1] == Start(cpus - 1).lost;
    }
  }

  /** No byte is unaccounted for: passed = charged + still accumulating + passed before a refusal. */
  ghost predicate Balanced(s: System)
  {
    s.passed == Charged(s.charges) + Residue(s.locals) + Sum(s.lost)
  }

  ghost predicate LocalsBounded(s: System)
  {
    forall i :: 0 <= i < |s.locals| ==>
      s.locals[i].bytes < BATCH && (s.locals[i].blocked != 0 ==> s.locals[i].bytes == 0)
  }

  lemma TakenBalanced(s: System, cpu: nat, now: u64, bytes: nat, flush: u64, g: Global)
    requires cpu < |s.locals| == |s.refusals| == |s.lost|
    requires Balanced(s) && LocalsBounded(s) && flush == s.locals[cpu].bytes + bytes
    ensures Balanced(Taken(s, cpu, now, bytes, flush, g)) && LocalsBounded(Taken(s, cpu, now, bytes, flush, g))
  {
    ResidueUpdate(s.locals, cpu, Local(0, 0));
    var cs := s.charges + [Charge(now, flush, g.start)];
    assert cs[..|cs| - 1] == s.charges;
  }

  lemma RefusedBalanced(s: System, cpu: nat, g: Global, until: u64, blocks: seq<Block>)
    requires cpu < |s.locals| == |s.refusals| == |s.lost|
    requires Balanced(s) && LocalsBounded(s)
    ensures var s' := Refused(s, cpu, s.locals[cpu].bytes, g, until, blocks);
            Balanced(s') && LocalsBounded(s')
  {
    ResidueUpdate(s.locals, cpu, Local(0, until));
    SumUpdate(s.lost, cpu, s.lost[cpu] + s.locals[cpu].bytes);
  }

  lemma BatchBalanced(s: System, cpu: nat, now: u64, bytes: nat, flush: u64, answer: (Global, u64))
    requires cpu < |s.locals| == |s.refusals| == |s.lost|
    requires Balanced(s) && LocalsBounded(s) && flush == s.locals[cpu].bytes + bytes
    ensures var s' := Batch(s, cpu, now, bytes, s.locals[cpu].bytes, flush, answer);
            Balanced(s') && LocalsBounded(s') && s'.passed == s.passed + if answer.1 == 0 then bytes else 0
  {
    if answer.1 == 0 {
      TakenBalanced(s, cpu, now, bytes, flush, answer.0);
    } else {
      RefusedBalanced(s, cpu, answer.0, answer.1, Batch(s, cpu, now, bytes, s.locals[cpu].bytes, flush, answer).blocks);
    }
  }

  /** The fast path clears nothing that had passed. */
  lemma FastPathKeeps(s: System, cpu: nat, now: u64)
    requires cpu < |s.locals| && Balanced(s) && LocalsBounded(s)
    ensures FastPath(s.locals[cpu], now).0.bytes == s.locals[cpu].bytes
    ensures var s' := s.(locals := s.locals[cpu := FastPath(s.locals[cpu], now).0]);
            Balanced(s') && LocalsBounded(s')
  {
    ResidueUpdate(s.locals, cpu, FastPath(s.locals[cpu], now).0);
  }

  /** A packet below the batch size joins its CPU's residue. */
  lemma HeldBalanced(s: System, cpu: nat, bytes: nat)
    requires cpu < |s.locals| && Balanced(s) && LocalsBounded(s) && s.locals[cpu].bytes + bytes < BATCH
    ensures var s' := s.(locals := s.locals[cpu := Local(s.locals[cpu].bytes + bytes, 0)], passed := s.passed + bytes);
            Balanced(s') && LocalsBounded(s')
  {
    ResidueUpdate(s.locals, cpu, Local(s.locals[cpu].bytes + bytes, 0));
  }

  lemma AccumulatedExact(s: System, op: Op)
    requires op.cpu < |s.locals| && LocalsBounded(s) && (op.Rate? ==> op.bytes <= MAX_PACKET)
    ensures Accumulated(s, op) == s.locals[op.cpu].bytes + if op.Rate? then op.bytes else 0
    ensures Accumulated(s, op) <= MAX_FLUSH
  {
  }

  /** One operation balances, and passes exactly the bytes of the packets it answers with PASS. */
  lemma StepBalanced(window: u64, s: System, op: Op, over: bool)
    requires op.cpu < |s.locals| == |s.refusals| == |s.lost|
    requires Balanced(s) && LocalsBounded(s) && (op.Rate? ==> op.bytes <= MAX_PACKET)
    ensures Balanced(Step(window, s, op, over)) && LocalsBounded(Step(window, s, op, over))
    ensures Step(window, s, op, over).passed == s.passed +
            if Answer(window, s, op, over) == Pass && op.Rate? then op.bytes else 0
  {
    var acc := Accumulated(s, op);
    FastPathKeeps(s, op.cpu, op.now);
    AccumulatedExact(s, op);
    if FastPath(s.locals[op.cpu], op.now).1 == Pass && op.Rate? {
      if acc < BATCH {
        HeldBalanced(s, op.cpu, op.bytes);
      } else {
        BatchBalanced(s, op.cpu, op.now, op.bytes, acc, Flush(window, s.g, op.now, acc, over));
      }
    }
  }

  /** The bytes of all packets of a run that were answered with PASS. */
  function Answered(c: Config, cpus: nat, ops: seq<Op>): (n: nat)
    requires Admissible(ops, cpus)
  {
    if ops == [] then 0
    else
      var before, op := ops[..|ops| - 1], ops[|ops| - 1];
      var s := Exec(c, cpus, before);
      Answered(c, cpus, before) + if Answer(c.window, s, op, Over(c, s, op)) == Pass && op.Rate? then op.bytes else 0
  }

  /** Conservation over every run, for exactly the bytes answered with PASS, and what a CPU can hold back. */
  lemma {:induction false} Ledger(c: Config, cpus: nat, ops: seq<Op>)
    requires Admissible(ops, cpus)
    ensures Balanced(Exec(c, cpus, ops)) && LocalsBounded(Exec(c, cpus, ops))
    ensures Exec(c, cpus, ops).passed == Answered(c, cpus, ops)
  {
    if ops == [] {
      StartEmpty(cpus);
    } else {
      Ledger(c, cpus, ops[..|ops| - 1]);
      var s := Exec(c, cpus, ops[..|ops| - 1]);
      StepBalanced(c.window, s, ops[|ops| - 1], Over(c, s, ops[|ops| - 1]));
    }
  }

  // ---------------------------------------------------------------- refusals

  ghost predicate Increasing(xs: seq<int>)
  {
    forall i, j :: 0 <= i < j < |xs| ==> xs[i] < xs[j]
  }

  ghost predicate CpuRefusals(s: System, cpu: nat, clock: int)
    requires cpu < |s.locals| == |s.refusals| == |s.lost|
  {
    && Increasing(s.refusals[cpu])
    && s.lost[cpu] <= (BATCH - 1) * |s.refusals[cpu]|
    && Seen(s, cpu) <= Latest(s)
    && |s.refusals[cpu]| <= |s.blocks|
    && (Seen(s, cpu) < Latest(s) ==> |s.refusals[cpu]| < |s.blocks|)
    && (clock < Seen(s, cpu) ==> s.locals[cpu].blocked == Seen(s, cpu))
  }

  /** The shared block is the latest one, and while none is recorded the latest has passed. */
  ghost predicate BlockCurrent(s: System, clock: int)
  {
    && Latest(s) >= 0
    && (s.g.blocked != 0 ==> s.g.blocked == Latest(s))
    && (s.g.blocked == 0 ==> Latest(s) <= clock)
  }

  ghost predicate RefusalsSound(s: System, clock: int)
  {
    && |s.locals| == |s.refusals| == |s.lost|
    && BlockCurrent(s, clock)
    && forall i :: 0 <= i < |s.locals| ==> CpuRefusals(s, i, clock)
  }

  /** What one critical section does to blocks. */
  lemma FlushBlocks(window: u64, g: Global, now: u64, flush: u64, over: bool)
    requires 0 < window < 0x8000_0000_0000_0000 && 0 < now < 0x8000_0000_0000_0000
    ensures var (g', until) := Flush(window, g, now, flush, over);
            && (g.blocked != 0 && now < g.blocked ==> g' == g && until == g.blocked)
            && (!(g.blocked != 0 && now < g.blocked) ==>
                  (until == 0 && g'.blocked == 0) || (until == now + window && g'.blocked == until))
  {
  }

  lemma TakenRefusals(s: System, clock: int, cpu: nat, now: u64, bytes: nat, flush: u64, g: Global)
    requires cpu < |s.locals| && RefusalsSound(s, clock) && clock <= now && g.blocked == 0
    requires FastPath(s.locals[cpu], now).1 == Pass && (s.g.blocked == 0 || s.g.blocked <= now)
    ensures RefusalsSound(Taken(s, cpu, now, bytes, flush, g), now)
  {
    var s' := Taken(s, cpu, now, bytes, flush, g);
    forall i | 0 <= i < |s.locals| ensures CpuRefusals(s', i, now) {
      assert CpuRefusals(s, i, clock);
    }
  }

  /** A refusal by the block already set, or by a new one. */
  lemma RefusedRefusals(s: System, clock: int, cpu: nat, now: u64, g: Global, until: u64, blocks: seq<Block>)
    requires cpu < |s.locals| && RefusalsSound(s, clock) && clock <= now && LocalsBounded(s)
    requires FastPath(s.locals[cpu], now).1 == Pass && now < until && g.blocked == until
    requires if s.g.blocked != 0 && now < s.g.blocked then blocks == s.blocks && until == s.g.blocked
             else blocks == s.blocks + [Block(|s.charges|, until)]
    ensures RefusalsSound(Refused(s, cpu, s.locals[cpu].bytes, g, until, blocks), now)
  {
    var s' := Refused(s, cpu, s.locals[cpu].bytes, g, until, blocks);
    assert CpuRefusals(s, cpu, clock);
    forall i | 0 <= i < |s.locals| ensures CpuRefusals(s', i, now) {
      assert CpuRefusals(s, i, clock);
    }
  }

  lemma BatchRefusals(window: u64, s: System, clock: int, cpu: nat, now: u64, bytes: nat, flush: u64, over: bool)
    requires 0 < window < 0x8000_0000_0000_0000 && 0 < now < 0x8000_0000_0000_0000
    requires cpu < |s.locals| && RefusalsSound(s, clock) && clock <= now && LocalsBounded(s)
    requires FastPath(s.locals[cpu], now).1 == Pass
    ensures RefusalsSound(Batch(s, cpu, now, bytes, s.locals[cpu].bytes, flush, Flush(window, s.g, now, flush, over)),
            now)
  {
    var answer := Flush(window, s.g, now, flush, over);
    FlushBlocks(window, s.g, now, flush, over);
    if answer.1 == 0 {
      TakenRefusals(s, clock, cpu, now, bytes, flush, answer.0);
    } else {
      var blocks := Batch(s, cpu, now, bytes, s.locals[cpu].bytes, flush, answer).blocks;
      RefusedRefusals(s, clock, cpu, now, answer.0, answer.1, blocks);
    }
  }

  lemma StepRefusals(window: u64, s: System, clock: int, op: Op, over: bool)
    requires 0 < window < 0x8000_0000_0000_0000 && 0 < op.now < 0x8000_0000_0000_0000
    requires op.cpu < |s.locals| && RefusalsSound(s, clock) && clock <= op.now && LocalsBounded(s)
    ensures RefusalsSound(Step(window, s, op, over), op.now)
  {
    var s' := Step(window, s, op, over);
    var (l, v) := FastPath(s.locals[op.cpu], op.now);
    if v == Pass && op.Rate? && Accumulated(s, op) >= BATCH {
      BatchRefusals(window, s, clock, op.cpu, op.now, op.bytes, Accumulated(s, op), over);
    } else {
      forall i | 0 <= i < |s.locals| ensures CpuRefusals(s', i, op.now) {
        assert CpuRefusals(s, i, clock);
      }
    }
  }

  /** A CPU is refused at most once per block: its deadlines increase, and there are no more than blocks. */
  lemma {:induction false} OneRefusalPerBlock(c: Config, cpus: nat, ops: seq<Op>)
    requires Admissible(ops, cpus) && 0 < c.window < 0x8000_0000_0000_0000
    ensures RefusalsSound(Exec(c, cpus, ops), Clock(ops))
  {
    if ops == [] {
    } else {
      var before := ops[..|ops| - 1];
      OneRefusalPerBlock(c, cpus, before);
      Ledger(c, cpus, before);
      var s := Exec(c, cpus, before);
      StepRefusals(c.window, s, Clock(before), ops[|ops| - 1], Over(c, s, ops[|ops| - 1]));
    }
  }

  lemma {:induction false} SumAtMost(xs: seq<nat>, m: nat)
    requires forall i :: 0 <= i < |xs| ==> xs[i] <= m
    ensures Sum(xs) <= |xs| * m
  {
    if xs != [] {
      SumAtMost(xs[..|xs| - 1], m);
    }
  }

  lemma {:induction false} ResidueAtMost(ls: seq<Local>)
    requires forall i :: 0 <= i < |ls| ==> ls[i].bytes < BATCH
    ensures Residue(ls) <= |ls| * (BATCH - 1)
  {
    if ls != [] {
      ResidueAtMost(ls[..|ls| - 1]);
    }
  }

  /** From per-CPU bounds to the overshoot of the whole system. */
  lemma OvershootOf(s: System, clock: int)
    requires Balanced(s) && LocalsBounded(s) && RefusalsSound(s, clock)
    ensures Charged(s.charges) <= s.passed <= Charged(s.charges) + |s.locals| * (BATCH * (1 + |s.blocks|))
  {
    var n, b := |s.locals|, |s.blocks|;
    ResidueAtMost(s.locals);
    forall i | 0 <= i < |s.lost| ensures s.lost[i] <= BATCH * b {
      assert CpuRefusals(s, i, clock);
    }
    SumAtMost(s.lost, BATCH * b);
    assert n * (BATCH * (1 + b)) == n * BATCH + n * (BATCH * b) by {
      assert BATCH * (1 + b) == BATCH + BATCH * b;
    }
  }

  /** The overshoot: what passes exceeds what is charged by at most one batch per CPU per block, plus one. */
  lemma Overshoot(c: Config, cpus: nat, ops: seq<Op>)
    requires Admissible(ops, cpus) && 0 < c.window < 0x8000_0000_0000_0000
    ensures var s := Exec(c, cpus, ops);
            Charged(s.charges) <= s.passed <= Charged(s.charges) + cpus * (BATCH * (1 + |s.blocks|))
  {
    Ledger(c, cpus, ops);
    OneRefusalPerBlock(c, cpus, ops);
    OvershootOf(Exec(c, cpus, ops), Clock(ops));
  }

  // ---------------------------------------------------------------- the program's own form

  /** A system with no history, for stating what one call does. */
  function Bare(g: Global, locals: seq<Local>): (s: System)
  {
    System(g, locals, 0, [], seq(|locals|, _ => []), seq(|locals|, _ => 0), [])
  }

  /** `udp_global_rl` and `udp_percpu_acc`, updated in place. */
  class SharedLimiter {
    const c: Config
    var windowStart: u64
    var prevBytes: u64
    var currBytes: u64
    var blockedUntil: u64
    var locals: seq<Local>

    function Shared(): (g: Global)
      reads this
    {
      Global(windowStart, prevBytes, currBytes, blockedUntil)
    }

    constructor (c: Config, cpus: nat)
      ensures this.c == c && Shared() == Start(cpus).g && locals == Start(cpus).locals
    {
      this.c := c;
      windowStart, prevBytes, currBytes, blockedUntil := 0, 0, 0, 0;
      locals := seq(cpus, _ => Local(0, 0));
    }

    /** `udp_global_block_fast_path`. */
    method BlockFastPath(cpu: nat, now: u64) returns (v: Verdict)
      requires cpu < |locals|
      modifies this`locals
      ensures locals == Step(c.window, Bare(old(Shared()), old(locals)), Precheck(cpu, now), false).locals
      ensures (locals[cpu], v) == FastPath(old(locals)[cpu], now)
    {
      var l := locals[cpu];
      if l.blocked != 0 {
        if now < l.blocked {
          locals := locals[cpu := Local(0, l.blocked)];
          return Drop;
        }
        locals := locals[cpu := Local(l.bytes, 0)];
      }
      return Pass;
    }

    /** The bucket a window old becomes the previous one. */
    method Rotate(now: u64)
      requires blockedUntil == 0
      modifies this`windowStart, this`prevBytes, this`currBytes
      ensures Shared() == Rotated(c.window, old(Shared()), now)
    {
      if Wrap64(now - windowStart) >= c.window {
        prevBytes, currBytes, windowStart := currBytes, 0, Wrap64(windowStart + c.window);
      }
    }

    /** A batch over the rate blocks, any other is charged. */
    method Judge(now: u64, flush: u64) returns (until: u64)
      modifies this`currBytes, this`blockedUntil
      ensures var over := Exceeds(c, old(Shared()), now, flush);
              && until == (if over then Wrap64(now + c.window) else 0)
              && Shared() == if over then old(Shared()).(blocked := until)
                             else old(Shared()).(curr := Wrap64(old(currBytes) + flush))
    {
      until := 0;
      if Exceeds(c, Shared(), now, flush) {
        until := Wrap64(now + c.window);
        blockedUntil := until;
      } else {
        currBytes := Wrap64(currBytes + flush);
      }
    }

    /** The body of the critical section. */
    method FlushBatch(now: u64, flush: u64) returns (until: u64)
      modifies this`windowStart, this`prevBytes, this`currBytes, this`blockedUntil
      ensures (Shared(), until) ==
              Flush(c.window, old(Shared()), now, flush, Exceeds(c, Rotated(c.window, old(Shared()), now), now, flush))
    {
      until := 0;
      if blockedUntil != 0 {
        if now < blockedUntil {
          return blockedUntil;
        }
        blockedUntil, windowStart, prevBytes, currBytes := 0, 0, 0, 0;
      }
      var elapsed := Wrap64(now - windowStart);
      if windowStart == 0 || elapsed >= Wrap64(2 * c.window) {
        windowStart, prevBytes, currBytes := now, 0, flush;
        return 0;
      }
      Rotate(now);
      until := Judge(now, flush);
    }

    /** `udp_global_rate_check`: everything passes while no rate is configured, otherwise one step of the model. */
    method RateCheck(cpu: nat, now: u64, bytes: nat) returns (v: Verdict)
      requires cpu < |locals|
      modifies this
      ensures c.rate == 0 ==> v == Pass && Shared() == old(Shared()) && locals == old(locals)
      ensures c.rate != 0 ==>
                var s := Bare(old(Shared()), old(locals));
                var op := Rate(cpu, now, bytes);
                && Shared() == Next(c, s, op).g && locals == Next(c, s, op).locals
                && v == Answer(c.window, s, op, Over(c, s, op))
    {
      if c.rate == 0 {
        return Pass;
      }
      v := BlockFastPath(cpu, now);
      if v == Drop {
        return;
      }
      var l := locals[cpu];
      var acc := Wrap64(l.bytes + bytes);
      if acc < BATCH {
        locals := locals[cpu := l.(bytes := acc)];
        return Pass;
      }
      locals := locals[cpu := l.(bytes := 0)];
      var until := FlushBatch(now, acc);
      if until != 0 {
        locals := locals[cpu := Local(0, until)];
        v := Drop;
      }
    }
  }
}
