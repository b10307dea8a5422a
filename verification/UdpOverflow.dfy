/**
  How wide the window of the UDP limiter may be: whenever the largest scaled sum
  does not fit into 64 bits, some run from the start has a batch misjudged.
 */
module UdpOverflow {
  import opened Words
  import opened Division
  import opened SpanBound
  import opened UdpLimiter
  import opened UdpWindow

  // ---------------------------------------------------------------- misjudged batches

  /** The comparison of a batch in state `g` answers otherwise than over unbounded integers. */
  predicate Differs(c: Config, g: Global, now: u64, f: u64)
    requires g.start <= now
  {
    Exceeds(c, g, now, f) != ExceedsExactly(c, g.prev, g.curr, now - g.start, f)
  }

  /** The operation reaches the comparison, which answers wrongly. */
  predicate Misjudges(c: Config, s: System, op: Op)
    requires op.cpu < |s.locals|
  {
    && Flushes(s, op) && !(s.g.blocked != 0 && op.now < s.g.blocked) && !Fresh(c.window, s.g, op.now)
    && var g, flush := Rotated(c.window, s.g, op.now), Accumulated(s, op);
    g.start <= op.now && Differs(c, g, op.now, flush)
  }

  /** The last operation of a run is misjudged. */
  predicate MisjudgedRun(c: Config, cpus: nat, ops: seq<Op>)
    requires Admissible(ops, cpus)
  {
    ops != [] && Misjudges(c, Exec(c, cpus, ops[..|ops| - 1]), ops[|ops| - 1])
  }

  lemma JudgedRight(c: Config, s: System, clock: int, op: Op)
    requires WindowConfig(c, MAX_FLUSH) && Fits(c, MAX_FLUSH)
    requires BucketSound(c, MAX_FLUSH, s, clock) && Poised(c, MAX_FLUSH, s.g, clock)
    requires op.cpu < |s.locals| && clock <= op.now < 0x8000_0000_0000_0000 && Accumulated(s, op) <= MAX_FLUSH
    ensures !Misjudges(c, s, op)
  {
    if !Fresh(c.window, s.g, op.now) {
      ComparisonJustified(c, MAX_FLUSH, s, clock, op.now, Accumulated(s, op));
    }
  }

  /** No run is misjudged when the largest sum fits. */
  lemma FitsNeverMisjudges(c: Config, cpus: nat, ops: seq<Op>)
    requires Admissible(ops, cpus) && c.window > 0 && Fits(c, MAX_FLUSH)
    ensures !MisjudgedRun(c, cpus, ops)
  {
    if ops != [] {
      var before, op := ops[..|ops| - 1], ops[|ops| - 1];
      LargestBatchBound(c, cpus, before);
      EveryRunWindowSound(c, cpus, before, MAX_FLUSH);
      FitsIsNarrow(c, MAX_FLUSH);
      Ledger(c, cpus, before);
      AccumulatedExact(Exec(c, cpus, before), op);
      JudgedRight(c, Exec(c, cpus, before), Clock(before), op);
    }
  }

  // ---------------------------------------------------------------- runs of one CPU

  /** One CPU that has nothing accumulated. */
  predicate Ready(s: System, g: Global)
  {
    s.g == g && s.locals == [Local(0, 0)] && |s.refusals| == |s.lost| == 1
  }

  /** The part of a batch that is accumulated first. */
  function First(f: nat): (n: nat) { if f > MAX_PACKET then f - MAX_PACKET else 0 }

  /** Two packets that make up a batch of `f` bytes. */
  function Hand(f: nat, now: u64): (ops: seq<Op>)
    requires BATCH <= f
  {
    [Rate(0, now, First(f)), Rate(0, now, f - First(f))]
  }

  lemma HandAdmissible(ops: seq<Op>, f: nat, now: u64)
    requires Admissible(ops, 1) && Clock(ops) <= now && 0 < now < 0x8000_0000_0000_0000 && BATCH <= f <= MAX_FLUSH
    ensures Admissible(ops + Hand(f, now), 1) && Clock(ops + Hand(f, now)) == now
  {
  }

  lemma ExecPlus(c: Config, cpus: nat, ops: seq<Op>, op: Op)
    requires Admissible(ops + [op], cpus)
    ensures Admissible(ops, cpus) && op.cpu < cpus
    ensures Exec(c, cpus, ops + [op]) == Next(c, Exec(c, cpus, ops), op)
  {
    var all := ops + [op];
    assert all[..|all| - 1] == ops && all[|ops|] == op;
    assert forall i :: 0 <= i < |ops| ==> all[i] == ops[i];
  }

  /** The first packet of a batch only adds to what its CPU holds, whatever the comparison would say. */
  lemma FirstHeld(window: u64, s: System, g: Global, f: nat, now: u64, over: bool)
    requires Ready(s, g) && BATCH <= f <= MAX_FLUSH
    ensures Step(window, s, Rate(0, now, First(f)), over) ==
            s.(locals := [Local(First(f), 0)], passed := s.passed + First(f))
  {
    var op := Rate(0, now, First(f));
    assert Accumulated(s, op) == First(f) < BATCH;
    assert s.locals[0 := Local(First(f), 0)] == [Local(First(f), 0)];
  }

  /** A CPU that holds the first packet of a batch. */
  predicate Holding(s: System, g: Global, f: nat)
    requires BATCH <= f <= MAX_FLUSH
  {
    s.g == g && s.locals == [Local(First(f), 0)] && |s.refusals| == |s.lost| == 1
  }

  /** The second packet hands the batch to the shared window. */
  lemma SecondFlushes(s: System, g: Global, f: nat, now: u64)
    requires BATCH <= f <= MAX_FLUSH && Holding(s, g, f)
    ensures var op := Rate(0, now, f - First(f));
            Flushes(s, op) && Accumulated(s, op) == f
  {
  }

  lemma SecondTaken(c: Config, s: System, g: Global, f: nat, now: u64, answer: (Global, u64))
    requires BATCH <= f <= MAX_FLUSH && Holding(s, g, f)
    requires answer == Flush(c.window, g, now, f, Exceeds(c, Rotated(c.window, g, now), now, f)) && answer.1 == 0
    ensures Ready(Next(c, s, Rate(0, now, f - First(f))), answer.0)
  {
    SecondFlushes(s, g, f, now);
    assert s.locals[0 := Local(0, 0)] == [Local(0, 0)];
  }

  /** What a batch of `f` bytes at `now` leaves when it is not refused. */
  function Left(window: u64, g: Global, f: u64, now: u64): (r: Global)
  {
    if Fresh(window, g, now) then Global(now, 0, f, 0)
    else
      var g1 := Rotated(window, g, now);
      g1.(curr := Wrap64(g1.curr + f))
  }

  lemma TakenFlush(window: u64, g: Global, f: u64, now: u64, over: bool)
    requires g.blocked == 0 && (Fresh(window, g, now) || !over)
    ensures Flush(window, g, now, f, over) == (Left(window, g, f, now), 0)
  {
  }

  /** The two packets of a batch, in the states they meet. */
  lemma HandStates(c: Config, ops: seq<Op>, f: nat, now: u64, g: Global) returns (held: seq<Op>, op: Op, all: seq<Op>)
    requires Admissible(ops, 1) && Clock(ops) <= now && 0 < now < 0x8000_0000_0000_0000 && BATCH <= f <= MAX_FLUSH
    requires Ready(Exec(c, 1, ops), g)
    ensures op == Rate(0, now, f - First(f)) && all != [] && all[..|all| - 1] == held && all[|all| - 1] == op
    ensures Admissible(all, 1) && Clock(all) == now && Admissible(held, 1)
    ensures Holding(Exec(c, 1, held), g, f) && Exec(c, 1, all) == Next(c, Exec(c, 1, held), op)
  {
    HandAdmissible(ops, f, now);
    var one, two := Rate(0, now, First(f)), Rate(0, now, f - First(f));
    held, op, all := ops + [one], two, ops + Hand(f, now);
    assert all == ops + [one] + [two];
    ExecPlus(c, 1, ops + [one], two);
    ExecPlus(c, 1, ops, one);
    FirstHeld(c.window, Exec(c, 1, ops), g, f, now, Over(c, Exec(c, 1, ops), one));
  }

  // ---------------------------------------------------------------- totals within one window

  /** The comparison of a total of `k` bytes, nothing of it from the previous bucket, goes wrong. */
  predicate Wrong(c: Config, k: nat)
  {
    (k > c.rate) != (Wrap64(k * c.window) > Wrap64(c.rate * c.window))
  }

  lemma Mono(a: int, b: int, w: int)
    requires w > 0 && a <= b
    ensures a * w <= b * w
  {
    ProductBound(0, 0, b - a, w);
    Distribute(b, a, w);
  }

  /** Both comparisons at the time the bucket began. */
  lemma AtStart(c: Config, curr: nat, f: nat)
    requires c.window > 0 && curr < 0x1_0000_0000 && f <= MAX_FLUSH
    ensures (Exceeds(c, Global(1, 0, curr, 0), 1, f) != ExceedsExactly(c, 0, curr, 0, f)) <==> Wrong(c, curr + f)
    ensures ExceedsExactly(c, 0, curr, 0, f) <==> curr + f > c.rate
  {
    var k, w := curr + f, c.window;
    ExceedsIs(c, Global(1, 0, curr, 0), 1, f);
    Distribute(curr, f, w);
    if k <= c.rate {
      Mono(k, c.rate, w);
    } else {
      Mono(c.rate + 1, k, w);
      Distribute(c.rate, 1, w);
    }
  }

  /** Some run of one CPU ends no later than `clock` with nothing accumulated and the shared state `g`. */
  ghost predicate Reached(c: Config, g: Global, clock: int)
  {
    exists ops :: Admissible(ops, 1) && Clock(ops) <= clock && Ready(Exec(c, 1, ops), g)
  }

  /** Some run of one CPU ends in a misjudged batch. */
  ghost predicate GoesWrong(c: Config)
  {
    exists ops :: Admissible(ops, 1) && MisjudgedRun(c, 1, ops)
  }

  lemma StartReached(c: Config)
    ensures Reached(c, Global(0, 0, 0, 0), 0)
  {
    var ops: seq<Op> := [];
    assert Admissible(ops, 1);
    assert Ready(Exec(c, 1, ops), Global(0, 0, 0, 0)) by {
      assert seq(1, _ => Local(0, 0)) == [Local(0, 0)];
    }
  }

  /** From a reached state, a batch taken leads on. */
  lemma ReachedNext(c: Config, g: Global, clock: int, f: nat, now: u64)
    requires Reached(c, g, clock) && clock <= now && 0 < now < 0x8000_0000_0000_0000 && BATCH <= f <= MAX_FLUSH
    requires g.blocked == 0 && g.start <= now
    requires Fresh(c.window, g, now) || !Exceeds(c, Rotated(c.window, g, now), now, f)
    ensures Reached(c, Left(c.window, g, f, now), now)
  {
    var ops :| Admissible(ops, 1) && Clock(ops) <= clock && Ready(Exec(c, 1, ops), g);
    var held, op, all := HandStates(c, ops, f, now, g);
    TakenFlush(c.window, g, f, now, Exceeds(c, Rotated(c.window, g, now), now, f));
    SecondTaken(c, Exec(c, 1, held), g, f, now, (Left(c.window, g, f, now), 0));
    assert Ready(Exec(c, 1, all), Left(c.window, g, f, now));
  }

  /** From a reached state, a batch judged wrongly ends the run. */
  lemma WrongNext(c: Config, g: Global, clock: int, f: nat, now: u64, g1: Global)
    requires Reached(c, g, clock) && clock <= now && 0 < now < 0x8000_0000_0000_0000 && BATCH <= f <= MAX_FLUSH
    requires g.blocked == 0 && g.start <= now && !Fresh(c.window, g, now)
    requires g1 == Rotated(c.window, g, now) && g1.start <= now && Differs(c, g1, now, f)
    ensures GoesWrong(c)
  {
    var ops :| Admissible(ops, 1) && Clock(ops) <= clock && Ready(Exec(c, 1, ops), g);
    var held, op, all := HandStates(c, ops, f, now, g);
    SecondFlushes(Exec(c, 1, held), g, f, now);
    assert MisjudgedRun(c, 1, all);
  }

  /** A bucket of time 1 that holds `curr` is met by a run. */
  ghost predicate Filled(c: Config, curr: u64) { Reached(c, Global(1, 0, curr, 0), 1) }

  lemma FilledFirst(c: Config, curr: nat)
    requires BATCH <= curr <= MAX_FLUSH
    ensures Filled(c, curr)
  {
    StartReached(c);
    ReachedNext(c, Global(0, 0, 0, 0), 0, curr, 1);
  }

  lemma LeftAtOnce(window: u64, curr: nat, f: nat)
    requires 0 < window < 0x8000_0000_0000_0000 && curr < 0x1_0000_0000 && f <= MAX_FLUSH
    ensures var g := Global(1, 0, curr, 0);
            !Fresh(window, g, 1) && Rotated(window, g, 1) == g && Left(window, g, f, 1) == Global(1, 0, curr + f, 0)
  {
  }

  lemma FilledNext(c: Config, curr: nat, f: nat)
    requires 0 < c.window < 0x8000_0000_0000_0000 && curr < 0x1_0000_0000 && BATCH <= f <= MAX_FLUSH
    requires Filled(c, curr) && !Exceeds(c, Global(1, 0, curr, 0), 1, f)
    ensures Filled(c, curr + f)
  {
    LeftAtOnce(c.window, curr, f);
    ReachedNext(c, Global(1, 0, curr, 0), 1, f, 1);
  }

  lemma FilledWrong(c: Config, curr: nat, f: nat)
    requires 0 < c.window < 0x8000_0000_0000_0000 && curr < 0x1_0000_0000 && BATCH <= f <= MAX_FLUSH
    requires Filled(c, curr) && Differs(c, Global(1, 0, curr, 0), 1, f)
    ensures GoesWrong(c)
  {
    WrongNext(c, Global(1, 0, curr, 0), 1, f, 1, Global(1, 0, curr, 0));
  }

  /** A batch that stays within the rate is charged, unless it is misjudged. */
  lemma FilledOrWrong(c: Config, curr: nat, f: nat)
    requires 0 < c.window < 0x8000_0000_0000_0000 && BATCH <= f <= MAX_FLUSH && curr + f <= c.rate
    requires Filled(c, curr)
    ensures Filled(c, curr + f) || GoesWrong(c)
  {
    AtStart(c, curr, f);
    if Exceeds(c, Global(1, 0, curr, 0), 1, f) {
      FilledWrong(c, curr, f);
    } else {
      FilledNext(c, curr, f);
    }
  }

  /** The bucket is filled to `curr` at time 1, unless a batch on the way is misjudged. */
  lemma {:induction false} Climb(c: Config, curr: nat)
    requires 0 < c.window < 0x8000_0000_0000_0000 && BATCH <= curr && (curr <= MAX_FLUSH || curr <= c.rate)
    ensures Filled(c, curr) || GoesWrong(c)
    decreases curr
  {
    if curr <= MAX_FLUSH {
      FilledFirst(c, curr);
    } else {
      Climb(c, curr - BATCH);
      if Filled(c, curr - BATCH) {
        FilledOrWrong(c, curr - BATCH, BATCH);
      }
    }
  }

  /** Any total the comparison gets wrong is met by a run. */
  lemma AtTotal(c: Config, k: nat)
    requires 0 < c.window < 0x8000_0000_0000_0000
    requires 2 * BATCH <= k <= Cap(c, MAX_FLUSH) + MAX_FLUSH && Wrong(c, k)
    ensures GoesWrong(c)
  {
    var curr := if k <= BATCH + MAX_FLUSH then k - BATCH else if k <= 2 * MAX_FLUSH then MAX_FLUSH else k - MAX_FLUSH;
    Climb(c, curr);
    if Filled(c, curr) {
      AtStart(c, curr, k - curr);
      FilledWrong(c, curr, k - curr);
    }
  }

  // ---------------------------------------------------------------- windows beyond the bound

  /** The first multiple of `w` that reaches `x`. */
  lemma FirstMultiple(x: int, w: int) returns (k: nat)
    requires x > 0 && w > 0
    ensures (k - 1) * w < x <= k * w < x + w && k > 0
  {
    var q := (x - 1) / w;
    Remainder(x - 1, w);
    Distribute(q, 1, w);
    if q < 0 {
      AtLeastOne(-q, w);
      Distribute(0, q, w);
      assert false;
    }
    k := q + 1;
  }

  /** A multiple below `x` is a smaller one. */
  lemma Fewer(k: int, n: int, w: int)
    requires w > 0 && k * w < n * w
    ensures k < n
  {
    if n <= k {
      Mono(n, k, w);
      assert false;
    }
  }

  lemma Wrapped(x: int, q: int, r: int)
    requires x == q * 0x1_0000_0000_0000_0000 + r && 0 <= r < 0x1_0000_0000_0000_0000
    ensures Wrap64(x) == r
  {
  }

  /** A step that carries a word past its end. */
  lemma WrapsNext(x: int, w: int)
    requires x >= 0 && 0 < w < 0x1_0000_0000_0000_0000 && Wrap64(x) + w >= 0x1_0000_0000_0000_0000
    ensures Wrap64(x + w) == Wrap64(x) + w - 0x1_0000_0000_0000_0000 < Wrap64(x)
  {
    Wrapped(x + w, x / 0x1_0000_0000_0000_0000 + 1, Wrap64(x) + w - 0x1_0000_0000_0000_0000);
  }

  /** A step back that carries a word below zero. */
  lemma WrapsBack(x: int, w: int)
    requires 0 <= Wrap64(x) < w < 0x1_0000_0000_0000_0000
    ensures Wrap64(x - w) == Wrap64(x) - w + 0x1_0000_0000_0000_0000 > Wrap64(x)
  {
    Wrapped(x - w, x / 0x1_0000_0000_0000_0000 - 1, Wrap64(x) - w + 0x1_0000_0000_0000_0000);
  }

  /** The threshold fits: the first total beyond 64 bits is taken for a tiny one. */
  lemma ThresholdFits(c: Config) returns (k: nat)
    requires c.rate > 0 && 0 < c.window < 0x8000_0000_0000 && !Fits(c, MAX_FLUSH)
    requires c.rate * c.window < 0x1_0000_0000_0000_0000
    ensures 2 * BATCH <= k <= Cap(c, MAX_FLUSH) + MAX_FLUSH && Wrong(c, k)
  {
    var w, m := c.window, 0x1_0000_0000_0000_0000;
    k := FirstMultiple(m, w);
    Fewer(k - 1, Cap(c, MAX_FLUSH) + MAX_FLUSH, w);
    Fewer(2 * BATCH, k, w);
    Fewer(c.rate, k, w);
    Wrapped(k * w, 1, k * w - m);
    AtLeastOne(c.rate, w);
    NoWrap(0, c.rate * w);
  }

  /** The threshold itself wraps: either a total below the rate is refused, or the one just above it is not. */
  lemma ThresholdWraps(c: Config) returns (k: nat)
    requires 0 < c.window < 0x8000_0000_0000 && c.rate * c.window >= 0x1_0000_0000_0000_0000
    ensures 2 * BATCH <= k <= Cap(c, MAX_FLUSH) + MAX_FLUSH && Wrong(c, k)
  {
    var w, m := c.window, 0x1_0000_0000_0000_0000;
    var n := FirstMultiple(m, w);
    Fewer(n - 1, c.rate, w);
    Fewer(2 * BATCH, n, w);
    Distribute(n, 1, w);
    ProductBound(0, 0, n - 1, w);
    NoWrap((n - 1) * w, 0);
    if (n - 1) * w > Wrap64(c.rate * w) {
      k := n - 1;
    } else {
      k := c.rate + 1;
      Distribute(c.rate, 1, w);
      WrapsNext(c.rate * w, w);
    }
  }

  /** A very wide window and a rate above two batches: the totals next to the rate wrap around. */
  lemma VeryWide(c: Config) returns (k: nat)
    requires 0x8000_0000_0000 <= c.window && c.rate > 2 * BATCH
    ensures 2 * BATCH <= k <= Cap(c, MAX_FLUSH) + MAX_FLUSH && Wrong(c, k)
  {
    var w, m, x := c.window, 0x1_0000_0000_0000_0000, c.rate * c.window;
    ProductBound(0, 0, c.rate, w);
    if Wrap64(x) < w {
      k := c.rate - 1;
      Distribute(c.rate, 1, w);
      WrapsBack(x, w);
    } else {
      var next := (x / m + 1) * m;
      assert next - m <= x < next;
      k := FirstMultiple(next, w);
      Fewer(c.rate, k, w);
      Distribute(c.rate, 2 * BATCH, w);
      assert 2 * BATCH * w >= m;
      Fewer(k - 1, c.rate + 2 * BATCH, w);
      Wrapped(k * w, x / m + 1, k * w - next);
    }
  }

  /** How far past the window the second of two full batches weighs a multiple of 2^64 with the first. */
  function Delay(w: nat): (e: nat) { 2 * w % 0x8000_0000_0000 }

  lemma TwoBatches(c: Config, now: u64)
    requires 0x8000_0000_0000 <= c.window < 0x7FFF_0000_0000_0000 && c.rate <= 2 * BATCH
    requires now == 1 + c.window + Delay(c.window)
    ensures Differs(c, Global(1 + c.window, 2 * BATCH, 0, 0), now, 2 * BATCH)
  {
    var w: int, e, g := c.window, Delay(c.window), Global(1 + c.window, 2 * BATCH, 0, 0);
    var q := 2 * w / 0x8000_0000_0000;
    assert Scaled(c, g, now, 2 * BATCH) == 2 * BATCH * (2 * w - e);
    assert 2 * BATCH * (2 * w - e) == q * 0x1_0000_0000_0000_0000;
    Wrapped(Scaled(c, g, now, 2 * BATCH), q, 0);
    ExceedsIs(c, g, now, 2 * BATCH);
    Mono(c.rate, 2 * BATCH, w);
  }

  lemma OneWindowLater(window: u64, g: Global, now: u64)
    requires 0 < window < 0x8000_0000_0000_0000 && 0 < g.start && g.blocked == 0
    requires g.start + window <= now < g.start + 2 * window
    ensures !Fresh(window, g, now) && Rotated(window, g, now) == Global(g.start + window, g.curr, 0, 0)
  {
    NoWrap(now - g.start, 2 * window);
    NoWrap(g.start + window, 0);
  }

  /** A batch that comes in the window after the bucket was filled. */
  lemma RotatedWrong(c: Config, curr: u64, f: nat, now: u64)
    requires 0 < c.window && 1 + c.window <= now < 1 + 2 * c.window && now < 0x8000_0000_0000_0000
    requires BATCH <= f <= MAX_FLUSH && Filled(c, curr) && Differs(c, Global(1 + c.window, curr, 0, 0), now, f)
    ensures GoesWrong(c)
  {
    OneWindowLater(c.window, Global(1, 0, curr, 0), now);
    WrongNext(c, Global(1, 0, curr, 0), 1, f, now, Global(1 + c.window, curr, 0, 0));
  }

  /** A very wide window and a small rate: the bucket is rotated, and the time elapsed makes up the difference. */
  lemma SmallRate(c: Config)
    requires 0x8000_0000_0000 <= c.window < 0x7FFF_0000_0000_0000 && c.rate <= 2 * BATCH
    ensures GoesWrong(c)
  {
    var now := 1 + c.window + Delay(c.window);
    TwoBatches(c, now);
    FilledFirst(c, 2 * BATCH);
    RotatedWrong(c, 2 * BATCH, 2 * BATCH, now);
  }

  /** Beyond the bound, one CPU and packets of legal size suffice for a run whose last batch is misjudged. */
  lemma WideWindowMisjudges(c: Config)
    requires c.rate > 0 && 0 < c.window < 0x7FFF_0000_0000_0000 && !Fits(c, MAX_FLUSH)
    ensures exists ops :: Admissible(ops, 1) && MisjudgedRun(c, 1, ops)
  {
    if c.window >= 0x8000_0000_0000 && c.rate <= 2 * BATCH {
      SmallRate(c);
    } else {
      var k;
      if c.window >= 0x8000_0000_0000 {
        k := VeryWide(c);
      } else if c.rate * c.window >= 0x1_0000_0000_0000_0000 {
        k := ThresholdWraps(c);
      } else {
        k := ThresholdFits(c);
      }
      AtTotal(c, k);
    }
    assert GoesWrong(c);
  }

  /** So no run from the start is ever misjudged exactly when the largest sum fits. */
  lemma ExactIffFits(c: Config)
    requires c.rate > 0 && 0 < c.window < 0x7FFF_0000_0000_0000
    ensures (forall cpus: nat, ops: seq<Op> :: Admissible(ops, cpus) ==> !MisjudgedRun(c, cpus, ops)) <==>
            Fits(c, MAX_FLUSH)
  {
    if Fits(c, MAX_FLUSH) {
      forall cpus: nat, ops: seq<Op> | Admissible(ops, cpus) ensures !MisjudgedRun(c, cpus, ops) {
        FitsNeverMisjudges(c, cpus, ops);
      }
    } else {
      WideWindowMisjudges(c);
    }
  }
}
