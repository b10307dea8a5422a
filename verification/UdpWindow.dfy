/**
  What the shared sliding window of the UDP limiter guarantees: its 64-bit
  comparison is exact, its buckets are a window apart and bounded, and an
  active block charges nothing.
 */
module UdpWindow {
  import opened Words
  import opened Division
  import opened SpanBound
  import opened UdpLimiter

  /** The most one bucket can take: the configured rate, or one batch of up to `most` bytes into an empty bucket. */
  function Cap(c: Config, most: nat): (r: nat) { if c.rate > most then c.rate else most }

  /** The largest scaled sum a run can put before the comparison fits into 64 bits. */
  predicate Fits(c: Config, most: nat) { (Cap(c, most) + most) * c.window < 0x1_0000_0000_0000_0000 }

  predicate WindowConfig(c: Config, most: nat)
  {
    0 < c.window < 0x8000_0000_0000 && BATCH <= most < 0x1_0000_0000
  }

  // ---------------------------------------------------------------- arithmetic

  lemma ProductBound(a: nat, b: nat, x: nat, y: nat)
    requires a <= x && b <= y
    ensures 0 <= a * b <= x * y
  {
    assert a * b <= x * b;
    assert x * b <= x * y;
  }

  lemma CancelWindow(a: int, b: int, w: int)
    requires w > 0 && a * w <= b * w
    ensures a <= b
  {
    assert a > b ==> (a - b) * w > 0;
  }

  /** Only a narrow window fits. */
  lemma FitsIsNarrow(c: Config, most: nat)
    requires c.window > 0 && BATCH <= most < 0x1_0000_0000 && Fits(c, most)
    ensures WindowConfig(c, most)
  {
    ProductBound(2 * BATCH, c.window, Cap(c, most) + most, c.window);
  }

  /** Windows up to 4.29 s fit whatever the rate and the packets. */
  lemma SecondsFit(c: Config)
    requires c.window <= 0xFFFD_FFDA
    ensures Fits(c, MAX_FLUSH)
  {
    ProductBound(Cap(c, MAX_FLUSH) + MAX_FLUSH, c.window, 0xFFFF_FFFF + MAX_FLUSH, 0xFFFD_FFDA);
  }

  /** The comparison the program means, over unbounded integers. */
  function ExceedsExactly(c: Config, prev: nat, curr: nat, elapsed: nat, flush: nat): (r: bool)
  {
    prev * (c.window - elapsed) + curr * c.window + flush * c.window > c.rate * c.window
  }

  /** The left side of the comparison, before wrap-around. */
  function Scaled(c: Config, g: Global, now: u64, flush: u64): (x: int)
  {
    g.prev * (c.window - (now - g.start)) + g.curr * c.window + flush * c.window
  }

  lemma ExceedsIs(c: Config, g: Global, now: u64, flush: u64)
    requires g.start <= now
    ensures Exceeds(c, g, now, flush) <==> Wrap64(Scaled(c, g, now, flush)) > Wrap64(c.rate * c.window)
    ensures ExceedsExactly(c, g.prev, g.curr, now - g.start, flush) <==> Scaled(c, g, now, flush) > c.rate * c.window
  {
    assert Wrap64(now - g.start) == now - g.start;
  }

  lemma RoomLeft(curr: nat, flush: nat, rate: nat, w: int)
    requires w > 0 && curr * w + flush * w <= rate * w
    ensures curr + flush <= rate
  {
    assert curr * w + flush * w == (curr + flush) * w;
    CancelWindow(curr + flush, rate, w);
  }

  lemma RoomAfter(prev: nat, curr: nat, flush: nat, rate: nat, w: int, e: nat)
    requires w > 0 && e <= w && prev * (w - e) + curr * w + flush * w <= rate * w
    ensures curr + flush <= rate
  {
    ProductBound(0, 0, prev, w - e);
    RoomLeft(curr, flush, rate, w);
  }

  lemma NoWrap(x: int, t: int)
    requires 0 <= x < 0x1_0000_0000_0000_0000 && 0 <= t < 0x1_0000_0000_0000_0000
    ensures Wrap64(x) == x && Wrap64(t) == t
  {
  }

  // ---------------------------------------------------------------- what the two buckets weigh

  /** The buckets, weighed as the comparison weighs them at `now`, do not exceed what one bucket may take. */
  predicate Weighed(c: Config, most: nat, g: Global, now: int)
  {
    g.prev * (c.window - (now - g.start)) + g.curr * c.window <= Cap(c, most) * c.window
  }

  lemma WeighsLess(c: Config, most: nat, g: Global, now: int, later: int)
    requires Weighed(c, most, g, now) && now <= later
    ensures Weighed(c, most, g, later)
  {
    ProductBound(0, 0, g.prev, later - now);
    assert g.prev * (c.window - (now - g.start)) ==
           g.prev * (c.window - (later - g.start)) + g.prev * (later - now);
  }

  lemma FreshWeighs(c: Config, most: nat, now: u64, flush: u64)
    requires flush <= most
    ensures Weighed(c, most, Global(now, 0, flush, 0), now)
  {
    ProductBound(flush, c.window, Cap(c, most), c.window);
  }

  lemma RotatedWeighs(c: Config, most: nat, g: Global, clock: int, now: u64)
    requires Weighed(c, most, g, clock) && clock <= now && g.start <= now && g.curr <= Cap(c, most) && g.blocked == 0
    requires g.start + c.window < 0x1_0000_0000_0000_0000
    ensures Weighed(c, most, Rotated(c.window, g, now), now)
  {
    if now - g.start >= c.window {
      var g1 := Rotated(c.window, g, now);
      var e := now - g1.start;
      if e <= c.window {
        ProductBound(g.curr, c.window - e, Cap(c, most), c.window);
      } else {
        ProductBound(0, 0, g.curr, e - c.window);
        ProductBound(0, 0, Cap(c, most), c.window);
        assert g.curr * (c.window - e) == -(g.curr * (e - c.window));
      }
    } else {
      WeighsLess(c, most, g, clock, now);
    }
  }

  lemma ChargedWeighs(c: Config, most: nat, g: Global, now: u64, flush: u64)
    requires Scaled(c, g, now, flush) <= c.rate * c.window && g.curr + flush < 0x1_0000_0000_0000_0000
    ensures Weighed(c, most, g.(curr := g.curr + flush), now)
  {
    assert (g.curr + flush) * c.window == g.curr * c.window + flush * c.window;
    ProductBound(c.rate, c.window, Cap(c, most), c.window);
  }

  lemma SumFits(c: Config, most: nat, g: Global, now: u64, flush: u64)
    requires Fits(c, most) && Weighed(c, most, g, now) && flush <= most && g.start <= now <= g.start + c.window
    ensures 0 <= Scaled(c, g, now, flush) < 0x1_0000_0000_0000_0000
    ensures 0 <= c.rate * c.window < 0x1_0000_0000_0000_0000
  {
    var w, cap := c.window, Cap(c, most);
    ProductBound(0, 0, g.prev, w - (now - g.start));
    ProductBound(0, 0, g.curr, w);
    ProductBound(flush, w, most, w);
    ProductBound(c.rate, w, cap, w);
    ProductBound(0, 0, most, w);
    assert (cap + most) * w == cap * w + most * w;
  }

  /**
    When the largest sum fits, no term of the scaled comparison overflows 64
    bits on buckets that weigh what they may.
   */
  lemma ComparisonExact(c: Config, most: nat, g: Global, now: u64, flush: u64)
    requires c.window > 0 && Fits(c, most) && Weighed(c, most, g, now) && flush <= most
    requires g.start <= now < g.start + c.window
    ensures Exceeds(c, g, now, flush) == ExceedsExactly(c, g.prev, g.curr, now - g.start, flush)
    ensures !Exceeds(c, g, now, flush) ==> g.curr + flush <= c.rate && Scaled(c, g, now, flush) <= c.rate * c.window
  {
    var x, t := Scaled(c, g, now, flush), c.rate * c.window;
    ExceedsIs(c, g, now, flush);
    SumFits(c, most, g, now, flush);
    NoWrap(x, t);
    if x <= t {
      RoomAfter(g.prev, g.curr, flush, c.rate, c.window, now - g.start);
    }
  }

  // ---------------------------------------------------------------- the invariant

  ghost predicate Ledgered(c: Config, most: nat, charges: seq<Charge>, clock: int)
  {
    && Windowed(charges, c.window)
    && EachAtMost(charges, Cap(c, most))
    && forall i :: 0 <= i < |charges| ==> charges[i].time <= clock && charges[i].time < charges[i].start + c.window
  }

  /** Every batch so far belongs to the bucket that began at `start`, or to one a window before it. */
  ghost predicate Led(charges: seq<Charge>, start: int, window: int)
  {
    forall i :: 0 <= i < |charges| ==> charges[i].start <= start && Follows(charges[i], Charge(0, 0, start), window)
  }

  ghost predicate Tracks(c: Config, most: nat, g: Global, charges: seq<Charge>, clock: int)
  {
    && g.prev <= Cap(c, most) && g.curr <= Cap(c, most)
    && g.start <= clock
    && (g.start == 0 ==> charges == [] && g.blocked == 0)
    && Led(charges, g.start, c.window)
    && g.curr == ChargedTo(charges, g.start)
    && (g.blocked != 0 ==>
          && g.start + c.window <= g.blocked
          && forall i :: 0 <= i < |charges| ==> charges[i].time + c.window <= g.blocked)
  }

  ghost predicate BucketSound(c: Config, most: nat, s: System, clock: int)
  {
    Ledgered(c, most, s.charges, clock) && Tracks(c, most, s.g, s.charges, clock)
  }

  /** Whatever is charged after a block was set is charged no earlier than its deadline. */
  ghost predicate BlocksHold(s: System, clock: int)
  {
    forall b :: 0 <= b < |s.blocks| ==>
      && (s.blocks[b].deadline <= clock || s.blocks[b].deadline == s.g.blocked)
      && s.blocks[b].at <= |s.charges|
      && forall i :: s.blocks[b].at <= i < |s.charges| ==> s.blocks[b].deadline <= s.charges[i].time
  }

  ghost predicate WindowSound(c: Config, most: nat, s: System, clock: int)
  {
    BucketSound(c, most, s, clock) && BlocksHold(s, clock)
  }

  /** Once the last bucket is a window old, a bucket that begins now is new. */
  lemma OpensAt(c: Config, most: nat, charges: seq<Charge>, start: int, clock: int, now: int)
    requires WindowConfig(c, most) && Ledgered(c, most, charges, clock) && Led(charges, start, c.window) && clock <= now
    requires charges != [] ==> start + c.window <= now
    ensures Led(charges, now, c.window) && ChargedTo(charges, now) == 0
  {
    forall i | 0 <= i < |charges| ensures charges[i].start < now && Follows(charges[i], Charge(0, 0, now), c.window) {
      assert Follows(charges[i], Charge(0, 0, start), c.window);
    }
    UntouchedWindow(charges, now);
  }

  /** A batch charged at `now` to the bucket that leads the ledger. */
  lemma ChargeTo(c: Config, most: nat, charges: seq<Charge>, now: int, flush: nat, start: int)
    requires Ledgered(c, most, charges, now) && Led(charges, start, c.window)
    requires start <= now < start + c.window && ChargedTo(charges, start) + flush <= Cap(c, most)
    ensures var next := charges + [Charge(now, flush, start)];
            Ledgered(c, most, next, now) && Led(next, start, c.window)
                && ChargedTo(next, start) == ChargedTo(charges, start) + flush
  {
    var charge := Charge(now, flush, start);
    forall i | 0 <= i < |charges| ensures Follows(charges[i], charge, c.window) {
      assert Follows(charges[i], Charge(0, 0, start), c.window);
    }
    Extend(charges, c.window, Cap(c, most), charge);
    assert Follows(charge, Charge(0, 0, start), c.window);
  }

  /** A batch into a new bucket at `now`. */
  lemma FreshBucket(c: Config, most: nat, s: System, clock: int, now: u64, flush: u64)
    requires WindowConfig(c, most) && BucketSound(c, most, s, clock) && clock <= now && 0 < now && flush <= most
    requires s.charges != [] ==> s.g.start + c.window <= now
    ensures BucketSound(c, most, s.(g := Global(now, 0, flush, 0), charges := s.charges + [Charge(now, flush, now)]),
            now)
  {
    OpensAt(c, most, s.charges, s.g.start, clock, now);
    ChargeTo(c, most, s.charges, now, flush, now);
  }

  /** Rotating the bucket keeps everything that is known about it. */
  lemma RotateBucket(c: Config, most: nat, s: System, clock: int, now: u64)
    requires WindowConfig(c, most) && BucketSound(c, most, s, clock) && clock <= now < 0x8000_0000_0000_0000
    requires s.g.blocked == 0 && s.g.start != 0 && now - s.g.start < 2 * c.window
    ensures var g1 := Rotated(c.window, s.g, now);
            && g1.start <= now < g1.start + c.window
            && BucketSound(c, most, s.(g := g1), now)
  {
    var g1 := Rotated(c.window, s.g, now);
    if now - s.g.start >= c.window {
      RotatedLeads(c, most, s.charges, s.g.start, clock);
    }
  }

  lemma RotatedLeads(c: Config, most: nat, charges: seq<Charge>, start: int, clock: int)
    requires WindowConfig(c, most) && Ledgered(c, most, charges, clock) && Led(charges, start, c.window)
    ensures Led(charges, start + c.window, c.window) && ChargedTo(charges, start + c.window) == 0
  {
    var next := start + c.window;
    forall i | 0 <= i < |charges| ensures charges[i].start < next && Follows(charges[i], Charge(0, 0, next), c.window) {
      assert Follows(charges[i], Charge(0, 0, start), c.window);
    }
    UntouchedWindow(charges, next);
  }

  /** A batch charged to the current bucket after the comparison allowed it. */
  lemma CurrentBucket(c: Config, most: nat, s: System, now: u64, flush: u64)
    requires WindowConfig(c, most) && BucketSound(c, most, s, now) && flush <= most
    requires s.g.blocked == 0 && s.g.start != 0 && s.g.start <= now < s.g.start + c.window
    requires s.g.curr + flush <= c.rate
    ensures var s' := s.(g := s.g.(curr := s.g.curr + flush), charges := s.charges + [Charge(now, flush, s.g.start)]);
            BucketSound(c, most, s', now)
  {
    ChargeTo(c, most, s.charges, now, flush, s.g.start);
  }

  /** Refusing a batch blocks for a window from now, longer than anything charged so far. */
  lemma BlockedBucket(c: Config, most: nat, s: System, now: u64)
    requires WindowConfig(c, most) && BucketSound(c, most, s, now) && s.g.start != 0
    requires now < 0x8000_0000_0000_0000
    ensures BucketSound(c, most, s.(g := s.g.(blocked := now + c.window)), now)
  {
  }

  // ---------------------------------------------------------------- steps and runs

  lemma ChargedAfterBlocks(s: System, clock: int, charge: Charge, g: Global)
    requires BlocksHold(s, clock) && clock <= charge.time && 0 <= charge.time && g.blocked == 0
    requires s.g.blocked == 0 || s.g.blocked <= charge.time
    ensures BlocksHold(s.(g := g, charges := s.charges + [charge]), charge.time)
  {
  }

  lemma BlockAdded(c: Config, most: nat, s: System, clock: int, now: u64, g: Global)
    requires BlocksHold(s, clock) && clock <= now && (s.g.blocked == 0 || s.g.blocked <= now)
    requires g.blocked == now + c.window
    ensures BlocksHold(s.(g := g, blocks := s.blocks + [Block(|s.charges|, now + c.window)]), now)
  {
  }

  /** The bucket before the critical section is either replaced after a full window or still comparable. */
  lemma ReplacedAfterWindow(c: Config, most: nat, s: System, clock: int, now: u64)
    requires WindowConfig(c, most) && BucketSound(c, most, s, clock) && clock <= now < 0x8000_0000_0000_0000
    requires s.g.blocked == 0 || s.g.blocked <= now
    ensures Fresh(c.window, s.g, now) && s.charges != [] ==> s.g.start + c.window <= now
    ensures !Fresh(c.window, s.g, now) ==> s.g.start != 0 && s.g.blocked == 0 && now - s.g.start < 2 * c.window
  {
  }

  /** What the comparison must establish when it lets a batch through. */
  ghost predicate Justified(c: Config, most: nat, g: Global, now: u64, flush: u64, over: bool)
  {
    !over && !Fresh(c.window, g, now) ==> Rotated(c.window, g, now).curr + flush <= c.rate
  }

  lemma ComparedFlush(c: Config, most: nat, s: System, clock: int, now: u64, flush: u64, over: bool)
    requires WindowConfig(c, most) && WindowSound(c, most, s, clock) && clock <= now && 0 < now < 0x8000_0000_0000_0000
    requires flush <= most && s.g.blocked == 0 && !Fresh(c.window, s.g, now)
    requires Justified(c, most, s.g, now, flush, over)
    ensures var g1 := Rotated(c.window, s.g, now);
            if over then
              WindowSound(c, most, s.(g := g1.(blocked := now + c.window),
                  blocks := s.blocks + [Block(|s.charges|, now + c.window)]), now)
            else
              && g1.curr + flush < 0x1_0000_0000
              && WindowSound(c, most, s.(g := g1.(curr := g1.curr + flush),
                  charges := s.charges + [Charge(now, flush, g1.start)]), now)
  {
    ReplacedAfterWindow(c, most, s, clock, now);
    var g1 := Rotated(c.window, s.g, now);
    RotateBucket(c, most, s, clock, now);
    if over {
      BlockedBucket(c, most, s.(g := g1), now);
      BlockAdded(c, most, s, clock, now, g1.(blocked := now + c.window));
    } else {
      CurrentBucket(c, most, s.(g := g1), now, flush);
      ChargedAfterBlocks(s, clock, Charge(now, flush, g1.start), g1.(curr := g1.curr + flush));
    }
  }

  lemma FreshFlush(c: Config, most: nat, s: System, clock: int, now: u64, flush: u64)
    requires WindowConfig(c, most) && WindowSound(c, most, s, clock) && clock <= now && 0 < now < 0x8000_0000_0000_0000
    requires flush <= most && !(s.g.blocked != 0 && now < s.g.blocked) && Fresh(c.window, s.g, now)
    ensures WindowSound(c, most, s.(g := Global(now, 0, flush, 0), charges := s.charges + [Charge(now, flush, now)]),
            now)
  {
    ReplacedAfterWindow(c, most, s, clock, now);
    FreshBucket(c, most, s, clock, now, flush);
    ChargedAfterBlocks(s, clock, Charge(now, flush, now), Global(now, 0, flush, 0));
  }

  /** The part of the state the window invariant reads. */
  lemma SameWindow(c: Config, most: nat, s: System, s': System, clock: int, clock': int)
    requires WindowSound(c, most, s, clock) && clock <= clock'
    requires s'.g == s.g && s'.charges == s.charges && s'.blocks == s.blocks
    ensures WindowSound(c, most, s', clock')
  {
  }

  lemma BatchWindow(c: Config, most: nat, s: System, clock: int, cpu: nat, now: u64, bytes: nat, residue: nat,
      flush: u64, answer: (Global, u64))
    requires cpu < |s.locals| == |s.refusals| == |s.lost| && clock <= now
    requires var known := s.g.blocked != 0 && now < s.g.blocked;
             if known then answer == (s.g, s.g.blocked) && WindowSound(c, most, s, clock)
             else if answer.1 == 0 then WindowSound(c, most,
                 s.(g := answer.0, charges := s.charges + [Charge(now, flush, answer.0.start)]), now)
             else WindowSound(c, most, s.(g := answer.0, blocks := s.blocks + [Block(|s.charges|, answer.1)]), now)
    ensures WindowSound(c, most, Batch(s, cpu, now, bytes, residue, flush, answer), now)
  {
  }

  /** The critical section by cases. */
  lemma FlushValue(window: u64, g: Global, now: u64, flush: u64, over: bool)
    requires 0 < window < 0x8000_0000_0000_0000 && now < 0x8000_0000_0000_0000
    ensures var g1 := Rotated(window, g, now);
            Flush(window, g, now, flush, over) ==
              if g.blocked != 0 && now < g.blocked then (g, g.blocked)
              else if Fresh(window, g, now) then (Global(now, 0, flush, 0), 0)
              else if over then (g1.(blocked := now + window), now + window)
              else (g1.(curr := Wrap64(g1.curr + flush)), 0)
  {
  }

  /** A step that reaches the critical section. */
  lemma FlushedWindow(c: Config, most: nat, s: System, clock: int, cpu: nat, now: u64, bytes: nat, residue: nat,
      flush: u64, over: bool)
    requires WindowConfig(c, most) && WindowSound(c, most, s, clock)
    requires cpu < |s.locals| == |s.refusals| == |s.lost|
    requires clock <= now && 0 < now < 0x8000_0000_0000_0000 && flush <= most
    requires Justified(c, most, s.g, now, flush, over)
    ensures WindowSound(c, most, Batch(s, cpu, now, bytes, residue, flush, Flush(c.window, s.g, now, flush, over)), now)
  {
    FlushValue(c.window, s.g, now, flush, over);
    if !(s.g.blocked != 0 && now < s.g.blocked) {
      if Fresh(c.window, s.g, now) {
        FreshFlush(c, most, s, clock, now, flush);
      } else {
        ReplacedAfterWindow(c, most, s, clock, now);
        ComparedFlush(c, most, s, clock, now, flush, over);
      }
    }
    BatchWindow(c, most, s, clock, cpu, now, bytes, residue, flush, Flush(c.window, s.g, now, flush, over));
  }

  /** Does this operation hand a batch to the shared window? */
  predicate Flushes(s: System, op: Op)
    requires op.cpu < |s.locals|
  {
    FastPath(s.locals[op.cpu], op.now).1 == Pass && op.Rate? && Accumulated(s, op) >= BATCH
  }

  lemma StepWindow(c: Config, most: nat, s: System, clock: int, op: Op, over: bool)
    requires WindowConfig(c, most) && WindowSound(c, most, s, clock)
    requires op.cpu < |s.locals| == |s.refusals| == |s.lost|
    requires clock <= op.now && 0 < op.now < 0x8000_0000_0000_0000
    requires Flushes(s, op) ==> Accumulated(s, op) <= most && Justified(c, most, s.g, op.now, Accumulated(s, op), over)
    ensures WindowSound(c, most, Step(c.window, s, op, over), op.now)
  {
    var now, acc := op.now, Accumulated(s, op);
    var (l, v) := FastPath(s.locals[op.cpu], now);
    if Flushes(s, op) {
      FlushedWindow(c, most, s, clock, op.cpu, now, op.bytes, l.bytes, acc, over);
    } else {
      SameWindow(c, most, s, Step(c.window, s, op, over), clock, now);
    }
  }

  /** Buckets that will be compared, rather than replaced, weigh what they may. */
  ghost predicate Poised(c: Config, most: nat, g: Global, clock: int)
  {
    g.start != 0 && g.blocked == 0 ==> Weighed(c, most, g, clock)
  }

  /** The comparison made in this state is exact, and justifies what it lets through. */
  lemma ComparisonJustified(c: Config, most: nat, s: System, clock: int, now: u64, flush: u64)
    requires WindowConfig(c, most) && Fits(c, most) && BucketSound(c, most, s, clock) && Poised(c, most, s.g, clock)
    requires clock <= now < 0x8000_0000_0000_0000 && flush <= most && !Fresh(c.window, s.g, now)
    ensures var g1 := Rotated(c.window, s.g, now);
            && g1.start <= now < g1.start + c.window
            && Exceeds(c, g1, now, flush) == ExceedsExactly(c, g1.prev, g1.curr, now - g1.start, flush)
            && (!Exceeds(c, g1, now, flush) ==>
                g1.curr + flush <= c.rate && Scaled(c, g1, now, flush) <= c.rate * c.window)
  {
    ReplacedAfterWindow(c, most, s, clock, now);
    RotateBucket(c, most, s, clock, now);
    RotatedWeighs(c, most, s.g, clock, now);
    ComparisonExact(c, most, Rotated(c.window, s.g, now), now, flush);
  }

  lemma ChargedPoised(c: Config, most: nat, g: Global, now: u64, flush: u64)
    requires Scaled(c, g, now, flush) <= c.rate * c.window && g.curr + flush < 0x1_0000_0000_0000_0000
    ensures Poised(c, most, g.(curr := Wrap64(g.curr + flush)), now)
  {
    NoWrap(g.curr + flush, 0);
    ChargedWeighs(c, most, g, now, flush);
  }

  /** What a batch leaves weighs what it may; `g1` is what it was compared with. */
  lemma FlushWeighs(c: Config, most: nat, g: Global, now: u64, flush: u64, over: bool, g1: Global)
    requires 0 < c.window < 0x8000_0000_0000_0000 && now < 0x8000_0000_0000_0000 && flush <= most && g.blocked <= now
    requires g1 == Rotated(c.window, g, now)
    requires !over && !Fresh(c.window, g, now) ==>
               Scaled(c, g1, now, flush) <= c.rate * c.window && g1.curr + flush < 0x1_0000_0000_0000_0000
    ensures Poised(c, most, Flush(c.window, g, now, flush, over).0, now)
  {
    FlushValue(c.window, g, now, flush, over);
    if Fresh(c.window, g, now) {
      FreshWeighs(c, most, now, flush);
    } else if !over {
      ChargedPoised(c, most, g1, now, flush);
    }
  }

  lemma NextWindow(c: Config, most: nat, s: System, clock: int, op: Op)
    requires WindowConfig(c, most) && Fits(c, most) && WindowSound(c, most, s, clock)
    requires op.cpu < |s.locals| == |s.refusals| == |s.lost|
    requires clock <= op.now && 0 < op.now < 0x8000_0000_0000_0000 && (Flushes(s, op) ==> Accumulated(s, op) <= most)
    requires Poised(c, most, s.g, clock)
    ensures WindowSound(c, most, Next(c, s, op), op.now)
  {
    if Flushes(s, op) && !Fresh(c.window, s.g, op.now) {
      ComparisonJustified(c, most, s, clock, op.now, Accumulated(s, op));
    }
    StepWindow(c, most, s, clock, op, Over(c, s, op));
  }

  lemma NextBalanced(c: Config, most: nat, s: System, clock: int, op: Op)
    requires WindowConfig(c, most) && Fits(c, most) && BucketSound(c, most, s, clock)
    requires op.cpu < |s.locals| == |s.refusals| == |s.lost|
    requires clock <= op.now && 0 < op.now < 0x8000_0000_0000_0000 && (Flushes(s, op) ==> Accumulated(s, op) <= most)
    requires Poised(c, most, s.g, clock)
    ensures Poised(c, most, Next(c, s, op).g, op.now)
  {
    var now, acc := op.now, Accumulated(s, op);
    if Flushes(s, op) && s.g.blocked <= now {
      if !Fresh(c.window, s.g, now) {
        ComparisonJustified(c, most, s, clock, now, acc);
      }
      FlushWeighs(c, most, s.g, now, acc, Over(c, s, op), Rotated(c.window, s.g, now));
    } else if s.g.start != 0 && s.g.blocked == 0 {
      WeighsLess(c, most, s.g, clock, now);
    }
  }

  /** The largest batch any CPU handed to the shared window during a run, or the batch size if that is more. */
  function LargestBatch(c: Config, cpus: nat, ops: seq<Op>): (n: nat)
    requires Admissible(ops, cpus)
    ensures n >= BATCH
  {
    if ops == [] then BATCH
    else
      var before, op := ops[..|ops| - 1], ops[|ops| - 1];
      var s, n := Exec(c, cpus, before), LargestBatch(c, cpus, before);
      if Flushes(s, op) && Accumulated(s, op) > n then Accumulated(s, op) else n
  }

  /** No batch is larger than a residue and a packet. */
  lemma {:induction false} LargestBatchBound(c: Config, cpus: nat, ops: seq<Op>)
    requires Admissible(ops, cpus)
    ensures LargestBatch(c, cpus, ops) <= MAX_FLUSH
  {
    if ops != [] {
      var before := ops[..|ops| - 1];
      LargestBatchBound(c, cpus, before);
      Ledger(c, cpus, before);
      AccumulatedExact(Exec(c, cpus, before), ops[|ops| - 1]);
    }
  }

  /** Over every multi-CPU run: exact buckets a window apart, each bounded, and blocks that hold. */
  lemma {:induction false} EveryRunWindowSound(c: Config, cpus: nat, ops: seq<Op>, most: nat)
    requires Admissible(ops, cpus) && c.window > 0 && LargestBatch(c, cpus, ops) <= most < 0x1_0000_0000
    requires Fits(c, most)
    ensures WindowSound(c, most, Exec(c, cpus, ops), Clock(ops))
    ensures Poised(c, most, Exec(c, cpus, ops).g, Clock(ops))
  {
    FitsIsNarrow(c, most);
    if ops != [] {
      var before := ops[..|ops| - 1];
      EveryRunWindowSound(c, cpus, before, most);
      NextWindow(c, most, Exec(c, cpus, before), Clock(before), ops[|ops| - 1]);
      NextBalanced(c, most, Exec(c, cpus, before), Clock(before), ops[|ops| - 1]);
    }
  }

  /** Any span of one window charges at most twice the rate, or twice the largest batch of the run if that is more. */
  lemma GlobalRateBound(c: Config, cpus: nat, ops: seq<Op>, from: int)
    requires Admissible(ops, cpus) && c.window > 0 && Fits(c, LargestBatch(c, cpus, ops))
    ensures ChargedWithin(Exec(c, cpus, ops).charges, from, from + c.window) <= 2 * Cap(c, LargestBatch(c, cpus, ops))
  {
    var most := LargestBatch(c, cpus, ops);
    LargestBatchBound(c, cpus, ops);
    EveryRunWindowSound(c, cpus, ops, most);
    TwiceTheLimit(Exec(c, cpus, ops).charges, c.window, Cap(c, most), from, from + c.window);
  }
}
