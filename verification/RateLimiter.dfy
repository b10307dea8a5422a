/**
  The per-key windowed rate limiter (`WINDOW_RATE_CHECK`): a 64-bit word holds
  the tick at which the window opened and what it has admitted since, and both
  change in one compare-and-swap.  Ticks are one millisecond, kept modulo 2^32.
 */
module RateLimiter {
  import opened Words
  import opened SpanBound

  const RETRIES: nat := 16

  datatype Config = Config(limit: u32, windowNs: u64)

  datatype Request = Request(now: nat, inc: nat)

  /** Milliseconds since boot, before truncation to 32 bits. */
  function Tick(now: nat): (r: nat) { now / 1_000_000 }

  /** Window length in ticks: rounded up, at least one, below half the tick range. */
  function WindowTicks(ns: u64): (r: int)
    ensures 1 <= r <= 0x7FFF_FFFF
    ensures r * 1_000_000 >= ns || r == 0x7FFF_FFFF
    ensures r == 1 || (r - 1) * 1_000_000 < ns
  {
    var ticks := ns / 1_000_000 + if ns % 1_000_000 != 0 then 1 else 0;
    if ticks == 0 then 1 else if ticks > 0x7FFF_FFFF then 0x7FFF_FFFF else ticks
  }

  /** The word one attempt would store after reading `cell`, or None when it drops instead. */
  function Decide(c: Config, cell: Option<u64>, now: nat, inc: nat): (r: Option<u64>)
  {
    if inc > c.limit || inc > 0xFFFF_FFFF then None
    else
      match cell
      case None => Some(Pack(Low32(Tick(now)), inc))
      case Some(w) =>
        if Sub32(Low32(Tick(now)), High(w)) >= WindowTicks(c.windowNs) then
          Some(Pack(Low32(Tick(now)), inc))
        else if Low(w) > c.limit || inc > c.limit - Low(w) then None
        else Some(Pack(High(w), Low(w) + inc))
  }

  // ---------------------------------------------------------------- runs

  /** The stored word together with every admission it accounts for, dated in untruncated ticks. */
  datatype Ledger = Ledger(cell: Option<u64>, charges: seq<Charge>)

  function Opens(c: Config, cell: Option<u64>, now: nat): (r: bool)
  {
    cell.None? || Sub32(Low32(Tick(now)), High(cell.value)) >= WindowTicks(c.windowNs)
  }

  /** One request served atomically. */
  function Serve(c: Config, l: Ledger, r: Request): (l': Ledger)
  {
    var next := Decide(c, l.cell, r.now, r.inc);
    if next.None? then l
    else
      var start := if Opens(c, l.cell, r.now) || l.charges == [] then Tick(r.now) else l.charges[|l.charges| - 1].start;
      Ledger(next, l.charges + [Charge(Tick(r.now), r.inc, start)])
  }

  function Run(c: Config, rs: seq<Request>): (l: Ledger)
  {
    if rs == [] then Ledger(None, []) else Serve(c, Run(c, rs[..|rs| - 1]), rs[|rs| - 1])
  }

  ghost predicate ClockOrdered(rs: seq<Request>)
  {
    forall i, j :: 0 <= i < j < |rs| ==> rs[i].now <= rs[j].now
  }

  /** Everything charged to the window that began at `start` still saw it as current. */
  ghost predicate InWindow(log: seq<Charge>, start: int, width: int)
  {
    forall i :: 0 <= i < |log| && log[i].start == start ==> Sub32(Low32(log[i].time), Low32(start)) < width
  }

  /** What the word means: its tick names the last window, its count is all that window admitted. */
  ghost predicate Faithful(c: Config, l: Ledger, clock: nat)
  {
    && Windowed(l.charges, WindowTicks(c.windowNs))
    && EachAtMost(l.charges, c.limit) && Apart(l.charges)
    && (forall i :: 0 <= i < |l.charges| ==> l.charges[i].time <= Tick(clock))
    && (l.cell.None? <==> l.charges == [])
    && (l.cell.Some? ==>
          var start := l.charges[|l.charges| - 1].start;
          && InWindow(l.charges, start, WindowTicks(c.windowNs))
          && ChargedTo(l.charges, start) <= c.limit && l.cell.value == Pack(Low32(start), ChargedTo(l.charges, start)))
  }

  /** A window that opens at `t`, once the last one is a full width old, is new to the ledger. */
  lemma OpensAfter(log: seq<Charge>, width: int, limit: nat, t: int, inc: nat)
    requires log != [] && width > 0 && Windowed(log, width) && EachAtMost(log, limit) && inc <= limit
    requires log[|log| - 1].start + width <= t
    requires Apart(log) && forall i :: 0 <= i < |log| ==> log[i].time < t
    ensures Windowed(log + [Charge(t, inc, t)], width) && EachAtMost(log + [Charge(t, inc, t)], limit)
    ensures ChargedTo(log + [Charge(t, inc, t)], t) == inc
  {
    var last := log[|log| - 1];
    forall i | 0 <= i < |log| ensures Follows(log[i], Charge(t, inc, t), width) && log[i].start != t {
      assert i < |log| - 1 ==> Follows(log[i], last, width);
    }
    UntouchedWindow(log, t);
    Extend(log, width, limit, Charge(t, inc, t));
  }

  /** A tick that finds the window expired is later than every tick that charged it. */
  lemma NotThisTick(log: seq<Charge>, width: int, start: int, t: int)
    requires log != [] && start == log[|log| - 1].start && Windowed(log, width) && Apart(log)
    requires InWindow(log, start, width)
    requires Sub32(Low32(t), Low32(start)) >= width
    requires forall i :: 0 <= i < |log| ==> log[i].time <= t
    ensures forall i :: 0 <= i < |log| ==> log[i].time < t
  {
  }

  /** The current window can take more as long as its total stays within the limit. */
  lemma Continues(log: seq<Charge>, width: int, limit: nat, t: int, inc: nat)
    requires log != [] && Windowed(log, width) && EachAtMost(log, limit)
    requires log[|log| - 1].start <= t && Apart(log) && InWindow(log, log[|log| - 1].start, width)
    requires Sub32(Low32(t), Low32(log[|log| - 1].start)) < width
    requires ChargedTo(log, log[|log| - 1].start) + inc <= limit
    ensures var c := Charge(t, inc, log[|log| - 1].start);
            && Apart(log + [c]) && InWindow(log + [c], c.start, width)
            && Windowed(log + [c], width) && EachAtMost(log + [c], limit)
            && ChargedTo(log + [c], c.start) == ChargedTo(log, c.start) + inc
  {
    var last := log[|log| - 1];
    var c := Charge(t, inc, last.start);
    forall i | 0 <= i < |log| ensures Follows(log[i], c, width) {
      assert i < |log| - 1 ==> Follows(log[i], last, width);
    }
    Extend(log, width, limit, c);
  }

  /** Ticks since the window opened, as far as 32 bits show them. */
  function Gap(start: int, now: nat): (n: nat) { (Tick(now) - start) % 0x1_0000_0000 }

  /**
    The decision in terms of what the word stands for, whatever it counts: an
    increment within the limit is admitted exactly when the window has run out or
    still has room, and what is stored says so.
   */
  lemma DecideMeans(c: Config, start: int, count: u32, now: nat, inc: nat)
    requires start <= Tick(now)
    ensures var cell := Some(Pack(Low32(start), count));
            var next, over := Decide(c, cell, now, inc), Gap(start, now) >= WindowTicks(c.windowNs);
            && (Opens(c, cell, now) <==> over)
            && (over ==> start + WindowTicks(c.windowNs) <= Tick(now))
            && (next.Some? <==> inc <= c.limit && (over || count + inc <= c.limit))
            && (next.Some? ==>
                  next.value == if over then Pack(Low32(Tick(now)), inc) else Pack(Low32(start), count + inc))
  {
    Unpack(Low32(start), count);
    WrappedGap(Tick(now), start);
  }

  /** A window just opened holds only the charge that opened it. */
  lemma JustOpened(log: seq<Charge>, width: int, t: int, inc: nat)
    requires width > 0 && Apart(log) && forall i :: 0 <= i < |log| ==> log[i].start <= log[i].time < t
    ensures Apart(log + [Charge(t, inc, t)]) && InWindow(log + [Charge(t, inc, t)], t, width)
  {
  }

  lemma FirstFaithful(c: Config, l: Ledger, clock: nat, now: nat, inc: nat)
    requires Faithful(c, l, clock) && l.cell.None? && inc <= c.limit
    ensures var t := Tick(now);
            Faithful(c, Ledger(Some(Pack(Low32(t), inc)), l.charges + [Charge(t, inc, t)]), now)
  {
    var t, width := Tick(now), WindowTicks(c.windowNs);
    assert l.charges == [];
    Extend(l.charges, width, c.limit, Charge(t, inc, t));
    JustOpened(l.charges, width, t, inc);
  }

  lemma OpenedFaithful(c: Config, l: Ledger, clock: nat, now: nat, inc: nat)
    requires Faithful(c, l, clock) && clock <= now && l.cell.Some? && inc <= c.limit
    requires var start := l.charges[|l.charges| - 1].start;
             start + WindowTicks(c.windowNs) <= Tick(now)
             && Sub32(Low32(Tick(now)), Low32(start)) >= WindowTicks(c.windowNs)
    ensures var t := Tick(now);
            Faithful(c, Ledger(Some(Pack(Low32(t), inc)), l.charges + [Charge(t, inc, t)]), now)
  {
    var t, width, start := Tick(now), WindowTicks(c.windowNs), l.charges[|l.charges| - 1].start;
    assert Tick(clock) <= t;
    NotThisTick(l.charges, width, start, t);
    OpensAfter(l.charges, width, c.limit, t, inc);
    JustOpened(l.charges, width, t, inc);
  }

  lemma ContinuedFaithful(c: Config, l: Ledger, clock: nat, now: nat, inc: nat, start: int)
    requires Faithful(c, l, clock) && clock <= now && l.cell.Some? && !Opens(c, l.cell, now)
    requires Decide(c, l.cell, now, inc).Some?
    requires start == l.charges[|l.charges| - 1].start
    ensures Faithful(c, Ledger(Decide(c, l.cell, now, inc), l.charges + [Charge(Tick(now), inc, start)]), now)
  {
    assert Tick(clock) <= Tick(now);
    DecideMeans(c, start, ChargedTo(l.charges, start), now, inc);
    Unpack(Low32(start), ChargedTo(l.charges, start));
    Continues(l.charges, WindowTicks(c.windowNs), c.limit, Tick(now), inc);
  }

  lemma ServeFaithful(c: Config, l: Ledger, clock: nat, r: Request)
    requires Faithful(c, l, clock) && clock <= r.now
    ensures Faithful(c, Serve(c, l, r), r.now)
  {
    assert Tick(clock) <= Tick(r.now);
    if Decide(c, l.cell, r.now, r.inc).Some? {
      if l.cell.None? {
        FirstFaithful(c, l, clock, r.now, r.inc);
      } else if Opens(c, l.cell, r.now) {
        var start := l.charges[|l.charges| - 1].start;
        DecideMeans(c, start, ChargedTo(l.charges, start), r.now, r.inc);
        Unpack(Low32(start), ChargedTo(l.charges, start));
        OpenedFaithful(c, l, clock, r.now, r.inc);
      } else {
        ContinuedFaithful(c, l, clock, r.now, r.inc, l.charges[|l.charges| - 1].start);
      }
    }
  }

  /** Over every run with a nondecreasing clock the word keeps its meaning, wrap-around included. */
  lemma {:induction false} RunFaithful(c: Config, rs: seq<Request>)
    requires ClockOrdered(rs)
    ensures Faithful(c, Run(c, rs), if rs == [] then 0 else rs[|rs| - 1].now)
  {
    if rs != [] {
      RunFaithful(c, rs[..|rs| - 1]);
      ServeFaithful(c, Run(c, rs[..|rs| - 1]), if |rs| == 1 then 0 else rs[|rs| - 2].now, rs[|rs| - 1]);
    }
  }

  /** Whether a request fits what has been charged so far: no window, one that has run out, or one with room. */
  predicate Fits(c: Config, log: seq<Charge>, r: Request)
  {
    && r.inc <= c.limit
    && (log == [] ||
        var start := log[|log| - 1].start;
        Gap(start, r.now) >= WindowTicks(c.windowNs) || ChargedTo(log, start) + r.inc <= c.limit)
  }

  /** The charge of a request that fits: to a new window, or to the current one. */
  function ChargeFor(c: Config, log: seq<Charge>, r: Request): (charge: Charge)
  {
    var opens := log == [] || Gap(log[|log| - 1].start, r.now) >= WindowTicks(c.windowNs);
    Charge(Tick(r.now), r.inc, if opens then Tick(r.now) else log[|log| - 1].start)
  }

  lemma DecideExactly(c: Config, l: Ledger, clock: nat, r: Request)
    requires Faithful(c, l, clock) && clock <= r.now
    ensures Decide(c, l.cell, r.now, r.inc).Some? <==> Fits(c, l.charges, r)
  {
    assert Tick(clock) <= Tick(r.now);
    if l.charges != [] {
      var start := l.charges[|l.charges| - 1].start;
      DecideMeans(c, start, ChargedTo(l.charges, start), r.now, r.inc);
    }
  }

  lemma ServeExactly(c: Config, l: Ledger, clock: nat, r: Request)
    requires Faithful(c, l, clock) && clock <= r.now
    ensures Serve(c, l, r).charges == if Fits(c, l.charges, r) then l.charges + [ChargeFor(c, l.charges, r)]
            else l.charges
  {
    assert Tick(clock) <= Tick(r.now);
    if l.charges != [] {
      var start := l.charges[|l.charges| - 1].start;
      DecideMeans(c, start, ChargedTo(l.charges, start), r.now, r.inc);
    }
  }

  /**
    After every run with a nondecreasing clock a request is admitted exactly when
    it fits what was charged before, and is then charged to the right window.
   */
  lemma AdmitsExactly(c: Config, rs: seq<Request>, r: Request)
    requires ClockOrdered(rs + [r])
    ensures var log := Run(c, rs).charges;
            Run(c, rs + [r]).charges == if Fits(c, log, r) then log + [ChargeFor(c, log, r)] else log
  {
    var all := rs + [r];
    assert all[..|rs|] == rs && all[|rs|] == r;
    assert forall i :: 0 <= i < |rs| ==> all[i] == rs[i];
    RunFaithful(c, rs);
    ServeExactly(c, Run(c, rs), if rs == [] then 0 else rs[|rs| - 1].now, r);
  }

  /**
    In nanoseconds: a window begun by a request at `first` is not over a
    millisecond before its length has passed, and is over two milliseconds after.
   */
  lemma WindowInTime(c: Config, first: nat, now: nat)
    requires first <= now < first + 0xFFFF_FFFF * 1_000_000 && c.windowNs <= 0x7FFF_FFFF * 1_000_000
    ensures now - first + 1_000_000 <= c.windowNs ==> Gap(Tick(first), now) < WindowTicks(c.windowNs)
    ensures c.windowNs + 2_000_000 <= now - first ==> Gap(Tick(first), now) >= WindowTicks(c.windowNs)
  {
    GapIsTrue(Tick(first), now);
  }

  lemma GapIsTrue(start: int, now: nat)
    requires start <= Tick(now) < start + 0x1_0000_0000
    ensures Gap(start, now) == Tick(now) - start
  {
  }

  /** So a window that has been over for less than 2^32 ticks never keeps a request within the limit from passing. */
  lemma OverIsOver(c: Config, rs: seq<Request>, r: Request, log: seq<Charge>)
    requires ClockOrdered(rs + [r]) && r.inc <= c.limit && log == Run(c, rs).charges && log != []
    requires log[|log| - 1].start + WindowTicks(c.windowNs) <= Tick(r.now) < log[|log| - 1].start + 0x1_0000_0000
    ensures Run(c, rs + [r]).charges == log + [Charge(Tick(r.now), r.inc, Tick(r.now))]
  {
    GapIsTrue(log[|log| - 1].start, r.now);
    AdmitsExactly(c, rs, r);
  }

  /**
    At most twice the limit is admitted in any span of one window, wherever it
    is placed; one tick more makes the bound hold for spans measured in
    nanoseconds too, since those may begin and end inside a tick.
   */
  lemma RateBound(c: Config, rs: seq<Request>, from: int)
    requires ClockOrdered(rs)
    ensures ChargedWithin(Run(c, rs).charges, from, from + WindowTicks(c.windowNs) + 1) <= 2 * c.limit
  {
    RunFaithful(c, rs);
    TwiceTheLimit(Run(c, rs).charges, WindowTicks(c.windowNs), c.limit, from, from + WindowTicks(c.windowNs) + 1);
  }

  // ---------------------------------------------------------------- the retry loop

  class SharedCell {
    var cell: Option<u64>

    constructor ()
      ensures cell == None
    {
      cell := None;
    }

    /**
      The check as one CPU runs it.  `rivals[i]` is what another CPU leaves
      in the cell between this CPU's i-th read and its attempt to store, if it does;
      there are as many attempts, sixteen in the firewall and 64 in the handler.
      A pass stores one decision, made on exactly what the others left; a drop
      stores nothing, and without rivals it means the limit was reached.
     */
    method Check(c: Config, now: nat, inc: nat, rivals: seq<Option<Option<u64>>>) returns (v: Verdict, k: nat)
      modifies this
      ensures k <= |rivals|
      ensures v == Pass ==> k > 0 && cell.Some? && cell == Decide(c, AfterRivals(old(cell), rivals, k), now, inc)
      ensures v == Drop ==> cell == AfterRivals(old(cell), rivals, k)
      ensures v == Drop ==> k == |rivals| || Decide(c, cell, now, inc) == None
      ensures |rivals| > 0 && (forall i :: 0 <= i < |rivals| ==> rivals[i].None?) ==>
                (v == Pass <==> Decide(c, old(cell), now, inc).Some?)
    {
      k := 0;
      if inc > c.limit || inc > 0xFFFF_FFFF {
        return Drop, k;
      }
      var nowTick := Low32(Tick(now));
      var window := WindowTicks(c.windowNs);
      for attempt := 0 to |rivals|
        invariant k == attempt
        invariant cell == AfterRivals(old(cell), rivals, k)
        invariant k > 0 ==> !(forall i :: 0 <= i < |rivals| ==> rivals[i].None?)
      {
        if (forall i :: 0 <= i < |rivals| ==> rivals[i].None?) {
          NoRivals(old(cell), rivals, k);
          NoRivals(old(cell), rivals, k + 1);
        }
        var found := cell;
        var next: u64;
        if found.None? {
          next := Pack(nowTick, inc);
        } else {
          var start, count := High(found.value), Low(found.value);
          if Sub32(nowTick, start) >= window {
            next := Pack(nowTick, inc);
          } else {
            if count > c.limit || inc > c.limit - count {
              return Drop, k;
            }
            next := Pack(start, count + inc);
          }
        }
        if rivals[attempt].Some? {
          cell := rivals[attempt].value;
        }
        k := k + 1;
        if cell == found {
          cell := Some(next);
          return Pass, k;
        }
      }
      v := Drop;
    }
  }
}
