/**
  When a connection counter lapses: only once every connection it covers has
  expired, and surely once it has been left alone for longer than the timeout.
 */
module ConnActivity {
  import opened Words
  import opened Flows
  import opened TcpTable
  import opened ConnCounters

  /** A counter last updated at `last` has lapsed exactly when more ticks than the timeout takes have passed. */
  lemma LapsedExactly(last: nat, n: u32, now: nat, timeout: nat)
    requires last <= now
    ensures Lapsed(Pack(ConnTick(last), n), now, timeout) <==>
            (now / 100_000_000 - last / 100_000_000) % 0x1_0000_0000 > TimeoutTicks(timeout)
  {
    Unpack(ConnTick(last), n);
    WrappedGap(now / 100_000_000, last / 100_000_000);
  }

  /** Within the timeout it has not; a tick and more beyond it, it has, for as long as 32-bit ticks can tell. */
  lemma LapsesInTime(last: nat, n: u32, now: nat, timeout: nat)
    requires last <= now && timeout <= 0x7FFF_FFFF * 100_000_000
    ensures now - last <= timeout ==> !Lapsed(Pack(ConnTick(last), n), now, timeout)
    ensures timeout + 200_000_000 <= now - last < 0xFFFF_FFFF * 100_000_000 ==>
              Lapsed(Pack(ConnTick(last), n), now, timeout)
  {
    LapsedExactly(last, n, now, timeout);
    TickGap(last, now, timeout);
  }

  lemma TickGap(last: nat, now: nat, timeout: nat)
    requires last <= now && timeout <= 0x7FFF_FFFF * 100_000_000
    ensures now - last <= timeout ==> 0 <= now / 100_000_000 - last / 100_000_000 <= TimeoutTicks(timeout)
    ensures timeout + 200_000_000 <= now - last < 0xFFFF_FFFF * 100_000_000 ==>
              TimeoutTicks(timeout) < now / 100_000_000 - last / 100_000_000 < 0x1_0000_0000
  {
  }

  // ---------------------------------------------------------------- every ingress run

  /** The counter was last updated no earlier than `ts`. */
  ghost predicate StampedSince(cs: map<Key, u64>, k: Key, ts: nat, clock: nat)
  {
    exists last: nat :: ts <= last <= clock && High(WordAt(cs, k)) == ConnTick(last)
  }

  /** Every established entry has its counters, and they were updated when its timestamp was written or later. */
  ghost predicate Stamped(gr: Grouping, s: State, clock: nat)
  {
    forall f :: f in s.table && s.table[f].Established? ==>
      && HasCounters(gr(f), s.counters, f)
      && forall k :: k in gr(f) ==> StampedSince(s.counters, k, s.table[f].ts, clock)
  }

  lemma TickAfter(ks: set<Key>, cs: map<Key, u64>, f: Flow, effect: Effect, now: nat, timeout: nat, k: Key)
    ensures High(WordAt(Apply(ks, cs, f, effect, now, timeout), k)) ==
            if k in Affected(ks, cs, f, effect) then ConnTick(now) else High(WordAt(cs, k))
  {
    Unpack(ConnTick(now), NewCount(WordAt(cs, k), effect, now, timeout));
  }

  lemma StillStamped(ks: set<Key>, cs: map<Key, u64>, f: Flow, effect: Effect, clock: nat, now: nat, timeout: nat,
      k: Key,
      ts: nat)
    requires StampedSince(cs, k, ts, clock) && clock <= now
    ensures StampedSince(Apply(ks, cs, f, effect, now, timeout), k, ts, now)
  {
    TickAfter(ks, cs, f, effect, now, timeout, k);
    var last: nat :| ts <= last <= clock && High(WordAt(cs, k)) == ConnTick(last);
    assert ts <= now;
  }

  /** An ingress step writes the timestamp of an established entry only together with its counters. */
  ghost predicate Writes(t: Table, t': Table, f: Flow, effect: Effect, now: nat)
  {
    f in t' && t'[f].Established? ==>
      if effect == Recorded || effect == Touched then t'[f].ts == now
      else f in t && t[f] == t'[f]
  }

  lemma IngressWrites(c: Config, t: Table, seg: Segment, now: nat, g: Gate, ok: bool)
    requires c.refresh >= c.synTimeout
    ensures var r := Ingress(c, t, seg, now, g, ok);
            Writes(t, r.table, seg.flow, r.effect, now)
  {
  }

  lemma AdvanceStamped(gr: Grouping, s: State, f: Flow, r: Result, clock: nat, now: nat, timeout: nat)
    requires Stamped(gr, s, clock) && clock <= now && SourceKey(f) in gr(f)
    requires TableChange(s.table, r.table, f, r.effect) && Writes(s.table, r.table, f, r.effect, now)
    ensures Stamped(gr, Advance(s, gr(f), f, r, now, timeout), now)
  {
    var s' := Advance(s, gr(f), f, r, now, timeout);
    AdvanceKeepsCounters(gr(f), s, f, r, now, timeout);
    forall h | h in s'.table && s'.table[h].Established?
      ensures HasCounters(gr(h), s'.counters, h)
      ensures forall k :: k in gr(h) ==> StampedSince(s'.counters, k, s'.table[h].ts, now)
    {
      if h == f && (r.effect == Recorded || r.effect == Touched) {
        FreshlyStamped(gr, s, f, r, now, timeout);
      } else {
        assert h in s.table && s.table[h] == s'.table[h];
        forall k | k in gr(h) ensures StampedSince(s'.counters, k, s'.table[h].ts, now) {
          assert StampedSince(s.counters, k, s.table[h].ts, clock);
          StillStamped(gr(f), s.counters, f, r.effect, clock, now, timeout, k, s.table[h].ts);
        }
      }
    }
  }

  lemma FreshlyStamped(gr: Grouping, s: State, f: Flow, r: Result, now: nat, timeout: nat)
    requires SourceKey(f) in gr(f) && (r.effect == Recorded || r.effect == Touched)
    requires r.effect == Touched ==> HasCounters(gr(f), s.counters, f)
    ensures var cs := Apply(gr(f), s.counters, f, r.effect, now, timeout);
            HasCounters(gr(f), cs, f) && forall k :: k in gr(f) ==> StampedSince(cs, k, now, now)
  {
    var cs := Apply(gr(f), s.counters, f, r.effect, now, timeout);
    forall k | k in gr(f) ensures StampedSince(cs, k, now, now) {
      TickAfter(gr(f), s.counters, f, r.effect, now, timeout, k);
      assert High(WordAt(cs, k)) == ConnTick(now);
    }
  }

  predicate ClockOrdered(xs: seq<Packet>) { forall i, j :: 0 <= i < j < |xs| ==> xs[i].now <= xs[j].now }

  function Clock(xs: seq<Packet>): (t: nat) { if xs == [] then 0 else xs[|xs| - 1].now }

  lemma {:induction false} EveryRunStamped(c: Config, p: Policy, xs: seq<Packet>)
    requires c.refresh >= c.synTimeout && ClockOrdered(xs)
    ensures Stamped(GroupingOf(p), ConnCounters.Exec(c, p, xs), Clock(xs))
  {
    if xs != [] {
      var before, x := xs[..|xs| - 1], xs[|xs| - 1];
      EveryRunStamped(c, p, before);
      var s := ConnCounters.Exec(c, p, before);
      IngressChange(c, s.table, x.seg, x.now, x.gate, x.limitsOk);
      IngressWrites(c, s.table, x.seg, x.now, x.gate, x.limitsOk);
      var r := Ingress(c, s.table, x.seg, x.now, x.gate, x.limitsOk);
      AdvanceStamped(GroupingOf(p), s, x.seg.flow, r, Clock(before), x.now, c.tcpTimeout);
    }
  }

  /**
    After every ingress run, a counter that covers a connection within its timeout
    has not lapsed, so the limit it stands for is enforced.
   */
  lemma LiveCountersCurrent(c: Config, p: Policy, xs: seq<Packet>, f: Flow, k: Key, now: nat)
    requires c.refresh >= c.synTimeout && ClockOrdered(xs) && Clock(xs) <= now
    requires c.tcpTimeout <= 0x7FFF_FFFF * 100_000_000
    requires var t := ConnCounters.Exec(c, p, xs).table;
             f in t && t[f].Established? && now - t[f].ts <= c.tcpTimeout && k in Keys(p, f)
    ensures !Lapsed(WordAt(ConnCounters.Exec(c, p, xs).counters, k), now, c.tcpTimeout)
  {
    EveryRunStamped(c, p, xs);
    var s := ConnCounters.Exec(c, p, xs);
    assert StampedSince(s.counters, k, s.table[f].ts, Clock(xs));
    var last: nat :| s.table[f].ts <= last <= Clock(xs) && High(WordAt(s.counters, k)) == ConnTick(last);
    var w := WordAt(s.counters, k);
    assert w == Pack(High(w), Low(w));
    LapsesInTime(last, Low(w), now, c.tcpTimeout);
  }

  /**
    So a SYN is refused exactly when a limit is reached, as long as each counter
    that matters was never found lapsed and still covers some connection within
    its timeout, or none at all.
   */
  lemma LimitsEnforced(c: Config, p: Policy, xs: seq<Packet>, f: Flow, now: nat)
    requires c.refresh >= c.synTimeout && ClockOrdered(xs) && Clock(xs) <= now
    requires c.tcpTimeout <= 0x7FFF_FFFF * 100_000_000
    requires forall i :: 0 <= i < |xs| ==> |ConnCounters.Exec(c, p, xs[..i]).table| <= CAPACITY
    requires forall k :: k in Keys(p, f) ==>
               k !in ConnCounters.Exec(c, p, xs).lapsed && Supported(c, p, ConnCounters.Exec(c, p, xs).table, k, now)
    ensures LimitsOk(c, p, ConnCounters.Exec(c, p, xs).counters, f, now) <==>
            !AtLimit(p, ConnCounters.Exec(c, p, xs).table, f)
  {
    var s := ConnCounters.Exec(c, p, xs);
    CountersExact(c, p, xs);
    forall k | k in Keys(p, f)
      ensures CountAt(s.counters, k) != 0 ==> !Lapsed(WordAt(s.counters, k), now, c.tcpTimeout)
    {
      assert k !in s.lapsed && Supported(c, p, s.table, k, now);
      if CountAt(s.counters, k) != 0 {
        assert CountAt(s.counters, k) == |Covered(GroupingOf(p), s.table, k)|;
        var g :| g in Covered(GroupingOf(p), s.table, k) && now - s.table[g].ts <= c.tcpTimeout;
        LiveCountersCurrent(c, p, xs, g, k, now);
      }
    }
    LimitsMeanConnections(c, p, xs, f, now);
  }

  /** No connection is covered, or one of them is within its timeout. */
  ghost predicate Supported(c: Config, p: Policy, t: Table, k: Key, now: nat)
  {
    var covered := Covered(GroupingOf(p), t, k);
    covered == {} || exists g :: g in covered && now - t[g].ts <= c.tcpTimeout
  }
}
