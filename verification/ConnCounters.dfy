/**
  The concurrent-connection counters: per source, per source prefix and per
  port, each a (tick, count) word with ticks of 100 ms.  They are meant to
  count the established entries of the connection table.
 */
module ConnCounters {
  import opened Words
  import opened Flows
  import opened TcpTable
  import opened Sets

  datatype Key =
    | Source(family: Family, addr: Addr, port: nat)
    | Prefix(family: Family, addr: Addr, port: nat)
    | Port(port: nat)

  /** The row of a port; a maximum of 0 switches a limit off. */
  datatype PortPolicy = PortPolicy(connMax: u32, prefix4: nat, prefix6: nat, prefixMax: u32, portMax: u32)

  type Policy = map<nat, PortPolicy>

  function PolicyOf(p: Policy, port: nat): (r: PortPolicy)
  {
    if port in p then p[port] else PortPolicy(0, 32, 128, 0, 0)
  }

  function SourceKey(f: Flow): (k: Key) { Source(f.family, f.src, f.dport) }

  function PrefixKey(p: Policy, f: Flow): (k: Key)
  {
    var row := PolicyOf(p, f.dport);
    Prefix(f.family, MaskedSource(f.src, f.family, row.prefix4, row.prefix6), f.dport)
  }

  function Keys(p: Policy, f: Flow): (ks: set<Key>) { {SourceKey(f), PrefixKey(p, f), Port(f.dport)} }

  /** Which flows share a counter: one source on one port, one prefix on one port, one port. */
  lemma KeysMean(p: Policy, f: Flow, g: Flow)
    ensures SourceKey(f) == SourceKey(g) <==> f.family == g.family && f.src == g.src && f.dport == g.dport
    ensures PrefixKey(p, f) == PrefixKey(p, g) <==>
            && f.family == g.family && f.dport == g.dport
            && var row := PolicyOf(p, f.dport);
            forall i :: 0 <= i < PrefixBits(f.family, row.prefix4, row.prefix6) ==> Bit(f.src, i) == Bit(g.src, i)
    ensures Port(f.dport) == Port(g.dport) <==> f.dport == g.dport
    ensures Keys(p, f) == {SourceKey(f), PrefixKey(p, f), Port(f.dport)}
  {
    var row := PolicyOf(p, f.dport);
    SharedPrefix(f.src, g.src, f.family, row.prefix4, row.prefix6);
  }

  /** Which counters a flow belongs to.  What the counters mean does not depend on how sources are grouped. */
  type Grouping = Flow -> set<Key>

  function GroupingOf(p: Policy): (g: Grouping) { (f: Flow) => Keys(p, f) }

  // ---------------------------------------------------------------- one counter

  function ConnTick(now: nat): (r: u32) { Low32(now / 100_000_000) }

  function TimeoutTicks(ns: nat): (r: u32)
    ensures 1 <= r <= 0x7FFF_FFFF
    ensures r * 100_000_000 >= ns || r == 0x7FFF_FFFF
    ensures r == 1 || (r - 1) * 100_000_000 < ns
  {
    var ticks := ns / 100_000_000 + if ns % 100_000_000 != 0 then 1 else 0;
    if ticks == 0 then 1 else if ticks > 0x7FFF_FFFF then 0x7FFF_FFFF else ticks
  }

  predicate Lapsed(word: u64, now: nat, timeout: nat)
  {
    Sub32(ConnTick(now), High(word)) > TimeoutTicks(timeout)
  }

  /** The count `shared_conn_count_update` stores; the tick is always refreshed. */
  function NewCount(word: u64, effect: Effect, now: nat, timeout: nat): (n: u32)
  {
    var n := Low(word);
    match effect
    case Recorded => if n == 0 || Lapsed(word, now, timeout) then 1 else if n < 0xFFFF_FFFF then n + 1 else n
    case Touched => if n == 0 then 1 else n
    case Closed => if n > 0 then n - 1 else 0
    case NoEffect => n
  }

  function Update(word: u64, effect: Effect, now: nat, timeout: nat): (w: u64)
  {
    Pack(ConnTick(now), NewCount(word, effect, now, timeout))
  }

  /** `shared_conn_count_check`. */
  predicate WithinLimit(word: u64, now: nat, timeout: nat, limit: u32)
  {
    Low(word) == 0 || Lapsed(word, now, timeout) || Low(word) < limit
  }

  /** A counter word, updated in place. */
  class Counter {
    var state: u64

    constructor (word: u64)
      ensures state == word
    {
      state := word;
    }

    /**
      `shared_conn_count_update`; `rivals[i]` is what another CPU stores during
      the i-th attempt.  The update is applied once to what the others left, or,
      after sixteen lost races, the counter saturates instead of losing it.
     */
    method UpdateCount(effect: Effect, now: nat, timeout: nat, rivals: seq<Option<u64>>) returns (k: nat, applied: bool)
      requires effect != NoEffect && |rivals| == 16
      modifies this
      ensures k <= 16
      ensures applied ==> state == Update(AfterRivals(old(state), rivals, k), effect, now, timeout)
      ensures !applied ==> k == 16 && state == Pack(ConnTick(now), 0xFFFF_FFFF)
      ensures rivals[0].None? ==> applied && k == 1 && state == Update(old(state), effect, now, timeout)
    {
      k := 0;
      for attempt := 0 to 16
        invariant k == attempt && state == AfterRivals(old(state), rivals, k)
        invariant k > 0 ==> rivals[0].Some?
      {
        var current := state;
        var n := Low(current);
        if effect == Recorded {
          if n == 0 || Sub32(ConnTick(now), High(current)) > TimeoutTicks(timeout) {
            n := 1;
          } else if n < 0xFFFF_FFFF {
            n := n + 1;
          }
        } else if effect == Touched {
          if n == 0 {
            n := 1;
          }
        } else if n > 0 {
          n := n - 1;
        }
        if rivals[attempt].Some? {
          state := rivals[attempt].value;
        }
        k := k + 1;
        if state == current {
          state := Pack(ConnTick(now), n);
          return k, true;
        }
      }
      state := Pack(ConnTick(now), 0xFFFF_FFFF);
      applied := false;
    }
  }

  // ---------------------------------------------------------------- all counters

  /** The per-port counters are an array and always exist; the others appear when first recorded. */
  predicate Exists(cs: map<Key, u64>, k: Key) { k in cs || k.Port? }

  function WordAt(cs: map<Key, u64>, k: Key): (w: u64) { if k in cs then cs[k] else 0 }

  function CountAt(cs: map<Key, u64>, k: Key): (n: u32) { Low(WordAt(cs, k)) }

  /** Of a flow's keys, those a counter routine updates. */
  function Affected(ks: set<Key>, cs: map<Key, u64>, f: Flow, effect: Effect): (r: set<Key>)
    ensures r <= ks
  {
    match effect
    case NoEffect => {}
    case Recorded => ks
    case Touched => if SourceKey(f) in cs then set k | k in ks && Exists(cs, k) else {}
    case Closed => set k | k in ks && Exists(cs, k)
  }

  /** `tcp_src_conn_record_established`, `_activity` and `_close`. */
  function Apply(ks: set<Key>, cs: map<Key, u64>, f: Flow, effect: Effect, now: nat, timeout: nat): (cs': map<Key, u64>)
  {
    cs + map k | k in Affected(ks, cs, f, effect) :: Update(WordAt(cs, k), effect, now, timeout)
  }

  lemma CountAfter(ks: set<Key>, cs: map<Key, u64>, f: Flow, effect: Effect, now: nat, timeout: nat, k: Key)
    ensures CountAt(Apply(ks, cs, f, effect, now, timeout), k) ==
            if k in Affected(ks, cs, f, effect) then NewCount(WordAt(cs, k), effect, now, timeout) else CountAt(cs, k)
  {
    Unpack(ConnTick(now), NewCount(WordAt(cs, k), effect, now, timeout));
  }

  /** The three limit checks of `precheck_new_tcp_syn`. */
  predicate LimitsOk(c: Config, p: Policy, cs: map<Key, u64>, f: Flow, now: nat)
  {
    var row := PolicyOf(p, f.dport);
    && (row.connMax != 0 && Exists(cs, SourceKey(f)) ==>
        WithinLimit(WordAt(cs, SourceKey(f)), now, c.tcpTimeout, row.connMax))
    && (row.prefixMax != 0 && Exists(cs, PrefixKey(p, f)) ==>
        WithinLimit(WordAt(cs, PrefixKey(p, f)), now, c.tcpTimeout, row.prefixMax))
    && (row.portMax != 0 ==> WithinLimit(WordAt(cs, Port(f.dport)), now, c.tcpTimeout, row.portMax))
  }

  // ---------------------------------------------------------------- ingress runs

  /** An inbound segment with any outcome of the policy, rate and connection-limit checks. */
  datatype Packet = Packet(seg: Segment, now: nat, gate: Gate, limitsOk: bool)

  /** `lapsed` collects the keys of counters that a record step found nonzero but timed out. */
  datatype State = State(table: Table, counters: map<Key, u64>, lapsed: set<Key>)

  /** The counters follow the table: `f` is the flow of the packet, `ks` its keys. */
  function Advance(s: State, ks: set<Key>, f: Flow, r: Result, now: nat, timeout: nat): (s': State)
  {
    State(r.table, Apply(ks, s.counters, f, r.effect, now, timeout),
          s.lapsed + if r.effect != Recorded then {}
                     else set k | k in ks && CountAt(s.counters, k) != 0 && Lapsed(WordAt(s.counters, k), now, timeout))
  }

  function Step(c: Config, p: Policy, s: State, x: Packet): (s': State)
  {
    var r := Ingress(c, s.table, x.seg, x.now, x.gate, x.limitsOk);
    Advance(s, GroupingOf(p)(x.seg.flow), x.seg.flow, r, x.now, c.tcpTimeout)
  }

  function Exec(c: Config, p: Policy, xs: seq<Packet>): (s: State)
  {
    if xs == [] then State(map[], map[], {}) else Step(c, p, Exec(c, p, xs[..|xs| - 1]), xs[|xs| - 1])
  }

  /** The established entries a counter covers. */
  function Covered(gr: Grouping, t: Table, k: Key): (fs: set<Flow>)
  {
    set f | f in t && t[f].Established? && k in gr(f)
  }

  ghost predicate NeverOver(gr: Grouping, s: State)
  {
    forall k :: CountAt(s.counters, k) <= |Covered(gr, s.table, k)|
  }

  ghost predicate ExactUnlessLapsed(gr: Grouping, s: State)
  {
    && (forall k :: k !in s.lapsed ==> CountAt(s.counters, k) == |Covered(gr, s.table, k)|)
    && (forall f :: f in s.table && s.table[f].Established? ==> HasCounters(gr(f), s.counters, f))
  }

  ghost predicate HasCounters(ks: set<Key>, cs: map<Key, u64>, f: Flow)
  {
    SourceKey(f) in cs && forall k :: k in ks ==> Exists(cs, k)
  }

  /** How an ingress step changes the table, by the counter routine it calls. */
  ghost predicate TableChange(t: Table, t': Table, f: Flow, effect: Effect)
  {
    && (forall g :: g != f ==> (g in t <==> g in t') && (g in t ==> t[g] == t'[g]))
    && match effect
       case Recorded => !(f in t && t[f].Established?) && f in t' && t'[f].Established?
       case Closed => f in t && t[f].Established? && !(f in t' && t'[f].Established?)
       case Touched => f in t && t[f].Established? && f in t' && t'[f].Established?
       case NoEffect => (f in t && t[f].Established?) == (f in t' && t'[f].Established?)
  }

  /** With refresh >= SYN timeout, no counter is touched on behalf of a half-open entry. */
  lemma IngressChange(c: Config, t: Table, seg: Segment, now: nat, g: Gate, ok: bool)
    requires c.refresh >= c.synTimeout
    ensures var r := Ingress(c, t, seg, now, g, ok);
            TableChange(t, r.table, seg.flow, r.effect)
  {
  }

  /** What the change means for the number of connections a counter covers. */
  ghost predicate CountChange(n: nat, n': nat, effect: Effect)
  {
    match effect
    case Recorded => n' == n + 1
    case Closed => n' + 1 == n
    case Touched => n' == n && n >= 1
    case NoEffect => n' == n
  }

  lemma CoveredMembers(gr: Grouping, t: Table, t': Table, f: Flow, effect: Effect, k: Key)
    requires TableChange(t, t', f, effect)
    ensures Covered(gr, t, k) - {f} == Covered(gr, t', k) - {f}
    ensures f in Covered(gr, t, k) <==> k in gr(f) && f in t && t[f].Established?
    ensures f in Covered(gr, t', k) <==> k in gr(f) && f in t' && t'[f].Established?
  {
  }

  lemma CoveredChange(gr: Grouping, t: Table, t': Table, f: Flow, effect: Effect, k: Key)
    requires TableChange(t, t', f, effect)
    ensures k !in gr(f) ==> |Covered(gr, t', k)| == |Covered(gr, t, k)|
    ensures k in gr(f) ==> CountChange(|Covered(gr, t, k)|, |Covered(gr, t', k)|, effect)
  {
    CoveredMembers(gr, t, t', f, effect, k);
    SizeWithout(Covered(gr, t, k), f);
    SizeWithout(Covered(gr, t', k), f);
  }

  lemma AdvanceNeverOver(gr: Grouping, s: State, f: Flow, r: Result, now: nat, timeout: nat)
    requires NeverOver(gr, s) && TableChange(s.table, r.table, f, r.effect)
    ensures NeverOver(gr, Advance(s, gr(f), f, r, now, timeout))
  {
    var s' := Advance(s, gr(f), f, r, now, timeout);
    forall k ensures CountAt(s'.counters, k) <= |Covered(gr, s'.table, k)| {
      assert CountAt(s.counters, k) <= |Covered(gr, s.table, k)|;
      CountAfter(gr(f), s.counters, f, r.effect, now, timeout, k);
      CoveredChange(gr, s.table, r.table, f, r.effect, k);
      assert !Exists(s.counters, k) ==> CountAt(s.counters, k) == 0;
    }
  }

  /** No counter ever exceeds the established connections it covers, whatever the packets, policy and clock. */
  lemma {:induction false} CountersNeverOver(c: Config, p: Policy, xs: seq<Packet>)
    requires c.refresh >= c.synTimeout
    ensures NeverOver(GroupingOf(p), Exec(c, p, xs))
  {
    if xs != [] {
      var s, x := Exec(c, p, xs[..|xs| - 1]), xs[|xs| - 1];
      CountersNeverOver(c, p, xs[..|xs| - 1]);
      IngressChange(c, s.table, x.seg, x.now, x.gate, x.limitsOk);
      var r := Ingress(c, s.table, x.seg, x.now, x.gate, x.limitsOk);
      AdvanceNeverOver(GroupingOf(p), s, x.seg.flow, r, x.now, c.tcpTimeout);
    }
  }

  /** One connection more and a counter could saturate. */
  const CAPACITY: nat := 0xFFFF_FFFE

  lemma AdvanceExactAt(gr: Grouping, s: State, f: Flow, r: Result, now: nat, timeout: nat, k: Key)
    requires TableChange(s.table, r.table, f, r.effect) && |s.table| <= CAPACITY
    requires CountAt(s.counters, k) == |Covered(gr, s.table, k)|
    requires k in gr(f) && r.effect != Recorded && r.effect != NoEffect ==>
            Exists(s.counters, k) && SourceKey(f) in s.counters
    requires k !in Advance(s, gr(f), f, r, now, timeout).lapsed
    ensures CountAt(Advance(s, gr(f), f, r, now, timeout).counters, k) == |Covered(gr, r.table, k)|
  {
    CountAfter(gr(f), s.counters, f, r.effect, now, timeout, k);
    CoveredChange(gr, s.table, r.table, f, r.effect, k);
    SubsetSize(Covered(gr, s.table, k), s.table.Keys);
  }

  lemma AdvanceKeepsCounters(ks: set<Key>, s: State, f: Flow, r: Result, now: nat, timeout: nat)
    ensures s.counters.Keys <= Advance(s, ks, f, r, now, timeout).counters.Keys
    ensures r.effect == Recorded ==> ks <= Advance(s, ks, f, r, now, timeout).counters.Keys
  {
  }

  lemma AdvanceExact(gr: Grouping, s: State, f: Flow, r: Result, now: nat, timeout: nat)
    requires ExactUnlessLapsed(gr, s) && TableChange(s.table, r.table, f, r.effect)
    requires |s.table| <= CAPACITY && SourceKey(f) in gr(f)
    ensures ExactUnlessLapsed(gr, Advance(s, gr(f), f, r, now, timeout))
  {
    var s' := Advance(s, gr(f), f, r, now, timeout);
    AdvanceKeepsCounters(gr(f), s, f, r, now, timeout);
    assert r.effect == Touched || r.effect == Closed ==> HasCounters(gr(f), s.counters, f);
    forall k | k !in s'.lapsed ensures CountAt(s'.counters, k) == |Covered(gr, s'.table, k)| {
      AdvanceExactAt(gr, s, f, r, now, timeout, k);
    }
    forall g | g in s'.table && s'.table[g].Established? ensures HasCounters(gr(g), s'.counters, g) {
      if g != f || r.effect != Recorded {
        assert g in s.table && s.table[g].Established?;
        assert HasCounters(gr(g), s.counters, g);
      }
    }
  }

  /** A counter equals the number of established connections it covers unless a record step found it lapsed. */
  lemma {:induction false} CountersExact(c: Config, p: Policy, xs: seq<Packet>)
    requires c.refresh >= c.synTimeout
    requires forall i :: 0 <= i < |xs| ==> |Exec(c, p, xs[..i]).table| <= CAPACITY
    ensures ExactUnlessLapsed(GroupingOf(p), Exec(c, p, xs))
  {
    if xs != [] {
      var before, x := xs[..|xs| - 1], xs[|xs| - 1];
      assert forall i :: 0 <= i <= |before| ==> before[..i] == xs[..i];
      CountersExact(c, p, before);
      var s := Exec(c, p, before);
      IngressChange(c, s.table, x.seg, x.now, x.gate, x.limitsOk);
      var r := Ingress(c, s.table, x.seg, x.now, x.gate, x.limitsOk);
      AdvanceExact(GroupingOf(p), s, x.seg.flow, r, x.now, c.tcpTimeout);
    }
  }

  /** Some limit configured for the flow's port is reached by established connections. */
  predicate AtLimit(p: Policy, t: Table, f: Flow)
  {
    var row, gr := PolicyOf(p, f.dport), GroupingOf(p);
    || (row.connMax != 0 && |Covered(gr, t, SourceKey(f))| >= row.connMax)
    || (row.prefixMax != 0 && |Covered(gr, t, PrefixKey(p, f))| >= row.prefixMax)
    || (row.portMax != 0 && |Covered(gr, t, Port(f.dport))| >= row.portMax)
  }

  /** A SYN is never refused for connections that do not exist, whatever the run. */
  lemma RefusalIsEarned(c: Config, p: Policy, xs: seq<Packet>, f: Flow, now: nat)
    requires c.refresh >= c.synTimeout && !LimitsOk(c, p, Exec(c, p, xs).counters, f, now)
    ensures AtLimit(p, Exec(c, p, xs).table, f)
  {
    CountersNeverOver(c, p, xs);
    var s := Exec(c, p, xs);
    assert forall k :: CountAt(s.counters, k) <= |Covered(GroupingOf(p), s.table, k)|;
  }

  /** And it is refused exactly at a limit, as long as no nonzero counter of its three keys has lapsed. */
  lemma LimitsMeanConnections(c: Config, p: Policy, xs: seq<Packet>, f: Flow, now: nat)
    requires c.refresh >= c.synTimeout
    requires forall i :: 0 <= i < |xs| ==> |Exec(c, p, xs[..i]).table| <= CAPACITY
    requires forall k :: k in {SourceKey(f), PrefixKey(p, f), Port(f.dport)} ==>
               var cs := Exec(c, p, xs).counters;
               k !in Exec(c, p, xs).lapsed && (CountAt(cs, k) != 0 ==> !Lapsed(WordAt(cs, k), now, c.tcpTimeout))
    ensures LimitsOk(c, p, Exec(c, p, xs).counters, f, now) <==> !AtLimit(p, Exec(c, p, xs).table, f)
  {
    CountersExact(c, p, xs);
    var s := Exec(c, p, xs);
    forall k | k in {SourceKey(f), PrefixKey(p, f), Port(f.dport)}
      ensures CountAt(s.counters, k) == |Covered(GroupingOf(p), s.table, k)|
      ensures CountAt(s.counters, k) != 0 ==> !Lapsed(WordAt(s.counters, k), now, c.tcpTimeout)
    {
    }
  }

  // ---------------------------------------------------------------- the condition is exact

  function Client(sport: nat): (f: Flow) { Flow(V4, Addr(1, 0, 0, 0), Addr(2, 0, 0, 0), sport, 80) }

  function Sends(sport: nat, syn: bool, ack: bool, rst: bool, now: nat): (x: Packet)
  {
    Packet(Segment(Client(sport), Flags(false, syn, rst, false, ack, false)), now,
        Gate(false, false, true, false, false, true), true)
  }

  lemma ExecSnoc(c: Config, p: Policy, xs: seq<Packet>, x: Packet)
    ensures Exec(c, p, xs + [x]) == Step(c, p, Exec(c, p, xs), x)
  {
    assert (xs + [x])[..|xs + [x]| - 1] == xs;
  }

  /** The table, and the counter of the clients' common source. */
  ghost predicate Shows(s: State, t: Table, present: bool, n: nat)
  {
    s.table == t && (SourceKey(Client(1)) in s.counters <==> present) && CountAt(s.counters, SourceKey(Client(1))) == n
  }

  lemma SynStep(c: Config, s: State, sport: nat, present: bool, n: nat)
    requires Shows(s, map[], present, n)
    ensures Shows(Step(c, map[], s, Sends(sport, true, false, false, 1)), map[Client(sport) := HalfOpen(1)], present, n)
  {
  }

  lemma AckStep(c: Config, s: State)
    requires Shows(s, map[Client(1) := HalfOpen(1)], false, 0)
    ensures Shows(Step(c, map[], s, Sends(1, false, true, false, 1)), map[Client(1) := Established(1)], true, 1)
  {
    assert Age(1, 1) == 0;
    CountAfter(GroupingOf(map[])(Client(1)), s.counters, Client(1), Recorded, 1, c.tcpTimeout, SourceKey(Client(1)));
  }

  lemma ResetStep(c: Config, s: State)
    requires Shows(s, map[Client(1) := Established(1)], true, 1)
    ensures Shows(Step(c, map[], s, Sends(1, false, true, true, 1)), map[], true, 0)
  {
    CountAfter(GroupingOf(map[])(Client(1)), s.counters, Client(1), Closed, 1, c.tcpTimeout, SourceKey(Client(1)));
    assert s.table - {Client(1)} == map[];
  }

  /** A repeated SYN refreshes its half-open entry and touches the counters. */
  lemma RetryRefreshes(c: Config)
    requires c.refresh < c.synTimeout < 0x8000_0000_0000_0000
    ensures var x := Sends(2, true, false, false, c.refresh + 2);
            Ingress(c, map[Client(2) := HalfOpen(1)], x.seg, x.now, x.gate, x.limitsOk)
            == Result(map[Client(2) := HalfOpen(c.refresh + 2)], Pass, Touched)
  {
    assert Age(c.refresh + 2, 1) == c.refresh + 1;
  }

  lemma RetryStep(c: Config, s: State)
    requires c.refresh < c.synTimeout < 0x8000_0000_0000_0000
    requires Shows(s, map[Client(2) := HalfOpen(1)], true, 0)
    ensures Shows(Step(c, map[], s, Sends(2, true, false, false, c.refresh + 2)),
            map[Client(2) := HalfOpen(c.refresh + 2)], true, 1)
  {
    RetryRefreshes(c);
    var keys := GroupingOf(map[])(Client(2));
    CountAfter(keys, s.counters, Client(2), Touched, c.refresh + 2, c.tcpTimeout, SourceKey(Client(2)));
  }

  lemma OverCounted(s: State, ts: nat)
    requires Shows(s, map[Client(2) := HalfOpen(ts)], true, 1)
    ensures !NeverOver(GroupingOf(map[]), s)
  {
    assert Covered(GroupingOf(map[]), s.table, SourceKey(Client(1))) == {};
  }

  /** One connection is made, acknowledged and reset. */
  lemma FirstConnection(c: Config) returns (xs: seq<Packet>)
    ensures Shows(Exec(c, map[], xs), map[], true, 0)
  {
    SynStep(c, Exec(c, map[], []), 1, false, 0);
    ExecSnoc(c, map[], [], Sends(1, true, false, false, 1));
    xs := [] + [Sends(1, true, false, false, 1)];
    AckStep(c, Exec(c, map[], xs));
    ExecSnoc(c, map[], xs, Sends(1, false, true, false, 1));
    xs := xs + [Sends(1, false, true, false, 1)];
    ResetStep(c, Exec(c, map[], xs));
    ExecSnoc(c, map[], xs, Sends(1, false, true, true, 1));
    xs := xs + [Sends(1, false, true, true, 1)];
  }

  /** A second connection from the same source sends its SYN twice. */
  lemma SecondConnection(c: Config) returns (xs: seq<Packet>)
    requires c.refresh < c.synTimeout < 0x8000_0000_0000_0000
    ensures Shows(Exec(c, map[], xs), map[Client(2) := HalfOpen(c.refresh + 2)], true, 1)
  {
    xs := FirstConnection(c);
    SynStep(c, Exec(c, map[], xs), 2, true, 0);
    ExecSnoc(c, map[], xs, Sends(2, true, false, false, 1));
    xs := xs + [Sends(2, true, false, false, 1)];
    RetryStep(c, Exec(c, map[], xs));
    ExecSnoc(c, map[], xs, Sends(2, true, false, false, c.refresh + 2));
    xs := xs + [Sends(2, true, false, false, c.refresh + 2)];
  }

  /**
    With refresh < SYN timeout the bound fails: after one connection was made,
    acknowledged and reset, a second one from the same source that repeats its
    SYN is counted without being established.
   */
  lemma RefreshMustCoverSyn(c: Config) returns (xs: seq<Packet>)
    requires c.refresh < c.synTimeout < 0x8000_0000_0000_0000
    ensures !NeverOver(GroupingOf(map[]), Exec(c, map[], xs))
  {
    xs := SecondConnection(c);
    OverCounted(Exec(c, map[], xs), c.refresh + 2);
  }
}
