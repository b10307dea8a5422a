/**
  What becomes of the connection counters when entries also come and go without
  the ingress filter: egress and userspace write the table and leave the
  counters alone.
 */
module ConnDrift {
  import opened Words
  import opened Flows
  import opened TcpTable
  import opened Sets
  import opened ConnCounters

  /** Any event on the table; only inbound segments call the counter routines. */
  function Moves(c: Config, p: Policy, s: State, e: Event): (s': State)
  {
    if e.In? then Step(c, p, s, Packet(e.seg, e.now, e.gate, e.limitsOk)) else s.(table := Next(c, s.table, e))
  }

  function Run(c: Config, p: Policy, es: seq<Event>): (s: State)
  {
    if es == [] then State(map[], map[], {}) else Moves(c, p, Run(c, p, es[..|es| - 1]), es[|es| - 1])
  }

  /** The flow an event concerns. */
  function Subject(e: Event): (f: Flow)
  {
    match e
    case In(seg, _, _, _) => seg.flow
    case Out(packet, _, _) => Reverse(packet)
    case Seed(f, _) => f
    case Remove(f, _) => f
  }

  predicate Live(t: Table, f: Flow) { f in t && t[f].Established? }

  /** The event ends an established entry under counter `k`, or begins one, behind the counters' back. */
  function Ends(c: Config, p: Policy, t: Table, e: Event, k: Key): (n: nat)
  {
    var f := Subject(e);
    if !e.In? && k in GroupingOf(p)(f) && Live(t, f) && !Live(Next(c, t, e), f) then 1 else 0
  }

  function Starts(c: Config, p: Policy, t: Table, e: Event, k: Key): (n: nat)
  {
    var f := Subject(e);
    if !e.In? && k in GroupingOf(p)(f) && !Live(t, f) && Live(Next(c, t, e), f) then 1 else 0
  }

  /** How many established entries under `k` egress and userspace have ended so far, and begun. */
  function Lost(c: Config, p: Policy, es: seq<Event>, k: Key): (n: nat)
  {
    if es == [] then 0
    else
      var before, e := es[..|es| - 1], es[|es| - 1];
      Lost(c, p, before, k) + Ends(c, p, Run(c, p, before).table, e, k)
  }

  function Gained(c: Config, p: Policy, es: seq<Event>, k: Key): (n: nat)
  {
    if es == [] then 0
    else
      var before, e := es[..|es| - 1], es[|es| - 1];
      Gained(c, p, before, k) + Starts(c, p, Run(c, p, before).table, e, k)
  }

  // ---------------------------------------------------------------- one event

  lemma OthersStay(c: Config, t: Table, e: Event, g: Flow)
    requires !e.In? && g != Subject(e)
    ensures (g in Next(c, t, e) <==> g in t) && (g in t ==> Next(c, t, e)[g] == t[g])
  {
  }

  /** What a counter covers, when at most one flow changes. */
  lemma CoveredDelta(gr: Grouping, t: Table, t': Table, f: Flow, k: Key)
    requires forall g :: g != f ==> (g in t' <==> g in t) && (g in t ==> t'[g] == t[g])
    ensures |Covered(gr, t', k)| + (if k in gr(f) && Live(t, f) then 1 else 0)
         == |Covered(gr, t, k)| + (if k in gr(f) && Live(t', f) then 1 else 0)
  {
    assert Covered(gr, t, k) - {f} == Covered(gr, t', k) - {f};
    SizeWithout(Covered(gr, t, k), f);
    SizeWithout(Covered(gr, t', k), f);
  }

  /** Behind the counters' back, it changes by the entry that ends or begins. */
  lemma CoveredMoves(c: Config, p: Policy, t: Table, e: Event, k: Key)
    requires !e.In?
    ensures |Covered(GroupingOf(p), Next(c, t, e), k)| + Ends(c, p, t, e, k)
         == |Covered(GroupingOf(p), t, k)| + Starts(c, p, t, e, k)
  {
    forall g | g != Subject(e)
      ensures (g in Next(c, t, e) <==> g in t) && (g in t ==> Next(c, t, e)[g] == t[g])
    {
      OthersStay(c, t, e, g);
    }
    CoveredDelta(GroupingOf(p), t, Next(c, t, e), Subject(e), k);
  }

  /** One counter against what it covers, with `lost` and `gained` entries it was not told of. */
  ghost predicate Balanced(s: State, covered: nat, k: Key, lost: nat, gained: nat, roomy: bool)
  {
    && CountAt(s.counters, k) <= covered + lost
    && (roomy && k !in s.lapsed ==> covered <= CountAt(s.counters, k) + gained)
  }

  /** An inbound segment moves counter and connections together, and never further apart. */
  lemma AdvanceBalanced(gr: Grouping, s: State, f: Flow, r: Result, now: nat, timeout: nat, k: Key, lost: nat,
      gained: nat, roomy: bool)
    requires TableChange(s.table, r.table, f, r.effect) && (roomy ==> |s.table| <= CAPACITY)
    requires Balanced(s, |Covered(gr, s.table, k)|, k, lost, gained, roomy)
    ensures Balanced(Advance(s, gr(f), f, r, now, timeout), |Covered(gr, r.table, k)|, k, lost, gained, roomy)
  {
    CountAfter(gr(f), s.counters, f, r.effect, now, timeout, k);
    CoveredChange(gr, s.table, r.table, f, r.effect, k);
    SubsetSize(Covered(gr, s.table, k), s.table.Keys);
    assert !Exists(s.counters, k) ==> CountAt(s.counters, k) == 0;
  }

  lemma MovesBalanced(c: Config, p: Policy, s: State, e: Event, k: Key, lost: nat, gained: nat, roomy: bool)
    requires c.refresh >= c.synTimeout && (roomy ==> |s.table| <= CAPACITY)
    requires Balanced(s, |Covered(GroupingOf(p), s.table, k)|, k, lost, gained, roomy)
    ensures var s' := Moves(c, p, s, e);
            Balanced(s', |Covered(GroupingOf(p), s'.table, k)|, k, lost + Ends(c, p, s.table, e, k),
              gained + Starts(c, p, s.table, e, k), roomy)
  {
    if e.In? {
      IngressChange(c, s.table, e.seg, e.now, e.gate, e.limitsOk);
      var r := Ingress(c, s.table, e.seg, e.now, e.gate, e.limitsOk);
      AdvanceBalanced(GroupingOf(p), s, e.seg.flow, r, e.now, c.tcpTimeout, k, lost, gained, roomy);
    } else {
      CoveredMoves(c, p, s.table, e, k);
    }
  }

  // ---------------------------------------------------------------- every run

  /** The table stays below the value at which a counter saturates. */
  ghost predicate Roomy(c: Config, p: Policy, es: seq<Event>)
  {
    forall i :: 0 <= i < |es| ==> |Run(c, p, es[..i]).table| <= CAPACITY
  }

  /**
    Over every run of inbound and outbound segments, seeds and removals, a counter
    exceeds the connections it covers by at most the established entries ended
    behind its back, and, unless a record step found it lapsed, falls short by at
    most those begun behind its back.
   */
  lemma {:induction false} CountersDrift(c: Config, p: Policy, es: seq<Event>, k: Key)
    requires c.refresh >= c.synTimeout
    ensures var s := Run(c, p, es);
            var covered, count := |Covered(GroupingOf(p), s.table, k)|, CountAt(s.counters, k);
            && count <= covered + Lost(c, p, es, k)
            && (Roomy(c, p, es) && k !in s.lapsed ==> covered <= count + Gained(c, p, es, k))
  {
    if es != [] {
      var before, e := es[..|es| - 1], es[|es| - 1];
      assert forall i :: 0 <= i <= |before| ==> before[..i] == es[..i];
      CountersDrift(c, p, before, k);
      assert Roomy(c, p, es) ==> |Run(c, p, es[..|before|]).table| <= CAPACITY;
      assert Roomy(c, p, es) ==> Roomy(c, p, before);
      MovesBalanced(c, p, Run(c, p, before), e, k, Lost(c, p, before, k), Gained(c, p, before, k), Roomy(c, p, es));
    }
  }

  // ---------------------------------------------------------------- the drift happens

  /** SYN and acknowledgement of one client, then an outbound reset. */
  function ResetFromInside(): (es: seq<Event>)
  {
    var opens, ack := Sends(1, true, false, false, 1), Sends(1, false, true, false, 1);
    [In(opens.seg, 1, opens.gate, true), In(ack.seg, 1, ack.gate, true),
     Out(Reverse(Client(1)), Flags(false, false, true, false, false, false), 1)]
  }

  lemma RunSnoc(c: Config, p: Policy, es: seq<Event>, e: Event)
    ensures Run(c, p, es + [e]) == Moves(c, p, Run(c, p, es), e)
  {
    assert (es + [e])[..|es|] == es;
  }

  /** A connection the server resets stays counted: the counter says one, and covers none. */
  lemma ResetStaysCounted(c: Config)
    ensures var s := Run(c, map[], ResetFromInside());
            s.table == map[] && CountAt(s.counters, SourceKey(Client(1))) == 1
  {
    var es := ResetFromInside();
    var s0 := Run(c, map[], []);
    RunSnoc(c, map[], [], es[0]);
    SynStep(c, s0, 1, false, 0);
    RunSnoc(c, map[], [] + [es[0]], es[1]);
    AckStep(c, Run(c, map[], [] + [es[0]]));
    RunSnoc(c, map[], [] + [es[0]] + [es[1]], es[2]);
    assert es == [] + [es[0]] + [es[1]] + [es[2]];
  }
}
