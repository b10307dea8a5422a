/**
  One reconcile of the backend: close ports, install protection, and only then
  open ports.  Every map update may fail; a failed update changes nothing and
  is counted.
 */
module Reconcile {
  import opened Words
  import opened PolicyRows

  type Port = nat

  type Rows = map<Port, Row>

  datatype Desired = Desired(tcp: set<Port>, udp: set<Port>,
    syn: map<Port, u32>, agg: map<Port, u32>, conn: map<Port, u32>,
    connPrefix: map<Port, u32>, connPort: map<Port, u32>,
    prefixes: Prefixes)

  function RowOf(rows: Rows, p: Port): (r: Option<Row>) { if p in rows then Some(rows[p]) else None }

  function Entry(dict: map<Port, u32>, p: Port): (x: Option<u32>) { if p in dict then Some(dict[p]) else None }

  function WantOf(d: Desired, p: Port): (w: Want)
  {
    Want(Entry(d.syn, p), Entry(d.agg, p), Entry(d.conn, p), Entry(d.connPrefix, p), Entry(d.connPort, p), d.prefixes)
  }

  // ---------------------------------------------------------------- plans

  /** `active`: the nonzero values a view shows. */
  function Active(rows: Rows, v: View): (r: map<Port, u32>)
  {
    map p | p in rows && Get(Some(rows[p]), v) != 0 :: Get(Some(rows[p]), v)
  }

  function Upserts(dict: map<Port, u32>, applied: map<Port, u32>): (r: map<Port, u32>)
  {
    map p | p in dict && (p !in applied || applied[p] != dict[p]) :: dict[p]
  }

  function Removals(dict: map<Port, u32>, applied: map<Port, u32>): (r: set<Port>) { applied.Keys - dict.Keys }

  /** Where a view's delta takes one port. */
  function Aim(row: Option<Row>, v: View, upserts: map<Port, u32>, removals: set<Port>, p: Port,
      created: Prefixes): (r: Option<Row>)
  {
    if p in upserts then ViewSet(row, v, upserts[p], created) else if p in removals then ViewDelete(row, v) else row
  }

  /** The plan made from the cached rows does, port by port, what `Delta` says. */
  lemma PlanIsDelta(before: Rows, row: Option<Row>, v: View, dict: map<Port, u32>, p: Port, created: Prefixes)
    ensures Aim(row, v, Upserts(dict, Active(before, v)), Removals(dict, Active(before, v)), p, created)
         == Delta(RowOf(before, p), row, v, Entry(dict, p), created)
  {
  }

  /** The ports that some limit dictionary mentions. */
  function PolicyPorts(d: Desired): (r: set<Port>)
  {
    d.syn.Keys + d.agg.Keys + d.conn.Keys + d.connPrefix.Keys + d.connPort.Keys
  }

  lemma PolicyPortsAre(d: Desired, p: Port)
    ensures p in PolicyPorts(d) <==> Mentioned(WantOf(d, p))
  {
  }

  /** Two rows with the same limits. */
  predicate Alike(a: Option<Row>, b: Option<Row>)
  {
    if a.None? || b.None? then a == b
    else b.value.(prefix4 := a.value.prefix4, prefix6 := a.value.prefix6) == a.value
  }

  /** How many of the map updates numbered from `lo` up to `hi` fail. */
  function FaultsIn(faults: nat -> bool, lo: nat, hi: nat): (n: nat)
  {
    if hi <= lo then 0 else FaultsIn(faults, lo, hi - 1) + if faults(hi - 1) then 1 else 0
  }

  lemma {:induction false} FaultsSplit(faults: nat -> bool, lo: nat, mid: nat, hi: nat)
    requires lo <= mid <= hi
    ensures FaultsIn(faults, lo, hi) == FaultsIn(faults, lo, mid) + FaultsIn(faults, mid, hi)
  {
    if mid < hi {
      FaultsSplit(faults, lo, mid, hi - 1);
    }
  }

  lemma {:induction false} NoFaults(faults: nat -> bool, lo: nat, hi: nat)
    requires forall n :: !faults(n)
    ensures FaultsIn(faults, lo, hi) == 0
  {
    if lo < hi {
      NoFaults(faults, lo, hi - 1);
    }
  }

  class Backend {
    /** Kernel rows; the cache is written together with them. */
    var rows: Rows
    var tcp: set<Port>
    var udp: set<Port>
    /** `last_apply_failures`. */
    var failures: nat
    /** Number of map updates so far. */
    var clock: nat
    const created: Prefixes

    constructor (rows: Rows, tcp: set<Port>, udp: set<Port>, created: Prefixes)
      ensures this.rows == rows && this.tcp == tcp && this.udp == udp && this.created == created
    {
      this.rows, this.tcp, this.udp, this.created, failures, clock := rows, tcp, udp, created, 0, 0;
    }

    /** Replace or delete one row. */
    method WriteRow(p: Port, row: Option<Row>, faults: nat -> bool) returns (ok: bool)
      modifies this`rows, this`clock
      ensures clock == old(clock) + 1 && ok == !faults(old(clock))
      ensures RowOf(rows, p) == if ok then row else RowOf(old(rows), p)
      ensures forall q :: q != p ==> RowOf(rows, q) == RowOf(old(rows), q)
    {
      ok := !faults(clock);
      if ok {
        rows := if row.Some? then rows[p := row.value] else rows - {p};
      }
      clock := clock + 1;
    }

    method ApplyUpserts(v: View, upserts: map<Port, u32>, faults: nat -> bool)
      modifies this`rows, this`clock, this`failures
      ensures clock >= old(clock) && failures == old(failures) + FaultsIn(faults, old(clock), clock)
      ensures failures == old(failures) ==>
              forall p :: RowOf(rows, p) == Aim(RowOf(old(rows), p), v, upserts, {}, p, created)
    {
      var rest := upserts.Keys;
      while rest != {}
        invariant rest <= upserts.Keys && clock >= old(clock)
        invariant failures == old(failures) + FaultsIn(faults, old(clock), clock)
        invariant failures == old(failures) ==> forall p ::
                    RowOf(rows, p) == if p in rest then RowOf(old(rows), p)
                        else Aim(RowOf(old(rows), p), v, upserts, {}, p, created)
        decreases rest
      {
        var p :| p in rest;
        var ok := WriteRow(p, ViewSet(RowOf(rows, p), v, upserts[p], created), faults);
        if !ok {
          failures := failures + 1;
        }
        rest := rest - {p};
      }
    }

    method ApplyRemovals(v: View, removals: set<Port>, faults: nat -> bool)
      modifies this`rows, this`clock, this`failures
      ensures clock >= old(clock) && failures == old(failures) + FaultsIn(faults, old(clock), clock)
      ensures failures == old(failures) ==>
              forall p :: RowOf(rows, p) == Aim(RowOf(old(rows), p), v, map[], removals, p, created)
    {
      var rest := removals;
      while rest != {}
        invariant rest <= removals && clock >= old(clock)
        invariant failures == old(failures) + FaultsIn(faults, old(clock), clock)
        invariant failures == old(failures) ==> forall p ::
                    RowOf(rows, p) == if p in rest then RowOf(old(rows), p)
                        else Aim(RowOf(old(rows), p), v, map[], removals, p, created)
        decreases rest
      {
        var p :| p in rest;
        var ok := WriteRow(p, ViewDelete(RowOf(rows, p), v), faults);
        if !ok {
          failures := failures + 1;
        }
        rest := rest - {p};
      }
    }

    /** `_apply_rate_map_delta` through one view, for the plan made from the rows `before`. */
    method ApplyDelta(before: Rows, v: View, dict: map<Port, u32>, faults: nat -> bool)
      modifies this`rows, this`clock, this`failures
      ensures clock >= old(clock) && failures == old(failures) + FaultsIn(faults, old(clock), clock)
      ensures failures == old(failures) ==>
              forall p :: RowOf(rows, p) == Delta(RowOf(before, p), RowOf(old(rows), p), v, Entry(dict, p), created)
    {
      var upserts, removals := Upserts(dict, Active(before, v)), Removals(dict, Active(before, v));
      ApplyUpserts(v, upserts, faults);
      ghost var mid := clock;
      ApplyRemovals(v, removals, faults);
      FaultsSplit(faults, old(clock), mid, clock);
      forall p
        ensures Aim(RowOf(old(rows), p), v, upserts, removals, p, created)
             == Delta(RowOf(before, p), RowOf(old(rows), p), v, Entry(dict, p), created)
      {
        PlanIsDelta(before, RowOf(old(rows), p), v, dict, p, created);
      }
    }

    /** The five views in turn, all from the plan made at the start. */
    method ApplyLimits(d: Desired, faults: nat -> bool)
      modifies this`rows, this`clock, this`failures
      ensures clock >= old(clock) && failures == old(failures) + FaultsIn(faults, old(clock), clock)
      ensures failures == old(failures) ==>
              forall p :: RowOf(rows, p) == AfterViews(RowOf(old(rows), p), WantOf(d, p), created)
    {
      var before := rows;
      ApplyDelta(before, Syn, d.syn, faults);
      ghost var t0 := clock;
      ApplyDelta(before, Agg, d.agg, faults);
      ghost var t1 := clock;
      FaultsSplit(faults, old(clock), t0, t1);
      ApplyDelta(before, Conn, d.conn, faults);
      ghost var t2 := clock;
      FaultsSplit(faults, old(clock), t1, t2);
      ApplyDelta(before, ConnPrefix, d.connPrefix, faults);
      ghost var t3 := clock;
      FaultsSplit(faults, old(clock), t2, t3);
      ApplyDelta(before, ConnPort, d.connPort, faults);
      FaultsSplit(faults, old(clock), t3, clock);
    }

    /** `ensure_prefixes`: failures here are not counted as apply failures. */
    method FixPrefixes(ports: set<Port>, pre: Prefixes, faults: nat -> bool) returns (missed: nat)
      modifies this`rows, this`clock
      ensures clock >= old(clock) && missed == FaultsIn(faults, old(clock), clock)
      ensures missed == 0 ==>
              forall p ::
                RowOf(rows, p) == if p in ports then WithPrefixes(RowOf(old(rows), p), pre) else RowOf(old(rows), p)
      ensures forall p :: Alike(RowOf(rows, p), RowOf(old(rows), p))
    {
      missed := 0;
      var rest := ports;
      while rest != {}
        invariant rest <= ports && clock >= old(clock) && missed == FaultsIn(faults, old(clock), clock)
        invariant missed == 0 ==> forall p ::
                    RowOf(rows, p) == if p in ports && p !in rest then WithPrefixes(RowOf(old(rows), p), pre)
                        else RowOf(old(rows), p)
        invariant forall p :: Alike(RowOf(rows, p), RowOf(old(rows), p))
        decreases rest
      {
        var p :| p in rest;
        var row := WithPrefixes(RowOf(rows, p), pre);
        if row != RowOf(rows, p) {
          var ok := WriteRow(p, row, faults);
          if !ok {
            missed := missed + 1;
          }
        }
        rest := rest - {p};
      }
    }

    /**
      Write 0 for ports no longer wanted, or 1 for new ones, in a whitelist; each
      failure leaves its port as it was.
     */
    method SwitchPorts(whitelist: set<Port>, ports: set<Port>, on: bool, faults: nat -> bool) returns (after: set<Port>)
      modifies this`clock, this`failures
      ensures clock >= old(clock) && failures == old(failures) + FaultsIn(faults, old(clock), clock)
      ensures if on then whitelist <= after <= whitelist + ports else whitelist - ports <= after <= whitelist
      ensures failures == old(failures) ==> after == if on then whitelist + ports else whitelist - ports
    {
      after := whitelist;
      var rest := ports;
      while rest != {}
        invariant rest <= ports
        invariant clock >= old(clock) && failures == old(failures) + FaultsIn(faults, old(clock), clock)
        invariant if on then whitelist <= after <= whitelist + ports else whitelist - ports <= after <= whitelist
        invariant failures == old(failures) ==>
                  after == if on then whitelist + (ports - rest) else whitelist - (ports - rest)
        decreases rest
      {
        var p :| p in rest;
        if faults(clock) {
          failures := failures + 1;
        } else {
          after := if on then after + {p} else after - {p};
        }
        clock := clock + 1;
        rest := rest - {p};
      }
    }

    /** All policy rows: limits through their views, then prefixes. */
    method ApplyPolicies(d: Desired, faults: nat -> bool) returns (missed: nat)
      modifies this`rows, this`clock, this`failures
      ensures clock >= old(clock) && failures >= old(failures)
      ensures failures + missed == old(failures) + FaultsIn(faults, old(clock), clock)
      ensures failures == old(failures) ==> forall p, u :: Base(u) ==> Get(RowOf(rows, p), u) == Limit(WantOf(d, p), u)
      ensures failures == old(failures) && missed == 0 ==>
              forall p :: RowOf(rows, p) == Reconciled(RowOf(old(rows), p), WantOf(d, p), created)
    {
      ApplyLimits(d, faults);
      ghost var limited, mid := rows, clock;
      missed := FixPrefixes(PolicyPorts(d), d.prefixes, faults);
      FaultsSplit(faults, old(clock), mid, clock);
      if failures == old(failures) {
        forall p, u | Base(u) ensures Get(RowOf(rows, p), u) == Limit(WantOf(d, p), u) {
          BaseAtOnce(RowOf(old(rows), p), WantOf(d, p), created, u);
          assert Alike(RowOf(rows, p), RowOf(limited, p));
        }
        if missed == 0 {
          forall p ensures RowOf(rows, p) == Reconciled(RowOf(old(rows), p), WantOf(d, p), created) {
            PolicyPortsAre(d, p);
          }
        }
      }
    }

    /**
      Everything before exposure: closing, limits, prefixes, and `others` failures
      counted by the remaining maps.  Every update that fails is either counted or
      one of the `missed` prefixes.
     */
    method Protect(d: Desired, policyOpen: bool, others: nat, faults: nat -> bool) returns (missed: nat)
      modifies this
      ensures clock >= old(clock) && failures >= others
      ensures failures + missed == others + FaultsIn(faults, old(clock), clock)
      ensures old(tcp) * d.tcp <= tcp <= old(tcp) && old(udp) * d.udp <= udp <= old(udp)
      ensures failures == 0 ==> tcp == old(tcp) * d.tcp && udp == old(udp) * d.udp
      ensures !policyOpen ==> rows == old(rows) && missed == 0
      ensures policyOpen && failures == 0 ==> forall p, u :: Base(u) ==>
              Get(RowOf(rows, p), u) == Limit(WantOf(d, p), u)
      ensures policyOpen && failures == 0 && missed == 0 ==>
              forall p :: RowOf(rows, p) == Reconciled(RowOf(old(rows), p), WantOf(d, p), created)
    {
      failures, missed := 0, 0;
      tcp := SwitchPorts(tcp, tcp - d.tcp, false, faults);
      ghost var t0 := clock;
      udp := SwitchPorts(udp, udp - d.udp, false, faults);
      ghost var t1 := clock;
      FaultsSplit(faults, old(clock), t0, t1);
      if policyOpen {
        missed := ApplyPolicies(d, faults);
        FaultsSplit(faults, old(clock), t1, clock);
      }
      failures := failures + others;
    }

    /** Open the new ports of both whitelists; each failure is counted and leaves its port closed. */
    method Expose(newTcp: set<Port>, newUdp: set<Port>, faults: nat -> bool)
      modifies this`tcp, this`udp, this`clock, this`failures
      ensures clock >= old(clock) && failures == old(failures) + FaultsIn(faults, old(clock), clock)
      ensures old(tcp) <= tcp <= old(tcp) + newTcp && old(udp) <= udp <= old(udp) + newUdp
      ensures failures == old(failures) ==> tcp == old(tcp) + newTcp && udp == old(udp) + newUdp
    {
      tcp := SwitchPorts(tcp, newTcp, true, faults);
      ghost var mid := clock;
      udp := SwitchPorts(udp, newUdp, true, faults);
      FaultsSplit(faults, old(clock), mid, clock);
    }

    /**
      `reconcile`.  `counted` is the number of failures counted when the new ports
      are due, before update number `due`: a port opens only if it is zero, and then
      its first three limits are already the wanted ones.
     */
    method Reconcile(d: Desired, policyOpen: bool, others: nat, faults: nat -> bool, dryRun: bool)
      returns (counted: nat, missed: nat, ghost due: nat)
      modifies this
      ensures dryRun ==> rows == old(rows) && tcp == old(tcp) && udp == old(udp)
      ensures !dryRun ==> counted + missed == others + FaultsIn(faults, old(clock), due) && counted >= others
      ensures !(tcp <= old(tcp) && udp <= old(udp)) ==> counted == 0
      ensures tcp <= old(tcp) + d.tcp && udp <= old(udp) + d.udp
      ensures counted == 0 && !dryRun ==> tcp <= d.tcp && udp <= d.udp
      ensures counted == 0 && !dryRun && policyOpen ==>
              forall p, u :: Base(u) ==> Get(RowOf(rows, p), u) == Limit(WantOf(d, p), u)
      ensures failures == 0 && !dryRun ==> counted == 0 && tcp == d.tcp && udp == d.udp
      ensures failures == 0 && !dryRun && missed == 0 && policyOpen ==>
              forall p :: RowOf(rows, p) == Reconciled(RowOf(old(rows), p), WantOf(d, p), created)
      ensures (forall n :: !faults(n)) && others == 0 ==> failures == 0 && missed == 0
    {
      missed, due := 0, clock;
      if dryRun {
        failures := 0;
        return 0, missed, due;
      }
      var newTcp, newUdp := d.tcp - tcp, d.udp - udp;
      missed := Protect(d, policyOpen, others, faults);
      counted, due := failures, clock;
      if failures == 0 {
        Expose(newTcp, newUdp, faults);
        if forall n :: !faults(n) {
          NoFaults(faults, due, clock);
        }
      }
      if forall n :: !faults(n) {
        NoFaults(faults, old(clock), due);
      }
    }

    /**
      `rounds` reconciles with the same wishes.  If none reports a failure, every
      row has moved as the row model says.
     */
    method Rounds(d: Desired, rounds: nat, faults: nat -> bool) returns (clean: bool)
      modifies this
      ensures clean && rounds > 0 ==> tcp == d.tcp && udp == d.udp
      ensures clean ==> forall p :: RowOf(rows, p) == Repeated(RowOf(old(rows), p), WantOf(d, p), created, rounds)
      ensures (forall n :: !faults(n)) ==> clean
    {
      clean := true;
      for i := 0 to rounds
        invariant clean && i > 0 ==> tcp == d.tcp && udp == d.udp
        invariant clean ==> forall p :: RowOf(rows, p) == Repeated(RowOf(old(rows), p), WantOf(d, p), created, i)
        invariant (forall n :: !faults(n)) ==> clean
      {
        var counted, missed, due := Reconcile(d, true, 0, faults, false);
        clean := clean && failures == 0 && missed == 0;
      }
    }

    /**
      Two reconciles or more without a failure settle the whole backend: ports
      with a base limit have all their limits and prefixes, every other port has
      its limits exactly as far as `LimitsReached` says, and a port nothing
      mentions has no row unless its row had all limits zero from the start.
     */
    method Settle(d: Desired, rounds: nat, faults: nat -> bool) returns (clean: bool)
      requires rounds >= 2
      modifies this
      ensures (forall n :: !faults(n)) ==> clean
      ensures clean ==> tcp == d.tcp && udp == d.udp
      ensures clean ==> forall p :: HasBaseLimit(WantOf(d, p)) ==> Settled(RowOf(rows, p), WantOf(d, p))
      ensures clean ==> forall p ::
                LimitsMatch(RowOf(rows, p), WantOf(d, p)) <==>
                || HasBaseLimit(WantOf(d, p))
                || (Limit(WantOf(d, p), ConnPrefix) == 0 && Limit(WantOf(d, p), ConnPort) == 0)
                || (p in old(rows) && Quiet(Some(old(rows)[p]), WantOf(d, p)))
      ensures clean ==> forall p :: p !in PolicyPorts(d) ==> (p in rows <==> p in old(rows) && AllZero(old(rows)[p]))
    {
      clean := Rounds(d, rounds, faults);
      if clean {
        forall p ensures SettledAt(RowOf(old(rows), p), RowOf(rows, p), WantOf(d, p)) {
          RoundsSettle(RowOf(old(rows), p), WantOf(d, p), created, rounds);
        }
        forall p | p !in PolicyPorts(d) ensures !Mentioned(WantOf(d, p)) {
          PolicyPortsAre(d, p);
        }
      }
    }
  }

  /** What two reconciles or more make of the row `before` of a port. */
  ghost predicate SettledAt(before: Option<Row>, after: Option<Row>, w: Want)
  {
    && (HasBaseLimit(w) ==> Settled(after, w))
    && (LimitsMatch(after, w) <==>
        || HasBaseLimit(w) || (Limit(w, ConnPrefix) == 0 && Limit(w, ConnPort) == 0)
        || (before.Some? && Quiet(before, w)))
    && (!Mentioned(w) ==> (after == None <==> before.None? || !AllZero(before.value)))
  }

  lemma RoundsSettle(row: Option<Row>, w: Want, created: Prefixes, rounds: nat)
    requires rounds >= 2
    ensures SettledAt(row, Repeated(row, w, created, rounds), w)
  {
    LimitsReached(row, w, created, rounds);
    if HasBaseLimit(w) {
      Converges(row, w, created, rounds);
    }
    if !Mentioned(w) {
      UnwantedRows(row, w, created, rounds);
    }
  }
}
