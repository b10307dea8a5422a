/**
  The UDP table: egress records the reversed tuple of outbound packets, ingress
  passes replies on it alone.  Both skip writes while the stored timestamp is
  young.  Userspace deletes entries: its collector those it judged expired
  earlier, the reconciler those of closed ports.
 */
module UdpTable {
  import opened Words
  import opened Flows
  import opened Runs

  type Table = map<Flow, nat>

  /** Effective values in nanoseconds. */
  datatype Config = Config(timeout: nat, refresh: nat)

  function Age(now: nat, ts: nat): (r: nat) { Sub64(now, ts) }

  predicate Expired(c: Config, ts: nat, now: nat) { Age(now, ts) > c.timeout }

  /** Does the table alone pass this packet?  If not, the whitelist and the limiters decide. */
  predicate PassedByTable(c: Config, t: Table, f: Flow, now: nat)
  {
    f in t && !Expired(c, t[f], now)
  }

  function Ingress(c: Config, t: Table, f: Flow, now: nat): (t': Table)
  {
    if f !in t then t
    else if Expired(c, t[f], now) then t - {f}
    else if Age(now, t[f]) > c.refresh then t[f := now]
    else t
  }

  function Egress(c: Config, t: Table, packet: Flow, now: nat): (t': Table)
  {
    var f := Reverse(packet);
    if f !in t || Age(now, t[f]) > c.refresh then t[f := now] else t
  }

  datatype Event = In(flow: Flow, now: nat) | Out(packet: Flow, now: nat) | Delete(flow: Flow, now: nat)

  function Next(c: Config, t: Table, e: Event): (t': Table)
  {
    match e
    case In(f, now) => Ingress(c, t, f, now)
    case Out(packet, now) => Egress(c, t, packet, now)
    case Delete(f, _) => t - {f}
  }

  function From(c: Config, t: Table, es: seq<Event>): (t': Table)
  {
    if es == [] then t else Next(c, From(c, t, es[..|es| - 1]), es[|es| - 1])
  }

  function Exec(c: Config, es: seq<Event>): (t: Table) { From(c, map[], es) }

  predicate Timed(es: seq<Event>, now: nat)
  {
    && (forall i :: 0 <= i < |es| ==> es[i].now <= now)
    && (forall i, j :: 0 <= i < j < |es| ==> es[i].now <= es[j].now)
    && now < 0x8000_0000_0000_0000
  }

  lemma Shorter(es: seq<Event>, now: nat)
    requires es != [] && Timed(es, now)
    ensures Timed(es[..|es| - 1], es[|es| - 1].now)
  {
  }

  // ---------------------------------------------------------------- the reply guarantee

  /** When the latest outbound packet whose replies are `f` was sent. */
  function LatestOut(es: seq<Event>, f: Flow): (r: Option<nat>)
  {
    if es == [] then None
    else
      var e := es[|es| - 1];
      if e.Out? && Reverse(e.packet) == f then Some(e.now) else LatestOut(es[..|es| - 1], f)
  }

  /** Every deletion of `f` since that packet found its entry absent or expired. */
  predicate Spared(c: Config, es: seq<Event>, f: Flow)
  {
    if es == [] then true
    else
      var before, e := es[..|es| - 1], es[|es| - 1];
      if e.Out? && Reverse(e.packet) == f then true
      else (e == Delete(f, e.now) ==> !PassedByTable(c, Exec(c, before), f, e.now)) && Spared(c, before, f)
  }

  /** What holds of `f` until the guarantee has run out. */
  predicate Awaited(c: Config, t: Table, f: Flow, sent: nat, now: nat)
  {
    now + c.refresh <= sent + c.timeout ==> f in t && t[f] <= now && sent <= t[f] + c.refresh
  }

  lemma AwaitedNext(c: Config, t: Table, f: Flow, sent: nat, before: nat, e: Event)
    requires Awaited(c, t, f, sent, before) && before <= e.now < 0x8000_0000_0000_0000
    requires e == Delete(f, e.now) ==> !PassedByTable(c, t, f, e.now)
    ensures Awaited(c, Next(c, t, e), f, sent, e.now)
  {
  }

  lemma AwaitedOut(c: Config, t: Table, packet: Flow, now: nat)
    requires now < 0x8000_0000_0000_0000 && forall f :: f in t ==> t[f] <= now
    ensures Awaited(c, Egress(c, t, packet, now), Reverse(packet), now, now)
  {
  }

  /** Stored timestamps are those of packets of the same flow, in either direction. */
  lemma {:induction false} WrittenBy(c: Config, es: seq<Event>, f: Flow) returns (i: nat)
    requires f in Exec(c, es)
    ensures i < |es| && es[i].now == Exec(c, es)[f]
    ensures es[i] == In(f, es[i].now) || es[i] == Out(Reverse(f), es[i].now)
  {
    var before, e := es[..|es| - 1], es[|es| - 1];
    if f in Exec(c, before) && Exec(c, before)[f] == Exec(c, es)[f] {
      i := WrittenBy(c, before, f);
    } else {
      i := |es| - 1;
      assert e.Out? ==> Reverse(Reverse(e.packet)) == e.packet;
    }
  }

  lemma {:induction false} StillAwaited(c: Config, es: seq<Event>, f: Flow, now: nat)
    requires Timed(es, now) && LatestOut(es, f).Some? && Spared(c, es, f)
    ensures LatestOut(es, f).value <= now && Awaited(c, Exec(c, es), f, LatestOut(es, f).value, now)
  {
    var before, e := es[..|es| - 1], es[|es| - 1];
    Shorter(es, now);
    if e.Out? && Reverse(e.packet) == f {
      var t := Exec(c, before);
      forall g | g in t ensures t[g] <= e.now {
        var i := WrittenBy(c, before, g);
      }
      AwaitedOut(c, t, e.packet, e.now);
    } else {
      StillAwaited(c, before, f, e.now);
      AwaitedNext(c, Exec(c, before), f, LatestOut(es, f).value, e.now, e);
    }
  }

  /** A live entry that was deleted does not come back before the next outbound packet. */
  lemma {:induction false} GoneForGood(c: Config, es: seq<Event>, f: Flow)
    requires !Spared(c, es, f)
    ensures f !in Exec(c, es)
  {
    var before, e := es[..|es| - 1], es[|es| - 1];
    if e != Delete(f, e.now) {
      GoneForGood(c, before, f);
    }
  }

  /**
    After every run, a reply arriving no later than timeout - refresh after the
    latest outbound packet passes on the table alone exactly when every deletion
    of its entry since then, if there was one, found it absent or expired.
   */
  lemma ReplyGuarantee(c: Config, es: seq<Event>, f: Flow, now: nat)
    requires Timed(es, now) && LatestOut(es, f).Some?
    requires now - LatestOut(es, f).value <= c.timeout - c.refresh
    ensures PassedByTable(c, Exec(c, es), f, now) <==> Spared(c, es, f)
  {
    if Spared(c, es, f) {
      StillAwaited(c, es, f, now);
    } else {
      GoneForGood(c, es, f);
    }
  }

  /** Deletions of `f` in `rest`, if any, find its entry absent or expired. */
  predicate SparedSince(c: Config, es: seq<Event>, rest: seq<Event>, f: Flow)
  {
    rest == [] ||
    var before, e := rest[..|rest| - 1], rest[|rest| - 1];
    (e == Delete(f, e.now) ==> !PassedByTable(c, Exec(c, es + before), f, e.now)) && SparedSince(c, es, before, f)
  }

  lemma {:induction false} AwaitedSince(c: Config, es: seq<Event>, rest: seq<Event>, f: Flow, sent: nat, clock: nat,
      now: nat)
    requires Awaited(c, Exec(c, es), f, sent, clock) && clock <= now && Timed(rest, now)
    requires (forall i :: 0 <= i < |rest| ==> clock <= rest[i].now) && SparedSince(c, es, rest, f)
    ensures Awaited(c, Exec(c, es + rest), f, sent, now)
  {
    if rest == [] {
      assert es + rest == es;
    } else {
      var before, e := rest[..|rest| - 1], rest[|rest| - 1];
      AwaitedSince(c, es, before, f, sent, clock, e.now);
      assert (es + rest)[..|es + rest| - 1] == es + before;
      AwaitedNext(c, Exec(c, es + before), f, sent, e.now, e);
    }
  }

  /** A packet of the flow that passes, in either direction, keeps the entry for timeout - refresh from then on. */
  lemma TrafficKeepsOpen(c: Config, es: seq<Event>, e: Event, rest: seq<Event>, f: Flow, now: nat)
    requires Timed(es + [e] + rest, now) && SparedSince(c, es + [e], rest, f)
    requires (e == In(f, e.now) && PassedByTable(c, Exec(c, es), f, e.now)) || e == Out(Reverse(f), e.now)
    requires now - e.now <= c.timeout - c.refresh
    ensures PassedByTable(c, Exec(c, es + [e] + rest), f, now)
  {
    TimedParts(es, e, rest, now);
    assert (es + [e])[..|es|] == es;
    KeptBy(c, es, e, f);
    AwaitedSince(c, es + [e], rest, f, e.now, e.now, now);
  }

  lemma TimedParts(es: seq<Event>, e: Event, rest: seq<Event>, now: nat)
    requires Timed(es + [e] + rest, now)
    ensures Timed(es, e.now) && Timed(rest, now) && e.now <= now && forall i :: 0 <= i < |rest| ==> e.now <= rest[i].now
  {
    var all := es + [e] + rest;
    assert all[|es|] == e && forall i :: 0 <= i < |es| ==> all[i] == es[i];
    assert forall i :: 0 <= i < |rest| ==> all[|es| + 1 + i] == rest[i];
  }

  lemma KeptBy(c: Config, es: seq<Event>, e: Event, f: Flow)
    requires Timed(es, e.now)
    requires (e == In(f, e.now) && PassedByTable(c, Exec(c, es), f, e.now)) || e == Out(Reverse(f), e.now)
    ensures Awaited(c, Next(c, Exec(c, es), e), f, e.now, e.now)
  {
    var t := Exec(c, es);
    if f in t {
      var i := WrittenBy(c, es, f);
    }
  }

  /**
    The bound is exact: one nanosecond later a reply may find nothing, because
    the second packet's write was skipped.
   */
  lemma GuaranteeIsTight(c: Config, packet: Flow, start: nat) returns (es: seq<Event>, now: nat)
    requires c.refresh <= c.timeout && start + c.timeout + 1 < 0x8000_0000_0000_0000
    ensures Timed(es, now) && LatestOut(es, Reverse(packet)).Some? && Spared(c, es, Reverse(packet))
    ensures now - LatestOut(es, Reverse(packet)).value == c.timeout - c.refresh + 1
    ensures !PassedByTable(c, Exec(c, es), Reverse(packet), now)
  {
    var first, second := Out(packet, start), Out(packet, start + c.refresh);
    es, now := [first, second], start + c.timeout + 1;
    assert es[..1] == [first] && [first][..0] == [];
    assert Exec(c, []) == map[];
    assert Exec(c, [first]) == map[Reverse(packet) := start];
    assert Exec(c, es) == map[Reverse(packet) := start];
  }

  /**
    The collector can break the guarantee: an entry judged expired is rewritten by
    an outbound packet, and the deletion that follows takes the new entry, so even
    a reply at the same moment is not passed.
   */
  lemma LateDeletionSeen(c: Config, packet: Flow, start: nat) returns (es: seq<Event>, now: nat)
    requires c.refresh <= c.timeout && start + c.timeout + 1 < 0x8000_0000_0000_0000
    ensures var f := Reverse(packet);
            && Timed(es, now) && |es| == 3 && es[2] == Delete(f, now)
            && f in Exec(c, es[..1]) && Expired(c, Exec(c, es[..1])[f], now)
            && LatestOut(es, f) == Some(now) && PassedByTable(c, Exec(c, es[..2]), f, now)
            && !Spared(c, es, f) && !PassedByTable(c, Exec(c, es), f, now)
  {
    var f := Reverse(packet);
    now := start + c.timeout + 1;
    var ask, again, gc := Out(packet, start), Out(packet, now), Delete(f, now);
    es := [ask, again, gc];
    assert es[..2] == [ask, again] && es[..1] == [ask] && [ask, again][..1] == [ask] && [ask][..0] == [];
    assert Exec(c, []) == map[];
    assert Exec(c, [ask]) == map[f := start];
    assert Exec(c, [ask, again]) == map[f := now];
    assert LatestOut([ask, again], f) == Some(now);
  }

  /** A packet the table passes follows an outbound packet of its flow, and the flow was active within the timeout. */
  lemma PassedRepliesWereAsked(c: Config, es: seq<Event>, f: Flow, now: nat) returns (i: nat, j: nat)
    requires Timed(es, now) && PassedByTable(c, Exec(c, es), f, now)
    ensures i < |es| && es[i] == Out(Reverse(f), es[i].now)
    ensures j < |es| && now - es[j].now <= c.timeout
    ensures es[j] == In(f, es[j].now) || es[j] == Out(Reverse(f), es[j].now)
  {
    i := AskedFor(c, es, f);
    j := WrittenBy(c, es, f);
  }

  lemma {:induction false} AskedFor(c: Config, es: seq<Event>, f: Flow) returns (i: nat)
    requires f in Exec(c, es)
    ensures i < |es| && es[i] == Out(Reverse(f), es[i].now)
  {
    var before, e := es[..|es| - 1], es[|es| - 1];
    if f in Exec(c, before) {
      i := AskedFor(c, before, f);
    } else {
      i := |es| - 1;
      assert Reverse(Reverse(e.packet)) == e.packet;
    }
  }

  // ---------------------------------------------------------------- what packets see of deletions

  function Stepper(c: Config): (f: (Table, Event) -> Table) { (t, e) => Next(c, t, e) }

  function Viewer(c: Config): (f: (Table, Event) -> seq<bool>) { (t, e) => Outcome(c, t, e) }

  function Outcome(c: Config, t: Table, e: Event): (r: seq<bool>)
  {
    if e.In? then [PassedByTable(c, t, e.flow, e.now)] else []
  }

  /** For each inbound packet, in order, whether the table passed it. */
  function Outcomes(c: Config, t: Table, es: seq<Event>): (r: seq<bool>)
  {
    Observed(Stepper(c), Viewer(c), t, es)
  }

  lemma Unroll(c: Config, t: Table, e: Event, rest: seq<Event>)
    ensures Outcomes(c, t, [e] + rest) == Outcome(c, t, e) + Outcomes(c, Next(c, t, e), rest)
  {
    FirstThenRest(Stepper(c), Viewer(c), t, e, rest);
  }

  predicate Forward(es: seq<Event>, clock: nat)
  {
    && (forall i :: 0 <= i < |es| ==> clock <= es[i].now < 0x8000_0000_0000_0000)
    && forall i, j :: 0 <= i < j < |es| ==> es[i].now <= es[j].now
  }

  /** Too old to pass anything, and old enough for the next outbound packet to be recorded. */
  predicate Spent(c: Config, ts: nat, now: nat) { Expired(c, ts, now) && Age(now, ts) > c.refresh }

  function Dead(c: Config, now: nat): (f: nat -> bool) { (ts: nat) => Spent(c, ts, now) }

  predicate Past(t: Table, now: nat) { forall f :: f in t ==> t[f] <= now }

  ghost predicate Related(c: Config, full: Table, swept: Table, now: nat)
  {
    Swept(full, swept, Dead(c, now)) && Past(full, now) && now < 0x8000_0000_0000_0000
  }

  lemma RelatedLater(c: Config, full: Table, swept: Table, now: nat, later: nat)
    requires Related(c, full, swept, now) && now <= later < 0x8000_0000_0000_0000
    ensures Related(c, full, swept, later)
  {
  }

  lemma NextRelated(c: Config, full: Table, swept: Table, e: Event)
    requires Related(c, full, swept, e.now)
    ensures Related(c, Next(c, full, e), Next(c, swept, e), e.now) && Outcome(c, full, e) == Outcome(c, swept, e)
  {
  }

  /** Deleting `f` at `now` takes away nothing that counts. */
  predicate Harmless(c: Config, t: Table, f: Flow, now: nat) { f in t ==> Spent(c, t[f], now) }

  /** With timeout >= refresh that is: the entry is absent or expired. */
  lemma HarmlessWhenExpired(c: Config, t: Table, f: Flow, now: nat)
    requires c.refresh <= c.timeout
    ensures Harmless(c, t, f, now) <==> !PassedByTable(c, t, f, now)
  {
  }

  predicate OnlyHarmless(c: Config, t: Table, es: seq<Event>)
    decreases |es|
  {
    es == [] || ((es[0].Delete? ==> Harmless(c, t, es[0].flow, es[0].now))
        && OnlyHarmless(c, Next(c, t, es[0]), es[1..]))
  }

  /** Simulation: the same events have the same outcomes on both tables, and find deletions harmless on both. */
  lemma {:induction false} Lockstep(c: Config, full: Table, swept: Table, clock: nat, es: seq<Event>)
    requires Related(c, full, swept, clock) && Forward(es, clock)
    ensures Outcomes(c, swept, es) == Outcomes(c, full, es)
    ensures OnlyHarmless(c, swept, es) ==> OnlyHarmless(c, full, es)
    decreases |es|
  {
    if es != [] {
      var e, rest := es[0], es[1..];
      RelatedLater(c, full, swept, clock, e.now);
      NextRelated(c, full, swept, e);
      Lockstep(c, Next(c, full, e), Next(c, swept, e), e.now, rest);
      assert es == [e] + rest;
      Unroll(c, full, e, rest);
      Unroll(c, swept, e, rest);
    }
  }

  function Deletion(): (f: Event -> bool) { (e: Event) => e.Delete? }

  lemma {:induction false} DeletionsUnseen(c: Config, t: Table, clock: nat, es: seq<Event>)
    requires Past(t, clock) && clock < 0x8000_0000_0000_0000 && Forward(es, clock) && OnlyHarmless(c, t, es)
    ensures Outcomes(c, t, es) == Outcomes(c, t, Except(es, Deletion()))
    decreases |es|
  {
    if es != [] {
      var e, rest := es[0], es[1..];
      assert es == [e] + rest;
      assert Related(c, t, t, e.now);
      NextRelated(c, t, t, e);
      Unroll(c, t, e, rest);
      if e.Delete? {
        assert Related(c, t, t - {e.flow}, e.now);
        Lockstep(c, t, t - {e.flow}, e.now, rest);
        DeletionsUnseen(c, t, e.now, rest);
        assert Except(es, Deletion()) == Except(rest, Deletion());
      } else {
        DeletionsUnseen(c, Next(c, t, e), e.now, rest);
        Unroll(c, t, e, Except(rest, Deletion()));
      }
    }
  }

  /** Deletions at any moments are invisible to any mix of packets, as long as each of them is harmless. */
  lemma GcInvisible(c: Config, es: seq<Event>)
    requires Forward(es, 0) && OnlyHarmless(c, map[], es)
    ensures Outcomes(c, map[], es) == Outcomes(c, map[], Except(es, Deletion()))
  {
    DeletionsUnseen(c, map[], 0, es);
  }

  /** And a deletion is noticed by no later packets exactly when it is harmless. */
  lemma DeletionUnseen(c: Config, t: Table, f: Flow, now: nat)
    requires Past(t, now) && now < 0x8000_0000_0000_0000
    ensures (forall es :: Forward(es, now) ==> Outcomes(c, t - {f}, es) == Outcomes(c, t, es)) <==>
            Harmless(c, t, f, now)
  {
    if Harmless(c, t, f, now) {
      assert Related(c, t, t - {f}, now);
      forall es | Forward(es, now) ensures Outcomes(c, t - {f}, es) == Outcomes(c, t, es) {
        Lockstep(c, t, t - {f}, now, es);
      }
    } else {
      var es := Telling(c, t, f, now);
    }
  }

  /**
    A live entry passes the next packet; one too old for that but too young to
    be rewritten makes egress skip its write.
   */
  lemma Telling(c: Config, t: Table, f: Flow, now: nat) returns (es: seq<Event>)
    requires Past(t, now) && now < 0x8000_0000_0000_0000 && !Harmless(c, t, f, now)
    ensures Forward(es, now) && Outcomes(c, t - {f}, es) != Outcomes(c, t, es)
  {
    var reply, ask := In(f, now), Out(Reverse(f), now);
    assert [reply] == [reply] + [];
    Unroll(c, t, reply, []);
    Unroll(c, t - {f}, reply, []);
    if Expired(c, t[f], now) {
      es := [ask, reply];
      assert es == [ask] + [reply];
      var recorded := (t - {f})[f := now];
      assert Reverse(Reverse(f)) == f;
      assert Next(c, t, ask) == t && Next(c, t - {f}, ask) == recorded;
      Unroll(c, t, ask, [reply]);
      Unroll(c, t - {f}, ask, [reply]);
      Unroll(c, recorded, reply, []);
      assert Outcomes(c, t, es) == [false] && Outcomes(c, t - {f}, es) == [true];
    } else {
      es := [reply];
      assert Outcomes(c, t, es) == [true] && Outcomes(c, t - {f}, es) == [false];
    }
  }

  /** With timeout < refresh even the prompt deletion of an expired entry shows, in a run from the empty table. */
  lemma GcVisible(c: Config, packet: Flow) returns (es: seq<Event>)
    requires c.timeout < c.refresh && c.timeout + 2 < 0x8000_0000_0000_0000
    ensures var f := Reverse(packet);
            && Forward(es, 1) && |es| == 4 && es[1] == Delete(f, es[1].now)
            && f in Exec(c, es[..1]) && Expired(c, Exec(c, es[..1])[f], es[1].now)
            && Outcomes(c, map[], es) == [true] && Outcomes(c, map[], Except(es, Deletion())) == [false]
  {
    var f, late := Reverse(packet), c.timeout + 2;
    es := [Out(packet, 1), Delete(f, late), Out(packet, late), In(f, late)];
    assert es[..1] == [Out(packet, 1)] && [Out(packet, 1)][..0] == [];
    assert Exec(c, []) == map[];
    Collected(c, packet);
    var es1, es2, es3 := es[1..], es[2..], es[3..];
    assert es1[1..] == es2 && es2[1..] == es3 && es3[1..] == [];
    assert Except(es3, Deletion()) == [In(f, late)];
    assert Except(es2, Deletion()) == [Out(packet, late), In(f, late)];
    assert Except(es1, Deletion()) == Except(es2, Deletion());
    assert Except(es, Deletion()) == [Out(packet, 1), Out(packet, late), In(f, late)];
    NotCollected(c, packet);
  }

  lemma Collected(c: Config, packet: Flow)
    requires c.timeout + 2 < 0x8000_0000_0000_0000
    ensures var f, late := Reverse(packet), c.timeout + 2;
            Outcomes(c, map[], [Out(packet, 1), Delete(f, late), Out(packet, late), In(f, late)]) == [true]
  {
    var f, late := Reverse(packet), c.timeout + 2;
    var ask, gc, again, reply := Out(packet, 1), Delete(f, late), Out(packet, late), In(f, late);
    assert [ask, gc, again, reply] == [ask] + ([gc] + ([again] + ([reply] + [])));
    var young, stale := map[f := late], map[f := 1];
    assert Next(c, map[], ask) == stale && Next(c, stale, gc) == map[] && Next(c, map[], again) == young;
    Unroll(c, map[], ask, [gc] + ([again] + ([reply] + [])));
    Unroll(c, stale, gc, [again] + ([reply] + []));
    Unroll(c, map[], again, [reply] + []);
    Unroll(c, young, reply, []);
  }

  lemma NotCollected(c: Config, packet: Flow)
    requires c.timeout < c.refresh && c.timeout + 2 < 0x8000_0000_0000_0000
    ensures var f, late := Reverse(packet), c.timeout + 2;
            Outcomes(c, map[], [Out(packet, 1), Out(packet, late), In(f, late)]) == [false]
  {
    var f, late := Reverse(packet), c.timeout + 2;
    var ask, again, reply, stale := Out(packet, 1), Out(packet, late), In(f, late), map[f := 1];
    assert [ask, again, reply] == [ask] + ([again] + ([reply] + []));
    assert Next(c, map[], ask) == stale && Next(c, stale, again) == stale;
    Unroll(c, map[], ask, [again] + ([reply] + []));
    Unroll(c, stale, again, [reply] + []);
    Unroll(c, stale, reply, []);
  }

  /**
    An entry judged expired is still absent or expired when it is deleted,
    unless an outbound packet came in between.
   */
  lemma {:induction false} JudgedThenDeleted(c: Config, t: Table, f: Flow, judged: nat, es: seq<Event>, now: nat)
    requires Past(t, judged) && (f in t ==> Expired(c, t[f], judged)) && judged <= now < 0x8000_0000_0000_0000
    requires forall i :: 0 <= i < |es| ==> judged <= es[i].now <= now && !(es[i].Out? && Reverse(es[i].packet) == f)
    ensures f in From(c, t, es) ==> f in t && From(c, t, es)[f] == t[f]
    ensures !PassedByTable(c, From(c, t, es), f, now)
  {
    if es != [] {
      JudgedThenDeleted(c, t, f, judged, es[..|es| - 1], now);
    }
  }

  // ---------------------------------------------------------------- the programs' own form

  /** `udp_ct4` and `udp_ct6`. */
  class ReplyTable {
    var lastSeen: map<Flow, u64>

    constructor ()
      ensures lastSeen == map[]
    {
      lastSeen := map[];
    }

    /** The conntrack part of `check_udp_ipv4` and `check_udp_ipv6`. */
    method Lookup(c: Config, f: Flow, now: u64) returns (passed: bool)
      modifies this
      ensures passed == PassedByTable(c, old(lastSeen), f, now)
      ensures lastSeen == Ingress(c, old(lastSeen), f, now)
    {
      if f in lastSeen {
        var age := Wrap64(now - lastSeen[f]);
        Sub64Wraps(now, lastSeen[f]);
        if age <= c.timeout {
          if age > c.refresh {
            lastSeen := lastSeen[f := now];
          }
          return true;
        }
        lastSeen := lastSeen - {f};
      }
      return false;
    }

    /** The UDP part of `tc_egress_track`. */
    method TrackEgress(c: Config, packet: Flow, now: u64)
      modifies this
      ensures lastSeen == Egress(c, old(lastSeen), packet, now)
    {
      var f := Reverse(packet);
      if f in lastSeen {
        Sub64Wraps(now, lastSeen[f]);
      }
      if f !in lastSeen || Wrap64(now - lastSeen[f]) > c.refresh {
        lastSeen := lastSeen[f := now];
      }
    }
  }
}
