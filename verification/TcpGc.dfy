/**
  Garbage collection of the TCP table by userspace, and what packets can see
  of it.  The collector judges entries first and deletes them later, whatever
  they hold by then.
 */
module TcpGc {
  import opened Words
  import opened Flows
  import opened TcpTable
  import opened Runs

  function Stepper(c: Config): (f: (Table, Event) -> Table) { (t, e) => Next(c, t, e) }

  function Viewer(c: Config): (f: (Table, Event) -> seq<Verdict>) { (t, e) => Answer(c, t, e) }

  function Answer(c: Config, t: Table, e: Event): (vs: seq<Verdict>)
  {
    if e.In? then [Ingress(c, t, e.seg, e.now, e.gate, e.limitsOk).verdict] else []
  }

  /** The verdicts of the inbound segments of a run, in order. */
  function Verdicts(c: Config, t: Table, es: seq<Event>): (vs: seq<Verdict>)
  {
    Observed(Stepper(c), Viewer(c), t, es)
  }

  lemma Unroll(c: Config, t: Table, e: Event, rest: seq<Event>)
    ensures Verdicts(c, t, [e] + rest) == Answer(c, t, e) + Verdicts(c, Next(c, t, e), rest)
  {
    FirstThenRest(Stepper(c), Viewer(c), t, e, rest);
  }

  /** What a run may hold, with or without outbound segments that refresh entries. */
  predicate Blind(replies: bool, e: Event)
  {
    match e
    case In(seg, _, _, _) => !BareFin(seg.flags)
    case Out(_, flags, _) => replies || PureSyn(flags) || flags.rst
    case _ => true
  }

  /**
    A run without bare FINs and, unless the local side `replies`, without
    outbound segments other than SYN and RST.
   */
  predicate BlindRun(replies: bool, es: seq<Event>, clock: nat)
  {
    && (forall i :: 0 <= i < |es| ==> Blind(replies, es[i]) && clock <= es[i].now < 0x8000_0000_0000_0000)
    && forall i, j :: 0 <= i < j < |es| ==> es[i].now <= es[j].now
  }

  /**
    An expired entry that no outbound segment can refresh any more: egress
    measures half-open entries by the established timeout.
   */
  predicate Gone(c: Config, replies: bool, e: Entry, now: nat)
  {
    Expired(c, e, now)
    && (!replies || e.Established? || Age(now, e.ts) > c.tcpTimeout || c.tcpTimeout <= c.refresh)
  }

  function Dead(c: Config, replies: bool, now: nat): (f: Entry -> bool) { e => Gone(c, replies, e, now) }

  predicate Past(t: Table, now: nat) { forall f :: f in t ==> t[f].ts <= now }

  /** The two tables of a run with and without a deletion. */
  ghost predicate Related(c: Config, replies: bool, full: Table, swept: Table, now: nat)
  {
    Swept(full, swept, Dead(c, replies, now)) && Past(full, now) && now < 0x8000_0000_0000_0000
  }

  lemma RelatedLater(c: Config, replies: bool, full: Table, swept: Table, now: nat, later: nat)
    requires Related(c, replies, full, swept, now) && now <= later < 0x8000_0000_0000_0000
    ensures Related(c, replies, full, swept, later)
  {
  }

  /** A segment tells the two tables apart exactly when it is a bare FIN for an entry only one of them still has. */
  lemma OnlyBareFinSees(c: Config, replies: bool, full: Table, swept: Table, s: Segment, now: nat, g: Gate, ok: bool)
    requires Related(c, replies, full, swept, now)
    ensures Ingress(c, full, s, now, g, ok).verdict != Ingress(c, swept, s, now, g, ok).verdict <==>
            !Malformed(s.flags) && BareFin(s.flags) && s.flow in full && s.flow !in swept
  {
  }

  lemma OtherFlow(c: Config, t: Table, s: Segment, now: nat, g: Gate, ok: bool, f: Flow)
    requires f != s.flow
    ensures var t' := Ingress(c, t, s, now, g, ok).table;
            (f in t' <==> f in t) && (f in t ==> t'[f] == t[f])
  {
  }

  lemma OwnFlow(c: Config, replies: bool, full: Table, swept: Table, s: Segment, now: nat, g: Gate, ok: bool)
    requires Related(c, replies, full, swept, now)
    ensures var a, b := Ingress(c, full, s, now, g, ok).table, Ingress(c, swept, s, now, g, ok).table;
            && (s.flow in b ==> s.flow in a && a[s.flow] == b[s.flow])
            && (s.flow in a ==> a[s.flow].ts <= now)
            && (s.flow in a && s.flow !in b ==> Gone(c, replies, a[s.flow], now))
  {
  }

  lemma IngressRelated(c: Config, replies: bool, full: Table, swept: Table, s: Segment, now: nat, g: Gate, ok: bool)
    requires Related(c, replies, full, swept, now)
    ensures Related(c, replies, Ingress(c, full, s, now, g, ok).table, Ingress(c, swept, s, now, g, ok).table, now)
  {
    var a, b := Ingress(c, full, s, now, g, ok).table, Ingress(c, swept, s, now, g, ok).table;
    OwnFlow(c, replies, full, swept, s, now, g, ok);
    forall f | f != s.flow
      ensures (f in a <==> f in full) && (f in full ==> a[f] == full[f])
      ensures (f in b <==> f in swept) && (f in swept ==> b[f] == swept[f])
    {
      OtherFlow(c, full, s, now, g, ok, f);
      OtherFlow(c, swept, s, now, g, ok, f);
    }
  }

  /** An outbound segment finds an entry that is gone beyond refreshing. */
  lemma EgressRelated(c: Config, replies: bool, full: Table, swept: Table, packet: Flow, fl: Flags, now: nat)
    requires Related(c, replies, full, swept, now) && Blind(replies, Out(packet, fl, now))
    ensures Related(c, replies, Egress(c, full, packet, fl, now), Egress(c, swept, packet, fl, now), now)
  {
  }

  /** Every blind event keeps the relation. */
  lemma NextRelated(c: Config, replies: bool, full: Table, swept: Table, e: Event)
    requires Related(c, replies, full, swept, e.now) && Blind(replies, e)
    ensures Related(c, replies, Next(c, full, e), Next(c, swept, e), e.now)
  {
    match e
    case In(seg, now, gate, limitsOk) => IngressRelated(c, replies, full, swept, seg, now, gate, limitsOk);
    case Out(packet, flags, now) => EgressRelated(c, replies, full, swept, packet, flags, now);
    case _ =>
  }

  /** Deleting `f` at `now` takes away nothing that counts. */
  predicate Harmless(c: Config, replies: bool, t: Table, f: Flow, now: nat) { f in t ==> Gone(c, replies, t[f], now) }

  /** Every removal of a run is harmless at its moment. */
  predicate OnlyHarmless(c: Config, replies: bool, t: Table, es: seq<Event>)
    decreases |es|
  {
    es == [] || ((es[0].Remove? ==> Harmless(c, replies, t, es[0].flow, es[0].now))
        && OnlyHarmless(c, replies, Next(c, t, es[0]), es[1..]))
  }

  /** Simulation: the same blind events get the same verdicts from both tables, and find removals harmless in both. */
  lemma {:induction false} Lockstep(c: Config, replies: bool, full: Table, swept: Table, clock: nat, es: seq<Event>)
    requires Related(c, replies, full, swept, clock) && BlindRun(replies, es, clock)
    ensures Verdicts(c, swept, es) == Verdicts(c, full, es)
    ensures OnlyHarmless(c, replies, swept, es) ==> OnlyHarmless(c, replies, full, es)
    decreases |es|
  {
    if es != [] {
      var e, rest := es[0], es[1..];
      RelatedLater(c, replies, full, swept, clock, e.now);
      if e.In? {
        OnlyBareFinSees(c, replies, full, swept, e.seg, e.now, e.gate, e.limitsOk);
      }
      NextRelated(c, replies, full, swept, e);
      Lockstep(c, replies, Next(c, full, e), Next(c, swept, e), e.now, rest);
      assert es == [e] + rest;
      Unroll(c, full, e, rest);
      Unroll(c, swept, e, rest);
    }
  }

  function Removal(): (f: Event -> bool) { (e: Event) => e.Remove? }

  /** Harmless removals change no verdict of a blind run. */
  lemma {:induction false} RemovalsUnseen(c: Config, replies: bool, t: Table, clock: nat, es: seq<Event>)
    requires Past(t, clock) && clock < 0x8000_0000_0000_0000
    requires BlindRun(replies, es, clock) && OnlyHarmless(c, replies, t, es)
    ensures Verdicts(c, t, es) == Verdicts(c, t, Except(es, Removal()))
    decreases |es|
  {
    if es != [] {
      var e, rest := es[0], es[1..];
      assert es == [e] + rest;
      assert Related(c, replies, t, t, e.now);
      NextRelated(c, replies, t, t, e);
      Unroll(c, t, e, rest);
      if e.Remove? {
        assert Related(c, replies, t, t - {e.flow}, e.now);
        Lockstep(c, replies, t, t - {e.flow}, e.now, rest);
        RemovalsUnseen(c, replies, t, e.now, rest);
        assert Except(es, Removal()) == Except(rest, Removal());
      } else {
        RemovalsUnseen(c, replies, Next(c, t, e), e.now, rest);
        Unroll(c, t, e, Except(rest, Removal()));
      }
    }
  }

  /**
    Collecting at any moments changes no verdict of a run without bare FINs, as
    long as every deletion finds its entry absent or gone.
   */
  lemma GcInvisible(c: Config, replies: bool, es: seq<Event>)
    requires BlindRun(replies, es, 0) && OnlyHarmless(c, replies, map[], es)
    ensures Verdicts(c, map[], es) == Verdicts(c, map[], Except(es, Removal()))
  {
    RemovalsUnseen(c, replies, map[], 0, es);
  }

  /**
    Nothing is noticed of a deletion by any later run without bare FINs exactly
    when the entry is absent or gone at that moment.
   */
  lemma DeletionUnseen(c: Config, replies: bool, t: Table, f: Flow, now: nat)
    requires Past(t, now) && now < 0x8000_0000_0000_0000
    requires replies ==> now + c.tcpTimeout < 0x8000_0000_0000_0000
    ensures (forall es :: BlindRun(replies, es, now) ==> Verdicts(c, t - {f}, es) == Verdicts(c, t, es)) <==>
            Harmless(c, replies, t, f, now)
  {
    if Harmless(c, replies, t, f, now) {
      assert Related(c, replies, t, t - {f}, now);
      forall es | BlindRun(replies, es, now) ensures Verdicts(c, t - {f}, es) == Verdicts(c, t, es) {
        Lockstep(c, replies, t, t - {f}, now, es);
      }
    } else if !Expired(c, t[f], now) {
      assert BlindRun(replies, [Acknowledgement(f, now)], now);
      AckTells(c, t, f, now);
    } else {
      var later := t[f].ts + c.tcpTimeout;
      var probe := [Reply(f, later), Acknowledgement(f, later)];
      assert BlindRun(replies, probe, now);
      ReplyTells(c, t, f, later);
    }
  }

  function Acknowledgement(f: Flow, now: nat): (e: Event)
  {
    In(Segment(f, Flags(false, false, false, false, true, false)), now,
        Gate(false, false, false, false, false, false), true)
  }

  /** An acknowledgement passes on a live entry and only there. */
  lemma AckTells(c: Config, t: Table, f: Flow, now: nat)
    requires f in t && !Expired(c, t[f], now)
    ensures Verdicts(c, t, [Acknowledgement(f, now)]) == [Pass]
    ensures Verdicts(c, t - {f}, [Acknowledgement(f, now)]) == [Drop]
  {
    var e := Acknowledgement(f, now);
    assert [e] == [e] + [];
    Unroll(c, t, e, []);
    Unroll(c, t - {f}, e, []);
  }

  function Reply(f: Flow, now: nat): (e: Event)
  {
    Out(Reverse(f), Flags(false, false, false, false, true, false), now)
  }

  /** An outbound segment refreshes an entry that is old but within the established timeout, even a half-open one. */
  lemma ReplyTells(c: Config, t: Table, f: Flow, now: nat)
    requires f in t && c.refresh < Age(now, t[f].ts) <= c.tcpTimeout && now < 0x8000_0000_0000_0000
    ensures Verdicts(c, t, [Reply(f, now), Acknowledgement(f, now)]) == [Pass]
    ensures Verdicts(c, t - {f}, [Reply(f, now), Acknowledgement(f, now)]) == [Drop]
  {
    var reply, ack := Reply(f, now), Acknowledgement(f, now);
    var live := t[f := t[f].(ts := now)];
    assert Next(c, t, reply) == live && live - {f} == t - {f} && Next(c, t - {f}, reply) == t - {f};
    assert [reply, ack] == [reply] + [ack];
    AckTells(c, live, f, now);
    Unroll(c, t, reply, [ack]);
    Unroll(c, t - {f}, reply, [ack]);
  }

  // ---------------------------------------------------------------- judging first and deleting later

  function From(c: Config, t: Table, es: seq<Event>): (t': Table)
  {
    if es == [] then t else Next(c, From(c, t, es[..|es| - 1]), es[|es| - 1])
  }

  /** The events that can bring an absent or expired entry back to life. */
  predicate Revives(e: Event, f: Flow)
  {
    match e
    case In(seg, _, _, _) => seg.flow == f && PureSyn(seg.flags)
    case Out(packet, flags, _) => Reverse(packet) == f && (PureSyn(flags) || !flags.rst)
    case Seed(g, _) => g == f
    case Remove(_, _) => false
  }

  lemma NotRevived(c: Config, t: Table, f: Flow, e: Event, judged: nat)
    requires f in t ==> t[f].ts <= judged && Expired(c, t[f], judged)
    requires judged <= e.now < 0x8000_0000_0000_0000 && !Revives(e, f)
    ensures f in Next(c, t, e) ==> f in t && Next(c, t, e)[f] == t[f]
  {
  }

  lemma StaysGone(c: Config, replies: bool, e: Entry, now: nat, later: nat)
    requires e.ts <= now <= later < 0x8000_0000_0000_0000 && Gone(c, replies, e, now)
    ensures Gone(c, replies, e, later)
  {
  }

  /** An entry judged expired is still safe to delete later, if nothing revived its flow meanwhile. */
  lemma {:induction false} JudgedThenDeleted(c: Config, replies: bool, t: Table, f: Flow, judged: nat, es: seq<Event>,
      now: nat)
    requires Past(t, judged) && Harmless(c, replies, t, f, judged) && judged <= now < 0x8000_0000_0000_0000
    requires forall i :: 0 <= i < |es| ==> judged <= es[i].now <= now && !Revives(es[i], f)
    ensures f in From(c, t, es) ==> f in t && From(c, t, es)[f] == t[f]
    ensures Harmless(c, replies, From(c, t, es), f, now)
  {
    if es != [] {
      var before := es[..|es| - 1];
      JudgedThenDeleted(c, replies, t, f, judged, before, now);
      NotRevived(c, From(c, t, before), f, es[|es| - 1], judged);
    }
    if f in t {
      StaysGone(c, replies, t[f], judged, now);
    }
  }

  /**
    If the peer reconnects in between, the deletion hits the new entry: the ACK
    that would have passed is dropped.
   */
  lemma LateDeletionSeen(c: Config, f: Flow, ts: nat, now: nat, g: Gate)
    requires ts <= now < 0x8000_0000_0000_0000 && now - ts > c.tcpTimeout && g.trusted
    ensures var t := map[f := Established(ts)];
            var syn := In(Segment(f, Flags(false, true, false, false, false, false)), now, g, true);
            && Harmless(c, true, t, f, now) && !Harmless(c, false, Next(c, t, syn), f, now)
            && Verdicts(c, t, [syn, Acknowledgement(f, now)]) == [Pass, Pass]
            && Verdicts(c, t, [syn, Remove(f, now), Acknowledgement(f, now)]) == [Pass, Drop]
  {
    var t := map[f := Established(ts)];
    var syn := In(Segment(f, Flags(false, true, false, false, false, false)), now, g, true);
    var gc, ack := Remove(f, now), Acknowledgement(f, now);
    var fresh' := map[f := HalfOpen(now)];
    assert Next(c, t, syn) == fresh' && Next(c, fresh', gc) == fresh' - {f};
    assert [syn, ack] == [syn] + [ack] && [syn, gc, ack] == [syn] + ([gc] + [ack]);
    AckTells(c, fresh', f, now);
    Unroll(c, t, syn, [ack]);
    Unroll(c, t, syn, [gc] + [ack]);
    Unroll(c, fresh', gc, [ack]);
  }

  // ---------------------------------------------------------------- where harmless deletions do show

  /** A bare FIN passes on an entry however old it is, unless the collector came first. */
  lemma BareFinSeesGc(c: Config, f: Flow, ts: nat, now: nat, g: Gate)
    requires ts <= now < 0x8000_0000_0000_0000 && now - ts > c.tcpTimeout
    ensures var t := map[f := Established(ts)];
            var fin := In(Segment(f, Flags(true, false, false, false, false, false)), now, g, true);
            && Harmless(c, true, t, f, now)
            && Verdicts(c, t, [fin]) == [Pass] && Verdicts(c, t, [Remove(f, now), fin]) == [Drop]
  {
    var t := map[f := Established(ts)];
    var fin, gc := In(Segment(f, Flags(true, false, false, false, false, false)), now, g, true), Remove(f, now);
    assert Next(c, t, gc) == map[];
    assert [fin] == [fin] + [] && [gc, fin] == [gc] + ([fin] + []);
    Unroll(c, t, fin, []);
    Unroll(c, t, gc, [fin] + []);
    Unroll(c, map[], fin, []);
  }

  predicate Ordered(es: seq<Event>, clock: nat)
  {
    && (forall i :: 0 <= i < |es| ==> clock <= es[i].now < 0x8000_0000_0000_0000)
    && forall i, j :: 0 <= i < j < |es| ==> es[i].now <= es[j].now
  }

  /** With bare FINs among the events, only the deletion of an absent entry stays unseen. */
  lemma FinSeesEveryDeletion(c: Config, t: Table, f: Flow, now: nat)
    requires now < 0x8000_0000_0000_0000
    ensures (forall es :: Ordered(es, now) ==> Verdicts(c, t - {f}, es) == Verdicts(c, t, es)) <==> f !in t
  {
    if f in t {
      var fin := In(Segment(f, Flags(true, false, false, false, false, false)), now,
          Gate(false, false, false, false, false, false), true);
      assert [fin] == [fin] + [] && Ordered([fin], now);
      Unroll(c, t, fin, []);
      Unroll(c, t - {f}, fin, []);
      assert Answer(c, t, fin) == [Pass] && Answer(c, t - {f}, fin) == [Drop];
      assert Verdicts(c, t, [fin]) == [Pass] && Verdicts(c, t - {f}, [fin]) == [Drop];
    } else {
      assert t - {f} == t;
    }
  }

  /**
    Outbound traffic revives a half-open entry that only its SYN timeout had
    ended, unless the collector came first.
   */
  lemma EgressSeesGc(c: Config, f: Flow, ts: nat, now: nat)
    requires ts <= now < 0x8000_0000_0000_0000 && c.synTimeout < now - ts <= c.tcpTimeout && c.refresh < now - ts
    ensures var t := map[f := HalfOpen(ts)];
            var reply, ack := Reply(f, now), Acknowledgement(f, now);
            && Expired(c, t[f], now) && !Harmless(c, true, t, f, now)
            && Verdicts(c, t, [reply, ack]) == [Pass] && Verdicts(c, t, [Remove(f, now), reply, ack]) == [Drop]
  {
    var t := map[f := HalfOpen(ts)];
    var gc, reply, ack := Remove(f, now), Reply(f, now), Acknowledgement(f, now);
    ReplyTells(c, t, f, now);
    assert Next(c, t, gc) == t - {f};
    assert [gc, reply, ack] == [gc] + [reply, ack];
    Unroll(c, t, gc, [reply, ack]);
  }

  // ---------------------------------------------------------------- the collector's own form

  /** The listed entries that have expired, in listing order. */
  function Doomed(c: Config, raw: map<Flow, u64>, keys: seq<Flow>, now: nat): (r: seq<Flow>)
  {
    if keys == [] then []
    else
      var f := keys[|keys| - 1];
      Doomed(c, raw, keys[..|keys| - 1], now) + (if f in raw && Expired(c, Decode(raw[f]), now) then [f] else [])
  }

  lemma {:induction false} DoomedExactly(c: Config, raw: map<Flow, u64>, keys: seq<Flow>, now: nat, f: Flow)
    ensures f in Doomed(c, raw, keys, now) <==> f in keys && f in raw && Expired(c, Decode(raw[f]), now)
  {
    if keys != [] {
      DoomedExactly(c, raw, keys[..|keys| - 1], now, f);
      assert keys == keys[..|keys| - 1] + [keys[|keys| - 1]];
    }
  }

  function Without(raw: map<Flow, u64>, gone: seq<Flow>): (r: map<Flow, u64>)
  {
    if gone == [] then raw else Without(raw, gone[..|gone| - 1]) - {gone[|gone| - 1]}
  }

  lemma {:induction false} WithoutExactly(raw: map<Flow, u64>, gone: seq<Flow>, f: Flow)
    ensures f in Without(raw, gone) <==> f in raw && f !in gone
    ensures f in Without(raw, gone) ==> Without(raw, gone)[f] == raw[f]
  {
    if gone != [] {
      WithoutExactly(raw, gone[..|gone| - 1], f);
      assert gone == gone[..|gone| - 1] + [gone[|gone| - 1]];
    }
  }

  lemma OneFewer(raw: map<Flow, u64>, f: Flow)
    requires f in raw
    ensures |raw - {f}| == |raw| - 1
  {
  }

  lemma ExpiredWord(c: Config, word: u64, now: nat)
    requires now < 0x8000_0000_0000_0000 && Decode(word).ts <= now
    ensures Expired(c, Decode(word), now) <==>
            now - Stamp(word) > (if word >= 0x8000_0000_0000_0000 then c.synTimeout else c.tcpTimeout)
  {
  }

  class Collector {
    var raw: map<Flow, u64>

    constructor (raw: map<Flow, u64>)
      ensures this.raw == raw
    {
      this.raw := raw;
    }

    /** The first half of `gc_expired`: every listed entry is looked up and judged. */
    method FindExpired(c: Config, keys: seq<Flow>, now: nat) returns (doomed: seq<Flow>)
      requires now < 0x8000_0000_0000_0000
      requires forall f :: f in raw ==> Decode(raw[f]).ts <= now
      ensures doomed == Doomed(c, raw, keys, now)
    {
      doomed := [];
      for i := 0 to |keys|
        invariant doomed == Doomed(c, raw, keys[..i], now)
      {
        var f := keys[i];
        assert keys[..i + 1][..i] == keys[..i];
        if f in raw {
          var word := raw[f];
          ExpiredWord(c, word, now);
          var pending := word >= SYN_PENDING;
          if now - Stamp(word) > (if pending then c.synTimeout else c.tcpTimeout) {
            doomed := doomed + [f];
          }
        }
      }
      assert keys[..|keys|] == keys;
    }

    /**
      The second half: the entries found are deleted, whatever they hold by now.
      A deletion that finds nothing is counted too.
     */
    method DeleteAll(doomed: seq<Flow>) returns (deleted: nat)
      modifies this
      ensures raw == Without(old(raw), doomed) && deleted == |doomed|
    {
      deleted := 0;
      for i := 0 to |doomed|
        invariant raw == Without(old(raw), doomed[..i]) && deleted == i
      {
        assert doomed[..i + 1][..i] == doomed[..i];
        raw := raw - {doomed[i]};
        deleted := deleted + 1;
      }
      assert doomed[..|doomed|] == doomed;
    }

    /**
      `gc_expired` with nobody else at work: exactly the expired entries go.  The
      number returned is the number of entries gone, if no key was listed twice.
     */
    method GcExpired(c: Config, keys: seq<Flow>, now: nat) returns (deleted: nat)
      requires now < 0x8000_0000_0000_0000
      requires forall f :: f in raw ==> f in keys && Decode(raw[f]).ts <= now
      modifies this
      ensures forall f :: f in raw <==> f in old(raw) && !Expired(c, Decode(old(raw)[f]), now)
      ensures forall f :: f in raw ==> raw[f] == old(raw)[f]
      ensures deleted == |Doomed(c, old(raw), keys, now)|
      ensures Distinct(keys) ==> deleted == |old(raw)| - |raw|
    {
      var doomed := FindExpired(c, keys, now);
      deleted := DeleteAll(doomed);
      forall f: Flow
        ensures f in raw <==> f in old(raw) && !Expired(c, Decode(old(raw)[f]), now)
        ensures f in raw ==> raw[f] == old(raw)[f]
      {
        DoomedExactly(c, old(raw), keys, now, f);
        WithoutExactly(old(raw), doomed, f);
      }
      if Distinct(keys) {
        DoomedOnce(c, old(raw), keys, now);
        GoneOnce(old(raw), doomed);
      }
    }
  }

  predicate Distinct(keys: seq<Flow>) { forall i, j :: 0 <= i < j < |keys| ==> keys[i] != keys[j] }

  lemma {:induction false} DoomedOnce(c: Config, raw: map<Flow, u64>, keys: seq<Flow>, now: nat)
    requires Distinct(keys)
    ensures Distinct(Doomed(c, raw, keys, now)) && forall f :: f in Doomed(c, raw, keys, now) ==> f in keys && f in raw
  {
    if keys != [] {
      var front := keys[..|keys| - 1];
      DoomedOnce(c, raw, front, now);
      assert keys[|keys| - 1] !in front;
    }
  }

  lemma {:induction false} GoneOnce(raw: map<Flow, u64>, gone: seq<Flow>)
    requires Distinct(gone) && forall f :: f in gone ==> f in raw
    ensures |Without(raw, gone)| == |raw| - |gone|
  {
    if gone != [] {
      var front, f := gone[..|gone| - 1], gone[|gone| - 1];
      GoneOnce(raw, front);
      WithoutExactly(raw, front, f);
      OneFewer(Without(raw, front), f);
    }
  }
}
