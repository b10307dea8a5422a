/**
  Exactly which segments the TCP filter passes: by flag byte and table, and, for
  the segments of a connection, by what has happened since it was opened.
 */
module TcpVerdicts {
  import opened Words
  import opened Flows
  import opened TcpTable

  // ---------------------------------------------------------------- by flag byte

  /** The control bits of byte 13 of the header; the two highest bits are not looked at. */
  function FlagsOf(b: bv8): (fl: Flags)
  {
    Flags(b & 0x01 != 0, b & 0x02 != 0, b & 0x04 != 0, b & 0x08 != 0, b & 0x10 != 0, b & 0x20 != 0)
  }

  /** No bit at all, or one of the patterns SYN+FIN, SYN+RST, RST+FIN, FIN+PSH+URG. */
  predicate BadByte(b: bv8)
  {
    b == 0 || b & 0x03 == 0x03 || b & 0x06 == 0x06 || b & 0x05 == 0x05 || b & 0x29 == 0x29
  }

  /** A byte with neither of the patterns and no bit but the two highest is dropped for want of a flag. */
  lemma MalformedByte(b: bv8)
    ensures Malformed(FlagsOf(b)) <==> BadByte(b) || b & 0x3F == 0
  {
  }

  /** Within its timeout: the SYN timeout while half open, the TCP timeout afterwards. */
  predicate Alive(c: Config, t: Table, f: Flow, now: nat)
  {
    f in t && now - t[f].ts <= if t[f].HalfOpen? then c.synTimeout else c.tcpTimeout
  }

  /** Trusted and allowed sources need a live entry or room below the limits; others must pass every gate. */
  predicate Admitted(g: Gate, limitsOk: bool, alive: bool)
  {
    if g.trusted || g.acl then alive || limitsOk
    else g.listed && !g.abusive && !g.handlerBlocked && g.rateOk && limitsOk
  }

  /** The verdict on every segment, for every table without future timestamps. */
  lemma PassesExactly(c: Config, t: Table, f: Flow, b: bv8, now: nat, g: Gate, limitsOk: bool)
    requires f in t ==> t[f].ts <= now
    ensures Ingress(c, t, Segment(f, FlagsOf(b)), now, g, limitsOk).verdict == Pass <==>
            !BadByte(b) &&
            if b & 0x12 == 0x02 then Admitted(g, limitsOk, Alive(c, t, f, now))
            else if b & 0x10 != 0 then Alive(c, t, f, now)
            else b & 0x05 == 0x01 && f in t
  {
    MalformedByte(b);
  }

  // ---------------------------------------------------------------- openings and endings

  /** The events that may begin an entry for `f`. */
  predicate Begins(e: Event, f: Flow)
  {
    match e
    case In(seg, _, _, _) => seg.flow == f && PureSyn(seg.flags)
    case Out(packet, flags, _) => Reverse(packet) == f && PureSyn(flags)
    case Seed(g, _) => g == f
    case Remove(_, _) => false
  }

  /** The events that end any entry for `f`: a FIN, a reset with ACK or from inside, a removal. */
  predicate Ends(e: Event, f: Flow)
  {
    match e
    case In(seg, _, _, _) => seg.flow == f && !Malformed(seg.flags)
        && (seg.flags.fin || (seg.flags.rst && seg.flags.ack))
    case Out(packet, flags, _) => Reverse(packet) == f && flags.rst && !PureSyn(flags)
    case Seed(_, _) => false
    case Remove(g, _) => g == f
  }

  ghost predicate NoneBegins(es: seq<Event>, f: Flow) { forall i :: 0 <= i < |es| ==> !Begins(es[i], f) }

  ghost predicate NoneEnds(es: seq<Event>, f: Flow) { forall i :: 0 <= i < |es| ==> !Ends(es[i], f) }

  predicate Timed(es: seq<Event>, now: nat)
  {
    && (forall i :: 0 <= i < |es| ==> es[i].now <= now)
    && (forall i, j :: 0 <= i < j < |es| ==> es[i].now <= es[j].now)
    && now < 0x8000_0000_0000_0000
  }

  lemma Snoc(c: Config, es: seq<Event>, e: Event)
    ensures Exec(c, es + [e]) == Next(c, Exec(c, es), e)
  {
    assert (es + [e])[..|es|] == es;
  }

  /** The flow an event is about. */
  function Subject(e: Event): (f: Flow)
  {
    match e
    case In(seg, _, _, _) => seg.flow
    case Out(packet, _, _) => Reverse(packet)
    case Seed(f, _) => f
    case Remove(f, _) => f
  }

  lemma WrittenNext(c: Config, t: Table, e: Event, f: Flow)
    requires f in Next(c, t, e)
    ensures (f in t && Next(c, t, e)[f].ts == t[f].ts) || (Subject(e) == f && Next(c, t, e)[f].ts == e.now)
  {
  }

  /** Timestamps are those of events of the same flow. */
  lemma {:induction false} WrittenBy(c: Config, es: seq<Event>, f: Flow) returns (i: nat)
    requires f in Exec(c, es)
    ensures i < |es| && Subject(es[i]) == f && es[i].now == Exec(c, es)[f].ts
  {
    var before, e := es[..|es| - 1], es[|es| - 1];
    WrittenNext(c, Exec(c, before), e, f);
    if f in Exec(c, before) && Exec(c, es)[f].ts == Exec(c, before)[f].ts {
      i := WrittenBy(c, before, f);
    } else {
      i := |es| - 1;
    }
  }

  /** A segment with ACK passes only on recent activity of its flow. */
  lemma PassNeedsActivity(c: Config, es: seq<Event>, s: Segment, now: nat, g: Gate, limitsOk: bool) returns (i: nat)
    requires Timed(es, now) && s.flags.ack && Ingress(c, Exec(c, es), s, now, g, limitsOk).verdict == Pass
    ensures i < |es| && Subject(es[i]) == s.flow && s.flow in Exec(c, es)
    ensures now - es[i].now <= if Exec(c, es)[s.flow].HalfOpen? then c.synTimeout else c.tcpTimeout
  {
    i := WrittenBy(c, es, s.flow);
  }

  // ---------------------------------------------------------------- how long a connection stays open

  function Lesser(a: nat, b: nat): (r: nat) { if a < b then a else b }

  /** How long an entry outlives its timestamp, whether or not it is acknowledged meanwhile. */
  function Patience(c: Config, established: bool): (r: nat)
  {
    if established then c.tcpTimeout else Lesser(c.synTimeout, c.tcpTimeout)
  }

  /** An entry no older than `floor`. */
  ghost predicate Open(t: Table, f: Flow, established: bool, floor: int, now: nat)
  {
    f in t && floor <= t[f].ts <= now && (established ==> t[f].Established?)
  }

  lemma OpenNext(c: Config, t: Table, f: Flow, established: bool, floor: int, clock: nat, e: Event)
    requires Open(t, f, established, floor, clock) && clock <= e.now < 0x8000_0000_0000_0000
    requires e.now <= floor + Patience(c, established) && !Ends(e, f)
    ensures Open(Next(c, t, e), f, established, floor, e.now)
  {
  }

  /** Nothing but an ending closes an entry before its patience is over. */
  lemma {:induction false} StillOpen(c: Config, es: seq<Event>, rest: seq<Event>, f: Flow, established: bool,
      floor: int,
      clock: nat, now: nat)
    requires Open(Exec(c, es), f, established, floor, clock) && clock <= now && now <= floor + Patience(c, established)
    requires Timed(rest, now) && (forall i :: 0 <= i < |rest| ==> clock <= rest[i].now) && NoneEnds(rest, f)
    ensures Open(Exec(c, es + rest), f, established, floor, now)
  {
    if rest == [] {
      assert es + rest == es;
    } else {
      var before, e := rest[..|rest| - 1], rest[|rest| - 1];
      StillOpen(c, es, before, f, established, floor, clock, e.now);
      assert es + rest == (es + before) + [e];
      Snoc(c, es + before, e);
      OpenNext(c, Exec(c, es + before), f, established, floor, e.now, e);
    }
  }

  lemma EndCloses(c: Config, t: Table, f: Flow, e: Event)
    requires Ends(e, f)
    ensures f !in Next(c, t, e)
  {
  }

  lemma StaysShut(c: Config, t: Table, f: Flow, e: Event)
    requires f !in t && !Begins(e, f)
    ensures f !in Next(c, t, e)
  {
  }

  /** After an ending, nothing but a beginning brings the flow back. */
  lemma {:induction false} StillClosed(c: Config, es: seq<Event>, rest: seq<Event>, f: Flow)
    requires NoneBegins(rest, f) && !NoneEnds(rest, f)
    ensures f !in Exec(c, es + rest)
  {
    var before, e := rest[..|rest| - 1], rest[|rest| - 1];
    assert es + rest == (es + before) + [e];
    Snoc(c, es + before, e);
    if Ends(e, f) {
      EndCloses(c, Exec(c, es + before), f, e);
    } else {
      StillClosed(c, es, before, f);
      StaysShut(c, Exec(c, es + before), f, e);
    }
  }

  /** What an acknowledging segment at `now` finds after an entry was open and `rest` followed. */
  lemma OpenExactly(c: Config, es: seq<Event>, rest: seq<Event>, s: Segment, established: bool, floor: int, clock: nat,
      now: nat, g: Gate, limitsOk: bool)
    requires Open(Exec(c, es), s.flow, established, floor, clock) && clock <= now
    requires now <= floor + Patience(c, established)
    requires Timed(rest, now) && (forall i :: 0 <= i < |rest| ==> clock <= rest[i].now) && NoneBegins(rest, s.flow)
    requires s.flags.ack && !Malformed(s.flags)
    ensures Ingress(c, Exec(c, es + rest), s, now, g, limitsOk).verdict == Pass <==> NoneEnds(rest, s.flow)
  {
    if NoneEnds(rest, s.flow) {
      StillOpen(c, es, rest, s.flow, established, floor, clock, now);
    } else {
      StillClosed(c, es, rest, s.flow);
    }
  }

  lemma TimedParts(es: seq<Event>, e: Event, rest: seq<Event>, now: nat)
    requires Timed(es + [e] + rest, now)
    ensures Timed(es, e.now) && Timed(rest, now) && e.now <= now && forall i :: 0 <= i < |rest| ==> e.now <= rest[i].now
  {
    var all := es + [e] + rest;
    assert all[|es|] == e && forall i :: 0 <= i < |es| ==> all[i] == es[i];
    assert forall i :: 0 <= i < |rest| ==> all[|es| + 1 + i] == rest[i];
  }

  /**
    In every run, for the TCP timeout after an outbound SYN or a seed, a segment
    with ACK of that connection passes exactly when nothing has ended it.
   */
  lemma OutboundOpens(c: Config, es: seq<Event>, e: Event, rest: seq<Event>, s: Segment, now: nat, g: Gate,
      limitsOk: bool)
    requires Timed(es + [e] + rest, now) && now - e.now <= c.tcpTimeout
    requires Begins(e, s.flow) && !e.In? && NoneBegins(rest, s.flow) && s.flags.ack && !Malformed(s.flags)
    ensures Ingress(c, Exec(c, es + [e] + rest), s, now, g, limitsOk).verdict == Pass <==> NoneEnds(rest, s.flow)
  {
    TimedParts(es, e, rest, now);
    Snoc(c, es, e);
    OpenExactly(c, es + [e], rest, s, true, e.now, e.now, now, g, limitsOk);
  }

  /** Is the connection established once this segment has passed? */
  predicate Settles(t: Table, e: Event, f: Flow) { (e.In? && e.seg.flags.ack) || (f in t && t[f].Established?) }

  lemma ActivityOpens(c: Config, t: Table, e: Event, f: Flow)
    requires f in t ==> t[f].ts <= e.now
    requires e.now < 0x8000_0000_0000_0000 && Subject(e) == f && !Ends(e, f)
    requires (e.In? && Ingress(c, t, e.seg, e.now, e.gate, e.limitsOk).verdict == Pass && Alive(c, t, f, e.now))
             || (e.Out? && f in t && e.now - t[f].ts <= c.tcpTimeout)
    ensures Open(Next(c, t, e), f, Settles(t, e, f), e.now - c.refresh, e.now)
  {
  }

  /**
    Every later segment of a live connection that passes or goes out, and does not
    end it, keeps it open for its timeout less the refresh interval: until then a
    segment with ACK passes exactly when nothing has ended it.
   */
  lemma ActivityKeepsOpen(c: Config, es: seq<Event>, e: Event, rest: seq<Event>, s: Segment, now: nat, g: Gate,
      limitsOk: bool)
    requires Timed(es + [e] + rest, now) && Subject(e) == s.flow && !Ends(e, s.flow)
    requires (e.In? && Ingress(c, Exec(c, es), e.seg, e.now, e.gate, e.limitsOk).verdict == Pass
              && Alive(c, Exec(c, es), s.flow, e.now))
             || (e.Out? && s.flow in Exec(c, es) && e.now - Exec(c, es)[s.flow].ts <= c.tcpTimeout)
    requires now - e.now <= Patience(c, Settles(Exec(c, es), e, s.flow)) - c.refresh
    requires NoneBegins(rest, s.flow) && s.flags.ack && !Malformed(s.flags)
    ensures Ingress(c, Exec(c, es + [e] + rest), s, now, g, limitsOk).verdict == Pass <==> NoneEnds(rest, s.flow)
  {
    TimedParts(es, e, rest, now);
    Snoc(c, es, e);
    if s.flow in Exec(c, es) {
      var i := WrittenBy(c, es, s.flow);
    }
    ActivityOpens(c, Exec(c, es), e, s.flow);
    var settled := Settles(Exec(c, es), e, s.flow);
    OpenExactly(c, es + [e], rest, s, settled, e.now - c.refresh, e.now, now, g, limitsOk);
  }

  /**
    In every run, after an inbound SYN that was admitted where no entry was alive,
    the client's ACK passes within both timeouts exactly when nothing has ended
    the connection.
   */
  lemma HandshakeOpens(c: Config, es: seq<Event>, e: Event, rest: seq<Event>, s: Segment, now: nat, g: Gate,
      limitsOk: bool)
    requires Timed(es + [e] + rest, now) && now - e.now <= Patience(c, false)
    requires e.In? && Begins(e, s.flow) && !Alive(c, Exec(c, es), s.flow, e.now)
    requires !Malformed(e.seg.flags) && Admitted(e.gate, e.limitsOk, false)
    requires NoneBegins(rest, s.flow) && s.flags.ack && !Malformed(s.flags)
    ensures Ingress(c, Exec(c, es + [e] + rest), s, now, g, limitsOk).verdict == Pass <==> NoneEnds(rest, s.flow)
  {
    TimedParts(es, e, rest, now);
    Snoc(c, es, e);
    if s.flow in Exec(c, es) {
      var i := WrittenBy(c, es, s.flow);
    }
    assert Open(Exec(c, es + [e]), s.flow, false, e.now, e.now);
    OpenExactly(c, es + [e], rest, s, false, e.now, e.now, now, g, limitsOk);
  }
}
