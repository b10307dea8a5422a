/** Exactly which segments the Minecraft handler passes, and which sources it blocks. */
module MinecraftVerdicts {
  import opened Words
  import opened Flows
  import RateLimiter
  import opened SpanBound
  import opened MinecraftWire
  import opened MinecraftPackets
  import opened MinecraftGrammar
  import opened Minecraft
  import opened MinecraftClients

  /** The segment continues a pending connection: within 15 seconds, and with lengths that agree. */
  predicate Current(p: Pending, e: Packet) { Sub64(e.now, p.lastSeen) <= 15_000_000_000 && e.intact }

  /** Acknowledging, and at the byte expected next. */
  predicate InOrder(p: Pending, e: Packet) { e.ack && e.seqNo == p.expected }

  predicate BeforeHandshake(p: Pending) { p.stage == AwaitAck || p.stage == AwaitHandshake }

  /** A handshake that announces a status request, and the request, in one payload. */
  predicate StatusTogether(e: Packet, view: Reader)
  {
    var h := view.handshake;
    h.Accepted? && h.intention == 1 && view.status(Cursor(h.next, e))
  }

  /** A status request in order, alone or together with its handshake. */
  predicate AsksStatus(p: Pending, e: Packet, view: Reader)
  {
    || (p.stage == AwaitStatus && view.status(0))
    || (BeforeHandshake(p) && e.room >= 3 && StatusTogether(e, view))
  }

  predicate AsksLogin(p: Pending, e: Packet, view: Reader)
  {
    || (p.stage == AwaitLogin && view.login(0, p.version))
    || (BeforeHandshake(p) && e.room >= 3 && Together(e, view))
  }

  /** What a pending connection may send on: nothing but bare segments, or the packet it is expected to send. */
  predicate Served(p: Pending, e: Packet, view: Reader, status: bool, login: bool)
  {
    if e.payload == [] then !BeforeHandshake(p)
    else
      && InOrder(p, e)
      && (|| (AsksStatus(p, e, view) && status)
          || (AsksLogin(p, e, view) && login)
          || (p.stage == AwaitPing && view.ping(0)))
  }

  lemma ReactExactly(p: Pending, e: Packet, view: Reader, answer: Consent)
    requires !IsSyn(e) && Sound(view)
    ensures Choice(React(Some(p), e, view, true), React(Some(p), e, view, false), answer).verdict == Pass <==>
            Current(p, e) && Served(p, e, view, answer(StatusLimiter).Some?, answer(LoginLimiter).Some?)
  {
  }

  /** After any run, what passes is a SYN, or a segment its pending connection may send, with the limiters' consent. */
  lemma PassesExactly(es: seq<Packet>, e: Packet)
    ensures var s, view := Exec(es), Read(e.payload);
            VerdictOf(s, e) == Pass <==>
            || IsSyn(e)
            || (&& e.flow in s.pending && Current(s.pending[e.flow], e)
                && Served(s.pending[e.flow], e, view, Answer(s, e, StatusLimiter).Some?,
                    Answer(s, e, LoginLimiter).Some?))
  {
    var s, view := Exec(es), Read(e.payload);
    ReadSound(e.payload);
    if !IsSyn(e) && e.flow in s.pending {
      ReactExactly(s.pending[e.flow], e, view, Asking(s, e));
    }
  }

  // ---------------------------------------------------------------- blocked sources

  /** A payload without ACK, the fifth payload out of order, or a request its limiter refuses. */
  predicate Offends(p: Pending, e: Packet, view: Reader, status: bool, login: bool)
  {
    && e.payload != [] && (p.stage == AwaitAck ==> InOrder(p, e))
    && (|| !e.ack
        || (e.seqNo != p.expected && p.fails >= 4)
        || (InOrder(p, e) && AsksStatus(p, e, view) && !status)
        || (InOrder(p, e) && AsksLogin(p, e, view) && !login))
  }

  lemma PenaltyExactly(p: Pending, e: Packet, view: Reader, answer: Consent)
    requires !IsSyn(e) && Sound(view)
    ensures Choice(React(Some(p), e, view, true), React(Some(p), e, view, false), answer).penalised <==>
            Current(p, e) && Offends(p, e, view, answer(StatusLimiter).Some?, answer(LoginLimiter).Some?)
  {
  }

  /** After any run a source is blocked, for five minutes, exactly for such an offence. */
  lemma BlocksExactly(es: seq<Packet>, e: Packet)
    ensures var s, view := Exec(es), Read(e.payload);
            Next(s, e).blocked ==
              if && !IsSyn(e) && e.flow in s.pending && Current(s.pending[e.flow], e)
                 && Offends(s.pending[e.flow], e, view, Answer(s, e, StatusLimiter).Some?,
                     Answer(s, e, LoginLimiter).Some?)
              then s.blocked[Prefix(e.flow.family, e.flow.src) := e.now + 300_000_000_000] else s.blocked
  {
    var s, view := Exec(es), Read(e.payload);
    ReadSound(e.payload);
    if !IsSyn(e) && e.flow in s.pending {
      PenaltyExactly(s.pending[e.flow], e, view, Asking(s, e));
    }
    BlockedIs(s, e, view, Asking(s, e));
  }

  lemma BlockedIs(s: State, e: Packet, view: Reader, answer: Consent)
    ensures var p := Lookup(s.pending, e.flow);
            NextWith(s, e, view, answer).blocked ==
              if Choice(React(p, e, view, true), React(p, e, view, false), answer).penalised
              then s.blocked[Prefix(e.flow.family, e.flow.src) := e.now + 300_000_000_000] else s.blocked
  {
  }

  // ---------------------------------------------------------------- what stays pending

  /** A payload in order that is read as a handshake. */
  predicate Introduces(p: Pending, e: Packet) { e.payload != [] && InOrder(p, e) && BeforeHandshake(p) && e.room >= 3 }

  /** A payload in order that moves the expected byte: a status request granted, or a ping. */
  predicate Accepts(p: Pending, e: Packet, view: Reader, status: bool)
  {
    && e.payload != [] && InOrder(p, e)
    && ((AsksStatus(p, e, view) && status) || (p.stage == AwaitPing && view.ping(0)))
  }

  /** The connection is given up or done: an offence, a promotion, a legacy ping, or more after the ping. */
  predicate Over(p: Pending, e: Packet, view: Reader, status: bool, login: bool)
  {
    || Offends(p, e, view, status, login)
    || (e.payload != [] && InOrder(p, e) && AsksLogin(p, e, view))
    || (Introduces(p, e) && view.handshake.Legacy?)
    || (e.payload != [] && InOrder(p, e) && p.stage == PingComplete)
  }

  function StageAfter(p: Pending, e: Packet, view: Reader, status: bool): (st: Stage)
  {
    if Accepts(p, e, view, status) then if p.stage == AwaitPing then PingComplete else AwaitPing
    else if Introduces(p, e) && view.handshake.Accepted? then
      if view.handshake.intention == 1 then AwaitStatus else AwaitLogin
    else if p.stage == AwaitAck && InOrder(p, e) then AwaitHandshake
    else p.stage
  }

  /** What becomes of a pending connection. */
  predicate Becomes(p: Pending, e: Packet, view: Reader, status: bool, login: bool, next: Option<Pending>)
  {
    if Sub64(e.now, p.lastSeen) > 15_000_000_000 then next == None
    else if !e.intact then next == Some(p)
    else if Over(p, e, view, status, login) then next == None
    else
      && next.Some? && next.value.lastSeen == e.now && next.value.stage == StageAfter(p, e, view, status)
      && next.value.expected ==
           (if Accepts(p, e, view, status) then Low32(p.expected + |e.payload|) else p.expected)
      && next.value.fails ==
           (if Accepts(p, e, view, status) then 0 else if Stray(p, e) then p.fails + 1 else p.fails)
      && next.value.version ==
           (if Introduces(p, e) && view.handshake.Accepted? then view.handshake.version
            else if Introduces(p, e) && view.handshake.Rejected?
                && view.handshake.seen.Some? then view.handshake.seen.value
            else p.version)
  }

  function Chosen(p: Pending, e: Packet, view: Reader, answer: Consent): (r: Reaction)
  {
    Choice(React(Some(p), e, view, true), React(Some(p), e, view, false), answer)
  }

  lemma StaleBecomes(p: Pending, e: Packet, view: Reader, answer: Consent)
    requires !IsSyn(e) && !Current(p, e)
    ensures Becomes(p, e, view, answer(StatusLimiter).Some?, answer(LoginLimiter).Some?,
            Chosen(p, e, view, answer).pending)
  {
  }

  /** Segments that are not read: bare ones, and payloads that are not in order. */
  lemma UnreadBecomes(p: Pending, e: Packet, view: Reader, answer: Consent)
    requires !IsSyn(e) && Current(p, e) && (e.payload == [] || !InOrder(p, e))
    ensures Becomes(p, e, view, answer(StatusLimiter).Some?, answer(LoginLimiter).Some?,
            Chosen(p, e, view, answer).pending)
  {
  }

  lemma EarlyBecomes(p: Pending, e: Packet, view: Reader, answer: Consent)
    requires !IsSyn(e) && Current(p, e) && e.payload != [] && InOrder(p, e) && BeforeHandshake(p) && Sound(view)
    ensures Becomes(p, e, view, answer(StatusLimiter).Some?, answer(LoginLimiter).Some?,
            Chosen(p, e, view, answer).pending)
  {
  }

  lemma LateBecomes(p: Pending, e: Packet, view: Reader, answer: Consent)
    requires !IsSyn(e) && Current(p, e) && e.payload != [] && InOrder(p, e) && !BeforeHandshake(p)
    ensures Becomes(p, e, view, answer(StatusLimiter).Some?, answer(LoginLimiter).Some?,
            Chosen(p, e, view, answer).pending)
  {
  }

  lemma ReactBecomes(p: Pending, e: Packet, view: Reader, answer: Consent)
    requires !IsSyn(e) && Sound(view)
    ensures Becomes(p, e, view, answer(StatusLimiter).Some?, answer(LoginLimiter).Some?,
            Chosen(p, e, view, answer).pending)
  {
    if !Current(p, e) {
      StaleBecomes(p, e, view, answer);
    } else if e.payload == [] || !InOrder(p, e) {
      UnreadBecomes(p, e, view, answer);
    } else if BeforeHandshake(p) {
      EarlyBecomes(p, e, view, answer);
    } else {
      LateBecomes(p, e, view, answer);
    }
  }

  /** After any run: a SYN begins anew, and any other segment moves its pending connection on as told above. */
  lemma PendingExactly(es: seq<Packet>, e: Packet)
    ensures var s, next := Exec(es), Lookup(Next(Exec(es), e).pending, e.flow);
            if IsSyn(e) then next == Some(Pending(e.now, Low32(e.seqNo + 1), 0, AwaitAck, 0))
            else if e.flow !in s.pending then next == None
            else Becomes(s.pending[e.flow], e, Read(e.payload), Answer(s, e, StatusLimiter).Some?,
                   Answer(s, e, LoginLimiter).Some?, next)
    ensures forall f :: f != e.flow ==> Lookup(Next(Exec(es), e).pending, f) == Lookup(Exec(es).pending, f)
  {
    var s, view := Exec(es), Read(e.payload);
    ReadSound(e.payload);
    if !IsSyn(e) && e.flow in s.pending {
      ReactBecomes(s.pending[e.flow], e, view, Asking(s, e));
    }
  }

  // ---------------------------------------------------------------- payloads out of order

  /** A payload at another byte than the expected one. */
  predicate Stray(p: Pending, e: Packet)
  {
    !IsSyn(e) && Current(p, e) && e.ack && e.payload != [] && e.seqNo != p.expected && p.stage != AwaitAck
  }

  lemma StrayStep(s: State, p: Pending, e: Packet, view: Reader, answer: Consent)
    requires e.flow in s.pending && s.pending[e.flow] == p && Stray(p, e) && p.fails <= 4
    ensures var s' := NextWith(s, e, view, answer);
            if p.fails < 4 then s' == s.(pending := s.pending[e.flow := p.(fails := p.fails + 1, lastSeen := e.now)])
            else s' == s.(pending := s.pending - {e.flow},
                          blocked := s.blocked[Prefix(e.flow.family, e.flow.src) := e.now + 300_000_000_000])
  {
  }

  /** Strays of one connection, each within the timeout of the one before. */
  predicate Strays(p: Pending, f: Flow, es: seq<Packet>)
  {
    if es == [] then true
    else
      var before, e := es[..|es| - 1], es[|es| - 1];
      Strays(p, f, before) && e.flow == f &&
      Stray(p.(lastSeen := if before == [] then p.lastSeen else before[|before| - 1].now), e)
  }

  /** The connection stands as `p` did, but for `n` strays and the time of the last; no source was blocked. */
  ghost predicate Struck(s: State, f: Flow, p: Pending, n: nat, seen: nat, blocked: map<Prefix, nat>)
  {
    f in s.pending && s.pending[f] == p.(fails := p.fails + n, lastSeen := seen) && s.blocked == blocked
  }

  lemma StruckNext(s: State, f: Flow, p: Pending, n: nat, seen: nat, blocked: map<Prefix, nat>, e: Packet, view: Reader,
      answer: Consent)
    requires Struck(s, f, p, n, seen, blocked) && e.flow == f && Stray(p.(lastSeen := seen), e) && p.fails + n <= 4
    ensures var s' := NextWith(s, e, view, answer);
            if p.fails + n < 4 then Struck(s', f, p, n + 1, e.now, blocked)
            else f !in s'.pending && s'.blocked == blocked[Prefix(f.family, f.src) := e.now + 300_000_000_000]
  {
    StrayStep(s, s.pending[f], e, view, answer);
  }

  function LastSeen(p: Pending, es: seq<Packet>): (t: nat) { if es == [] then p.lastSeen else es[|es| - 1].now }

  lemma {:induction false} StraysCounted(es: seq<Packet>, p: Pending, f: Flow, strays: seq<Packet>)
    requires f in Exec(es).pending && Exec(es).pending[f] == p && Strays(p, f, strays) && p.fails + |strays| <= 4
    ensures Struck(Exec(es + strays), f, p, |strays|, LastSeen(p, strays), Exec(es).blocked)
  {
    if strays == [] {
      assert es + strays == es;
    } else {
      var before, e := strays[..|strays| - 1], strays[|strays| - 1];
      StraysCounted(es, p, f, before);
      assert es + strays == (es + before) + [e];
      Snoc(es + before, e);
      var s := Exec(es + before);
      StruckNext(s, f, p, |before|, LastSeen(p, before), Exec(es).blocked, e, Read(e.payload), Asking(s, e));
    }
  }

  /** Four strays change nothing but their count; the fifth forgets the connection and blocks its source. */
  lemma FifthStrayBlocks(es: seq<Packet>, p: Pending, f: Flow, strays: seq<Packet>, fifth: Packet)
    requires f in Exec(es).pending && Exec(es).pending[f] == p && p.fails == 0 && |strays| == 4
    requires Strays(p, f, strays + [fifth])
    ensures f in Exec(es + strays).pending && Exec(es + strays).blocked == Exec(es).blocked
    ensures var s' := Exec(es + strays + [fifth]);
            f !in s'.pending
            && s'.blocked == Exec(es).blocked[Prefix(f.family, f.src) := fifth.now + 300_000_000_000]
  {
    assert (strays + [fifth])[..4] == strays;
    StraysCounted(es, p, f, strays);
    Snoc(es + strays, fifth);
    var s := Exec(es + strays);
    StruckNext(s, f, p, 4, LastSeen(p, strays), Exec(es).blocked, fifth, Read(fifth.payload), Asking(s, fifth));
  }

  // ---------------------------------------------------------------- when a limiter agrees

  /** Limiter words are shared by the first 24 bits of an IPv4 source, or the first 64 of an IPv6 source. */
  lemma PrefixesMean(f: Flow, g: Flow)
    ensures PrefixOf(f) == PrefixOf(g) <==>
            f.family == g.family && forall i :: 0 <= i < (if f.family == V4 then 24 else 64) ==>
                Bit(f.src, i) == Bit(g.src, i)
  {
    SharedPrefix(f.src, g.src, f.family, 24, 64);
  }

  /** Requests in one window, and its length in milliseconds. */
  function Allowance(l: Limiter): (n: nat) { if l == StatusLimiter then 30 else 20 }

  function Span(l: Limiter): (ticks: nat) { if l == StatusLimiter then 10_000 else 60_000 }

  /** No window, one that is over, or one with fewer grants than allowed. */
  predicate Roomy(log: seq<Charge>, l: Limiter, now: nat)
  {
    log == [] ||
    var start := log[|log| - 1].start;
    RateLimiter.Gap(start, now) >= Span(l) || ChargedTo(log, start) < Allowance(l)
  }

  lemma RoomyDecides(l: Limiter, run: RateLimiter.Ledger, clock: nat, now: nat)
    requires RateLimiter.Faithful(LimitOf(l), run, clock) && clock <= now
    ensures RateLimiter.Decide(LimitOf(l), run.cell, now, 1).Some? <==> Roomy(run.charges, l, now)
  {
    assert RateLimiter.WindowTicks(LimitOf(l).windowNs) == Span(l);
    RateLimiter.DecideExactly(LimitOf(l), run, clock, RateLimiter.Request(now, 1));
  }

  lemma LedgerOf(es: seq<Packet>, k: RateKey, now: nat) returns (clock: nat)
    requires Timed(es) && (es != [] ==> es[|es| - 1].now <= now)
    ensures var run := RateLimiter.Run(LimitOf(k.limiter), Requests(es, k));
            RateLimiter.Faithful(LimitOf(k.limiter), run, clock) && clock <= now
  {
    var rs := Requests(es, k);
    RequestsTimed(es, k);
    RateLimiter.RunFaithful(LimitOf(k.limiter), rs);
    clock := if rs == [] then 0 else rs[|rs| - 1].now;
  }

  /**
    After every run in clock order, a limiter agrees exactly when the source's
    prefix has no window, one that is over, or one with fewer grants than allowed.
   */
  lemma AgreesExactly(es: seq<Packet>, e: Packet, l: Limiter)
    requires Timed(es + [e])
    ensures var k := RateKey(l, PrefixOf(e.flow));
            Answer(Exec(es), e, l).Some? <==> Roomy(RateLimiter.Run(LimitOf(l), Requests(es, k)).charges, l, e.now)
  {
    var k := RateKey(l, PrefixOf(e.flow));
    TimedBefore(es, e);
    LimiterAgrees(es, k, 0, 0);
    var clock := LedgerOf(es, k, e.now);
    RoomyDecides(l, RateLimiter.Run(LimitOf(l), Requests(es, k)), clock, e.now);
  }

  lemma TimedBefore(es: seq<Packet>, e: Packet)
    requires Timed(es + [e])
    ensures Timed(es) && (es != [] ==> es[|es| - 1].now <= e.now)
  {
    var all := es + [e];
    assert all[|es|] == e && forall i :: 0 <= i < |es| ==> all[i] == es[i];
  }

  // ---------------------------------------------------------------- a client that asks for the status

  /** A status handshake within the protocol's bounds whose first byte is not that of a legacy ping. */
  predicate Curious(g: Greeting)
  {
    && 4 <= g.len <= 786 && !(g.len >= 0x80 && g.len % 0x80 == 0x7E)
    && -0x8000_0000 <= g.version < 0x8000_0000 && |g.host| <= 765 && |g.port| == 2 && g.intention == 1
  }

  const STATUS: Bytes := [1, 0]

  predicate IsPing(b: Bytes) { |b| == 10 && b[0] == 9 && b[1] == 1 }

  /** What the parsers make of such a handshake, alone and followed by the request. */
  lemma CuriousRead(g: Greeting)
    requires Curious(g)
    ensures var h := HandshakeOf(g);
            && |h| >= 3
            && InspectHandshake(h, true) == Accepted(g.version, 1, |h|) && !InspectStatus(h, 0)
            && InspectHandshake(h + STATUS, true) == Accepted(g.version, 1, |h|) && InspectStatus(h + STATUS, |h|)
  {
    var h := HandshakeOf(g);
    HandshakeReads(g.len, g.version, g.host, g.port, g.intention, [], true);
    assert h + [] == h;
    HandshakeReads(g.len, g.version, g.host, g.port, g.intention, STATUS, true);
    StatusExactly(h, 0);
    StatusExactly(h + STATUS, |h|);
  }

  /** A pending connection in a given stage. */
  ghost predicate Stands(s: State, f: Flow, seen: nat, expected: u32, stage: Stage)
  {
    f in s.pending &&
    var p := s.pending[f];
    p.lastSeen == seen && p.expected == expected && p.stage == stage
  }

  lemma {:induction false} StillStands(es: seq<Packet>, others: seq<Packet>, f: Flow, seen: nat, expected: u32,
      stage: Stage)
    requires Stands(Exec(es), f, seen, expected, stage) && forall i :: 0 <= i < |others| ==> others[i].flow != f
    ensures Stands(Exec(es + others), f, seen, expected, stage)
  {
    if others == [] {
      assert es + others == es;
    } else {
      var before, e := others[..|others| - 1], others[|others| - 1];
      StillStands(es, before, f, seen, expected, stage);
      assert es + others == (es + before) + [e];
      Snoc(es + before, e);
    }
  }

  /** A handshake alone is dropped, but its connection now awaits the request. */
  lemma AwaitsRequest(s: State, syn: Packet, seen: nat, h: Packet, view: Reader, answer: Consent)
    requires Expectant(s, syn, seen) && Answers(h, syn.flow, syn) && h.intact && 3 <= |h.payload| <= h.room
    requires seen <= h.now <= seen + TIMEOUT_NS && view.handshake.Accepted? && view.handshake.intention == 1
    requires view.handshake.next == |h.payload| && !view.status(0)
    ensures Stands(NextWith(s, h, view, answer), h.flow, h.now, h.seqNo, AwaitStatus)
    ensures VerdictWith(s, h, view, answer) == Drop
  {
  }

  /** A request in order passes exactly if the limiter agrees, and a ping is awaited right after it. */
  lemma RequestServed(s: State, p: Pending, e: Packet, view: Reader, answer: Consent)
    requires e.flow in s.pending && s.pending[e.flow] == p && !IsSyn(e) && Current(p, e) && InOrder(p, e)
    requires e.payload != [] && AsksStatus(p, e, view)
    ensures VerdictWith(s, e, view, answer) == Pass <==> answer(StatusLimiter).Some?
    ensures answer(StatusLimiter).Some? ==>
              && Stands(NextWith(s, e, view, answer), e.flow, e.now, Low32(e.seqNo + |e.payload|), AwaitPing)
              && NextWith(s, e, view, answer).pending[e.flow].fails == 0
  {
  }

  lemma PingServed(es: seq<Packet>, e: Packet, seen: nat)
    requires Stands(Exec(es), e.flow, seen, e.seqNo, AwaitPing) && e.ack && e.intact && IsPing(e.payload)
    requires seen <= e.now <= seen + TIMEOUT_NS
    ensures VerdictOf(Exec(es), e) == Pass
  {
    PingExactly(e.payload, 0, true);
    PassesExactly(es, e);
  }

  lemma CoalescedAsks(s: State, syn: Packet, seen: nat, e: Packet, g: Greeting)
    requires Curious(g) && Expectant(s, syn, seen) && Answers(e, syn.flow, syn) && seen <= e.now <= seen + TIMEOUT_NS
    requires e.payload == HandshakeOf(g) + STATUS && e.intact && |e.payload| <= e.room
    ensures var p := s.pending[e.flow];
            Current(p, e) && InOrder(p, e) && AsksStatus(p, e, Read(e.payload))
  {
    CuriousRead(g);
  }

  lemma SplitAsks(s: State, e: Packet, seen: nat)
    requires Stands(s, e.flow, seen, e.seqNo, AwaitStatus) && e.ack && e.intact && e.payload == STATUS
    requires seen <= e.now <= seen + TIMEOUT_NS
    ensures var p := s.pending[e.flow];
            Current(p, e) && InOrder(p, e) && AsksStatus(p, e, Read(e.payload))
  {
    StatusExactly(STATUS, 0);
  }

  lemma RequestThenPing(es: seq<Packet>, e: Packet, others: seq<Packet>, ping: Packet)
    requires e.flow in Exec(es).pending && !IsSyn(e) && Current(Exec(es).pending[e.flow], e)
    requires InOrder(Exec(es).pending[e.flow], e)
    requires e.payload != [] && AsksStatus(Exec(es).pending[e.flow], e, Read(e.payload))
    requires (forall i :: 0 <= i < |others| ==> others[i].flow != e.flow) && ping.flow == e.flow
    requires ping.ack && ping.intact && ping.seqNo == Low32(e.seqNo + |e.payload|) && IsPing(ping.payload)
    requires e.now <= ping.now <= e.now + TIMEOUT_NS
    ensures VerdictOf(Exec(es), e) == Pass <==> Answer(Exec(es), e, StatusLimiter).Some?
    ensures VerdictOf(Exec(es), e) == Pass ==> VerdictOf(Exec(es + [e] + others), ping) == Pass
  {
    var s := Exec(es);
    RequestServed(s, s.pending[e.flow], e, Read(e.payload), Asking(s, e));
    Snoc(es, e);
    if VerdictOf(s, e) == Pass {
      StillStands(es + [e], others, e.flow, e.now, ping.seqNo, AwaitPing);
      PingServed(es + [e] + others, ping, e.now);
    }
  }

  /**
    A client whose first payload is any status handshake and the request is
    answered exactly when the status limiter agrees, and its ping after that passes.
   */
  lemma CoalescedStatusAnswered(es: seq<Packet>, syn: Packet, mid: seq<Packet>, e: Packet, others: seq<Packet>,
      ping: Packet, g: Greeting)
    requires Curious(g) && IsSyn(syn) && Waiting(syn, mid) && Answers(e, syn.flow, syn) && InTime(syn, mid, e.now)
    requires e.payload == HandshakeOf(g) + STATUS && e.intact && |e.payload| <= e.room
    requires (forall i :: 0 <= i < |others| ==> others[i].flow != e.flow) && ping.flow == e.flow
    requires ping.ack && ping.intact && ping.seqNo == Low32(e.seqNo + |e.payload|) && IsPing(ping.payload)
    requires e.now <= ping.now <= e.now + TIMEOUT_NS
    ensures var before := es + [syn] + mid;
            && (VerdictOf(Exec(before), e) == Pass <==> Answer(Exec(before), e, StatusLimiter).Some?)
            && (VerdictOf(Exec(before), e) == Pass ==> VerdictOf(Exec(before + [e] + others), ping) == Pass)
  {
    StillExpectant(es, syn, mid);
    CoalescedAsks(Exec(es + [syn] + mid), syn, LatestSegment(syn, mid), e, g);
    RequestThenPing(es + [syn] + mid, e, others, ping);
  }

  /** The handshake alone in the first segment, and the state it leaves. */
  lemma HandshakeAwaits(es: seq<Packet>, syn: Packet, mid: seq<Packet>, h: Packet, g: Greeting)
    requires Curious(g) && IsSyn(syn) && Waiting(syn, mid) && Answers(h, syn.flow, syn) && InTime(syn, mid, h.now)
    requires h.payload == HandshakeOf(g) && h.intact && |h.payload| <= h.room
    ensures VerdictOf(Exec(es + [syn] + mid), h) == Drop
    ensures Stands(Exec(es + [syn] + mid + [h]), h.flow, h.now, h.seqNo, AwaitStatus)
  {
    var s := Exec(es + [syn] + mid);
    StillExpectant(es, syn, mid);
    CuriousRead(g);
    AwaitsRequest(s, syn, LatestSegment(syn, mid), h, Read(h.payload), Asking(s, h));
    Snoc(es + [syn] + mid, h);
  }

  /** The same with the request in a later segment at the same sequence number. */
  lemma SplitStatusAnswered(es: seq<Packet>, syn: Packet, mid: seq<Packet>, h: Packet, between: seq<Packet>, e: Packet,
      others: seq<Packet>, ping: Packet, g: Greeting)
    requires Curious(g) && IsSyn(syn) && Waiting(syn, mid) && Answers(h, syn.flow, syn) && InTime(syn, mid, h.now)
    requires h.payload == HandshakeOf(g) && h.intact && |h.payload| <= h.room
    requires forall i :: 0 <= i < |between| ==> between[i].flow != syn.flow
    requires Answers(e, syn.flow, syn) && e.intact && h.now <= e.now <= h.now + TIMEOUT_NS && e.payload == STATUS
    requires (forall i :: 0 <= i < |others| ==> others[i].flow != e.flow) && ping.flow == e.flow
    requires ping.ack && ping.intact && ping.seqNo == Low32(e.seqNo + 2) && IsPing(ping.payload)
    requires e.now <= ping.now <= e.now + TIMEOUT_NS
    ensures VerdictOf(Exec(es + [syn] + mid), h) == Drop
    ensures var before := es + [syn] + mid + [h] + between;
            && (VerdictOf(Exec(before), e) == Pass <==> Answer(Exec(before), e, StatusLimiter).Some?)
            && (VerdictOf(Exec(before), e) == Pass ==> VerdictOf(Exec(before + [e] + others), ping) == Pass)
  {
    var before := es + [syn] + mid + [h];
    HandshakeAwaits(es, syn, mid, h, g);
    StillStands(before, between, h.flow, h.now, h.seqNo, AwaitStatus);
    SplitAsks(Exec(before + between), e, h.now);
    RequestThenPing(before + between, e, others, ping);
  }
}