/**
  The Minecraft port handler: a flow is kept pending from its SYN until a
  handshake and a login packet have been seen, and only then enters the
  connection table.
 */
module Minecraft {
  import opened Words
  import opened Flows
  import opened MinecraftWire
  import opened MinecraftPackets
  import RateLimiter
  import opened SpanBound

  datatype Stage = AwaitAck | AwaitHandshake | AwaitStatus | AwaitLogin | AwaitPing | PingComplete

  datatype Pending = Pending(lastSeen: nat, expected: u32, version: int, stage: Stage, fails: nat)

  /**
    An inbound segment.  `room` is how many bytes the frame holds from the
    payload on, padding included; `intact` says that the lengths in the headers
    agree with the frame.
   */
  datatype Packet = Packet(flow: Flow, seqNo: u32, syn: bool, ack: bool, payload: Bytes, room: nat, intact: bool,
      now: nat)

  const TIMEOUT_NS: nat := 15_000_000_000

  const BLOCK_NS: nat := 300_000_000_000

  /** The two rate limiters, each with a word per source prefix. */
  datatype Limiter = StatusLimiter | LoginLimiter

  /** What one segment does; `asked` is the limiter that was consulted on the way. */
  datatype Reaction = Reaction(pending: Option<Pending>, verdict: Verdict, promoted: bool, penalised: bool,
      asked: Option<Limiter>)

  function Keep(p: Pending, now: nat, v: Verdict): (r: Reaction)
  {
    Reaction(Some(p.(lastSeen := now)), v, false, false, None)
  }

  function Forget(penalised: bool): (r: Reaction) { Reaction(None, Drop, false, penalised, None) }

  function Promote(): (r: Reaction) { Reaction(None, Pass, true, false, None) }

  /** The segment carried what was expected: move on, and expect the byte after it. */
  function Advance(p: Pending, pkt: Packet, stage: Stage): (r: Reaction)
  {
    Keep(p.(stage := stage, expected := Low32(p.expected + |pkt.payload|), fails := 0), pkt.now, Pass)
  }

  /** What the parsers say about one payload. */
  datatype Reader = Reader(handshake: Handshake, status: nat -> bool, ping: nat -> bool, login: (nat, int) -> bool)

  function Read(s: Bytes): (r: Reader)
  {
    Reader(InspectHandshake(s, true), (at: nat) => InspectStatus(s, at), (at: nat) => InspectPing(s, at, true),
           (at: nat, version: int) => InspectLogin(s, at, version, true))
  }

  /** The outcome when a limiter is consulted: go on, or drop the flow and block its source. */
  function IfAllowed(l: Limiter, ok: bool, r: Reaction): (r': Reaction)
  {
    (if ok then r else Forget(true)).(asked := Some(l))
  }

  /** A payload in order, read from `cursor`; `ok` is the answer of whichever limiter is consulted. */
  function Serve(p: Pending, pkt: Packet, view: Reader, cursor: nat, ok: bool): (r: Reaction)
  {
    match p.stage
    case AwaitStatus =>
      if !view.status(cursor) then Keep(p, pkt.now, Drop) else IfAllowed(StatusLimiter, ok, Advance(p, pkt, AwaitPing))
    case AwaitPing =>
      if !view.ping(cursor) then Keep(p, pkt.now, Drop) else Advance(p, pkt, PingComplete)
    case AwaitLogin =>
      if !view.login(cursor, p.version) then Keep(p, pkt.now, Drop) else IfAllowed(LoginLimiter, ok, Promote())
    case PingComplete => Forget(false)
    case _ => Advance(p, pkt, p.stage)
  }

  /** Where reading continues after a handshake: a handshake that fills the segment leaves the cursor at the start. */
  function Cursor(next: nat, pkt: Packet): (at: nat) { if next == |pkt.payload| then 0 else next }

  /** A payload in order while the handshake is awaited. */
  function Greet(p: Pending, pkt: Packet, view: Reader, ok: bool): (r: Reaction)
  {
    if pkt.room < 3 then Keep(p, pkt.now, Drop)
    else
      match view.handshake
      case Legacy => Forget(false)
      case Rejected(seen) => Keep(if seen.Some? then p.(version := seen.value) else p, pkt.now, Drop)
      case Accepted(version, intention, next) =>
        var p' := p.(version := version, stage := if intention == 1 then AwaitStatus else AwaitLogin);
        Serve(p', pkt, view, Cursor(next, pkt), ok)
  }

  function Payload(p: Pending, pkt: Packet, view: Reader, ok: bool): (r: Reaction)
  {
    if !pkt.ack then Forget(true)
    else if p.expected != pkt.seqNo then
      var fails := if p.fails < 0xFFFF then p.fails + 1 else p.fails;
      if fails > 4 then Forget(true) else Keep(p.(fails := fails), pkt.now, Drop)
    else if p.stage == AwaitHandshake then Greet(p, pkt, view, ok)
    else Serve(p, pkt, view, 0, ok)
  }

  /** `xdp_minecraft_handler` for one flow. */
  function React(pending: Option<Pending>, pkt: Packet, view: Reader, ok: bool): (r: Reaction)
  {
    if pkt.syn && !pkt.ack then Keep(Pending(pkt.now, Low32(pkt.seqNo + 1), 0, AwaitAck, 0), pkt.now, Pass)
    else if pending.None? then Forget(false)
    else
      var p := pending.value;
      if Sub64(pkt.now, p.lastSeen) > TIMEOUT_NS then Forget(false)
      else if !pkt.intact then Reaction(Some(p), Drop, false, false, None)
      else if p.stage == AwaitAck then
        if !pkt.ack || p.expected != pkt.seqNo then Keep(p, pkt.now, Drop)
        else
          var p' := p.(stage := AwaitHandshake, lastSeen := pkt.now);
          if pkt.payload == [] then Keep(p', pkt.now, Drop) else Payload(p', pkt, view, ok)
      else if pkt.payload != [] then Payload(p, pkt, view, ok)
      else Keep(p, pkt.now, if p.stage == AwaitHandshake then Drop else Pass)
  }

  // ---------------------------------------------------------------- all flows

  /** The /24 or /64 a source belongs to. */
  datatype Prefix = Prefix(family: Family, source: Addr)

  function PrefixOf(f: Flow): (p: Prefix) { Prefix(f.family, MaskedSource(f.src, f.family, 24, 64)) }

  /** Thirty status requests in ten seconds, twenty logins a minute. */
  function LimitOf(l: Limiter): (c: RateLimiter.Config)
  {
    match l
    case StatusLimiter => RateLimiter.Config(30, 10_000_000_000)
    case LoginLimiter => RateLimiter.Config(20, 60_000_000_000)
  }

  datatype RateKey = RateKey(limiter: Limiter, prefix: Prefix)

  /** A segment that a limiter let through. */
  datatype Grant = Grant(limiter: Limiter, pkt: Packet)

  /**
    Pending flows, the connection table, the limiters' words, the sources
    blocked and until when, and the history of what the limiters granted.
   */
  datatype State = State(pending: map<Flow, Pending>, table: map<Flow, nat>, words: map<RateKey, u64>,
                         blocked: map<Prefix, nat>, grants: seq<Grant>)

  function Lookup<K, V>(m: map<K, V>, k: K): (r: Option<V>) { if k in m then Some(m[k]) else None }

  function SourceOf(f: Flow): (p: Prefix) { Prefix(f.family, f.src) }

  /** What each limiter would answer: the word it would store, or None. */
  type Consent = Limiter -> Option<u64>

  predicate Refused(granted: Reaction, answer: Consent) { granted.asked.Some? && answer(granted.asked.value).None? }

  function Choice(granted: Reaction, denied: Reaction, answer: Consent): (r: Reaction)
  {
    if Refused(granted, answer) then denied else granted
  }

  /** A limiter is consulted only when its consent is all that is missing. */
  function Resolve(s: State, e: Packet, granted: Reaction, denied: Reaction, answer: Consent): (s': State)
  {
    var f, r := e.flow, Choice(granted, denied, answer);
    var allowed := granted.asked.Some? && answer(granted.asked.value).Some?;
    var words := if allowed then
                   var l := granted.asked.value; s.words[RateKey(l, PrefixOf(f)) := answer(l).value]
                 else s.words;
    State(if r.pending.Some? then s.pending[f := r.pending.value] else s.pending - {f},
          if r.promoted then s.table[f := e.now] else s.table,
          words,
          if r.penalised then s.blocked[SourceOf(f) := e.now + BLOCK_NS] else s.blocked,
          if allowed then s.grants + [Grant(granted.asked.value, e)] else s.grants)
  }

  /** One segment, given what the parsers and the limiters say. */
  function NextWith(s: State, e: Packet, view: Reader, answer: Consent): (s': State)
  {
    var p := Lookup(s.pending, e.flow);
    Resolve(s, e, React(p, e, view, true), React(p, e, view, false), answer)
  }

  function Asking(s: State, e: Packet): (answer: Consent) { l => Answer(s, e, l) }

  function Answer(s: State, e: Packet, l: Limiter): (word: Option<u64>)
  {
    RateLimiter.Decide(LimitOf(l), Lookup(s.words, RateKey(l, PrefixOf(e.flow))), e.now, 1)
  }

  function Next(s: State, e: Packet): (s': State) { NextWith(s, e, Read(e.payload), Asking(s, e)) }

  function VerdictWith(s: State, e: Packet, view: Reader, answer: Consent): (v: Verdict)
  {
    var p := Lookup(s.pending, e.flow);
    Choice(React(p, e, view, true), React(p, e, view, false), answer).verdict
  }

  function VerdictOf(s: State, e: Packet): (v: Verdict) { VerdictWith(s, e, Read(e.payload), Asking(s, e)) }

  function Exec(es: seq<Packet>): (s: State)
  {
    if es == [] then State(map[], map[], map[], map[], []) else Next(Exec(es[..|es| - 1]), es[|es| - 1])
  }

  /** The limiter this segment consults, if any. */
  function Asks(s: State, e: Packet, view: Reader): (l: Option<Limiter>)
  {
    React(Lookup(s.pending, e.flow), e, view, true).asked
  }

  /** A limiter's word changes, and a grant is recorded, exactly when it was asked and agreed. */
  lemma GrantedIff(s: State, e: Packet, view: Reader, answer: Consent)
    ensures var s', asked := NextWith(s, e, view, answer), Asks(s, e, view);
            if asked.Some? && answer(asked.value).Some? then
              && s'.grants == s.grants + [Grant(asked.value, e)]
              && s'.words == s.words[RateKey(asked.value, PrefixOf(e.flow)) := answer(asked.value).value]
            else s'.grants == s.grants && s'.words == s.words
  {
  }

  /** Promotion is what the login limiter grants; nothing else touches the table. */
  lemma PromotedIff(s: State, e: Packet, view: Reader, answer: Consent)
    ensures var s', f := NextWith(s, e, view, answer), e.flow;
            var promoted := Asks(s, e, view) == Some(LoginLimiter) && answer(LoginLimiter).Some?;
            s'.table == if promoted then s.table[f := e.now] else s.table
  {
  }

  // ---------------------------------------------------------------- provenance

  predicate IsSyn(pkt: Packet) { pkt.syn && !pkt.ack }

  /** Stages in which no payload byte has been accepted yet. */
  predicate Early(st: Stage) { st != AwaitPing && st != PingComplete }

  /** A handshake that announces a login or, from version 766, a transfer. */
  predicate Announces(h: Handshake, version: int)
  {
    h.Accepted? && h.version == version && (h.intention == 2 || (h.intention == 3 && version >= 766))
  }

  /** Serving never goes back, and login can only be awaited if it was awaited before. */
  lemma ServeKeeps(p: Pending, pkt: Packet, view: Reader, cursor: nat, ok: bool)
    requires p.stage != AwaitAck && p.stage != AwaitHandshake
    ensures var r := Serve(p, pkt, view, cursor, ok);
            && (r.pending.Some? ==>
                  && r.pending.value.stage != AwaitAck && r.pending.value.stage != AwaitHandshake
                  && (Early(r.pending.value.stage) ==> r.pending.value == p.(lastSeen := pkt.now)))
            && (r.asked == Some(LoginLimiter) ==> p.stage == AwaitLogin && view.login(cursor, p.version))
  {
  }

  /** Handshake and login packet in one payload. */
  predicate Together(pkt: Packet, view: Reader)
  {
    var h := view.handshake;
    h.Accepted? && Announces(h, h.version) && view.login(Cursor(h.next, pkt), h.version)
  }

  /** The payload completes a login: alone, after an earlier handshake, or together with its handshake. */
  predicate Completes(p: Pending, pkt: Packet, view: Reader)
  {
    if p.stage == AwaitLogin then view.login(0, p.version) else Together(pkt, view)
  }

  /** What one segment other than a SYN can do to a pending flow. */
  ghost predicate SegmentFacts(p: Pending, pkt: Packet, view: Reader, r: Reaction)
  {
    && (r.pending.Some? ==>
          var q := r.pending.value;
          && (q.stage == AwaitAck ==> p.stage == AwaitAck)
          && (Early(q.stage) ==> q.expected == p.expected && Early(p.stage))
          && (q.stage != AwaitAck && p.stage == AwaitAck ==> pkt.ack && pkt.seqNo == p.expected)
          && (q.stage == AwaitLogin ==>
                || (p.stage == AwaitLogin && q.version == p.version)
                || (Announces(view.handshake, q.version) && pkt.ack && pkt.seqNo == p.expected)))
    && (r.asked == Some(LoginLimiter) ==>
        pkt.ack && pkt.seqNo == p.expected && Early(p.stage) && Completes(p, pkt, view))
  }

  /** What the handshake parser guarantees of an accepted handshake. */
  predicate Sound(view: Reader)
  {
    view.handshake.Accepted? ==> view.handshake.intention == 1 || Announces(view.handshake, view.handshake.version)
  }

  lemma PayloadKeeps(p: Pending, pkt: Packet, view: Reader, ok: bool)
    requires p.stage != AwaitAck
    requires Sound(view)
    ensures SegmentFacts(p, pkt, view, Payload(p, pkt, view, ok))
  {
    if p.stage == AwaitHandshake && view.handshake.Accepted? {
      var h := view.handshake;
      var p' := p.(version := h.version, stage := if h.intention == 1 then AwaitStatus else AwaitLogin);
      ServeKeeps(p', pkt, view, Cursor(h.next, pkt), ok);
    } else if p.stage != AwaitHandshake {
      ServeKeeps(p, pkt, view, 0, ok);
    }
  }

  lemma SegmentKeeps(p: Pending, pkt: Packet, view: Reader, ok: bool)
    requires !IsSyn(pkt) && Sound(view)
    ensures SegmentFacts(p, pkt, view, React(Some(p), pkt, view, ok))
  {
    if p.stage == AwaitAck {
      var p' := p.(stage := AwaitHandshake, lastSeen := pkt.now);
      PayloadKeeps(p', pkt, view, ok);
    } else {
      PayloadKeeps(p, pkt, view, ok);
    }
  }

  /** The same for the whole state, in terms of one flow. */
  lemma FlowKeeps(s: State, e: Packet, view: Reader, answer: Consent, f: Flow)
    requires f in NextWith(s, e, view, answer).pending
    requires Sound(view)
    ensures var q := NextWith(s, e, view, answer).pending[f];
            if e.flow != f then f in s.pending && q == s.pending[f]
            else if IsSyn(e) then q.stage == AwaitAck && q.expected == Low32(e.seqNo + 1)
            else
              && f in s.pending
              && (q.stage == AwaitAck ==> s.pending[f].stage == AwaitAck)
              && (Early(q.stage) ==> q.expected == s.pending[f].expected && Early(s.pending[f].stage))
              && (q.stage != AwaitAck && s.pending[f].stage == AwaitAck ==> e.ack && e.seqNo == s.pending[f].expected)
              && (q.stage == AwaitLogin ==>
                    || (s.pending[f].stage == AwaitLogin && q.version == s.pending[f].version)
                    || (Announces(view.handshake, q.version) && e.ack && e.seqNo == s.pending[f].expected))
  {
    if e.flow == f && !IsSyn(e) && f in s.pending {
      SegmentKeeps(s.pending[f], e, view, true);
      SegmentKeeps(s.pending[f], e, view, false);
    }
  }

  /** A segment of `f` in answer to the SYN `syn`: acknowledging, and starting at the first byte after it. */
  predicate Answers(pkt: Packet, f: Flow, syn: Packet)
  {
    pkt.flow == f && pkt.ack && pkt.seqNo == Low32(syn.seqNo + 1)
  }

  /** Such a segment whose payload begins with a handshake for `version` that announces a login or transfer. */
  predicate Greets(pkt: Packet, f: Flow, syn: Packet, version: int)
  {
    Answers(pkt, f, syn) && Announces(Read(pkt.payload).handshake, version)
  }

  /** The latest SYN of `f` is at `i`. */
  ghost predicate Begins(es: seq<Packet>, f: Flow, i: nat)
  {
    && i < |es| && es[i].flow == f && IsSyn(es[i])
    && forall m :: i < m < |es| && es[m].flow == f ==> !IsSyn(es[m])
  }

  /** The latest SYN of `f`, and what has happened since, as far as the stage of `p` requires it. */
  ghost predicate Told(es: seq<Packet>, f: Flow, p: Pending, i: nat, j: nat, k: nat)
  {
    && Begins(es, f, i)
    && (Early(p.stage) ==> p.expected == Low32(es[i].seqNo + 1))
    && (Early(p.stage) && p.stage != AwaitAck ==> i < j < |es| && Answers(es[j], f, es[i]))
    && (p.stage == AwaitLogin ==> i < k < |es| && Greets(es[k], f, es[i], p.version))
  }

  lemma ReadSound(s: Bytes)
    ensures Sound(Read(s))
  {
  }

  lemma ToldNext(before: seq<Packet>, e: Packet, f: Flow, p: Pending, q: Pending, i: nat, j: nat, k: nat)
      returns (j': nat, k': nat)
    requires Told(before, f, p, i, j, k) && (e.flow == f ==> !IsSyn(e))
    requires Early(q.stage) ==> q.expected == p.expected && Early(p.stage)
    requires q.stage == AwaitAck ==> p.stage == AwaitAck
    requires q.stage != AwaitAck && p.stage == AwaitAck ==> e.flow == f && e.ack && e.seqNo == p.expected
    requires q.stage == AwaitLogin ==>
               || (p.stage == AwaitLogin && q.version == p.version)
               || (Announces(Read(e.payload).handshake, q.version) && e.flow == f && e.ack && e.seqNo == p.expected)
    ensures Told(before + [e], f, q, i, j', k')
  {
    var es, n := before + [e], |before|;
    assert es[..n] == before && es[n] == e;
    j' := if p.stage == AwaitAck then n else j;
    k' := if p.stage == AwaitLogin && q.version == p.version then k else n;
  }

  /** Every pending flow of every reachable state has such a story. */
  lemma {:induction false} Story(es: seq<Packet>, f: Flow) returns (i: nat, j: nat, k: nat)
    requires f in Exec(es).pending
    ensures Told(es, f, Exec(es).pending[f], i, j, k)
  {
    var before, e := es[..|es| - 1], es[|es| - 1];
    var s := Exec(before);
    assert es == before + [e];
    ReadSound(e.payload);
    FlowKeeps(s, e, Read(e.payload), Asking(s, e), f);
    if e.flow == f && IsSyn(e) {
      i, j, k := |before|, 0, 0;
    } else {
      i, j, k := Story(before, f);
      j, k := ToldNext(before, e, f, s.pending[f], Exec(es).pending[f], i, j, k);
    }
  }

  /** A promotion by the segment after `es`. */
  predicate Promotes(es: seq<Packet>, e: Packet)
  {
    Next(Exec(es), e).grants == Exec(es).grants + [Grant(LoginLimiter, e)]
  }

  /**
    Where the login packet of the last segment starts: in a segment of its own
    after that of the handshake, where the handshake in the same segment ends, or
    at a handshake that fills the segment and doubles as the login packet.
   */
  predicate LoginPlace(es: seq<Packet>, e: Packet, k: nat, version: int, at: nat)
  {
    var h := Read(e.payload).handshake;
    || (k < |es| && at == 0)
    || (k == |es| && h.Accepted? && at == h.next < |e.payload|)
    || (k == |es| && h.Accepted? && at == 0 && h.next == |e.payload|
        && 1 <= version <= 48 && VersionEnd(e.payload) + version == |e.payload|)
  }

  /**
    A flow is promoted only after a SYN, an acknowledgement of it, a handshake
    announcing a login or transfer, and a well-formed login packet for the
    version of that handshake.  Acknowledgement, handshake and login all start at
    the first byte of the connection.
   */
  lemma PromotionHistory(es: seq<Packet>, e: Packet) returns (i: nat, j: nat, k: nat, version: int, at: nat)
    requires Promotes(es, e)
    ensures var all, f := es + [e], e.flow;
            && Begins(es, f, i)
            && i < j < |all| && Answers(all[j], f, es[i])
            && i < k < |all| && Greets(all[k], f, es[i], version)
            && Answers(e, f, es[i]) && InspectLogin(e.payload, at, version, true)
            && LoginPlace(es, e, k, version, at)
  {
    var s := Exec(es);
    ReadSound(e.payload);
    PromotedSegment(s, e, Read(e.payload), Asking(s, e));
    i, j, k := Story(es, e.flow);
    j, k, version, at := Ending(es, e, s.pending[e.flow], i, j, k);
  }

  lemma OneBeginning(es: seq<Packet>, f: Flow, i: nat, i': nat)
    requires Begins(es, f, i) && Begins(es, f, i')
    ensures i == i'
  {
  }

  /** A flow that has sent no payload is expected at the first byte after its latest SYN. */
  lemma ExpectedFirst(es: seq<Packet>, f: Flow, i: nat)
    requires f in Exec(es).pending && Early(Exec(es).pending[f].stage) && Begins(es, f, i)
    ensures Exec(es).pending[f].expected == Low32(es[i].seqNo + 1)
  {
    var i', j, k := Story(es, f);
    OneBeginning(es, f, i, i');
  }

  /** The last segment completes what the story told. */
  lemma Ending(es: seq<Packet>, e: Packet, p: Pending, i: nat, j: nat, k: nat)
      returns (j': nat, k': nat, version: int, at: nat)
    requires Told(es, e.flow, p, i, j, k) && Early(p.stage) && !IsSyn(e)
    requires e.ack && e.seqNo == p.expected && Completes(p, e, Read(e.payload))
    ensures var all, f := es + [e], e.flow;
            && Begins(es, f, i)
            && i < j' < |all| && Answers(all[j'], f, es[i])
            && i < k' < |all| && Greets(all[k'], f, es[i], version)
            && Answers(e, f, es[i]) && InspectLogin(e.payload, at, version, true)
            && LoginPlace(es, e, k', version, at)
  {
    var n, h := |es|, Read(e.payload).handshake;
    assert (es + [e])[n] == e;
    j' := if p.stage == AwaitAck then n else j;
    if p.stage == AwaitLogin {
      k', version, at := k, p.version, 0;
    } else {
      k', version, at := n, h.version, Cursor(h.next, e);
      HandshakeDoublesAsLogin(e.payload, true);
    }
  }

  lemma PromotedSegment(s: State, e: Packet, view: Reader, answer: Consent)
    requires NextWith(s, e, view, answer).grants == s.grants + [Grant(LoginLimiter, e)] && Sound(view)
    ensures !IsSyn(e) && e.flow in s.pending
    ensures var p := s.pending[e.flow]; e.ack && e.seqNo == p.expected && Early(p.stage) && Completes(p, e, view)
  {
    GrantedIff(s, e, view, answer);
    assert NextWith(s, e, view, answer).grants[|s.grants|] == Grant(LoginLimiter, e);
    assert Asks(s, e, view) == Some(LoginLimiter);
    SegmentKeeps(s.pending[e.flow], e, view, true);
  }

  /** A segment that completes a login in time: all but the limiter's consent is there. */
  predicate Finishes(p: Pending, pkt: Packet, view: Reader)
  {
    && Sub64(pkt.now, p.lastSeen) <= TIMEOUT_NS && pkt.intact && pkt.ack && pkt.seqNo == p.expected
    && (|| (p.stage == AwaitLogin && view.login(0, p.version))
        || ((p.stage == AwaitAck || p.stage == AwaitHandshake) && pkt.room >= 3 && Together(pkt, view)))
  }

  /** An empty payload is neither packet. */
  lemma NothingRead(version: int)
    ensures !Read([]).handshake.Accepted? && !Read([]).login(0, version)
  {
  }

  lemma AsksLoginIff(p: Pending, pkt: Packet, view: Reader)
    requires !IsSyn(pkt) && Sound(view)
    requires pkt.payload == [] ==> !view.handshake.Accepted? && !view.login(0, p.version)
    ensures React(Some(p), pkt, view, true).asked == Some(LoginLimiter) <==> Finishes(p, pkt, view)
  {
  }

  /** Exactly which segments are promoted, after any run. */
  lemma PromotesExactly(es: seq<Packet>, e: Packet)
    ensures Promotes(es, e) <==>
            && !IsSyn(e) && e.flow in Exec(es).pending
            && Finishes(Exec(es).pending[e.flow], e, Read(e.payload)) && Answer(Exec(es), e, LoginLimiter).Some?
  {
    var s, view := Exec(es), Read(e.payload);
    GrantedIff(s, e, view, Asking(s, e));
    ReadSound(e.payload);
    if !IsSyn(e) && e.flow in s.pending {
      NothingRead(s.pending[e.flow].version);
      AsksLoginIff(s.pending[e.flow], e, view);
    }
    GrantsDiffer(s, e, Asks(s, e, view));
  }

  lemma GrantsDiffer(s: State, e: Packet, l: Option<Limiter>)
    ensures s.grants != s.grants + [Grant(LoginLimiter, e)]
    ensures l.Some? && s.grants + [Grant(l.value, e)] == s.grants + [Grant(LoginLimiter, e)] ==> l == Some(LoginLimiter)
  {
    if l.Some? && s.grants + [Grant(l.value, e)] == s.grants + [Grant(LoginLimiter, e)] {
      assert (s.grants + [Grant(l.value, e)])[|s.grants|] == Grant(LoginLimiter, e);
    }
  }

  lemma TableStep(s: State, e: Packet, view: Reader, answer: Consent, f: Flow)
    requires f in NextWith(s, e, view, answer).table && f !in s.table
    ensures e.flow == f && NextWith(s, e, view, answer).grants == s.grants + [Grant(LoginLimiter, e)]
  {
    PromotedIff(s, e, view, answer);
    GrantedIff(s, e, view, answer);
  }

  lemma TableGrew(es: seq<Packet>, e: Packet, f: Flow)
    requires f in Next(Exec(es), e).table && f !in Exec(es).table
    ensures e.flow == f && Promotes(es, e)
  {
    TableStep(Exec(es), e, Read(e.payload), Asking(Exec(es), e), f);
  }

  /** Whatever is in the table was put there by a promotion. */
  lemma {:induction false} TableIsPromoted(es: seq<Packet>, f: Flow) returns (n: nat)
    requires f in Exec(es).table
    ensures n < |es| && es[n].flow == f && Promotes(es[..n], es[n])
  {
    var before, e := es[..|es| - 1], es[|es| - 1];
    var s := Exec(before);
    if f in s.table {
      n := TableIsPromoted(before, f);
      assert es[..n] == before[..n];
    } else {
      n := |es| - 1;
      TableGrew(before, e, f);
    }
  }

  // ---------------------------------------------------------------- the rates

  /** What limiter `l` granted to one prefix in ticks [lo, hi). */
  function GrantedWithin(gs: seq<Grant>, k: RateKey, lo: int, hi: int): (n: nat)
  {
    if gs == [] then 0
    else
      var g := gs[|gs| - 1];
      GrantedWithin(gs[..|gs| - 1], k, lo, hi) +
      if KeyOf(g) == k && lo <= RateLimiter.Tick(g.pkt.now) < hi then 1 else 0
  }

  function KeyOf(g: Grant): (k: RateKey) { RateKey(g.limiter, PrefixOf(g.pkt.flow)) }

  /** Does this segment ask the limiter word `k`? */
  predicate AsksFor(s: State, e: Packet, view: Reader, k: RateKey)
  {
    Asks(s, e, view) == Some(k.limiter) && PrefixOf(e.flow) == k.prefix
  }

  /** The requests a limiter word received. */
  function Requests(es: seq<Packet>, k: RateKey): (rs: seq<RateLimiter.Request>)
  {
    if es == [] then []
    else
      var before, e := es[..|es| - 1], es[|es| - 1];
      Requests(before, k) + if AsksFor(Exec(before), e, Read(e.payload), k) then [RateLimiter.Request(e.now, 1)] else []
  }

  /** A word and a history that agree with the limiter's own ledger. */
  predicate Agrees(s: State, k: RateKey, l: RateLimiter.Ledger, lo: int, hi: int)
  {
    Lookup(s.words, k) == l.cell && GrantedWithin(s.grants, k, lo, hi) == ChargedWithin(l.charges, lo, hi)
  }

  lemma AgreesNext(s: State, e: Packet, view: Reader, k: RateKey, l: RateLimiter.Ledger, lo: int, hi: int)
    requires Agrees(s, k, l, lo, hi)
    ensures var served := RateLimiter.Serve(LimitOf(k.limiter), l, RateLimiter.Request(e.now, 1));
            var l' := if AsksFor(s, e, view, k) then served else l;
            Agrees(NextWith(s, e, view, Asking(s, e)), k, l', lo, hi)
  {
    var asked := Asks(s, e, view);
    GrantedIff(s, e, view, Asking(s, e));
    if asked.Some? && Answer(s, e, asked.value).Some? {
      var g := Grant(asked.value, e);
      assert (s.grants + [g])[..|s.grants|] == s.grants && (KeyOf(g) == k <==> AsksFor(s, e, view, k));
      if AsksFor(s, e, view, k) {
        var l' := RateLimiter.Serve(LimitOf(k.limiter), l, RateLimiter.Request(e.now, 1));
        assert l'.charges[..|l.charges|] == l.charges;
      }
    }
  }

  lemma {:induction false} LimiterAgrees(es: seq<Packet>, k: RateKey, lo: int, hi: int)
    ensures Agrees(Exec(es), k, RateLimiter.Run(LimitOf(k.limiter), Requests(es, k)), lo, hi)
  {
    if es != [] {
      var before, e := es[..|es| - 1], es[|es| - 1];
      LimiterAgrees(before, k, lo, hi);
      AgreesNext(Exec(before), e, Read(e.payload), k, RateLimiter.Run(LimitOf(k.limiter), Requests(before, k)), lo, hi);
      var rs := Requests(es, k);
      if rs != Requests(before, k) {
        assert rs[..|rs| - 1] == Requests(before, k);
      }
    }
  }

  ghost predicate Timed(es: seq<Packet>) { forall i, j :: 0 <= i < j < |es| ==> es[i].now <= es[j].now }

  lemma {:induction false} RequestsTimed(es: seq<Packet>, k: RateKey)
    requires Timed(es)
    ensures RateLimiter.ClockOrdered(Requests(es, k))
    ensures es != [] ==> forall i :: 0 <= i < |Requests(es, k)| ==> Requests(es, k)[i].now <= es[|es| - 1].now
  {
    if es != [] {
      RequestsTimed(es[..|es| - 1], k);
    }
  }

  /** What limiter `l` granted to one prefix at times in [lo, hi), in nanoseconds. */
  function GrantedBetween(gs: seq<Grant>, k: RateKey, lo: int, hi: int): (n: nat)
  {
    if gs == [] then 0
    else
      var g := gs[|gs| - 1];
      GrantedBetween(gs[..|gs| - 1], k, lo, hi) + if KeyOf(g) == k && lo <= g.pkt.now < hi then 1 else 0
  }

  lemma TickRange(now: nat, from: nat, seconds: nat)
    requires from <= now < from + seconds * 1_000_000_000
    ensures RateLimiter.Tick(from) <= RateLimiter.Tick(now) < RateLimiter.Tick(from) + seconds * 1000 + 1
  {
  }

  lemma {:induction false} WithinTicks(gs: seq<Grant>, k: RateKey, from: nat, seconds: nat)
    ensures GrantedBetween(gs, k, from, from + seconds * 1_000_000_000)
         <= GrantedWithin(gs, k, RateLimiter.Tick(from), RateLimiter.Tick(from) + seconds * 1000 + 1)
  {
    if gs != [] {
      WithinTicks(gs[..|gs| - 1], k, from, seconds);
      var now := gs[|gs| - 1].pkt.now;
      if from <= now < from + seconds * 1_000_000_000 {
        TickRange(now, from, seconds);
      }
    }
  }

  lemma {:induction false} GrantRate(es: seq<Packet>, k: RateKey, from: nat, seconds: nat)
    requires Timed(es) && LimitOf(k.limiter).windowNs == seconds * 1_000_000_000
    ensures GrantedBetween(Exec(es).grants, k, from, from + seconds * 1_000_000_000) <= 2 * LimitOf(k.limiter).limit
  {
    var t := RateLimiter.Tick(from);
    LimiterAgrees(es, k, t, t + seconds * 1000 + 1);
    RequestsTimed(es, k);
    RateLimiter.RateBound(LimitOf(k.limiter), Requests(es, k), t);
    assert RateLimiter.WindowTicks(LimitOf(k.limiter).windowNs) == seconds * 1000;
    WithinTicks(Exec(es).grants, k, from, seconds);
  }

  /** At most 40 flows of one /24 or /64 are promoted in any 60 seconds, placed anywhere to the nanosecond. */
  lemma PromotionRate(es: seq<Packet>, p: Prefix, from: nat)
    requires Timed(es)
    ensures GrantedBetween(Exec(es).grants, RateKey(LoginLimiter, p), from, from + 60_000_000_000) <= 40
  {
    GrantRate(es, RateKey(LoginLimiter, p), from, 60);
  }

  /** And at most 60 of its status requests are answered in any 10 seconds. */
  lemma StatusRate(es: seq<Packet>, p: Prefix, from: nat)
    requires Timed(es)
    ensures GrantedBetween(Exec(es).grants, RateKey(StatusLimiter, p), from, from + 10_000_000_000) <= 60
  {
    GrantRate(es, RateKey(StatusLimiter, p), from, 10);
  }

  // ---------------------------------------------------------------- the handler's own form

  class Handler {
    var pending: map<Flow, Pending>
    var table: map<Flow, nat>
    var words: map<RateKey, u64>
    var blocked: map<Prefix, nat>
    var grants: seq<Grant>

    constructor ()
      ensures Now() == Exec([])
    {
      pending, table, words, blocked, grants := map[], map[], map[], map[], [];
    }

    function Now(): (s: State)
      reads this
    {
      State(pending, table, words, blocked, grants)
    }

    /** Keep the flow pending with `p`, or forget it. */
    method Write(f: Flow, p: Option<Pending>)
      modifies this
      ensures Now() == old(Now()).(pending := if p.Some? then old(pending)[f := p.value] else old(pending) - {f})
    {
      pending := if p.Some? then pending[f := p.value] else pending - {f};
    }

    /** Forget the flow and block its source. */
    method Penalise(f: Flow, now: nat)
      modifies this
      ensures Now() == old(Now()).(pending := old(pending) - {f},
              blocked := old(blocked)[SourceOf(f) := now + BLOCK_NS])
    {
      blocked := blocked[SourceOf(f) := now + BLOCK_NS];
      pending := pending - {f};
    }

    /**
      `mc_handshake_rate_exceeded`, uncontended: the limiter's word for the
      source's prefix is moved on if it allows it.
     */
    method Allowed(l: Limiter, e: Packet) returns (ok: bool)
      modifies this
      ensures var answer, k := Answer(old(Now()), e, l), RateKey(l, PrefixOf(e.flow));
              && ok == answer.Some?
              && words == (if ok then old(words)[k := answer.value] else old(words))
              && grants == (if ok then old(grants) + [Grant(l, e)] else old(grants))
              && Now() == old(Now()).(words := words, grants := grants)
    {
      var k := RateKey(l, PrefixOf(e.flow));
      var answer := RateLimiter.Decide(LimitOf(l), Lookup(words, k), e.now, 1);
      ok := answer.Some?;
      if ok {
        words := words[k := answer.value];
        grants := grants + [Grant(l, e)];
      }
    }

    /** `verify_and_pass`, if the limiter agrees. */
    method FinishLogin(e: Packet) returns (v: Verdict)
      modifies this
      ensures Now() == Resolve(old(Now()), e, IfAllowed(LoginLimiter, true, Promote()),
                               IfAllowed(LoginLimiter, false, Promote()), Asking(old(Now()), e))
      ensures v == Choice(IfAllowed(LoginLimiter, true, Promote()),
                          IfAllowed(LoginLimiter, false, Promote()), Asking(old(Now()), e)).verdict
    {
      var allowed := Allowed(LoginLimiter, e);
      if !allowed {
        Penalise(e.flow, e.now);
        return Drop;
      }
      Write(e.flow, None);
      table := table[e.flow := e.now];
      v := Pass;
    }

    /** A status request is answered, if the limiter agrees. */
    method AnswerStatus(e: Packet, p: Pending) returns (v: Verdict)
      modifies this
      ensures Now() == Resolve(old(Now()), e, IfAllowed(StatusLimiter, true, Advance(p, e, AwaitPing)),
                               IfAllowed(StatusLimiter, false, Advance(p, e, AwaitPing)), Asking(old(Now()), e))
      ensures v == Choice(IfAllowed(StatusLimiter, true, Advance(p, e, AwaitPing)),
                          IfAllowed(StatusLimiter, false, Advance(p, e, AwaitPing)), Asking(old(Now()), e)).verdict
    {
      var allowed := Allowed(StatusLimiter, e);
      if !allowed {
        Penalise(e.flow, e.now);
        return Drop;
      }
      var next := Low32(p.expected + |e.payload|);
      Write(e.flow, Some(p.(stage := AwaitPing, expected := next, fails := 0, lastSeen := e.now)));
      v := Pass;
    }

    /** The stages after the handshake. */
    method Continue(e: Packet, view: Reader, p: Pending, cursor: nat) returns (v: Verdict)
      modifies this
      ensures Now() == Resolve(old(Now()), e, Serve(p, e, view, cursor, true),
                               Serve(p, e, view, cursor, false), Asking(old(Now()), e))
      ensures v == Choice(Serve(p, e, view, cursor, true),
                          Serve(p, e, view, cursor, false), Asking(old(Now()), e)).verdict
    {
      var next := Low32(p.expected + |e.payload|);
      if p.stage == AwaitStatus {
        if !view.status(cursor) {
          Write(e.flow, Some(p.(lastSeen := e.now)));
          return Drop;
        }
        v := AnswerStatus(e, p);
        return;
      }
      if p.stage == AwaitPing {
        if !view.ping(cursor) {
          Write(e.flow, Some(p.(lastSeen := e.now)));
          return Drop;
        }
        Write(e.flow, Some(p.(stage := PingComplete, expected := next, fails := 0, lastSeen := e.now)));
        return Pass;
      }
      if p.stage == AwaitLogin {
        if !view.login(cursor, p.version) {
          Write(e.flow, Some(p.(lastSeen := e.now)));
          return Drop;
        }
        v := FinishLogin(e);
        return;
      }
      if p.stage == PingComplete {
        Write(e.flow, None);
        return Drop;
      }
      Write(e.flow, Some(p.(expected := next, fails := 0, lastSeen := e.now)));
      return Pass;
    }

    /** A nonempty payload. */
    method OnPayload(e: Packet, view: Reader, p: Pending) returns (v: Verdict)
      modifies this
      ensures Now() == Resolve(old(Now()), e, Payload(p, e, view, true),
                               Payload(p, e, view, false), Asking(old(Now()), e))
      ensures v == Choice(Payload(p, e, view, true),
                          Payload(p, e, view, false), Asking(old(Now()), e)).verdict
    {
      if !e.ack {
        Penalise(e.flow, e.now);
        return Drop;
      }
      if p.expected != e.seqNo {
        var fails := if p.fails < 0xFFFF then p.fails + 1 else p.fails;
        if fails > 4 {
          Penalise(e.flow, e.now);
        } else {
          Write(e.flow, Some(p.(fails := fails, lastSeen := e.now)));
        }
        return Drop;
      }
      var p', cursor := p, 0;
      if p.stage == AwaitHandshake {
        if e.room < 3 {
          Write(e.flow, Some(p.(lastSeen := e.now)));
          return Drop;
        }
        var h := view.handshake;
        if h.Rejected? {
          Write(e.flow, Some((if h.seen.Some? then p.(version := h.seen.value) else p).(lastSeen := e.now)));
          return Drop;
        }
        if h.Legacy? {
          Write(e.flow, None);
          return Drop;
        }
        p' := p.(version := h.version, stage := if h.intention == 1 then AwaitStatus else AwaitLogin);
        cursor := if h.next == |e.payload| then 0 else h.next;
      }
      v := Continue(e, view, p', cursor);
    }

    /** `xdp_minecraft_handler` once the headers are parsed. */
    method Handle(e: Packet) returns (v: Verdict)
      modifies this
      ensures Now() == Next(old(Now()), e) && v == VerdictOf(old(Now()), e)
    {
      v := HandleAs(e, Read(e.payload));
    }

    method HandleAs(e: Packet, view: Reader) returns (v: Verdict)
      modifies this
      ensures Now() == NextWith(old(Now()), e, view, Asking(old(Now()), e))
      ensures v == VerdictWith(old(Now()), e, view, Asking(old(Now()), e))
    {
      var f := e.flow;
      if e.syn && !e.ack {
        Write(f, Some(Pending(e.now, Low32(e.seqNo + 1), 0, AwaitAck, 0)));
        return Pass;
      }
      if f !in pending {
        Write(f, None);
        return Drop;
      }
      var p := pending[f];
      if Sub64(e.now, p.lastSeen) > TIMEOUT_NS {
        Write(f, None);
        return Drop;
      }
      if !e.intact {
        Write(f, Some(p));
        return Drop;
      }
      if p.stage == AwaitAck {
        if !e.ack || p.expected != e.seqNo {
          Write(f, Some(p.(lastSeen := e.now)));
          return Drop;
        }
        p := p.(stage := AwaitHandshake, lastSeen := e.now);
        if e.payload == [] {
          Write(f, Some(p));
          return Drop;
        }
      }
      if e.payload != [] {
        v := OnPayload(e, view, p);
        return;
      }
      Write(f, Some(p.(lastSeen := e.now)));
      v := if p.stage == AwaitHandshake then Drop else Pass;
    }
  }
}
