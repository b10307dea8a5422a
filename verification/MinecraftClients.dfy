/**
  Which clients the handler promotes: those whose login starts at the first byte
  of the connection, with its handshake in the same segment or in an earlier one.
 */
module MinecraftClients {
  import opened Words
  import opened Flows
  import opened MinecraftWire
  import opened MinecraftPackets
  import opened Minecraft

  /** What a client sends first. */
  datatype Greeting = Greeting(len: nat, version: int, host: Bytes, port: Bytes, intention: u8)

  datatype Login = Login(len: nat, name: Bytes, key: Option<SigningKey>, uuid: Option<Bytes>)

  /** A login or transfer handshake within the protocol's bounds whose first byte is not that of a legacy ping. */
  predicate Acceptable(g: Greeting)
  {
    && 4 <= g.len <= 786 && !(g.len >= 0x80 && g.len % 0x80 == 0x7E)
    && -0x8000_0000 <= g.version < 0x8000_0000 && |g.host| <= 765 && |g.port| == 2
    && g.intention != 1 && Intended(g.version, g.intention)
  }

  predicate Complete(l: Login, version: int)
  {
    2 <= l.len <= 4149 && 1 <= |l.name| <= 48 && Proper(version, l.key, l.uuid)
  }

  function HandshakeOf(g: Greeting): (b: Bytes)
    requires g.version >= -0x1_0000_0000
  {
    HandshakeBytes(g.len, g.version, g.host, g.port, g.intention)
  }

  function LoginOf(l: Login, version: int): (b: Bytes) { LoginBytes(l.len, l.name, version, l.key, l.uuid) }

  /** What the parsers make of both in one payload. */
  lemma BothRead(g: Greeting, l: Login)
    requires Acceptable(g) && Complete(l, g.version)
    ensures var h, payload := HandshakeOf(g), HandshakeOf(g) + LoginOf(l, g.version);
            && |h| + 3 <= |payload|
            && InspectHandshake(payload, true) == Accepted(g.version, g.intention, |h|)
            && InspectLogin(payload, |h|, g.version, true)
  {
    var h := HandshakeOf(g);
    HandshakeReads(g.len, g.version, g.host, g.port, g.intention, LoginOf(l, g.version), true);
    LoginReads(h, l.len, l.name, g.version, l.key, l.uuid, true);
  }

  /** The path through the handler that ends in a promotion. */
  lemma Reaches(p: Pending, pkt: Packet, view: Reader)
    requires p.stage == AwaitAck || p.stage == AwaitHandshake
    requires pkt.ack && pkt.seqNo == p.expected && pkt.intact && 3 <= |pkt.payload| <= pkt.room
    requires p.lastSeen <= pkt.now <= p.lastSeen + TIMEOUT_NS
    requires view.handshake.Accepted? && view.handshake.intention != 1 && view.handshake.next < |pkt.payload|
    requires view.login(view.handshake.next, view.handshake.version)
    ensures React(Some(p), pkt, view, true).asked == Some(LoginLimiter)
  {
  }

  lemma ReadFields(s: Bytes, at: nat, version: int)
    ensures Read(s).handshake == InspectHandshake(s, true)
    ensures Read(s).login(at, version) == InspectLogin(s, at, version, true)
  {
  }

  // ---------------------------------------------------------------- waiting for the first payload

  /** The time of the latest segment of the connection that `syn` began. */
  function LatestSegment(syn: Packet, mid: seq<Packet>): (t: nat)
  {
    if mid == [] then syn.now
    else
      var e := mid[|mid| - 1];
      if e.flow == syn.flow then e.now else LatestSegment(syn, mid[..|mid| - 1])
  }

  predicate InTime(syn: Packet, mid: seq<Packet>, now: nat)
  {
    LatestSegment(syn, mid) <= now <= LatestSegment(syn, mid) + TIMEOUT_NS
  }

  /** Between SYN and first payload: any segments of other flows, and bare acknowledgements of the SYN, in time. */
  predicate Waiting(syn: Packet, mid: seq<Packet>)
  {
    if mid == [] then true
    else
      var before, e := mid[..|mid| - 1], mid[|mid| - 1];
      Waiting(syn, before) &&
      (e.flow == syn.flow ==> Answers(e, syn.flow, syn) && e.payload == [] && e.intact && InTime(syn, before, e.now))
  }

  /** The flow is still pending at its first byte. */
  ghost predicate Expectant(s: State, syn: Packet, seen: nat)
  {
    syn.flow in s.pending &&
    var p := s.pending[syn.flow];
    p.lastSeen == seen && p.expected == Low32(syn.seqNo + 1) && (p.stage == AwaitAck || p.stage == AwaitHandshake)
  }

  lemma SynPends(s: State, syn: Packet, view: Reader, answer: Consent)
    requires IsSyn(syn)
    ensures Expectant(NextWith(s, syn, view, answer), syn, syn.now)
  {
  }

  lemma AckKeepsWaiting(s: State, syn: Packet, seen: nat, e: Packet, view: Reader, answer: Consent)
    requires Expectant(s, syn, seen)
    requires e.flow == syn.flow ==>
               Answers(e, syn.flow, syn) && e.payload == [] && e.intact && seen <= e.now <= seen + TIMEOUT_NS
    ensures Expectant(NextWith(s, e, view, answer), syn, if e.flow == syn.flow then e.now else seen)
  {
  }

  lemma Snoc(es: seq<Packet>, e: Packet)
    ensures Exec(es + [e]) == NextWith(Exec(es), e, Read(e.payload), Asking(Exec(es), e))
  {
    assert (es + [e])[..|es|] == es;
  }

  lemma Begun(es: seq<Packet>, syn: Packet)
    requires IsSyn(syn)
    ensures Expectant(Exec(es + [syn]), syn, syn.now)
  {
    Snoc(es, syn);
    SynPends(Exec(es), syn, Read(syn.payload), Asking(Exec(es), syn));
  }

  lemma Onward(es: seq<Packet>, syn: Packet, seen: nat, e: Packet)
    requires Expectant(Exec(es), syn, seen)
    requires e.flow == syn.flow ==>
               Answers(e, syn.flow, syn) && e.payload == [] && e.intact && seen <= e.now <= seen + TIMEOUT_NS
    ensures Expectant(Exec(es + [e]), syn, if e.flow == syn.flow then e.now else seen)
  {
    Snoc(es, e);
    AckKeepsWaiting(Exec(es), syn, seen, e, Read(e.payload), Asking(Exec(es), e));
  }

  lemma {:induction false} StillExpectant(es: seq<Packet>, syn: Packet, mid: seq<Packet>)
    requires IsSyn(syn) && Waiting(syn, mid)
    ensures Expectant(Exec(es + [syn] + mid), syn, LatestSegment(syn, mid))
  {
    if mid == [] {
      Begun(es, syn);
      assert es + [syn] + mid == es + [syn];
    } else {
      var before, e := mid[..|mid| - 1], mid[|mid| - 1];
      StillExpectant(es, syn, before);
      Onward(es + [syn] + before, syn, LatestSegment(syn, before), e);
      assert es + [syn] + mid == (es + [syn] + before) + [e];
    }
  }

  /**
    A connection whose first payload holds handshake and login is promoted exactly
    when the login limiter agrees, whatever other flows do meanwhile and however
    often the client acknowledges first.
   */
  lemma CoalescedClientPromoted(es: seq<Packet>, syn: Packet, mid: seq<Packet>, e: Packet, g: Greeting, l: Login)
    requires Acceptable(g) && Complete(l, g.version)
    requires IsSyn(syn) && Waiting(syn, mid) && Answers(e, syn.flow, syn) && InTime(syn, mid, e.now)
    requires e.payload == HandshakeOf(g) + LoginOf(l, g.version) && e.intact && |e.payload| <= e.room
    ensures Promotes(es + [syn] + mid, e) <==> Answer(Exec(es + [syn] + mid), e, LoginLimiter).Some?
  {
    var s := Exec(es + [syn] + mid);
    StillExpectant(es, syn, mid);
    BothRead(g, l);
    ReadFields(e.payload, |HandshakeOf(g)|, g.version);
    Reaches(s.pending[syn.flow], e, Read(e.payload));
    GrantedIff(s, e, Read(e.payload), Asking(s, e));
  }

  // ---------------------------------------------------------------- handshake first, login later

  /** A handshake alone in its segment that cannot be read as a login packet. */
  predicate OnlyGreets(g: Greeting) { Acceptable(g) && !(1 <= g.version <= 48 && |Field(g.host)| + 3 == g.version) }

  /** What the parsers make of it. */
  lemma GreetingRead(g: Greeting)
    requires OnlyGreets(g)
    ensures var h := HandshakeOf(g);
            && |h| >= 3 && InspectHandshake(h, true) == Accepted(g.version, g.intention, |h|)
            && !InspectLogin(h, 0, g.version, true)
  {
    var h := HandshakeOf(g);
    HandshakeReads(g.len, g.version, g.host, g.port, g.intention, [], true);
    assert h + [] == h;
    HandshakeBytesDouble(g.len, g.version, g.host, g.port, g.intention, true);
  }

  lemma LoginRead(l: Login, version: int)
    requires Complete(l, version)
    ensures InspectLogin(LoginOf(l, version), 0, version, true)
  {
    LoginReads([], l.len, l.name, version, l.key, l.uuid, true);
    assert [] + LoginOf(l, version) == LoginOf(l, version);
  }

  /** The flow has shown its handshake and is still expected at its first byte. */
  ghost predicate Greeted(s: State, syn: Packet, seen: nat, version: int)
  {
    syn.flow in s.pending &&
    var p := s.pending[syn.flow];
    p.lastSeen == seen && p.expected == Low32(syn.seqNo + 1) && p.stage == AwaitLogin && p.version == version
  }

  /** A handshake alone is dropped, but remembered. */
  lemma GreetingRemembered(s: State, syn: Packet, seen: nat, h: Packet, view: Reader, answer: Consent)
    requires Expectant(s, syn, seen) && Answers(h, syn.flow, syn) && h.intact && 3 <= |h.payload| <= h.room
    requires seen <= h.now <= seen + TIMEOUT_NS
    requires view.handshake.Accepted? && view.handshake.intention != 1 && view.handshake.next == |h.payload|
    requires !view.login(0, view.handshake.version)
    ensures Greeted(NextWith(s, h, view, answer), syn, h.now, view.handshake.version)
    ensures NextWith(s, h, view, answer).grants == s.grants && VerdictWith(s, h, view, answer) == Drop
  {
  }

  lemma OthersPass(s: State, e: Packet, view: Reader, answer: Consent, syn: Packet, seen: nat, version: int)
    requires Greeted(s, syn, seen, version) && e.flow != syn.flow
    ensures Greeted(NextWith(s, e, view, answer), syn, seen, version)
  {
  }

  lemma {:induction false} StillGreeted(es: seq<Packet>, others: seq<Packet>, syn: Packet, seen: nat, version: int)
    requires Greeted(Exec(es), syn, seen, version)
    requires forall i :: 0 <= i < |others| ==> others[i].flow != syn.flow
    ensures Greeted(Exec(es + others), syn, seen, version)
  {
    if others == [] {
      assert es + others == es;
    } else {
      var before, e := others[..|others| - 1], others[|others| - 1];
      StillGreeted(es, before, syn, seen, version);
      assert es + others == (es + before) + [e];
      Snoc(es + before, e);
      OthersPass(Exec(es + before), e, Read(e.payload), Asking(Exec(es + before), e), syn, seen, version);
    }
  }

  lemma GreetingKept(es: seq<Packet>, syn: Packet, mid: seq<Packet>, h: Packet, g: Greeting)
    requires OnlyGreets(g) && IsSyn(syn) && Waiting(syn, mid) && Answers(h, syn.flow, syn) && InTime(syn, mid, h.now)
    requires h.payload == HandshakeOf(g) && h.intact && |h.payload| <= h.room
    ensures Greeted(Exec(es + [syn] + mid + [h]), syn, h.now, g.version)
    ensures VerdictOf(Exec(es + [syn] + mid), h) == Drop && !Promotes(es + [syn] + mid, h)
  {
    var s := Exec(es + [syn] + mid);
    StillExpectant(es, syn, mid);
    GreetingRead(g);
    ReadFields(h.payload, 0, g.version);
    GreetingRemembered(s, syn, LatestSegment(syn, mid), h, Read(h.payload), Asking(s, h));
    Snoc(es + [syn] + mid, h);
  }

  /**
    A handshake alone in the first segment is dropped; a login packet alone in a
    later one, at the same sequence number and in time, is promoted exactly when
    the login limiter agrees.
   */
  lemma SplitClientPromoted(es: seq<Packet>, syn: Packet, mid: seq<Packet>, h: Packet, others: seq<Packet>, e: Packet,
      g: Greeting, l: Login)
    requires OnlyGreets(g) && Complete(l, g.version)
    requires IsSyn(syn) && Waiting(syn, mid) && Answers(h, syn.flow, syn) && InTime(syn, mid, h.now)
    requires h.payload == HandshakeOf(g) && h.intact && |h.payload| <= h.room
    requires forall i :: 0 <= i < |others| ==> others[i].flow != syn.flow
    requires Answers(e, syn.flow, syn) && e.intact && h.now <= e.now <= h.now + TIMEOUT_NS
    requires e.payload == LoginOf(l, g.version)
    ensures VerdictOf(Exec(es + [syn] + mid), h) == Drop && !Promotes(es + [syn] + mid, h)
    ensures var all := es + [syn] + mid + [h] + others;
            Promotes(all, e) <==> Answer(Exec(all), e, LoginLimiter).Some?
  {
    var before := es + [syn] + mid + [h];
    GreetingKept(es, syn, mid, h, g);
    StillGreeted(before, others, syn, h.now, g.version);
    LoginRead(l, g.version);
    ReadFields(e.payload, 0, g.version);
    PromotesExactly(before + others, e);
  }

  /** Only a segment that starts at the first byte of its connection is promoted. */
  lemma PromotedAtFirstByte(es: seq<Packet>, e: Packet, i: nat)
    requires Promotes(es, e) && Begins(es, e.flow, i)
    ensures e.seqNo == Low32(es[i].seqNo + 1)
  {
    var s := Exec(es);
    ReadSound(e.payload);
    PromotedSegment(s, e, Read(e.payload), Asking(s, e));
    ExpectedFirst(es, e.flow, i);
  }

  /** So a login packet sent in sequence, after `n` bytes of an earlier segment, never is. */
  lemma LoginInSequenceStaysOut(es: seq<Packet>, e: Packet, i: nat, n: nat)
    requires Begins(es, e.flow, i) && 0 < n < 0x1_0000_0000 && e.seqNo == Low32(es[i].seqNo + 1 + n)
    ensures !Promotes(es, e)
  {
    LaterByte(es[i].seqNo + 1, n);
    if Promotes(es, e) {
      PromotedAtFirstByte(es, e, i);
      assert false;
    }
  }

  lemma LaterByte(x: nat, n: nat)
    requires 0 < n < 0x1_0000_0000
    ensures Low32(x + n) != Low32(x)
  {
  }
}
