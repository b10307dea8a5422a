/**
  The TCP connection table shared by the ingress filter and the egress tracker.
  An entry is a 64-bit word: a timestamp, with bit 63 set while only a SYN has
  been seen.  The step functions below speak of half-open and established
  entries; the class at the end works on the words.
 */
module TcpTable {
  import opened Words
  import opened Flows

  datatype Entry = HalfOpen(ts: nat) | Established(ts: nat)

  type Table = map<Flow, Entry>

  /** Effective timeouts in nanoseconds. */
  datatype Config = Config(tcpTimeout: nat, synTimeout: nat, refresh: nat)

  /** Control bits of section 3.1 of RFC 9293. */
  datatype Flags = Flags(fin: bool, syn: bool, rst: bool, psh: bool, ack: bool, urg: bool)

  datatype Segment = Segment(flow: Flow, flags: Flags)

  /** What the policy maps and the SYN rate limiters say about a new connection. */
  datatype Gate = Gate(trusted: bool, acl: bool, listed: bool, abusive: bool, handlerBlocked: bool, rateOk: bool)

  /** The counter routine a step calls. */
  datatype Effect = NoEffect | Recorded | Touched | Closed

  datatype Result = Result(table: Table, verdict: Verdict, effect: Effect)

  predicate PureSyn(fl: Flags) { fl.syn && !fl.ack }

  predicate BareFin(fl: Flags) { fl.fin && !fl.ack && !fl.rst }

  /** NULL, SYN+FIN, SYN+RST, RST+FIN and FIN+PSH+URG segments never reach the table. */
  predicate Malformed(fl: Flags)
  {
    || !(fl.fin || fl.syn || fl.rst || fl.psh || fl.ack || fl.urg)
    || (fl.syn && fl.fin) || (fl.syn && fl.rst) || (fl.rst && fl.fin)
    || (fl.fin && fl.psh && fl.urg)
  }

  /** Unsigned subtraction, as the programs compute ages. */
  function Age(now: nat, ts: nat): (r: nat) { Sub64(now, ts) }

  function Timeout(c: Config, e: Entry): (r: nat) { if e.HalfOpen? then c.synTimeout else c.tcpTimeout }

  predicate Expired(c: Config, e: Entry, now: nat) { Age(now, e.ts) > Timeout(c, e) }

  function Leaving(e: Entry): (r: Effect) { if e.Established? then Closed else NoEffect }

  /** RST, ACK and FIN segments. */
  function CheckKnown(c: Config, t: Table, f: Flow, fl: Flags, now: nat): (r: Result)
  {
    if fl.rst then
      if !fl.ack || f !in t then Result(t, Drop, NoEffect)
      else Result(t - {f}, if Expired(c, t[f], now) then Drop else Pass, Leaving(t[f]))
    else if fl.ack then
      if f !in t then Result(t, Drop, NoEffect)
      else if Expired(c, t[f], now) then Result(t - {f}, Drop, Leaving(t[f]))
      else if fl.fin then Result(t - {f}, Pass, Leaving(t[f]))
      else if t[f].HalfOpen? then Result(t[f := Established(now)], Pass, Recorded)
      else if Age(now, t[f].ts) > c.refresh then Result(t[f := Established(now)], Pass, Touched)
      else Result(t, Pass, NoEffect)
    else if fl.fin then
      if f !in t then Result(t, Drop, NoEffect) else Result(t - {f}, Pass, Leaving(t[f]))
    else Result(t, Drop, NoEffect)
  }

  /** `allow_new_tcp_syn`: `admitted` is the outcome of the checks still to be made when no live entry is found. */
  function AllowNew(c: Config, t: Table, f: Flow, now: nat, admitted: bool): (r: Result)
  {
    if f in t && !Expired(c, t[f], now) then
      if Age(now, t[f].ts) > c.refresh then Result(t[f := t[f].(ts := now)], Pass, Touched)
      else Result(t, Pass, NoEffect)
    else
      var left := if f in t then Leaving(t[f]) else NoEffect;
      if admitted then Result(t[f := HalfOpen(now)], Pass, left) else Result(t - {f}, Drop, left)
  }

  /** One inbound segment.  `limitsOk` is the outcome of the connection-limit checks. */
  function Ingress(c: Config, t: Table, s: Segment, now: nat, g: Gate, limitsOk: bool): (r: Result)
  {
    if Malformed(s.flags) then Result(t, Drop, NoEffect)
    else if PureSyn(s.flags) && (g.trusted || g.acl) then AllowNew(c, t, s.flow, now, limitsOk)
    else if PureSyn(s.flags) then
      if !g.listed || g.abusive || g.handlerBlocked || !g.rateOk || !limitsOk then Result(t, Drop, NoEffect)
      else AllowNew(c, t, s.flow, now, true)
    else CheckKnown(c, t, s.flow, s.flags, now)
  }

  /** One outbound segment, given its own tuple: the table is kept for the reverse direction. */
  function Egress(c: Config, t: Table, packet: Flow, fl: Flags, now: nat): (t': Table)
  {
    var f := Reverse(packet);
    if PureSyn(fl) then t[f := Established(now)]
    else if f !in t then t
    else if fl.rst || Age(now, t[f].ts) > c.tcpTimeout then t - {f}
    else if Age(now, t[f].ts) > c.refresh then t[f := t[f].(ts := now)]
    else t
  }

  // ---------------------------------------------------------------- runs

  datatype Event =
    | In(seg: Segment, now: nat, gate: Gate, limitsOk: bool)
    | Out(packet: Flow, flags: Flags, now: nat)
    | Seed(flow: Flow, now: nat)
    | Remove(flow: Flow, now: nat)

  /**
    Packets, seeds from observed sockets, and removals by userspace, whether by
    its collector or for another reason.
   */
  function Next(c: Config, t: Table, e: Event): (t': Table)
  {
    match e
    case In(seg, now, gate, limitsOk) => Ingress(c, t, seg, now, gate, limitsOk).table
    case Out(packet, flags, now) => Egress(c, t, packet, flags, now)
    case Seed(f, now) => t[f := Established(now)]
    case Remove(f, _) => t - {f}
  }

  function Exec(c: Config, es: seq<Event>): (t: Table)
  {
    if es == [] then map[] else Next(c, Exec(c, es[..|es| - 1]), es[|es| - 1])
  }

  // ---------------------------------------------------------------- provenance

  /** The events that may begin the life of an entry for `f`. */
  predicate Origin(c: Config, t: Table, e: Event, f: Flow)
  {
    match e
    case In(seg, now, gate, limitsOk) =>
      seg.flow == f && PureSyn(seg.flags) && Ingress(c, t, seg, now, gate, limitsOk).verdict == Pass
      && (gate.trusted || gate.acl || gate.listed)
    case Out(packet, flags, _) => Reverse(packet) == f && PureSyn(flags)
    case Seed(g, _) => g == f
    case Remove(_, _) => false
  }

  /** The events that may give `f` established status. */
  predicate Establishes(c: Config, t: Table, e: Event, f: Flow)
  {
    match e
    case In(seg, now, gate, limitsOk) =>
      seg.flow == f && seg.flags.ack && !seg.flags.rst && f in t && t[f].HalfOpen?
      && Ingress(c, t, seg, now, gate, limitsOk).verdict == Pass
    case Out(packet, flags, _) => Reverse(packet) == f && PureSyn(flags)
    case Seed(g, _) => g == f
    case Remove(_, _) => false
  }

  /** Whatever appears has an origin, and whatever becomes established was established by one of three events. */
  lemma NothingFromNowhere(c: Config, t: Table, e: Event, f: Flow)
    requires f in Next(c, t, e)
    ensures f !in t ==> Origin(c, t, e, f)
    ensures Next(c, t, e)[f].Established? && !(f in t && t[f].Established?) ==> Establishes(c, t, e, f)
  {
  }

  ghost predicate PresentSince(c: Config, es: seq<Event>, f: Flow, i: nat)
    requires i < |es|
  {
    forall j :: i < j <= |es| ==> f in Exec(c, es[..j])
  }

  ghost predicate EstablishedSince(c: Config, es: seq<Event>, f: Flow, i: nat)
    requires i < |es|
  {
    forall j :: i < j <= |es| ==> f in Exec(c, es[..j]) && Exec(c, es[..j])[f].Established?
  }

  /** Every entry of every reachable table goes back to an admitted SYN, an outbound SYN or a seed, without a gap. */
  lemma {:induction false} EveryEntryHasOrigin(c: Config, es: seq<Event>, f: Flow) returns (i: nat)
    requires f in Exec(c, es)
    ensures i < |es| && Origin(c, Exec(c, es[..i]), es[i], f) && PresentSince(c, es, f, i)
  {
    var before := es[..|es| - 1];
    assert es[..|es|] == es;
    if f in Exec(c, before) {
      i := EveryEntryHasOrigin(c, before, f);
      assert forall j :: 0 <= j <= |before| ==> before[..j] == es[..j];
    } else {
      i := |es| - 1;
      NothingFromNowhere(c, Exec(c, before), es[i], f);
    }
  }

  /** Established status goes back to an inbound ACK of a half-open entry, an outbound SYN or a seed, without a gap. */
  lemma {:induction false} EveryEstablishedHasCause(c: Config, es: seq<Event>, f: Flow) returns (i: nat)
    requires f in Exec(c, es) && Exec(c, es)[f].Established?
    ensures i < |es| && Establishes(c, Exec(c, es[..i]), es[i], f) && EstablishedSince(c, es, f, i)
  {
    var before := es[..|es| - 1];
    assert es[..|es|] == es;
    if f in Exec(c, before) && Exec(c, before)[f].Established? {
      i := EveryEstablishedHasCause(c, before, f);
      assert forall j :: 0 <= j <= |before| ==> before[..j] == es[..j];
    } else {
      i := |es| - 1;
      NothingFromNowhere(c, Exec(c, before), es[i], f);
    }
  }

  /**
    After any run, an inbound segment other than a pure SYN passes only on an
    entry with such a history; ACK and RST+ACK segments only within its timeout.
   */
  lemma PassNeedsHistory(c: Config, es: seq<Event>, s: Segment, now: nat, g: Gate, limitsOk: bool) returns (i: nat)
    requires !PureSyn(s.flags) && Ingress(c, Exec(c, es), s, now, g, limitsOk).verdict == Pass
    ensures i < |es| && Origin(c, Exec(c, es[..i]), es[i], s.flow) && PresentSince(c, es, s.flow, i)
    ensures s.flow in Exec(c, es) && (s.flags.ack ==> !Expired(c, Exec(c, es)[s.flow], now))
    ensures s.flags.ack || BareFin(s.flags)
  {
    i := EveryEntryHasOrigin(c, es, s.flow);
  }

  /** An outbound segment never turns a half-open entry into an established one unless it is itself a SYN. */
  lemma EgressKeepsKind(c: Config, t: Table, packet: Flow, fl: Flags, now: nat, f: Flow)
    requires !PureSyn(fl) && f in Egress(c, t, packet, fl, now)
    ensures f in t && Egress(c, t, packet, fl, now)[f].HalfOpen? == t[f].HalfOpen?
    ensures f != Reverse(packet) ==> Egress(c, t, packet, fl, now)[f] == t[f]
  {
  }

  // ---------------------------------------------------------------- the program's own form

  const SYN_PENDING: int := 0x8000_0000_0000_0000

  /** The word with bit 63 cleared. */
  function Stamp(raw: u64): (ts: u64) { if raw >= 0x8000_0000_0000_0000 then raw - 0x8000_0000_0000_0000 else raw }

  function Decode(raw: u64): (e: Entry)
  {
    if raw >= 0x8000_0000_0000_0000 then HalfOpen(raw - 0x8000_0000_0000_0000) else Established(raw)
  }

  function Decoded(raw: map<Flow, u64>): (t: Table) { map f | f in raw :: Decode(raw[f]) }

  lemma DecodedUpdate(raw: map<Flow, u64>, f: Flow, w: u64)
    ensures Decoded(raw[f := w]) == Decoded(raw)[f := Decode(w)]
    ensures Decoded(raw - {f}) == Decoded(raw) - {f}
  {
  }

  /** `tcp_ct4` and `tcp_ct6` as words. */
  class ConnTable {
    var raw: map<Flow, u64>

    constructor ()
      ensures Decoded(raw) == map[]
    {
      raw := map[];
    }

    /** `check_tcp_conntrack` for RST, ACK and FIN segments. */
    method CheckConntrack(c: Config, f: Flow, fl: Flags, now: nat) returns (v: Verdict, effect: Effect)
      requires now < 0x8000_0000_0000_0000
      modifies this
      ensures Result(Decoded(raw), v, effect) == CheckKnown(c, Decoded(old(raw)), f, fl, now)
    {
      DecodedUpdate(raw, f, now);
      if fl.rst {
        if !fl.ack || f !in raw {
          return Drop, NoEffect;
        }
        var word := raw[f];
        var pending := word >= SYN_PENDING;
        var ts := Stamp(word);
        Sub64Wraps(now, ts);
        raw := raw - {f};
        v := if Wrap64(now - ts) > (if pending then c.synTimeout else c.tcpTimeout) then Drop else Pass;
        effect := if pending then NoEffect else Closed;
        return;
      }
      if fl.ack {
        if f !in raw {
          return Drop, NoEffect;
        }
        var word := raw[f];
        var pending := word >= SYN_PENDING;
        var age := Wrap64(now - Stamp(word));
        Sub64Wraps(now, Stamp(word));
        if age > (if pending then c.synTimeout else c.tcpTimeout) {
          raw := raw - {f};
          return Drop, if pending then NoEffect else Closed;
        }
        if fl.fin {
          raw := raw - {f};
          return Pass, if pending then NoEffect else Closed;
        }
        if pending {
          raw := raw[f := now];
          return Pass, Recorded;
        }
        if age > c.refresh {
          raw := raw[f := now];
          return Pass, Touched;
        }
        return Pass, NoEffect;
      }
      if fl.fin && f in raw {
        v, effect := Pass, if raw[f] >= SYN_PENDING then NoEffect else Closed;
        raw := raw - {f};
        return;
      }
      return Drop, NoEffect;
    }

    /** `allow_new_tcp_syn`. */
    method AllowNewSyn(c: Config, f: Flow, now: nat, admitted: bool) returns (v: Verdict, effect: Effect)
      requires now < 0x8000_0000_0000_0000
      modifies this
      ensures Result(Decoded(raw), v, effect) == AllowNew(c, Decoded(old(raw)), f, now, admitted)
    {
      DecodedUpdate(raw, f, now);
      DecodedUpdate(raw, f, now + SYN_PENDING);
      effect := NoEffect;
      if f in raw {
        var word := raw[f];
        var pending := word >= SYN_PENDING;
        var age := Wrap64(now - Stamp(word));
        Sub64Wraps(now, Stamp(word));
        if age > (if pending then c.synTimeout else c.tcpTimeout) {
          assert (raw - {f})[f := now + SYN_PENDING] == raw[f := now + SYN_PENDING];
          raw := raw - {f};
          if !pending {
            effect := Closed;
          }
        } else {
          if age > c.refresh {
            raw := raw[f := if pending then now + SYN_PENDING else now];
            effect := Touched;
          }
          return Pass, effect;
        }
      }
      if !admitted {
        assert old(raw) - {f} == raw;
        return Drop, effect;
      }
      raw := raw[f := now + SYN_PENDING];
      v := Pass;
    }

    /** `check_tcp_ipv4` and `check_tcp_ipv6` after parsing: one whole ingress decision. */
    method FilterSegment(c: Config, s: Segment, now: nat, g: Gate, limitsOk: bool) returns (v: Verdict, effect: Effect)
      requires now < 0x8000_0000_0000_0000
      modifies this
      ensures Result(Decoded(raw), v, effect) == Ingress(c, Decoded(old(raw)), s, now, g, limitsOk)
    {
      if Malformed(s.flags) {
        return Drop, NoEffect;
      }
      if s.flags.syn && !s.flags.ack {
        if g.trusted || g.acl {
          v, effect := AllowNewSyn(c, s.flow, now, limitsOk);
          return;
        }
        if !g.listed || g.abusive || g.handlerBlocked || !g.rateOk || !limitsOk {
          return Drop, NoEffect;
        }
        v, effect := AllowNewSyn(c, s.flow, now, true);
        return;
      }
      v, effect := CheckConntrack(c, s.flow, s.flags, now);
    }

    /** The TCP part of `tc_egress_track`. */
    method TrackEgress(c: Config, packet: Flow, fl: Flags, now: nat)
      requires now < 0x8000_0000_0000_0000
      modifies this
      ensures Decoded(raw) == Egress(c, Decoded(old(raw)), packet, fl, now)
    {
      var f := Reverse(packet);
      DecodedUpdate(raw, f, now);
      DecodedUpdate(raw, f, now + SYN_PENDING);
      if fl.syn && !fl.ack {
        raw := raw[f := now];
      } else if f in raw {
        var age := Wrap64(now - Stamp(raw[f]));
        Sub64Wraps(now, Stamp(raw[f]));
        if fl.rst || age > c.tcpTimeout {
          raw := raw - {f};
        } else if age > c.refresh {
          raw := raw[f := if raw[f] >= SYN_PENDING then now + SYN_PENDING else now];
        }
      }
    }
  }
}
