/**
  The part of the Minecraft protocol the handler reads: variable-length
  integers, the handshake and the login packet, each parsed from a cursor into
  a payload.
 */
module MinecraftWire {
  import opened Words

  type Bytes = seq<u8>

  datatype Varint = Varint(value: int, bytes: nat)

  /** Groups of seven bits, least significant first, at most `left` bytes; the value is not yet cut to 32 bits. */
  function ReadGroups(s: Bytes, at: nat, left: nat): (r: Option<Varint>)
    ensures r.Some? ==> 0 < r.value.bytes <= left && at + r.value.bytes <= |s| && r.value.value >= 0
    decreases left
  {
    if left == 0 || at >= |s| then None
    else if s[at] < 0x80 then Some(Varint(s[at], 1))
    else
      var rest := ReadGroups(s, at + 1, left - 1);
      if rest.None? then None
      else
        var low: int := s[at] - 0x80;
        Some(Varint(low + 0x80 * rest.value.value, rest.value.bytes + 1))
  }

  /** The low 32 bits as a signed value. */
  function Signed32(x: nat): (r: int)
    ensures -0x8000_0000 <= r < 0x8000_0000
  {
    if x >= 0x1_0000_0000 then Signed32(x - 0x1_0000_0000)
    else if x >= 0x8000_0000 then x - 0x1_0000_0000
    else x
  }

  /** The bits of a signed value. */
  function Unsigned32(x: int): (r: int) { if x < 0 then x + 0x1_0000_0000 else x }

  /** Only multiples of 2^32 are lost. */
  lemma {:induction false} LowBits(x: nat) returns (k: nat)
    ensures Signed32(x) == x - k * 0x1_0000_0000
  {
    if x >= 0x1_0000_0000 {
      k := LowBits(x - 0x1_0000_0000);
      k := k + 1;
    } else {
      k := if x >= 0x8000_0000 then 1 else 0;
    }
  }

  function ReadVarint(s: Bytes, at: nat, max: nat): (r: Option<Varint>)
    ensures r.Some? ==> 0 < r.value.bytes <= max && at + r.value.bytes <= |s|
  {
    var groups := ReadGroups(s, at, max);
    if groups.None? then None else Some(Varint(Signed32(groups.value.value), groups.value.bytes))
  }

  /** The shortest encoding. */
  function EncodeGroups(x: nat): (r: Bytes)
    ensures |r| > 0
  {
    if x < 0x80 then [x]
    else
      var low: int := x % 0x80;
      [low + 0x80] + EncodeGroups(x / 0x80)
  }

  /** What is encoded reads back, wherever it stands, given enough bytes. */
  lemma {:induction false} GroupsRoundTrip(pre: Bytes, x: nat, post: Bytes, max: nat)
    requires |EncodeGroups(x)| <= max
    ensures ReadGroups(pre + EncodeGroups(x) + post, |pre|, max) == Some(Varint(x, |EncodeGroups(x)|))
    decreases x
  {
    var s := pre + EncodeGroups(x) + post;
    if x >= 0x80 {
      var low: int := x % 0x80;
      var head: Bytes := [low + 0x80];
      GroupsRoundTrip(pre + head, x / 0x80, post, max - 1);
      assert s == pre + head + EncodeGroups(x / 0x80) + post;
      assert s[|pre|] == low + 0x80;
    } else {
      assert s[|pre|] == x;
    }
  }

  /** Seven bits a byte. */
  lemma {:induction false} GroupsLength(x: nat, bytes: nat, bound: nat)
    requires bytes > 0 && x < bound && bound == Capacity(bytes)
    ensures |EncodeGroups(x)| <= bytes
    decreases bytes
  {
    if x >= 0x80 {
      assert bytes > 1;
      GroupsLength(x / 0x80, bytes - 1, Capacity(bytes - 1));
    }
  }

  function Capacity(bytes: nat): (r: nat) { if bytes == 0 then 1 else 0x80 * Capacity(bytes - 1) }

  /** Every 32-bit value fits in five bytes, and reads back as the signed value it stands for. */
  lemma VarintRoundTrip(pre: Bytes, x: int, post: Bytes)
    requires -0x8000_0000 <= x < 0x8000_0000
    ensures var e := EncodeGroups(Unsigned32(x));
            ReadVarint(pre + e + post, |pre|, 5) == Some(Varint(x, |e|))
  {
    assert Capacity(5) == 0x8_0000_0000;
    GroupsLength(Unsigned32(x), 5, 0x8_0000_0000);
    GroupsRoundTrip(pre, Unsigned32(x), post, 5);
  }

  // ---------------------------------------------------------------- cursors

  /** The low 13 bits. */
  function Low13(n: nat): (r: nat)
  {
    if n >= 0x2000 then Low13(n - 0x2000) else n
  }

  lemma {:induction false} Low13IsMask(n: nat)
    ensures Low13(n) == n % 0x2000
  {
    if n >= 0x2000 {
      Low13IsMask(n - 0x2000);
    }
  }

  /** Skip `n` bytes; the program masks the count to 13 bits first. */
  function Consume(s: Bytes, at: nat, n: nat, masked: bool): (r: Option<nat>)
    ensures r.Some? ==> at <= r.value <= |s|
  {
    var m := if masked then Low13(n) else n;
    if at + m > |s| then None else Some(at + m)
  }

  /** A varint within bounds, and that many bytes after it. */
  function SkipField(s: Bytes, at: nat, least: nat, most: nat, masked: bool): (r: Option<nat>)
    ensures r.Some? ==> at <= r.value <= |s|
  {
    var v := ReadVarint(s, at, 5);
    if v.None? || v.value.value < least || v.value.value > most then None
    else Consume(s, at + v.value.bytes, v.value.value, masked)
  }

  /** A varint of at most `max` bytes within bounds. */
  function SkipVarint(s: Bytes, at: nat, max: nat, least: int, most: int): (r: Option<nat>)
    ensures r.Some? ==> at < r.value <= |s|
  {
    var v := ReadVarint(s, at, max);
    if v.None? || v.value.value < least || v.value.value > most then None else Some(at + v.value.bytes)
  }

  // ---------------------------------------------------------------- packets

  /** Length prefix, packet id 0 and the player name. */
  function LoginName(s: Bytes, at: nat, masked: bool): (r: Option<nat>)
    ensures r.Some? ==> at <= r.value <= |s|
  {
    var len := SkipVarint(s, at, 3, 2, 4149);
    if len.None? then None
    else
      var id := SkipVarint(s, len.value, 1, 0, 0);
      if id.None? then None else SkipField(s, id.value, 1, 48, masked)
  }

  /** The signing key of protocol versions 759 and 760. */
  function LoginKey(s: Bytes, at: nat, version: int, masked: bool): (r: Option<nat>)
    requires at <= |s|
    ensures r.Some? ==> at <= r.value <= |s|
  {
    if !(759 <= version < 761) then Some(at)
    else if at >= |s| then None
    else if s[at] == 0 then Some(at + 1)
    else
      var expiry := Consume(s, at + 1, 8, masked);
      if expiry.None? then None
      else
        var key := SkipField(s, expiry.value, 0, 512, masked);
        if key.None? then None else SkipField(s, key.value, 0, 4096, masked)
  }

  /** The player identifier: optional from version 760, always present from 764. */
  function LoginUuid(s: Bytes, at: nat, version: int, masked: bool): (r: Option<nat>)
    requires at <= |s|
    ensures r.Some? ==> at <= r.value <= |s|
  {
    if version < 760 then Some(at)
    else if version >= 764 then Consume(s, at, 16, masked)
    else if at >= |s| then None
    else if s[at] == 0 then Some(at + 1)
    else Consume(s, at + 1, 16, masked)
  }

  /** `inspect_login_packet`: a login packet for this version, and nothing after it. */
  predicate InspectLogin(s: Bytes, at: nat, version: int, masked: bool)
  {
    var name := LoginName(s, at, masked);
    name.Some? &&
    var key := LoginKey(s, name.value, version, masked);
    key.Some? && LoginUuid(s, key.value, version, masked) == Some(|s|)
  }

  /** A rejected handshake may have left its protocol version behind in `seen`. */
  datatype Handshake =
    | Legacy
    | Rejected(seen: Option<int>)
    | Accepted(version: int, intention: int, next: nat)

  /** What follows the protocol version: host, port, intention. */
  function HandshakeTail(s: Bytes, at: nat, version: int, masked: bool): (h: Handshake)
    ensures h.Accepted? ==> h.version == version && h.next <= |s|
    ensures h.Accepted? ==> h.intention == 1 || h.intention == 2 || (h.intention == 3 && version >= 766)
    ensures h.Legacy? ==> false
  {
    var host := SkipField(s, at, 0, 765, masked);
    if host.None? then Rejected(Some(version))
    else
      var port := Consume(s, host.value, 2, masked);
      if port.None? then Rejected(Some(version))
      else
        var v := ReadVarint(s, port.value, 1);
        if v.None? || !(v.value.value == 1 || v.value.value == 2 || (version >= 766 && v.value.value == 3))
            then Rejected(Some(version))
        else Accepted(version, v.value.value, port.value + v.value.bytes)
  }

  /** Length prefix, packet id 0 and protocol version: the version, and where it ends. */
  function HandshakeHead(s: Bytes): (r: Option<(int, nat)>)
  {
    var len := SkipVarint(s, 0, 3, 4, 786);
    if len.None? then None
    else
      var id := SkipVarint(s, len.value, 1, 0, 0);
      if id.None? then None
      else
        var v := ReadVarint(s, id.value, 5);
        if v.None? then None else Some((v.value.value, id.value + v.value.bytes))
  }

  /** `inspect_handshake`. */
  function InspectHandshake(s: Bytes, masked: bool): (h: Handshake)
    ensures h.Accepted? ==> h.next <= |s|
    ensures h.Accepted? ==> h.intention == 1 || h.intention == 2 || (h.intention == 3 && h.version >= 766)
  {
    if s == [] then Rejected(None)
    else if s[0] == 0xFE then Legacy
    else
      var head := HandshakeHead(s);
      if head.None? then Rejected(None) else HandshakeTail(s, head.value.1, head.value.0, masked)
  }

  predicate InspectStatus(s: Bytes, at: nat)
  {
    var len := SkipVarint(s, at, 1, 1, 1);
    len.Some? && SkipVarint(s, len.value, 1, 0, 0) == Some(|s|)
  }

  predicate InspectPing(s: Bytes, at: nat, masked: bool)
  {
    var len := SkipVarint(s, at, 1, 9, 9);
    len.Some? &&
    var id := SkipVarint(s, len.value, 1, 1, 1);
    id.Some? && Consume(s, id.value, 8, masked) == Some(|s|)
  }

  // ---------------------------------------------------------------- the mask

  lemma FieldUnmasked(s: Bytes, at: nat, least: nat, most: nat)
    requires most < 0x2000
    ensures SkipField(s, at, least, most, true) == SkipField(s, at, least, most, false)
  {
  }

  /** The 13-bit mask never changes a length that passed validation: every parser does the same without it. */
  lemma MaskIsNoOp(s: Bytes, at: nat, version: int)
    ensures InspectLogin(s, at, version, true) == InspectLogin(s, at, version, false)
    ensures InspectHandshake(s, true) == InspectHandshake(s, false)
    ensures InspectPing(s, at, true) == InspectPing(s, at, false)
  {
    HandshakeUnmasked(s);
    LoginUnmasked(s, at, version);
    PingUnmasked(s, at);
  }

  lemma PingUnmasked(s: Bytes, at: nat)
    ensures InspectPing(s, at, true) == InspectPing(s, at, false)
  {
  }

  lemma HandshakeUnmasked(s: Bytes)
    ensures InspectHandshake(s, true) == InspectHandshake(s, false)
  {
  }

  lemma LoginUnmasked(s: Bytes, at: nat, version: int)
    ensures InspectLogin(s, at, version, true) == InspectLogin(s, at, version, false)
  {
    NameUnmasked(s, at);
    var name := LoginName(s, at, false);
    if name.Some? {
      KeyUnmasked(s, name.value, version);
    }
  }

  lemma NameUnmasked(s: Bytes, at: nat)
    ensures LoginName(s, at, true) == LoginName(s, at, false)
  {
  }

  lemma KeyUnmasked(s: Bytes, at: nat, version: int)
    requires at <= |s|
    ensures LoginKey(s, at, version, true) == LoginKey(s, at, version, false)
  {
    if at < |s| && Consume(s, at + 1, 8, false).Some? {
      var expiry := Consume(s, at + 1, 8, false).value;
      FieldUnmasked(s, expiry, 0, 512);
      var key := SkipField(s, expiry, 0, 512, false);
      if key.Some? {
        FieldUnmasked(s, key.value, 0, 4096);
      }
    }
  }
}
