/**
  Exactly which bytes the handler's parsers accept, said by where each part of a
  packet begins and ends, for every way of encoding its numbers.
 */
module MinecraftGrammar {
  import opened Words
  import opened MinecraftWire

  /** Seven bits a byte, least significant group first. */
  function GroupsValue(bs: Bytes): (x: nat)
  {
    if bs == [] then 0
    else
      var low: int := if bs[0] >= 0x80 then bs[0] - 0x80 else bs[0];
      low + 0x80 * GroupsValue(bs[1..])
  }

  /** A number from `at` to `end`: only its last byte is below 0x80. */
  predicate NumberAt(s: Bytes, at: nat, end: nat, max: nat)
  {
    at < end <= |s| && end - at <= max && s[end - 1] < 0x80 && forall i :: at <= i < end - 1 ==> s[i] >= 0x80
  }

  function Value(s: Bytes, at: nat, end: nat): (x: int)
    requires at <= end <= |s|
  {
    Signed32(GroupsValue(s[at..end]))
  }

  /** A number from `at` to `end` with a value within bounds. */
  predicate BoundedAt(s: Bytes, at: nat, end: nat, max: nat, least: int, most: int)
  {
    NumberAt(s, at, end, max) && least <= Value(s, at, end) <= most
  }

  /** A number within bounds and that many bytes after it. */
  ghost predicate FieldAt(s: Bytes, at: nat, end: nat, least: nat, most: nat)
  {
    exists m: nat :: BoundedAt(s, at, m, 5, least, most) && end == m + Value(s, at, m) && end <= |s|
  }

  // ---------------------------------------------------------------- numbers

  lemma {:induction false} GroupsRead(s: Bytes, at: nat, end: nat, max: nat)
    requires NumberAt(s, at, end, max)
    ensures ReadGroups(s, at, max) == Some(Varint(GroupsValue(s[at..end]), end - at))
    decreases end - at
  {
    assert s[at..end][0] == s[at];
    if at + 1 == end {
      assert s[at..end][1..] == [];
    } else {
      GroupsRead(s, at + 1, end, max - 1);
      assert s[at..end][1..] == s[at + 1..end];
    }
  }

  lemma {:induction false} ReadIsNumber(s: Bytes, at: nat, max: nat)
    requires ReadGroups(s, at, max).Some?
    ensures NumberAt(s, at, at + ReadGroups(s, at, max).value.bytes, max)
    decreases max
  {
    if s[at] >= 0x80 {
      ReadIsNumber(s, at + 1, max - 1);
    }
  }

  /** A number is read exactly where one stands. */
  lemma NumberExactly(s: Bytes, at: nat, end: nat, max: nat)
    ensures NumberAt(s, at, end, max) <==>
            ReadVarint(s, at, max).Some? && end == at + ReadVarint(s, at, max).value.bytes
    ensures NumberAt(s, at, end, max) ==> ReadVarint(s, at, max).value.value == Value(s, at, end)
  {
    if NumberAt(s, at, end, max) {
      GroupsRead(s, at, end, max);
    }
    if ReadGroups(s, at, max).Some? {
      ReadIsNumber(s, at, max);
    }
  }

  lemma BoundedExactly(s: Bytes, at: nat, end: nat, max: nat, least: int, most: int)
    ensures SkipVarint(s, at, max, least, most) == Some(end) <==> BoundedAt(s, at, end, max, least, most)
  {
    NumberExactly(s, at, end, max);
  }

  lemma FieldExactly(s: Bytes, at: nat, end: nat, least: nat, most: nat, masked: bool)
    requires most < 0x2000
    ensures SkipField(s, at, least, most, masked) == Some(end) <==> FieldAt(s, at, end, least, most)
  {
    FieldUnmasked(s, at, least, most);
    var v := ReadVarint(s, at, 5);
    if SkipField(s, at, least, most, masked) == Some(end) {
      NumberExactly(s, at, at + v.value.bytes, 5);
      assert BoundedAt(s, at, at + v.value.bytes, 5, least, most);
    }
    if FieldAt(s, at, end, least, most) {
      var m: nat :| BoundedAt(s, at, m, 5, least, most) && end == m + Value(s, at, m) && end <= |s|;
      NumberExactly(s, at, m, 5);
    }
  }

  /** A one-byte number is that byte. */
  lemma OneByte(s: Bytes, at: nat, end: nat, x: u8)
    requires x < 0x80
    ensures BoundedAt(s, at, end, 1, x, x) <==> at < |s| && s[at] == x && end == at + 1
  {
    if at < |s| && end == at + 1 {
      assert s[at..end] == [s[at]] && [s[at]][1..] == [];
      assert GroupsValue(s[at..end][1..]) == 0;
      assert s[at] < 0x80 ==> Value(s, at, end) == s[at];
    }
  }

  // ---------------------------------------------------------------- status and ping

  /** A status request is the two bytes 1, 0 and nothing else. */
  lemma StatusExactly(s: Bytes, at: nat)
    ensures InspectStatus(s, at) <==> |s| == at + 2 && s[at] == 1 && s[at + 1] == 0
  {
    BoundedExactly(s, at, at + 1, 1, 1, 1);
    OneByte(s, at, at + 1, 1);
    BoundedExactly(s, at + 1, at + 2, 1, 0, 0);
    OneByte(s, at + 1, at + 2, 0);
    if SkipVarint(s, at, 1, 1, 1).Some? {
      BoundedExactly(s, at, SkipVarint(s, at, 1, 1, 1).value, 1, 1, 1);
      OneByte(s, at, SkipVarint(s, at, 1, 1, 1).value, 1);
      BoundedExactly(s, at + 1, |s|, 1, 0, 0);
      OneByte(s, at + 1, |s|, 0);
    }
  }

  /** A ping is the bytes 9, 1 and eight more. */
  lemma PingExactly(s: Bytes, at: nat, masked: bool)
    ensures InspectPing(s, at, masked) <==> |s| == at + 10 && s[at] == 9 && s[at + 1] == 1
  {
    PingUnmasked(s, at);
    BoundedExactly(s, at, at + 1, 1, 9, 9);
    OneByte(s, at, at + 1, 9);
    BoundedExactly(s, at + 1, at + 2, 1, 1, 1);
    OneByte(s, at + 1, at + 2, 1);
    var len := SkipVarint(s, at, 1, 9, 9);
    if len.Some? {
      BoundedExactly(s, at, len.value, 1, 9, 9);
      OneByte(s, at, len.value, 9);
      var id := SkipVarint(s, len.value, 1, 1, 1);
      if id.Some? {
        BoundedExactly(s, len.value, id.value, 1, 1, 1);
        OneByte(s, len.value, id.value, 1);
      }
    }
  }

  // ---------------------------------------------------------------- login

  /** Length, packet id 0 and a name of 1 to 48 bytes. */
  ghost predicate NameAt(s: Bytes, at: nat, end: nat)
  {
    exists l: nat :: BoundedAt(s, at, l, 3, 2, 4149) && l < |s| && s[l] == 0 && FieldAt(s, l + 1, end, 1, 48)
  }

  /** The signing key of versions 759 and 760: a flag and, if it is set, expiry, key and signature. */
  ghost predicate KeyAt(s: Bytes, at: nat, end: nat, version: int)
  {
    if version != 759 && version != 760 then end == at
    else
      && at < |s|
      && if s[at] == 0 then end == at + 1
         else exists k :: FieldAt(s, at + 9, k, 0, 512) && FieldAt(s, k, end, 0, 4096)
  }

  /** The player identifier: none before version 760, flagged up to 763, always present from 764. */
  predicate UuidAt(s: Bytes, at: nat, end: nat, version: int)
  {
    if version < 760 then end == at
    else if version >= 764 then end == at + 16
    else at < |s| && end == if s[at] == 0 then at + 1 else at + 17
  }

  ghost predicate LoginAt(s: Bytes, at: nat, version: int)
  {
    exists n, k :: NameAt(s, at, n) && KeyAt(s, n, k, version) && UuidAt(s, k, |s|, version)
  }

  lemma NameExactly(s: Bytes, at: nat, end: nat, masked: bool)
    ensures LoginName(s, at, masked) == Some(end) <==> NameAt(s, at, end)
  {
    var len := SkipVarint(s, at, 3, 2, 4149);
    if LoginName(s, at, masked) == Some(end) {
      BoundedExactly(s, at, len.value, 3, 2, 4149);
      IdThenField(s, len.value, end, masked);
    }
    if NameAt(s, at, end) {
      var l: nat :| BoundedAt(s, at, l, 3, 2, 4149) && l < |s| && s[l] == 0 && FieldAt(s, l + 1, end, 1, 48);
      BoundedExactly(s, at, l, 3, 2, 4149);
      IdThenField(s, l, end, masked);
    }
  }

  lemma IdThenField(s: Bytes, l: nat, end: nat, masked: bool)
    ensures (SkipVarint(s, l, 1, 0, 0).Some?
            && SkipField(s, SkipVarint(s, l, 1, 0, 0).value, 1, 48, masked) == Some(end))
            <==> l < |s| && s[l] == 0 && FieldAt(s, l + 1, end, 1, 48)
  {
    BoundedExactly(s, l, l + 1, 1, 0, 0);
    OneByte(s, l, l + 1, 0);
    if SkipVarint(s, l, 1, 0, 0).Some? {
      BoundedExactly(s, l, SkipVarint(s, l, 1, 0, 0).value, 1, 0, 0);
      OneByte(s, l, SkipVarint(s, l, 1, 0, 0).value, 0);
    }
    FieldExactly(s, l + 1, end, 1, 48, masked);
  }

  lemma TwoFieldsExactly(s: Bytes, at: nat, end: nat, masked: bool)
    ensures (SkipField(s, at, 0, 512, masked).Some?
             && SkipField(s, SkipField(s, at, 0, 512, masked).value, 0, 4096, masked) == Some(end))
            <==> exists k :: FieldAt(s, at, k, 0, 512) && FieldAt(s, k, end, 0, 4096)
  {
    var first := SkipField(s, at, 0, 512, masked);
    if first.Some? {
      FieldExactly(s, at, first.value, 0, 512, masked);
      FieldExactly(s, first.value, end, 0, 4096, masked);
    }
    if k :| FieldAt(s, at, k, 0, 512) && FieldAt(s, k, end, 0, 4096) {
      FieldExactly(s, at, k, 0, 512, masked);
      FieldExactly(s, k, end, 0, 4096, masked);
    }
  }

  lemma FieldWithin(s: Bytes, at: nat, end: nat, least: nat, most: nat)
    requires FieldAt(s, at, end, least, most)
    ensures at < |s| && at < end <= |s|
  {
  }

  /** The signed form of the key parser: expiry, key, signature. */
  lemma SignedKey(s: Bytes, at: nat, end: nat, version: int, masked: bool)
    requires (version == 759 || version == 760) && at < |s| && s[at] != 0
    ensures LoginKey(s, at, version, masked) == Some(end) <==>
            && at + 9 <= |s| && SkipField(s, at + 9, 0, 512, masked).Some?
            && SkipField(s, SkipField(s, at + 9, 0, 512, masked).value, 0, 4096, masked) == Some(end)
  {
    assert Consume(s, at + 1, 8, masked) == if at + 9 > |s| then None else Some(at + 9);
  }

  lemma KeyExactly(s: Bytes, at: nat, end: nat, version: int, masked: bool)
    requires at <= |s|
    ensures LoginKey(s, at, version, masked) == Some(end) <==> KeyAt(s, at, end, version)
  {
    if (version == 759 || version == 760) && at < |s| && s[at] != 0 {
      SignedKey(s, at, end, version, masked);
      TwoFieldsExactly(s, at + 9, end, masked);
      if k :| FieldAt(s, at + 9, k, 0, 512) && FieldAt(s, k, end, 0, 4096) {
        FieldWithin(s, at + 9, k, 0, 512);
      }
    }
  }

  lemma UuidExactly(s: Bytes, at: nat, version: int, masked: bool)
    requires at <= |s|
    ensures LoginUuid(s, at, version, masked) == Some(|s|) <==> UuidAt(s, at, |s|, version)
  {
  }

  /** The login parser accepts exactly the login packets of the version, to the last byte. */
  lemma LoginExactly(s: Bytes, at: nat, version: int, masked: bool)
    ensures InspectLogin(s, at, version, masked) <==> LoginAt(s, at, version)
  {
    var name := LoginName(s, at, masked);
    if InspectLogin(s, at, version, masked) {
      var key := LoginKey(s, name.value, version, masked);
      NameExactly(s, at, name.value, masked);
      KeyExactly(s, name.value, key.value, version, masked);
      UuidExactly(s, key.value, version, masked);
    }
    if n, k :| NameAt(s, at, n) && KeyAt(s, n, k, version) && UuidAt(s, k, |s|, version) {
      NameExactly(s, at, n, masked);
      KeyExactly(s, n, k, version, masked);
      UuidExactly(s, k, version, masked);
    }
  }

  // ---------------------------------------------------------------- handshake

  predicate ValueAt(s: Bytes, at: nat, end: nat, x: int) { NumberAt(s, at, end, 5) && Value(s, at, end) == x }

  /** Length, packet id 0 and the protocol version, which ends at `end`. */
  ghost predicate VersionAt(s: Bytes, end: nat, version: int)
  {
    exists l: nat :: BoundedAt(s, 0, l, 3, 4, 786) && l < |s| && s[l] == 0 && ValueAt(s, l + 1, end, version)
  }

  /** Host, two bytes of port and one of intention: status, login or, from version 766, transfer. */
  ghost predicate HandshakeAt(s: Bytes, version: int, intention: int, next: nat)
  {
    && s != [] && s[0] != 0xFE && 3 <= next <= |s| && s[next - 1] == intention
    && (intention == 1 || intention == 2 || (intention == 3 && version >= 766))
    && exists v :: VersionAt(s, v, version) && FieldAt(s, v, next - 3, 0, 765)
  }

  lemma HeadExactly(s: Bytes, end: nat, version: int)
    ensures HandshakeHead(s) == Some((version, end)) <==> VersionAt(s, end, version)
  {
    var len := SkipVarint(s, 0, 3, 4, 786);
    if HandshakeHead(s) == Some((version, end)) {
      BoundedExactly(s, 0, len.value, 3, 4, 786);
      VersionRead(s, len.value, end);
    }
    if l: nat :| BoundedAt(s, 0, l, 3, 4, 786) && l < |s| && s[l] == 0 && ValueAt(s, l + 1, end, version) {
      BoundedExactly(s, 0, l, 3, 4, 786);
      VersionRead(s, l, end);
    }
  }

  lemma VersionRead(s: Bytes, l: nat, end: nat)
    ensures SkipVarint(s, l, 1, 0, 0).Some? <==> l < |s| && s[l] == 0
    ensures SkipVarint(s, l, 1, 0, 0).Some? ==> SkipVarint(s, l, 1, 0, 0).value == l + 1
    ensures NumberAt(s, l + 1, end, 5) <==>
            ReadVarint(s, l + 1, 5).Some? && end == l + 1 + ReadVarint(s, l + 1, 5).value.bytes
    ensures NumberAt(s, l + 1, end, 5) ==> ReadVarint(s, l + 1, 5).value.value == Value(s, l + 1, end)
  {
    BoundedExactly(s, l, l + 1, 1, 0, 0);
    OneByte(s, l, l + 1, 0);
    if SkipVarint(s, l, 1, 0, 0).Some? {
      BoundedExactly(s, l, SkipVarint(s, l, 1, 0, 0).value, 1, 0, 0);
      OneByte(s, l, SkipVarint(s, l, 1, 0, 0).value, 0);
    }
    NumberExactly(s, l + 1, end, 5);
  }

  lemma TailExactly(s: Bytes, at: nat, version: int, intention: int, next: nat, masked: bool)
    ensures HandshakeTail(s, at, version, masked) == Accepted(version, intention, next) <==>
            && 3 <= next <= |s| && s[next - 1] == intention
            && (intention == 1 || intention == 2 || (intention == 3 && version >= 766))
            && FieldAt(s, at, next - 3, 0, 765)
  {
    var host := SkipField(s, at, 0, 765, masked);
    if host.Some? {
      FieldExactly(s, at, host.value, 0, 765, masked);
      LastByte(s, host.value + 2);
    }
    if next >= 3 {
      FieldExactly(s, at, next - 3, 0, 765, masked);
    }
  }

  /** One more byte, read as a number. */
  lemma LastByte(s: Bytes, at: nat)
    ensures ReadVarint(s, at, 1) == if at < |s| && s[at] < 0x80 then Some(Varint(s[at], 1)) else None
  {
  }

  /** The handshake parser accepts exactly handshakes, and finds their version, intention and end. */
  lemma HandshakeExactly(s: Bytes, version: int, intention: int, next: nat, masked: bool)
    ensures InspectHandshake(s, masked) == Accepted(version, intention, next) <==>
            HandshakeAt(s, version, intention, next)
  {
    var head := HandshakeHead(s);
    if InspectHandshake(s, masked) == Accepted(version, intention, next) {
      HeadExactly(s, head.value.1, version);
      TailExactly(s, head.value.1, version, intention, next, masked);
    }
    if HandshakeAt(s, version, intention, next) {
      var v: nat :| VersionAt(s, v, version) && FieldAt(s, v, next - 3, 0, 765);
      HeadExactly(s, v, version);
      TailExactly(s, v, version, intention, next, masked);
    }
  }
}
