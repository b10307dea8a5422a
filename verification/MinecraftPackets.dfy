/** Serialised handshakes and logins, and what the handler's parsers make of them. */
module MinecraftPackets {
  import opened Words
  import opened MinecraftWire

  /** A length-prefixed field. */
  function Field(data: Bytes): (r: Bytes) { EncodeGroups(|data|) + data }

  lemma ReadSmall(pre: Bytes, x: nat, post: Bytes, max: nat)
    requires x < 0x8000_0000 && |EncodeGroups(x)| <= max
    ensures ReadVarint(pre + EncodeGroups(x) + post, |pre|, max) == Some(Varint(x, |EncodeGroups(x)|))
  {
    GroupsRoundTrip(pre, x, post, max);
  }

  lemma SmallSizes(x: nat)
    ensures x < 0x80 ==> |EncodeGroups(x)| == 1
    ensures x < 0x4000 ==> |EncodeGroups(x)| <= 2
  {
    assert Capacity(2) == 0x4000;
    if x < 0x4000 {
      GroupsLength(x, 2, 0x4000);
    }
  }

  lemma SkipsField(pre: Bytes, data: Bytes, post: Bytes, least: nat, most: nat, masked: bool)
    requires least <= |data| <= most < 0x2000
    ensures SkipField(pre + Field(data) + post, |pre|, least, most, masked) == Some(|pre| + |Field(data)|)
  {
    SmallSizes(|data|);
    ReadSmall(pre, |data|, data + post, 5);
    assert pre + Field(data) + post == pre + EncodeGroups(|data|) + (data + post);
  }

  lemma SkipsVarint(pre: Bytes, x: nat, post: Bytes, max: nat, least: int, most: int)
    requires least <= x <= most && x < 0x4000 && |EncodeGroups(x)| <= max
    ensures SkipVarint(pre + EncodeGroups(x) + post, |pre|, max, least, most) == Some(|pre| + |EncodeGroups(x)|)
  {
    ReadSmall(pre, x, post, max);
  }

  // ---------------------------------------------------------------- handshake

  /** A handshake whose length field says `len`. */
  function HandshakeBytes(len: nat, version: int, host: Bytes, port: Bytes, intention: u8): (r: Bytes)
    requires version >= -0x1_0000_0000
  {
    EncodeGroups(len) + [0] + EncodeGroups(Unsigned32(version)) + Field(host) + port + [intention]
  }

  predicate Intended(version: int, intention: int)
  {
    intention == 1 || intention == 2 || (intention == 3 && version >= 766)
  }

  lemma TailReads(pre: Bytes, version: int, host: Bytes, port: Bytes, intention: u8, rest: Bytes, masked: bool)
    requires |host| <= 765 && |port| == 2 && Intended(version, intention)
    ensures HandshakeTail(pre + Field(host) + port + [intention] + rest, |pre|, version, masked)
         == Accepted(version, intention, |pre + Field(host) + port + [intention]|)
  {
    var s := pre + Field(host) + port + [intention] + rest;
    SkipsField(pre, host, port + [intention] + rest, 0, 765, masked);
    assert s == pre + Field(host) + (port + [intention] + rest);
    ReadSmall(pre + Field(host) + port, intention, rest, 1);
    assert EncodeGroups(intention) == [intention];
  }

  /** The three varints both packets begin with: a length within bounds, packet id 0, and a value. */
  lemma ThreeVarints(len: nat, value: int, post: Bytes, least: int, most: int)
    requires least <= len <= most && len < 0x4000 && -0x8000_0000 <= value < 0x8000_0000
    ensures var l, v := EncodeGroups(len), EncodeGroups(Unsigned32(value));
            var s := l + [0] + v + post;
            && SkipVarint(s, 0, 3, least, most) == Some(|l|)
            && SkipVarint(s, |l|, 1, 0, 0) == Some(|l| + 1)
            && ReadVarint(s, |l| + 1, 5) == Some(Varint(value, |v|))
  {
    var l, v := EncodeGroups(len), EncodeGroups(Unsigned32(value));
    SmallSizes(len);
    SmallSizes(0);
    ThreeGroups([], l, v, post);
    SkipsVarint([], len, [0] + v + post, 3, least, most);
    SkipsVarint(l, 0, v + post, 1, 0, 0);
    VarintRoundTrip(l + [0], value, post);
  }

  lemma ThreeGroups(pre: Bytes, l: Bytes, v: Bytes, post: Bytes)
    ensures var s := pre + l + [0] + v + post;
            && s == pre + l + ([0] + v + post)
            && s == (pre + l) + [0] + (v + post)
            && s == (pre + l + [0]) + v + post
    ensures [] + l == l && EncodeGroups(0) == [0]
  {
  }

  /** The head of a handshake. */
  lemma HeadReads(len: nat, version: int, post: Bytes)
    requires 4 <= len <= 786 && -0x8000_0000 <= version < 0x8000_0000
    ensures var l, v := EncodeGroups(len), EncodeGroups(Unsigned32(version));
            HandshakeHead(l + [0] + v + post) == Some((version, |l + [0] + v|))
  {
    ThreeVarints(len, version, post, 4, 786);
  }

  lemma FirstByte(len: nat, post: Bytes)
    requires len < 0x4000
    ensures (EncodeGroups(len) + post)[0] == 0xFE <==> len >= 0x80 && len % 0x80 == 0x7E
  {
  }

  /**
    A serialised handshake is read back, version, intention and extent, unless
    its length field starts with the byte 0xFE: then it is taken for a legacy ping.
   */
  lemma HandshakeReads(len: nat, version: int, host: Bytes, port: Bytes, intention: u8, rest: Bytes, masked: bool)
    requires 4 <= len <= 786 && |host| <= 765 && |port| == 2 && Intended(version, intention)
    requires -0x8000_0000 <= version < 0x8000_0000
    ensures var h := HandshakeBytes(len, version, host, port, intention);
            InspectHandshake(h + rest, masked) ==
                if len >= 0x80 && len % 0x80 == 0x7E then Legacy else Accepted(version, intention, |h|)
  {
    var h := HandshakeBytes(len, version, host, port, intention);
    var l, v := EncodeGroups(len), EncodeGroups(Unsigned32(version));
    var tail := Field(host) + port + [intention] + rest;
    Layout(l, v, Field(host), port, intention, rest);
    FirstByte(len, [0] + v + tail);
    HeadReads(len, version, tail);
    TailReads(l + [0] + v, version, host, port, intention, rest, masked);
    Assembled(h + rest, version, |l + [0] + v|, masked);
  }

  /** The same bytes, grouped as each parser sees them. */
  lemma Layout(l: Bytes, v: Bytes, host: Bytes, port: Bytes, intention: u8, rest: Bytes)
    ensures var h := l + [0] + v + host + port + [intention];
            && h + rest == l + ([0] + v + (host + port + [intention] + rest))
            && h + rest == l + [0] + v + (host + port + [intention] + rest)
            && h + rest == (l + [0] + v) + host + port + [intention] + rest
  {
  }

  /** The handshake parser on a payload whose head is known. */
  lemma Assembled(s: Bytes, version: int, at: nat, masked: bool)
    requires s != [] && HandshakeHead(s) == Some((version, at))
    ensures InspectHandshake(s, masked) == if s[0] == 0xFE then Legacy else HandshakeTail(s, at, version, masked)
  {
  }

  // ---------------------------------------------------------------- login

  datatype SigningKey = SigningKey(expiry: Bytes, key: Bytes, signature: Bytes)

  function KeyBytes(version: int, key: Option<SigningKey>): (r: Bytes)
  {
    if !(759 <= version < 761) then []
    else if key.None? then [0]
    else [1] + key.value.expiry + Field(key.value.key) + Field(key.value.signature)
  }

  function UuidBytes(version: int, uuid: Option<Bytes>): (r: Bytes)
  {
    if version < 760 then []
    else if version >= 764 then if uuid.Some? then uuid.value else []
    else if uuid.None? then [0]
    else [1] + uuid.value
  }

  function LoginBytes(len: nat, name: Bytes, version: int, key: Option<SigningKey>, uuid: Option<Bytes>): (r: Bytes)
  {
    EncodeGroups(len) + [0] + Field(name) + KeyBytes(version, key) + UuidBytes(version, uuid)
  }

  /** The optional parts of a login packet as the protocol version allows them. */
  predicate Proper(version: int, key: Option<SigningKey>, uuid: Option<Bytes>)
  {
    && (key.Some? ==> |key.value.expiry| == 8 && |key.value.key| <= 512 && |key.value.signature| <= 4096)
    && (uuid.Some? ==> |uuid.value| == 16)
    && (version >= 764 ==> uuid.Some?)
  }

  lemma NameReads(pre: Bytes, len: nat, name: Bytes, post: Bytes, masked: bool)
    requires 2 <= len <= 4149 && 1 <= |name| <= 48
    ensures LoginName(pre + EncodeGroups(len) + [0] + Field(name) + post, |pre|, masked) ==
            Some(|pre + EncodeGroups(len) + [0] + Field(name)|)
  {
    var l, s := EncodeGroups(len), pre + EncodeGroups(len) + [0] + Field(name) + post;
    ThreeGroups(pre, l, Field(name), post);
    assert SkipVarint(s, |pre|, 3, 2, 4149) == Some(|pre + l|) by {
      SmallSizes(len);
      SkipsVarint(pre, len, [0] + Field(name) + post, 3, 2, 4149);
    }
    assert SkipVarint(s, |pre + l|, 1, 0, 0) == Some(|pre + l + [0]|) by {
      SmallSizes(0);
      SkipsVarint(pre + l, 0, Field(name) + post, 1, 0, 0);
    }
    SkipsField(pre + l + [0], name, post, 1, 48, masked);
    NameAssembled(s, |pre|, |pre + l|, |pre + l + [0]|, masked);
  }

  lemma NameAssembled(s: Bytes, at: nat, a: nat, b: nat, masked: bool)
    requires SkipVarint(s, at, 3, 2, 4149) == Some(a) && SkipVarint(s, a, 1, 0, 0) == Some(b)
    ensures LoginName(s, at, masked) == SkipField(s, b, 1, 48, masked)
  {
  }

  lemma TwoFieldsRead(pre: Bytes, first: Bytes, second: Bytes, post: Bytes, masked: bool)
    requires |first| <= 512 && |second| <= 4096
    ensures var s := pre + Field(first) + Field(second) + post;
            && SkipField(s, |pre|, 0, 512, masked) == Some(|pre + Field(first)|)
            && SkipField(s, |pre + Field(first)|, 0, 4096, masked) == Some(|pre + Field(first) + Field(second)|)
  {
    var s := pre + Field(first) + Field(second) + post;
    SkipsField(pre, first, Field(second) + post, 0, 512, masked);
    assert s == pre + Field(first) + (Field(second) + post);
    SkipsField(pre + Field(first), second, post, 0, 4096, masked);
  }

  lemma KeyReads(pre: Bytes, version: int, key: Option<SigningKey>, post: Bytes, masked: bool)
    requires key.Some? ==> |key.value.expiry| == 8 && |key.value.key| <= 512 && |key.value.signature| <= 4096
    ensures LoginKey(pre + KeyBytes(version, key) + post, |pre|, version, masked) ==
            Some(|pre + KeyBytes(version, key)|)
  {
    if 759 <= version < 761 && key.Some? {
      SignedReads(pre, version, key.value, post, masked);
    }
  }

  /** The key parser on a payload whose two fields are known. */
  lemma KeyFrom(s: Bytes, at: nat, a: nat, b: nat, version: int, masked: bool)
    requires 759 <= version < 761 && at + 9 <= |s| && s[at] != 0
    requires SkipField(s, at + 9, 0, 512, masked) == Some(a) && SkipField(s, a, 0, 4096, masked) == Some(b)
    ensures LoginKey(s, at, version, masked) == Some(b)
  {
    assert Consume(s, at + 1, 8, masked) == Some(at + 9);
  }

  lemma SignedReads(pre: Bytes, version: int, k: SigningKey, post: Bytes, masked: bool)
    requires 759 <= version < 761 && |k.expiry| == 8 && |k.key| <= 512 && |k.signature| <= 4096
    ensures LoginKey(pre + KeyBytes(version, Some(k)) + post, |pre|, version, masked) ==
            Some(|pre + KeyBytes(version, Some(k))|)
  {
    var s, head := pre + KeyBytes(version, Some(k)) + post, pre + [1] + k.expiry;
    assert s == head + Field(k.key) + Field(k.signature) + post;
    assert pre + KeyBytes(version, Some(k)) == head + Field(k.key) + Field(k.signature);
    TwoFieldsRead(head, k.key, k.signature, post, masked);
    KeyFrom(s, |pre|, |head + Field(k.key)|, |head + Field(k.key) + Field(k.signature)|, version, masked);
  }

  lemma UuidReads(pre: Bytes, version: int, uuid: Option<Bytes>, masked: bool)
    requires (uuid.Some? ==> |uuid.value| == 16) && (version >= 764 ==> uuid.Some?)
    ensures LoginUuid(pre + UuidBytes(version, uuid), |pre|, version, masked) == Some(|pre + UuidBytes(version, uuid)|)
  {
  }

  /** Every login packet that is well formed for its version passes, whatever precedes it. */
  lemma LoginReads(pre: Bytes, len: nat, name: Bytes, version: int, key: Option<SigningKey>, uuid: Option<Bytes>,
      masked: bool)
    requires 2 <= len <= 4149 && 1 <= |name| <= 48 && Proper(version, key, uuid)
    ensures InspectLogin(pre + LoginBytes(len, name, version, key, uuid), |pre|, version, masked)
  {
    var k, u, named := KeyBytes(version, key), UuidBytes(version, uuid), pre + EncodeGroups(len) + [0] + Field(name);
    Regroup(pre, EncodeGroups(len), Field(name), k, u);
    PartsRead(pre, len, name, version, key, uuid, masked);
    LoginFrom(named + k + u, |pre|, |named|, |named + k|, version, masked);
  }

  lemma Regroup(pre: Bytes, a: Bytes, b: Bytes, k: Bytes, u: Bytes)
    ensures pre + (a + [0] + b + k + u) == pre + a + [0] + b + k + u
  {
  }

  lemma LoginFrom(s: Bytes, at: nat, a: nat, b: nat, version: int, masked: bool)
    requires LoginName(s, at, masked) == Some(a) && LoginKey(s, a, version, masked) == Some(b)
    requires LoginUuid(s, b, version, masked) == Some(|s|)
    ensures InspectLogin(s, at, version, masked)
  {
  }

  lemma PartsRead(pre: Bytes, len: nat, name: Bytes, version: int, key: Option<SigningKey>, uuid: Option<Bytes>,
      masked: bool)
    requires 2 <= len <= 4149 && 1 <= |name| <= 48 && Proper(version, key, uuid)
    ensures var k, u, named := KeyBytes(version, key), UuidBytes(version, uuid),
            pre + EncodeGroups(len) + [0] + Field(name);
            var s := named + k + u;
            && LoginName(s, |pre|, masked) == Some(|named|)
            && LoginKey(s, |named|, version, masked) == Some(|named + k|)
            && LoginUuid(s, |named + k|, version, masked) == Some(|s|)
  {
    var k, u, named := KeyBytes(version, key), UuidBytes(version, uuid), pre + EncodeGroups(len) + [0] + Field(name);
    assert LoginName(named + k + u, |pre|, masked) == Some(|named|) by {
      NameReads(pre, len, name, k + u, masked);
      Associate(named, k, u);
    }
    assert LoginKey(named + k + u, |named|, version, masked) == Some(|named + k|) by {
      KeyReads(named, version, key, u, masked);
    }
    UuidReads(named + k, version, uuid, masked);
  }

  lemma Associate(a: Bytes, b: Bytes, c: Bytes)
    ensures a + (b + c) == a + b + c
  {
  }

  // ---------------------------------------------------------------- a handshake read as a login

  /** The name parser on a payload whose varints are known. */
  lemma NameFrom(s: Bytes, a: nat, version: int, n: nat, masked: bool)
    requires SkipVarint(s, 0, 3, 2, 4149) == Some(a) && SkipVarint(s, a, 1, 0, 0) == Some(a + 1)
    requires ReadVarint(s, a + 1, 5) == Some(Varint(version, n))
    ensures LoginName(s, 0, masked) ==
            if 1 <= version <= 48 && a + 1 + n + version <= |s| then Some(a + 1 + n + version) else None
  {
  }

  /** Versions this old end the login packet after the name. */
  lemma OldLogin(s: Bytes, version: int, masked: bool)
    requires LoginName(s, 0, masked).Some? ==> version <= 48
    ensures InspectLogin(s, 0, version, masked) <==> LoginName(s, 0, masked) == Some(|s|)
  {
  }

  /** Where the protocol version of a payload accepted as a handshake ends. */
  function VersionEnd(s: Bytes): (at: nat)
  {
    if HandshakeHead(s).Some? then HandshakeHead(s).value.1 else 0
  }

  /**
    The length fields are not compared with the payload, and a handshake that
    fills its segment is read again as a login packet.  However its numbers are
    encoded, it passes as one exactly when its version number is the length of
    what follows the version.
   */
  lemma HandshakeDoublesAsLogin(s: Bytes, masked: bool)
    requires InspectHandshake(s, masked).Accepted?
    ensures var version := InspectHandshake(s, masked).version;
            InspectLogin(s, 0, version, masked) <==> 1 <= version <= 48 && VersionEnd(s) + version == |s|
  {
    var version := InspectHandshake(s, masked).version;
    var a := SkipVarint(s, 0, 3, 4, 786).value;
    assert SkipVarint(s, 0, 3, 2, 4149) == Some(a);
    NameFrom(s, a, version, VersionEnd(s) - (a + 1), masked);
    OldLogin(s, version, masked);
  }

  /** The same for a serialised handshake: the version counts the host field, the port and the intention. */
  lemma HandshakeBytesDouble(len: nat, version: int, host: Bytes, port: Bytes, intention: u8, masked: bool)
    requires 4 <= len <= 786 && |host| <= 765 && |port| == 2 && Intended(version, intention)
    requires -0x8000_0000 <= version < 0x8000_0000
    ensures InspectLogin(HandshakeBytes(len, version, host, port, intention), 0, version, masked) <==>
            1 <= version <= 48 && |Field(host)| + 3 == version
  {
    var h := HandshakeBytes(len, version, host, port, intention);
    var l, v, tail := EncodeGroups(len), EncodeGroups(Unsigned32(version)), Field(host) + port + [intention];
    assert h == l + [0] + v + tail;
    ThreeVarints(len, version, tail, 2, 4149);
    NameFrom(h, |l|, version, |v|, masked);
    OldLogin(h, version, masked);
  }
}
