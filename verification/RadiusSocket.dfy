// The master session key a RADIUS server sends in two Microsoft vendor attributes (radius_socket.c),
// encrypted as in section 2.4.2 of RFC 2548.
module RadiusSocket {
  import opened Base
  import opened RadiusCrypto
  import opened RadiusMessage
  import opened RadiusMessageObject

  const PEN_MICROSOFT: u32 := 311
  const SEND_KEY: byte := 16
  const RECV_KEY: byte := 17
  const KEY_HEADER := 8

  // ---------------------------------------------------------------- one key

  // A key of at most 255 bytes with its length in front, filled up to whole blocks
  function Padded(key: bytes): (r: bytes)
    requires |key| <= 255
    ensures |r| % HASH_SIZE == 0 && |r| > |key|
  {
    [|key|] + key + Zeros(PadLen(1 + |key|, HASH_SIZE))
  }

  function Wrap(md5: bytes -> Block, secret: bytes, seed: bytes, key: bytes): (r: bytes)
    requires |key| <= 255
    ensures |r| == |Padded(key)|
  {
    Chain(true, md5, secret, seed, Padded(key))
  }

  // No key if the size is not one of whole blocks, or the length in front exceeds it
  function Unwrap(md5: bytes -> Block, secret: bytes, seed: bytes, cipher: bytes): bytes {
    if |cipher| % HASH_SIZE != 0 || |cipher| < HASH_SIZE then []
    else
      var plain := Chain(false, md5, secret, seed, cipher);
      if plain[0] >= |plain| then [] else plain[1..1 + plain[0]]
  }

  // Any text of whole blocks that starts with the length of the key and the key, whatever fills it up,
  // is decrypted to that key; one that declares more than there is, to none
  lemma KeyOfText(md5: bytes -> Block, secret: bytes, seed: bytes, text: bytes, key: bytes)
    requires text != [] && |text| % 16 == 0
    ensures var r := Unwrap(md5, secret, seed, Chain(true, md5, secret, seed, text));
      && (1 + |key| <= |text| && text[0] == |key| && text[1..1 + |key|] == key ==> r == key)
      && (text[0] + 1 > |text| ==> r == [])
  {
    ChainInverse(md5, secret, seed, text);
  }

  lemma UnwrapWrapped(md5: bytes -> Block, secret: bytes, seed: bytes, key: bytes)
    requires |key| <= 255
    ensures Unwrap(md5, secret, seed, Wrap(md5, secret, seed, key)) == key
  {
    ChainInverse(md5, secret, seed, Padded(key));
    assert Padded(key)[1..1 + |key|] == key;
  }

  // decrypt_mppe_key: the cipher text stays where it is, the key is decrypted into a buffer of its own
  method DecryptMppeKey(authenticator: Block, salt: bytes, cipher: array<byte>, secret: bytes, hasher: Hasher)
    returns (key: bytes)
    modifies hasher
    ensures old(hasher.pending) == [] ==>
      key == [] || key == Unwrap(hasher.md5, secret, authenticator + salt, cipher[..])
    ensures old(hasher.pending) == [] && hasher.reliable ==>
      hasher.pending == [] && key == Unwrap(hasher.md5, secret, authenticator + salt, cipher[..])
  {
    var decrypted := new byte[cipher.Length];
    var ok := Crypt(authenticator, salt, cipher, decrypted, secret, hasher);
    if !ok || decrypted[0] >= decrypted.Length {
      return [];
    }
    return decrypted[1..1 + decrypted[0]];
  }

  // ---------------------------------------------------------------- both keys

  predicate IsKey(a: Attribute, kind: byte) {
    && a.kind == VENDOR_SPECIFIC && |a.value| > KEY_HEADER
    && U32(a.value, 0) == PEN_MICROSOFT && a.value[5] == |a.value| - 4
    && a.value[4] == kind
  }

  function KeyIn(md5: bytes -> Block, secret: bytes, authenticator: Block, a: Attribute): bytes
    requires |a.value| > KEY_HEADER
  {
    Unwrap(md5, secret, authenticator + a.value[6..KEY_HEADER], a.value[KEY_HEADER..])
  }

  // The key in the last attribute of that kind, or none
  function LastKey(md5: bytes -> Block, secret: bytes, authenticator: Block, attributes: seq<Attribute>, kind: byte,
                   key: bytes): bytes
  {
    if attributes == [] then key
    else
      var a := attributes[0];
      var next := if IsKey(a, kind) then KeyIn(md5, secret, authenticator, a) else key;
      LastKey(md5, secret, authenticator, attributes[1..], kind, next)
  }

  // Receive key and send key, if there are both
  function Msk(md5: bytes -> Block, secret: bytes, authenticator: Block, attributes: seq<Attribute>): bytes {
    var send := LastKey(md5, secret, authenticator, attributes, SEND_KEY, []);
    var recv := LastKey(md5, secret, authenticator, attributes, RECV_KEY, []);
    if send != [] && recv != [] then recv + send else []
  }

  method DecryptKeyIn(authenticator: Block, value: bytes, secret: bytes, hasher: Hasher) returns (key: bytes)
    requires |value| > KEY_HEADER
    modifies hasher
    ensures old(hasher.pending) == [] && hasher.reliable ==>
      && hasher.pending == []
      && key == Unwrap(hasher.md5, secret, authenticator + value[6..KEY_HEADER], value[KEY_HEADER..])
  {
    var cipher := new byte[|value| - KEY_HEADER](i requires 0 <= i < |value| - KEY_HEADER => value[KEY_HEADER + i]);
    assert cipher[..] == value[KEY_HEADER..];
    key := DecryptMppeKey(authenticator, value[6..KEY_HEADER], cipher, secret, hasher);
  }

  // decrypt_msk, with the authenticator of the request
  method DecryptMsk(authenticator: Block, response: Message, secret: bytes, hasher: Hasher) returns (msk: bytes)
    requires response.Valid() && Proper(response.msg[HEADER_SIZE..])
    modifies hasher
    ensures old(hasher.pending) == [] && hasher.reliable ==>
      msk == Msk(hasher.md5, secret, authenticator, Attributes(response.msg[HEADER_SIZE..]))
  {
    var send: bytes, recv: bytes := [], [];
    var e := new AttributeEnumerator(response.msg);
    var more := true;
    ghost var all, good, md5 := e.Remaining(), hasher.pending == [] && hasher.reliable, hasher.md5;
    while more
      invariant fresh(e) && e.Valid() && e.IsProper() && e.buf == response.msg && (good ==> hasher.pending == [])
      invariant good ==>
        LastKey(md5, secret, authenticator, all, SEND_KEY, [])
          == LastKey(md5, secret, authenticator, e.Remaining(), SEND_KEY, send)
      invariant good ==>
        LastKey(md5, secret, authenticator, all, RECV_KEY, [])
          == LastKey(md5, secret, authenticator, e.Remaining(), RECV_KEY, recv)
      invariant !more ==> e.Remaining() == []
      decreases more, e.buf.Length - e.next
    {
      ghost var before := e.Remaining();
      var kind, off, size;
      more, kind, off, size := e.Enumerate();
      if more {
        var value := e.buf[off..off + size];
        assert before[0] == Attribute(kind, value) && before[1..] == e.Remaining();
        if kind == VENDOR_SPECIFIC && |value| > KEY_HEADER {
          if U32(value, 0) == PEN_MICROSOFT && value[5] == |value| - 4 {
            if value[4] == SEND_KEY {
              send := DecryptKeyIn(authenticator, value, secret, hasher);
            }
            if value[4] == RECV_KEY {
              recv := DecryptKeyIn(authenticator, value, secret, hasher);
            }
          }
        }
      }
    }
    return if send != [] && recv != [] then recv + send else [];
  }

  // ---------------------------------------------------------------- what the server sent arrives

  // The attribute a server sends a key in
  function KeyAttribute(md5: bytes -> Block, secret: bytes, authenticator: Block, kind: byte, salt: bytes, key: bytes)
    : Attribute
    requires |salt| == 2 && |key| <= 239
  {
    var cipher := Wrap(md5, secret, authenticator + salt, key);
    Attribute(VENDOR_SPECIFIC, Be32(PEN_MICROSOFT) + [kind, |cipher| + 4] + salt + cipher)
  }

  lemma KeyAttributeIsRead(md5: bytes -> Block, secret: bytes, authenticator: Block, kind: byte, salt: bytes,
                           key: bytes)
    requires |salt| == 2 && |key| <= 239
    ensures var a := KeyAttribute(md5, secret, authenticator, kind, salt, key);
      && |a.value| <= MAX_ATTRIBUTE_SIZE && IsKey(a, kind)
      && (forall other | other != kind :: !IsKey(a, other))
      && KeyIn(md5, secret, authenticator, a) == key
  {
    var cipher := Wrap(md5, secret, authenticator + salt, key);
    var a := KeyAttribute(md5, secret, authenticator, kind, salt, key);
    UnwrapWrapped(md5, secret, authenticator + salt, key);
    assert |cipher| == 1 + |key| + PadLen(1 + |key|, HASH_SIZE) <= 240;
    assert a.value[..4] == Be32(PEN_MICROSOFT) && U32(a.value[..4], 0) == PEN_MICROSOFT;
    assert a.value[6..KEY_HEADER] == salt && a.value[KEY_HEADER..] == cipher;
  }

  // None of the attributes is one of Microsoft's for a key of that kind that is as long as it says
  predicate NoKey(attributes: seq<Attribute>, kind: byte) {
    forall i | 0 <= i < |attributes| && attributes[i].kind == 26 && |attributes[i].value| > 8 ::
      var value := attributes[i].value;
      U32(value, 0) == 311 && value[4] == kind ==> value[5] != |value| - 4
  }

  lemma {:induction false} NoKeyKeeps(md5: bytes -> Block, secret: bytes, authenticator: Block,
                                      attributes: seq<Attribute>, kind: byte, key: bytes)
    requires NoKey(attributes, kind)
    ensures LastKey(md5, secret, authenticator, attributes, kind, key) == key
  {
    if attributes != [] {
      assert !IsKey(attributes[0], kind);
      NoKeyKeeps(md5, secret, authenticator, attributes[1..], kind, key);
    }
  }

  lemma {:induction false} LastKeyFound(md5: bytes -> Block, secret: bytes, authenticator: Block,
                                        before: seq<Attribute>, a: Attribute, after: seq<Attribute>,
                                        kind: byte, key: bytes)
    requires IsKey(a, kind) && NoKey(after, kind)
    ensures LastKey(md5, secret, authenticator, before + [a] + after, kind, key) == KeyIn(md5, secret, authenticator, a)
    decreases |before|
  {
    var all := before + [a] + after;
    if before == [] {
      assert all[0] == a && all[1..] == after;
      NoKeyKeeps(md5, secret, authenticator, after, kind, KeyIn(md5, secret, authenticator, a));
    } else {
      assert all[0] == before[0] && all[1..] == before[1..] + [a] + after;
      LastKeyFound(md5, secret, authenticator, before[1..], a, after, kind,
                   if IsKey(before[0], kind) then KeyIn(md5, secret, authenticator, before[0]) else key);
    }
  }

  lemma SentKeyIsLast(md5: bytes -> Block, secret: bytes, authenticator: Block, attributes: seq<Attribute>,
                      i: nat, kind: byte, salt: bytes, key: bytes)
    requires |salt| == 2 && |key| <= 239
    requires i < |attributes| && attributes[i] == KeyAttribute(md5, secret, authenticator, kind, salt, key)
    requires NoKey(attributes[i + 1..], kind)
    ensures LastKey(md5, secret, authenticator, attributes, kind, []) == key
  {
    KeyAttributeIsRead(md5, secret, authenticator, kind, salt, key);
    assert attributes == attributes[..i] + [attributes[i]] + attributes[i + 1..];
    LastKeyFound(md5, secret, authenticator, attributes[..i], attributes[i], attributes[i + 1..], kind, []);
  }

  // Wherever among other attributes the server put the two keys, and whichever it put first, the
  // client assembles receive key and send key, if they are the last of their kinds and not empty
  lemma MskArrives(md5: bytes -> Block, secret: bytes, authenticator: Block, attributes: seq<Attribute>,
                   i: nat, sendSalt: bytes, send: bytes, j: nat, recvSalt: bytes, recv: bytes)
    requires |sendSalt| == |recvSalt| == 2 && 1 <= |send| <= 239 && 1 <= |recv| <= 239
    requires i < |attributes| && attributes[i] == KeyAttribute(md5, secret, authenticator, SEND_KEY, sendSalt, send)
    requires j < |attributes| && attributes[j] == KeyAttribute(md5, secret, authenticator, RECV_KEY, recvSalt, recv)
    requires NoKey(attributes[i + 1..], SEND_KEY) && NoKey(attributes[j + 1..], RECV_KEY)
    ensures Msk(md5, secret, authenticator, attributes) == recv + send
  {
    SentKeyIsLast(md5, secret, authenticator, attributes, i, SEND_KEY, sendSalt, send);
    SentKeyIsLast(md5, secret, authenticator, attributes, j, RECV_KEY, recvSalt, recv);
  }
}
