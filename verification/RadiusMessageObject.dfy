// The message object itself: a buffer that grows and is patched in place (radius_message.c).
module RadiusMessageObject {
  import opened Base
  import opened RadiusCrypto
  import opened RadiusMessage
  import opened RadiusSigning

  class Message {
    var msg: array<byte>
    var password: array<byte>  // to be encrypted when the message is signed; empty if there is none

    ghost predicate Valid()
      reads this, msg, password
    {
      Framed(msg[..]) && password.Length % HASH_SIZE == 0 && msg != password
    }

    // radius_message_create
    constructor Create(code: byte)
      ensures Valid() && fresh(msg) && fresh(password)
      ensures msg[..] == Empty(code) && password.Length == 0
    {
      var m := Empty(code);
      msg := new byte[HEADER_SIZE](i requires 0 <= i < HEADER_SIZE => m[i]);
      password := new byte[0];
      new;
      assert msg[..] == Empty(code);
    }

    // radius_message_parse, which refuses data that is not as long as it says
    constructor FromData(data: bytes)
      requires Framed(data)
      ensures Valid() && fresh(msg) && fresh(password)
      ensures msg[..] == data && password.Length == 0
    {
      msg := new byte[|data|](i requires 0 <= i < |data| => data[i]);
      password := new byte[0];
      new;
      assert msg[..] == data;
    }

    static method Parse(data: bytes) returns (r: Message?)
      ensures r != null <==> Framed(data)
      ensures r != null ==> fresh(r) && r.Valid() && fresh(r.msg) && r.msg[..] == data && r.password.Length == 0
    {
      if |data| < HEADER_SIZE || U16(data, 2) != |data| {
        return null;
      }
      r := new Message.FromData(data);
    }

    static lemma AppendedIsAdded(m: bytes, kind: byte, data: bytes, g: bytes)
      requires |m| >= HEADER_SIZE && g == m + [kind, |Cut(data)| + 2] + Cut(data)
      ensures |g| >= 4 && g[..2] + Be16((|m| + 2 + |Cut(data)|) % 0x1_0000) + g[4..] == Added(m, kind, data)
    {
      assert g == m + Encode(kind, data);
      assert g[4..] == m[4..] + Encode(kind, data) && g[..2] == m[..2];
    }

    method Appended(total: nat, header: bytes, value: bytes) returns (grown: array<byte>)
      requires Valid() && total == msg.Length + |header| + |value|
      ensures fresh(grown) && grown[..] == msg[..] + header + value
    {
      grown := new byte[total];
      Write(grown, 0, msg[..]);
      Write(grown, msg.Length, header);
      ghost var off := msg.Length + |header|;
      assert grown[..off] == grown[..msg.Length] + grown[msg.Length..off] == msg[..] + header;
      Write(grown, msg.Length + |header|, value);
      assert grown[..] == grown[..off] + grown[off..];
    }

    // The buffer reallocated with room for one attribute more, and the attribute and the length filled in
    method Grow(kind: byte, data: bytes) returns (grown: array<byte>)
      requires Valid()
      ensures fresh(grown) && grown[..] == Added(msg[..], kind, data)
    {
      var value := if |data| > MAX_ATTRIBUTE_SIZE then data[..MAX_ATTRIBUTE_SIZE] else data;
      var total := U16(msg[..], 2) + 2 + |value|;
      grown := Appended(total, [kind, |value| + 2], value);
      ghost var g := grown[..];
      Write(grown, 2, Be16(total % 0x1_0000));
      assert grown[..] == grown[..2] + grown[2..4] + grown[4..];
      AppendedIsAdded(msg[..], kind, data, g);
    }

    // The first User-Password is kept aside, padded with zeros; anything else is appended, which spoils the
    // message if its length does not fit the length field any more
    method Add(kind: byte, data: bytes)
      requires Valid()
      modifies this
      ensures Valid() <==> (kind == USER_PASSWORD && old(password.Length) == 0) || Fits(old(msg[..]), data)
      ensures kind == USER_PASSWORD && old(password.Length) == 0 ==>
        && msg == old(msg) && msg[..] == old(msg[..])
        && fresh(password) && password[..] == data + Zeros(PadLen(|data|, HASH_SIZE))
      ensures !(kind == USER_PASSWORD && old(password.Length) == 0) ==>
        && password == old(password) && password[..] == old(password[..])
        && fresh(msg) && msg[..] == Added(old(msg[..]), kind, data)
    {
      if kind == USER_PASSWORD && password.Length == 0 {
        var padded := data + Zeros(PadLen(|data|, HASH_SIZE));
        password := new byte[|padded|](i requires 0 <= i < |padded| => padded[i]);
        assert password[..] == padded;
        return;
      }
      msg := Grow(kind, data);
    }

    method SetAuthenticator(authenticator: Block)
      requires msg.Length >= HEADER_SIZE
      modifies msg
      ensures msg[..] == WithAuthenticator(old(msg[..]), authenticator)
    {
      forall i | 0 <= i < HASH_SIZE {
        msg[4 + i] := authenticator[i];
      }
    }

    // Random for a request, otherwise that of the request, or zero
    method PrepareAuthenticator(reqAuth: Option<Block>, draw: Option<Block>)
      requires msg.Length >= HEADER_SIZE
      modifies msg
      ensures msg[..] == WithAuthenticator(old(msg[..]), Initial(draw, reqAuth))
    {
      if draw.Some? {
        SetAuthenticator(draw.value);
      } else if reqAuth.Some? {
        SetAuthenticator(reqAuth.value);
      } else {
        SetAuthenticator(Zeros(HASH_SIZE));
      }
    }

    // Encrypts the password in place and appends it
    method AddPassword(secret: bytes, hasher: Hasher) returns (ok: bool)
      requires Valid() && SigningFits(msg[..], password[..], false) && hasher.pending == []
      modifies this, password, hasher
      ensures hasher.reliable ==> ok
      ensures ok ==> Valid() && password.Length == 0 && hasher.pending == []
      ensures ok ==> msg[..] == WithPassword(old(msg[..]), old(password[..]), hasher.md5, secret)
      ensures msg == old(msg) || fresh(msg)
    {
      if password.Length == 0 {
        return true;
      }
      var authenticator := msg[4..HEADER_SIZE];
      ok := Crypt(authenticator, [], password, password, secret, hasher);
      if ok {
        assert authenticator + [] == authenticator;
        Add(USER_PASSWORD, password[..]);
        password := new byte[0];
      }
    }

    // A Message-Authenticator over the message in which it is zero
    method AddMessageAuthenticator(signer: Signer) returns (ok: bool)
      requires Valid() && password.Length == 0 && |msg[..]| + 2 + HASH_SIZE <= 0xFFFF
      modifies this
      ensures signer.reliable ==> ok
      ensures password == old(password) && fresh(msg)
      ensures ok ==> Valid() && msg[..] == WithMessageAuthenticator(old(msg[..]), signer.hmac)
    {
      Add(MESSAGE_AUTHENTICATOR, Zeros(HASH_SIZE));
      ghost var open := msg[..];
      var signature;
      ok, signature := signer.GetSignature(msg[..]);
      if ok {
        var off := msg.Length - HASH_SIZE;
        forall i | 0 <= i < HASH_SIZE {
          msg[off + i] := signature[i];
        }
        assert msg[..off] == open[..off] && msg[off..] == signature;
        assert msg[..] == msg[..off] + msg[off..];
      }
    }

    method HashOf(secret: bytes, hasher: Hasher) returns (ok: bool, b: Block)
      requires hasher.pending == []
      modifies hasher
      ensures hasher.reliable ==> ok
      ensures ok ==> hasher.pending == [] && b == hasher.md5(msg[..] + secret)
    {
      b := Zeros(HASH_SIZE);
      ok := hasher.Append(msg[..]);
      if ok {
        assert hasher.pending + secret == msg[..] + secret;
        ok, b := hasher.Finish(secret);
      }
    }

    // The hash of message and secret replaces the request authenticator it covers
    method AddResponseAuthenticator(secret: bytes, hasher: Hasher) returns (ok: bool)
      requires Valid() && hasher.pending == []
      modifies msg, hasher
      ensures hasher.reliable ==> ok
      ensures ok ==> Valid() && hasher.pending == []
      ensures ok ==> msg[..] == WithAuthenticator(old(msg[..]), hasher.md5(old(msg[..]) + secret))
    {
      var b;
      ok, b := HashOf(secret, hasher);
      if ok {
        SetAuthenticator(b);
      }
    }

    // `rng` is absent, or what it delivers, or fails
    method Sign(reqAuth: Option<Block>, secret: bytes, hasher: Hasher, signer: Signer,
                rng: Option<Option<Block>>, msgAuth: bool) returns (ok: bool)
      requires Valid() && SigningFits(msg[..], password[..], msgAuth) && hasher.pending == []
      modifies this, msg, password, hasher
      ensures rng == Some(None) ==> !ok
      ensures hasher.reliable && signer.reliable && rng != Some(None) ==> ok
      ensures ok ==> Valid() && password.Length == 0 && hasher.pending == []
      ensures ok ==> msg[..] == Signed(old(msg[..]), old(password[..]), hasher.md5, signer.hmac, secret,
                                       reqAuth, if rng.None? then None else rng.value, msgAuth)
    {
      if rng.Some? && rng.value.None? {
        return false;
      }
      PrepareAuthenticator(reqAuth, if rng.None? then None else rng.value);
      ok := AddPassword(secret, hasher);
      if ok && msgAuth {
        ok := AddMessageAuthenticator(signer);
      }
      if ok && rng.None? {
        ok := AddResponseAuthenticator(secret, hasher);
      }
    }

    // What the outcome of the search, and the buffer after it, say about the message searched
    ghost predicate Reports(m: bytes, after: bytes, hmac: bytes -> Block, failed: bool, hasEap: bool, hasAuth: bool)
      requires |m| >= HEADER_SIZE && Ends(m[HEADER_SIZE..])
    {
      match CheckAttributes(m, HEADER_SIZE, hmac, false)
      case Met(good, buffer) => failed == !good && hasAuth == good && after == buffer
      case NotMet(eap) => !failed && !hasAuth && hasEap == eap && after == m
    }

    // The attribute value from `off` on is blanked while the signature is checked
    method VerifyMessageAuthenticator(signer: Signer, off: nat, size: u64) returns (failed: bool, hasAuth: bool)
      requires size == HASH_SIZE ==> off + size <= msg.Length
      modifies msg
      ensures hasAuth == !failed
      ensures size != HASH_SIZE ==> failed && msg[..] == old(msg[..])
      ensures size == HASH_SIZE ==>
        var good := signer.hmac(Blanked(old(msg[..]), off)) == old(msg[off..off + size]);
        && (!failed ==> good) && (signer.reliable && good ==> !failed)
        && msg[..] == (if failed then Blanked(old(msg[..]), off) else old(msg[..]))
    {
      if size != HASH_SIZE {
        return true, false;
      }
      ghost var m := msg[..];
      var end := off + size;
      var value := msg[off..end];
      forall i | off <= i < end {
        msg[i] := 0;
      }
      assert msg[..] == Blanked(m, off);
      var good := signer.VerifySignature(msg[..], value);
      if !good {
        return true, false;
      }
      forall i | off <= i < end {
        msg[i] := value[i - off];
      }
      assert msg[..] == m;
      return false, true;
    }

    // Where the value of the first Message-Authenticator is, if there is one, and whether an EAP-Message
    // comes before it
    method FindMessageAuthenticator(ghost hmac: bytes -> Block) returns (at: Option<(nat, u64)>, hasEap: bool)
      requires msg.Length >= HEADER_SIZE && Ends(msg[HEADER_SIZE..])
      ensures at.Some? && at.value.1 == HASH_SIZE ==> at.value.0 + HASH_SIZE <= msg.Length
      ensures CheckAttributes(msg[..], HEADER_SIZE, hmac, false) ==
        if at.None? then NotMet(hasEap) else Judged(msg[..], at.value.0, at.value.1, hmac)
    {
      hasEap := false;
      ghost var m, pos := msg[..], HEADER_SIZE;
      ghost var outcome := CheckAttributes(m, HEADER_SIZE, hmac, false);
      var e := new AttributeEnumerator(msg);
      while true
        invariant fresh(e) && e.buf == msg && e.Valid() && e.next == pos <= |m| && Ends(m[pos..])
        invariant outcome == CheckAttributes(m, pos, hmac, hasEap)
        decreases |m| - pos
      {
        var found, kind, off, size := e.Enumerate();
        if !found {
          SearchEnds(m, pos, hmac, hasEap);
          return None, hasEap;
        }
        if kind == MESSAGE_AUTHENTICATOR {
          SearchGoesOn(m, pos, hmac, hasEap);
          return Some((off, size)), hasEap;
        }
        ghost var before := hasEap;
        if kind == EAP_MESSAGE {
          hasEap := true;
        }
        SearchPasses(m, pos, e.next, hmac, before, hasEap);
        pos := e.next;
      }
    }

    method VerifyAttributes(signer: Signer) returns (failed: bool, hasEap: bool, hasAuth: bool)
      requires msg.Length >= HEADER_SIZE && Ends(msg[HEADER_SIZE..])
      modifies msg
      ensures signer.reliable || !failed ==> Reports(old(msg[..]), msg[..], signer.hmac, failed, hasEap, hasAuth)
    {
      failed, hasAuth := false, false;
      var at;
      at, hasEap := FindMessageAuthenticator(signer.hmac);
      if at.Some? {
        failed, hasAuth := VerifyMessageAuthenticator(signer, at.value.0, at.value.1);
      }
    }

    // Ends if the attributes do, or are not looked at
    method Verify(reqAuth: Option<Block>, secret: bytes, hasher: Hasher, signer: Signer) returns (ok: bool)
      requires Valid() && hasher.pending == []
      requires Refused(msg[..], hasher.md5, secret, reqAuth) || Ends(msg[HEADER_SIZE..])
      modifies msg, hasher
      ensures ok ==> msg[..] == old(msg[..]) && hasher.pending == []
      ensures ok ==> Verified(msg[..], hasher.md5, signer.hmac, secret, reqAuth).ok
      ensures hasher.reliable && signer.reliable ==>
        Verdict(ok, msg[..]) == Verified(old(msg[..]), hasher.md5, signer.hmac, secret, reqAuth)
    {
      var response := msg[0] != ACCESS_REQUEST;
      var resAuth := msg[4..HEADER_SIZE];
      if response {
        SetAuthenticator(if reqAuth.Some? then reqAuth.value else Zeros(HASH_SIZE));
        var hashed, b := HashOf(secret, hasher);
        if !hashed || b != resAuth {
          return false;
        }
      }
      var failed, hasEap, hasAuth := VerifyAttributes(signer);
      if failed {
        return false;
      }
      if response {
        ghost var m := old(msg[..]);
        SetAuthenticatorTwice(m, Initial(None, reqAuth), resAuth);
        SetAuthenticator(resAuth);
      }
      return !(hasEap && !hasAuth);
    }
  }
}
