// RADIUS messages as they are built, signed and verified in place (radius_message.c), section 3 of
// RFC 2865 and section 5.14 of RFC 2869.
module RadiusSigning {
  import opened Base
  import opened RadiusCrypto
  import opened RadiusMessage

  // ---------------------------------------------------------------- messages as values

  // A header whose length field says how long the message is
  predicate Framed(m: bytes) { |m| >= HEADER_SIZE && U16(m, 2) == |m| }

  function Authenticator(m: bytes): Block
    requires |m| >= HEADER_SIZE
  {
    m[4..HEADER_SIZE]
  }

  function WithAuthenticator(m: bytes, authenticator: Block): (r: bytes)
    requires |m| >= HEADER_SIZE
    ensures |r| == |m| && r[..4] == m[..4] && r[HEADER_SIZE..] == m[HEADER_SIZE..] && Authenticator(r) == authenticator
  {
    m[..4] + authenticator + m[HEADER_SIZE..]
  }

  lemma SetAuthenticatorTwice(m: bytes, a: Block, b: Block)
    requires |m| >= HEADER_SIZE
    ensures WithAuthenticator(WithAuthenticator(m, a), b) == WithAuthenticator(m, b)
    ensures WithAuthenticator(m, Authenticator(m)) == m
  {}

  predicate Fits(m: bytes, data: bytes) { |m| + 2 + |Cut(data)| <= 0xFFFF }

  // The length field has 16 bits and wraps around
  function WithLength(m: bytes, length: nat): (r: bytes)
    requires |m| >= HEADER_SIZE
    ensures |r| == |m| && U16(r, 2) == length % 0x1_0000
    ensures r[..2] == m[..2] && r[4..HEADER_SIZE] == m[4..HEADER_SIZE] && r[HEADER_SIZE..] == m[HEADER_SIZE..]
  {
    m[..2] + Be16(length % 0x1_0000) + m[4..]
  }

  function Added(m: bytes, kind: byte, data: bytes): (r: bytes)
    requires |m| >= HEADER_SIZE
    ensures Framed(r) <==> Fits(m, data)
    ensures |r| == |m| + 2 + |Cut(data)|
    ensures r[..2] == m[..2] && r[4..HEADER_SIZE] == m[4..HEADER_SIZE]
    ensures r[HEADER_SIZE..] == m[HEADER_SIZE..] + Encode(kind, data)
  {
    var r := WithLength(m, |m| + 2 + |Cut(data)|);
    assert U16(r + Encode(kind, data), 2) == U16(r, 2);
    r + Encode(kind, data)
  }

  // A fresh message, and a message with a list of attributes added one after the other
  function Empty(code: byte): bytes { [code, 0] + Be16(HEADER_SIZE) + Zeros(HASH_SIZE) }

  function AddedAll(m: bytes, attributes: seq<Attribute>): (r: bytes)
    requires |m| >= HEADER_SIZE && |m| + |EncodeAll(attributes)| <= 0xFFFF
    ensures |r| == |m| + |EncodeAll(attributes)|
    ensures r[..2] == m[..2] && r[4..HEADER_SIZE] == m[4..HEADER_SIZE]
    ensures r[HEADER_SIZE..] == m[HEADER_SIZE..] + EncodeAll(attributes)
    ensures attributes != [] || Framed(m) ==> Framed(r)
    decreases |attributes|
  {
    if attributes == [] then m
    else AddedAll(Added(m, attributes[0].kind, attributes[0].value), attributes[1..])
  }

  // Whatever is added, the message parses and enumerates to just that
  lemma AddedIsEnumerated(code: byte, attributes: seq<Attribute>)
    requires HEADER_SIZE + |EncodeAll(attributes)| <= 0xFFFF
    ensures var m := AddedAll(Empty(code), attributes);
      && Framed(m) && m[0] == code && m[1] == 0 && m[4..20] == Zeros(16) && Proper(m[HEADER_SIZE..])
      && Attributes(m[HEADER_SIZE..]) == CutAll(attributes)
  {
    var m := AddedAll(Empty(code), attributes);
    AttributesOfEncoding(attributes);
    assert Empty(code)[HEADER_SIZE..] == [];
    assert m[HEADER_SIZE..] == EncodeAll(attributes);
    assert m[..2][0] == Empty(code)[..2][0] && m[..2][1] == Empty(code)[..2][1];
  }

  // ---------------------------------------------------------------- signing

  // The authenticator a message carries while it is signed: random for a request, else the request's
  function Initial(draw: Option<Block>, reqAuth: Option<Block>): Block {
    match draw
    case Some(random) => random
    case None => match reqAuth case Some(auth) => auth case None => Zeros(HASH_SIZE)
  }

  predicate SigningFits(m: bytes, password: bytes, msgAuth: bool) {
    |m| + (if password != [] then 2 + |Cut(password)| else 0) + (if msgAuth then 2 + HASH_SIZE else 0) <= 0xFFFF
  }

  function WithPassword(m: bytes, password: bytes, md5: bytes -> Block, secret: bytes): (r: bytes)
    requires |m| >= HEADER_SIZE && |password| % HASH_SIZE == 0 && SigningFits(m, password, false)
    ensures |r| == |m| + (if password != [] then 2 + |Cut(password)| else 0)
  {
    if password != [] then Added(m, USER_PASSWORD, Chain(true, md5, secret, Authenticator(m), password)) else m
  }

  function WithMessageAuthenticator(m: bytes, hmac: bytes -> Block): (r: bytes)
    requires |m| >= HEADER_SIZE && |m| + 2 + HASH_SIZE <= 0xFFFF
    ensures |r| == |m| + 2 + HASH_SIZE
  {
    var open := Added(m, MESSAGE_AUTHENTICATOR, Zeros(HASH_SIZE));
    open[..|open| - HASH_SIZE] + hmac(open)
  }

  // The message a signature covers: what is hashed for a response, what is sent for a request
  function Covered(m: bytes, password: bytes, md5: bytes -> Block, hmac: bytes -> Block, secret: bytes,
                   initial: Block, msgAuth: bool): (r: bytes)
    requires |m| >= HEADER_SIZE && |password| % HASH_SIZE == 0 && SigningFits(m, password, msgAuth)
    ensures |r| >= HEADER_SIZE
  {
    var m1 := WithPassword(WithAuthenticator(m, initial), password, md5, secret);
    if msgAuth then WithMessageAuthenticator(m1, hmac) else m1
  }

  function Signed(m: bytes, password: bytes, md5: bytes -> Block, hmac: bytes -> Block, secret: bytes,
                  reqAuth: Option<Block>, draw: Option<Block>, msgAuth: bool): (r: bytes)
    requires |m| >= HEADER_SIZE && |password| % HASH_SIZE == 0 && SigningFits(m, password, msgAuth)
    ensures |r| >= HEADER_SIZE
  {
    var covered := Covered(m, password, md5, hmac, secret, Initial(draw, reqAuth), msgAuth);
    if draw.None? then WithAuthenticator(covered, md5(covered + secret)) else covered
  }

  // ---------------------------------------------------------------- verifying

  function Blanked(m: bytes, off: nat): (r: bytes)
    requires off + HASH_SIZE <= |m|
    ensures |r| == |m|
  {
    m[..off] + Zeros(HASH_SIZE) + m[off + HASH_SIZE..]
  }

  // The search for a Message-Authenticator: whether the one met is right, and what the buffer then
  // holds; or whether an EAP-Message was met without one
  datatype Check = Met(ok: bool, buffer: bytes) | NotMet(hasEap: bool)

  // The verdict on a Message-Authenticator whose value is there from `off` on
  function Judged(m: bytes, off: nat, size: u64, hmac: bytes -> Block): (r: Check)
    requires size == HASH_SIZE ==> off + size <= |m|
    ensures r.Met? && |r.buffer| == |m| && (r.ok ==> r.buffer == m)
  {
    if size != HASH_SIZE then Met(false, m)
    else if hmac(Blanked(m, off)) == m[off..off + size] then Met(true, m)
    else Met(false, Blanked(m, off))
  }

  lemma JudgedIff(m: bytes, p: nat, hmac: bytes -> Block)
    requires WholeAt(m, p)
    ensures Judged(m, p + 2, Sub64(m[p + 1], 2), hmac).ok <==>
      m[p + 1] == 18 && m[p + 2..p + 18] == hmac(m[..p + 2] + Zeros(16) + m[p + 18..])
  {}

  function CheckAttributes(m: bytes, pos: nat, hmac: bytes -> Block, hasEap: bool): (r: Check)
    requires pos <= |m| && Ends(m[pos..])
    ensures r.Met? ==> |r.buffer| == |m| && (r.ok ==> r.buffer == m)
    decreases |m| - pos
  {
    if |m| - pos < 2 || |m| - pos < m[pos + 1] then NotMet(hasEap)
    else if m[pos] == MESSAGE_AUTHENTICATOR then Judged(m, pos + 2, Sub64(m[pos + 1], 2), hmac)
    else
      assert m[pos..][m[pos + 1]..] == m[pos + m[pos + 1]..];
      CheckAttributes(m, pos + m[pos + 1], hmac, hasEap || m[pos] == EAP_MESSAGE)
  }

  // The search at an attribute, and behind the last one
  lemma SearchGoesOn(m: bytes, pos: nat, hmac: bytes -> Block, hasEap: bool)
    requires pos <= |m| && Ends(m[pos..]) && WholeAt(m, pos)
    ensures m[pos] != MESSAGE_AUTHENTICATOR ==> m[pos + 1] > 0 && Ends(m[pos + m[pos + 1]..])
    ensures CheckAttributes(m, pos, hmac, hasEap) ==
      if m[pos] == MESSAGE_AUTHENTICATOR then Judged(m, pos + 2, Sub64(m[pos + 1], 2), hmac)
      else CheckAttributes(m, pos + m[pos + 1], hmac, hasEap || m[pos] == EAP_MESSAGE)
  {
    assert m[pos..][0] == m[pos] && m[pos..][1] == m[pos + 1];
    assert m[pos..][m[pos + 1]..] == m[pos + m[pos + 1]..];
  }

  lemma SearchPasses(m: bytes, pos: nat, next: nat, hmac: bytes -> Block, hasEap: bool, hasEap': bool)
    requires pos <= |m| && Ends(m[pos..]) && WholeAt(m, pos) && m[pos] != MESSAGE_AUTHENTICATOR
    requires next == pos + m[pos + 1] && (hasEap' <==> hasEap || m[pos] == EAP_MESSAGE)
    ensures pos < next <= |m| && Ends(m[next..])
    ensures CheckAttributes(m, pos, hmac, hasEap) == CheckAttributes(m, next, hmac, hasEap')
  {
    SearchGoesOn(m, pos, hmac, hasEap);
  }

  lemma SearchEnds(m: bytes, pos: nat, hmac: bytes -> Block, hasEap: bool)
    requires pos <= |m| && Ends(m[pos..]) && !WholeAt(m, pos)
    ensures CheckAttributes(m, pos, hmac, hasEap) == NotMet(hasEap)
  {}

  // The message as its sender signed it
  function Patched(m: bytes, reqAuth: Option<Block>): (r: bytes)
    requires |m| >= HEADER_SIZE
    ensures |r| == |m| && r[HEADER_SIZE..] == m[HEADER_SIZE..]
  {
    if m[0] != ACCESS_REQUEST then WithAuthenticator(m, Initial(None, reqAuth)) else m
  }

  // A response whose authenticator is wrong; anything else has its attributes searched
  predicate Refused(m: bytes, md5: bytes -> Block, secret: bytes, reqAuth: Option<Block>)
    requires |m| >= HEADER_SIZE
  {
    m[0] != ACCESS_REQUEST && md5(Patched(m, reqAuth) + secret) != Authenticator(m)
  }

  // The verdict, and what the buffer holds afterwards
  datatype Verdict = Verdict(ok: bool, buffer: bytes)

  function Verified(m: bytes, md5: bytes -> Block, hmac: bytes -> Block, secret: bytes, reqAuth: Option<Block>): Verdict
    requires |m| >= HEADER_SIZE && (Refused(m, md5, secret, reqAuth) || Ends(m[HEADER_SIZE..]))
  {
    var patched := Patched(m, reqAuth);
    if Refused(m, md5, secret, reqAuth) then Verdict(false, patched)
    else match CheckAttributes(patched, HEADER_SIZE, hmac, false)
      case Met(ok, buffer) => if ok then Verdict(true, m) else Verdict(false, buffer)
      case NotMet(hasEap) => Verdict(!hasEap, m)
  }

  // Whole attributes start there
  predicate AllThere(m: bytes, at: seq<nat>) {
    forall i | 0 <= i < |at| :: at[i] + 2 <= |m| && at[i] + m[at[i] + 1] <= |m|
  }

  // Where the attributes start that a search for a Message-Authenticator comes to; it does not get past one
  // that declares a length of 0
  function Visited(m: bytes, pos: nat): (at: seq<nat>)
    ensures AllThere(m, at)
    decreases |m| - pos
  {
    if |m| < pos + 2 || |m| < pos + m[pos + 1] then []
    else if m[pos] == 80 || m[pos + 1] == 0 then [pos]
    else [pos] + Visited(m, pos + m[pos + 1])
  }

  predicate SomeEap(m: bytes, at: seq<nat>)
    requires AllThere(m, at)
  {
    exists i :: 0 <= i < |at| && m[at[i]] == 79
  }

  function OutcomeAt(m: bytes, at: seq<nat>, hmac: bytes -> Block, hasEap: bool): Check
    requires AllThere(m, at)
  {
    if at != [] && m[at[|at| - 1]] == 80 then Judged(m, at[|at| - 1] + 2, Sub64(m[at[|at| - 1] + 1], 2), hmac)
    else NotMet(hasEap || SomeEap(m, at))
  }

  lemma EapFirst(m: bytes, pos: nat, rest: seq<nat>)
    requires pos < |m| && AllThere(m, [pos] + rest)
    ensures AllThere(m, rest) && (SomeEap(m, [pos] + rest) <==> m[pos] == 79 || SomeEap(m, rest))
  {
    var at := [pos] + rest;
    assert at[0] == pos;
    forall i | 0 <= i < |rest| ensures rest[i] == at[i + 1] {}
  }

  lemma OutcomeAtFirst(m: bytes, pos: nat, rest: seq<nat>, hmac: bytes -> Block, hasEap: bool)
    requires pos < |m| && AllThere(m, [pos] + rest) && m[pos] != 80
    ensures AllThere(m, rest)
    ensures OutcomeAt(m, [pos] + rest, hmac, hasEap) == OutcomeAt(m, rest, hmac, hasEap || m[pos] == 79)
  {
    var at := [pos] + rest;
    EapFirst(m, pos, rest);
    if rest == [] {
      assert at[|at| - 1] == pos;
    } else {
      assert at[|at| - 1] == rest[|rest| - 1];
    }
  }

  lemma VisitedPast(m: bytes, pos: nat, next: nat, rest: seq<nat>, hmac: bytes -> Block, hasEap: bool)
    returns (at: seq<nat>)
    requires WholeAt(m, pos) && m[pos] != 80 && next == pos + m[pos + 1] > pos && rest == Visited(m, next)
    ensures at == Visited(m, pos)
    ensures AllThere(m, at) && AllThere(m, rest)
    ensures OutcomeAt(m, at, hmac, hasEap) == OutcomeAt(m, rest, hmac, hasEap || m[pos] == 79)
  {
    at := [pos] + rest;
    assert Visited(m, pos) == [pos] + Visited(m, next);
    OutcomeAtFirst(m, pos, rest, hmac, hasEap);
  }

  lemma SearchStops(m: bytes, pos: nat, hmac: bytes -> Block, hasEap: bool) returns (at: seq<nat>, check: Check)
    requires pos <= |m| && Ends(m[pos..]) && (WholeAt(m, pos) ==> m[pos] == 80)
    ensures at == Visited(m, pos) && AllThere(m, at)
    ensures check == CheckAttributes(m, pos, hmac, hasEap)
    ensures check == OutcomeAt(m, at, hmac, hasEap)
  {
    at, check := Visited(m, pos), CheckAttributes(m, pos, hmac, hasEap);
    assert !SomeEap(m, []);
  }

  lemma {:induction false} CheckedWhereVisited(m: bytes, pos: nat, hmac: bytes -> Block, hasEap: bool)
    returns (at: seq<nat>, check: Check)
    requires pos <= |m| && Ends(m[pos..])
    ensures at == Visited(m, pos)
    ensures AllThere(m, at)
    ensures check == CheckAttributes(m, pos, hmac, hasEap)
    ensures check == OutcomeAt(m, at, hmac, hasEap)
    decreases |m| - pos
  {
    if !WholeAt(m, pos) || m[pos] == 80 {
      at, check := SearchStops(m, pos, hmac, hasEap);
    } else {
      var next, eap := pos + m[pos + 1], hasEap || m[pos] == 79;
      var rest;
      SearchPasses(m, pos, next, hmac, hasEap, eap);
      rest, check := CheckedWhereVisited(m, next, hmac, eap);
      at := VisitedPast(m, pos, next, rest, hmac, hasEap);
    }
  }

  // The message with the authenticator of the request in place of its own
  function Unanswered(m: bytes, reqAuth: Option<Block>): bytes
    requires |m| >= 20
  {
    m[..4] + (if reqAuth.Some? then reqAuth.value else Zeros(16)) + m[20..]
  }

  // The response was made by someone who knows the secret, for this request
  predicate Genuine(m: bytes, md5: bytes -> Block, secret: bytes, reqAuth: Option<Block>)
    requires |m| >= 20
  {
    m[4..20] == md5(Unanswered(m, reqAuth) + secret)
  }

  // Of the attributes at these positions the last, if it is a Message-Authenticator, is right; if not, none is
  // an EAP-Message
  predicate IsProtected(m: bytes, at: seq<nat>, hmac: bytes -> Block)
    requires AllThere(m, at)
  {
    if at != [] && m[at[|at| - 1]] == 80 then
      var p := at[|at| - 1];
      m[p + 1] == 18 && m[p + 2..p + 18] == hmac(m[..p + 2] + Zeros(16) + m[p + 18..])
    else !SomeEap(m, at)
  }

  // The first Message-Authenticator, if there is one, is right; there is one if there is an EAP-Message
  predicate Protected(m: bytes, hmac: bytes -> Block)
    requires |m| >= 20
  {
    IsProtected(m, Visited(m, 20), hmac)
  }

  lemma OutcomeIsProtected(m: bytes, at: seq<nat>, hmac: bytes -> Block)
    requires AllThere(m, at)
    ensures IsProtected(m, at, hmac) <==>
      match OutcomeAt(m, at, hmac, false)
      case Met(ok, _) => ok
      case NotMet(hasEap) => !hasEap
  {
    if at != [] && m[at[|at| - 1]] == 80 {
      JudgedIff(m, at[|at| - 1], hmac);
    }
  }

  lemma ProtectedIff(m: bytes, hmac: bytes -> Block)
    requires |m| >= 20 && Ends(m[20..])
    ensures Protected(m, hmac) <==>
      match CheckAttributes(m, 20, hmac, false)
      case Met(ok, _) => ok
      case NotMet(hasEap) => !hasEap
  {
    var at, check := CheckedWhereVisited(m, 20, hmac, false);
    OutcomeIsProtected(m, at, hmac);
  }

  // A message is accepted exactly if it is a request, or a response whose authenticator is the hash over
  // itself with the request's authenticator and the secret, and the first Message-Authenticator in it is
  // right, or there is neither one nor an EAP-Message
  lemma VerifiedIff(m: bytes, md5: bytes -> Block, hmac: bytes -> Block, secret: bytes, reqAuth: Option<Block>)
    requires |m| >= 20 && ((m[0] != 1 && !Genuine(m, md5, secret, reqAuth)) || Ends(m[20..]))
    ensures Refused(m, md5, secret, reqAuth) <==> m[0] != 1 && !Genuine(m, md5, secret, reqAuth)
    ensures Verified(m, md5, hmac, secret, reqAuth).ok <==>
      if m[0] == 1 then Protected(m, hmac)
      else Genuine(m, md5, secret, reqAuth) && Protected(Unanswered(m, reqAuth), hmac)
  {
    var sent := Patched(m, reqAuth);
    assert sent == if m[0] == 1 then m else Unanswered(m, reqAuth);
    if !Refused(m, md5, secret, reqAuth) {
      ProtectedIff(sent, hmac);
    }
  }

  // ---------------------------------------------------------------- what was signed verifies

  function HasEap(attributes: seq<Attribute>): bool {
    attributes != [] && (attributes[0].kind == EAP_MESSAGE || HasEap(attributes[1..]))
  }

  predicate NoneIsMessageAuthenticator(attributes: seq<Attribute>) {
    attributes == [] || (attributes[0].kind != MESSAGE_AUTHENTICATOR && NoneIsMessageAuthenticator(attributes[1..]))
  }

  lemma ProperFrom(b: bytes, kind: byte, data: bytes)
    requires Encode(kind, data) <= b && Proper(b[|Encode(kind, data)|..])
    ensures |b| >= 2 && b[0] == kind && b[1] == |Encode(kind, data)| <= |b| && Proper(b)
  {
    var first := Encode(kind, data);
    assert b[0] == first[0] && b[1] == first[1];
  }

  lemma PassOverOne(m: bytes, pos: nat, next: nat, kind: byte, data: bytes, hmac: bytes -> Block, hasEap: bool)
    requires pos <= |m| && Encode(kind, data) <= m[pos..] && kind != MESSAGE_AUTHENTICATOR
    requires next == pos + |Encode(kind, data)| && Proper(m[next..])
    ensures Proper(m[pos..])
    ensures CheckAttributes(m, pos, hmac, hasEap) == CheckAttributes(m, next, hmac, hasEap || kind == EAP_MESSAGE)
  {
    var rest := m[pos..];
    assert rest[next - pos..] == m[next..];
    ProperFrom(rest, kind, data);
    assert m[pos] == rest[0] && m[pos + 1] == rest[1];
    SearchPasses(m, pos, next, hmac, hasEap, hasEap || kind == EAP_MESSAGE);
  }

  lemma PrefixSplit(m: bytes, pos: nat, first: bytes, rest: bytes)
    requires pos <= |m| && first + rest <= m[pos..]
    ensures first <= m[pos..] && pos + |first| <= |m| && rest <= m[pos + |first|..]
  {}

  // Attributes other than Message-Authenticator are passed over, noting whether one was an EAP-Message
  lemma {:induction false} PassOver(m: bytes, pos: nat, end: nat, attributes: seq<Attribute>,
                                    hmac: bytes -> Block, hasEap: bool)
    requires pos <= |m| && EncodeAll(attributes) <= m[pos..] && NoneIsMessageAuthenticator(attributes)
    requires end == pos + |EncodeAll(attributes)| && Proper(m[end..])
    ensures Proper(m[pos..])
    ensures CheckAttributes(m, pos, hmac, hasEap) == CheckAttributes(m, end, hmac, hasEap || HasEap(attributes))
    decreases |attributes|
  {
    if attributes == [] {
      assert end == pos;
    } else {
      var a, tail := attributes[0], attributes[1..];
      var first, rest := Encode(a.kind, a.value), EncodeAll(tail);
      PrefixSplit(m, pos, first, rest);
      var next := pos + |first|;
      PassOver(m, next, end, tail, hmac, hasEap || a.kind == EAP_MESSAGE);
      PassOverOne(m, pos, next, a.kind, a.value, hmac, hasEap);
    }
  }

  // The list of attributes that end up in a signed message, before its Message-Authenticator
  function Listed(attributes: seq<Attribute>, password: bytes, md5: bytes -> Block, secret: bytes, initial: Block)
    : seq<Attribute>
    requires |password| % HASH_SIZE == 0
  {
    if password == [] then attributes
    else attributes + [Attribute(USER_PASSWORD, Chain(true, md5, secret, initial, password))]
  }

  lemma NothingElseChecks(c: bytes, listed: seq<Attribute>, hmac: bytes -> Block)
    requires |c| >= HEADER_SIZE && c[HEADER_SIZE..] == EncodeAll(listed)
    requires NoneIsMessageAuthenticator(listed)
    ensures Proper(c[HEADER_SIZE..]) && CheckAttributes(c, HEADER_SIZE, hmac, false) == NotMet(HasEap(listed))
  {
    assert c[|c|..] == [];
    PassOver(c, HEADER_SIZE, |c|, listed, hmac, false);
  }

  lemma {:induction false} HasEapConcat(a: seq<Attribute>, b: seq<Attribute>)
    ensures HasEap(a + b) == (HasEap(a) || HasEap(b))
  {
    if a == [] {
      assert a + b == b;
    } else {
      assert (a + b)[1..] == a[1..] + b;
      HasEapConcat(a[1..], b);
    }
  }

  lemma {:induction false} NoneIsConcat(a: seq<Attribute>, b: seq<Attribute>)
    requires NoneIsMessageAuthenticator(a) && NoneIsMessageAuthenticator(b)
    ensures NoneIsMessageAuthenticator(a + b)
  {
    if a == [] {
      assert a + b == b;
    } else {
      assert (a + b)[1..] == a[1..] + b;
      NoneIsConcat(a[1..], b);
    }
  }

  lemma PasswordLayout(m: bytes, attributes: seq<Attribute>, password: bytes, md5: bytes -> Block, secret: bytes,
                       initial: Block)
    requires |m| >= HEADER_SIZE && m[HEADER_SIZE..] == EncodeAll(attributes)
    requires |password| % HASH_SIZE == 0 && SigningFits(m, password, false)
    ensures var m1 := WithPassword(WithAuthenticator(m, initial), password, md5, secret);
      && m1[HEADER_SIZE..] == EncodeAll(Listed(attributes, password, md5, secret, initial))
      && m1[0] == m[0] && Authenticator(m1) == initial
  {
    var m0 := WithAuthenticator(m, initial);
    assert m0[..4][0] == m[..4][0];
    if password != [] {
      var a := Attribute(USER_PASSWORD, Chain(true, md5, secret, initial, password));
      EncodeAllConcat(attributes, [a]);
      assert EncodeAll([a]) == Encode(a.kind, a.value) + EncodeAll([]);
      var m1 := Added(m0, a.kind, a.value);
      assert m1[..2][0] == m0[..2][0];
      assert Authenticator(m1) == m1[4..HEADER_SIZE] == m0[4..HEADER_SIZE];
    }
  }

  lemma PasswordListed(m: bytes, attributes: seq<Attribute>, password: bytes, md5: bytes -> Block, secret: bytes,
                       initial: Block)
    requires |m| >= HEADER_SIZE && m[HEADER_SIZE..] == EncodeAll(attributes)
    requires |password| % HASH_SIZE == 0 && SigningFits(m, password, false)
    requires NoneIsMessageAuthenticator(attributes)
    ensures var m1 := WithPassword(WithAuthenticator(m, initial), password, md5, secret);
      var listed := Listed(attributes, password, md5, secret, initial);
      && m1[HEADER_SIZE..] == EncodeAll(listed) && m1[0] == m[0] && Authenticator(m1) == initial
      && NoneIsMessageAuthenticator(listed) && HasEap(listed) == HasEap(attributes)
  {
    PasswordLayout(m, attributes, password, md5, secret, initial);
    if password != [] {
      var a := Attribute(USER_PASSWORD, Chain(true, md5, secret, initial, password));
      HasEapConcat(attributes, [a]);
      NoneIsConcat(attributes, [a]);
    }
  }

  lemma SealLayout(m1: bytes, listed: seq<Attribute>, hmac: bytes -> Block)
    requires |m1| >= HEADER_SIZE && m1[HEADER_SIZE..] == EncodeAll(listed) && |m1| + 2 + HASH_SIZE <= 0xFFFF
    ensures var c := WithMessageAuthenticator(m1, hmac);
      EncodeAll(listed) <= c[HEADER_SIZE..] && c[0] == m1[0] && Authenticator(c) == Authenticator(m1)
  {}

  lemma SealChecks(m1: bytes, hmac: bytes -> Block)
    requires |m1| >= HEADER_SIZE && |m1| + 2 + HASH_SIZE <= 0xFFFF
    ensures var c := WithMessageAuthenticator(m1, hmac);
      && Proper(c[|m1|..]) && |c| == |m1| + 2 + HASH_SIZE
      && c[|m1|] == MESSAGE_AUTHENTICATOR && c[|m1| + 1] == 2 + HASH_SIZE
      && hmac(Blanked(c, |m1| + 2)) == c[|m1| + 2..|m1| + 2 + HASH_SIZE]
  {
    var open := Added(m1, MESSAGE_AUTHENTICATOR, Zeros(HASH_SIZE));
    var c := WithMessageAuthenticator(m1, hmac);
    var at := |m1|;
    var last := Encode(MESSAGE_AUTHENTICATOR, Zeros(HASH_SIZE));
    assert open[HEADER_SIZE..] == m1[HEADER_SIZE..] + last;
    assert open[at..] == open[HEADER_SIZE..][at - HEADER_SIZE..] == last;
    assert c[at] == open[at] == last[0] && c[at + 1] == open[at + 1] == last[1];
    assert open[at + 2..] == last[2..] == Zeros(HASH_SIZE);
    assert c[..at + 2] == open[..at + 2] && c[at + 2..] == hmac(open);
    assert Blanked(c, at + 2) == open;
    assert c[at..][2 + HASH_SIZE..] == [];
  }

  lemma SealIgnoresEap(c: bytes, at: nat, hmac: bytes -> Block)
    requires |c| == at + 2 + HASH_SIZE && Proper(c[at..])
    requires c[at] == MESSAGE_AUTHENTICATOR && c[at + 1] == 2 + HASH_SIZE
    requires hmac(Blanked(c, at + 2)) == c[at + 2..at + 2 + HASH_SIZE]
    ensures forall hasEap :: CheckAttributes(c, at, hmac, hasEap) == Met(true, c)
  {}

  lemma MessageAuthenticatorChecks(m1: bytes, listed: seq<Attribute>, hmac: bytes -> Block)
    requires |m1| >= HEADER_SIZE && m1[HEADER_SIZE..] == EncodeAll(listed) && |m1| + 2 + HASH_SIZE <= 0xFFFF
    requires NoneIsMessageAuthenticator(listed)
    ensures var c := WithMessageAuthenticator(m1, hmac);
      && Proper(c[HEADER_SIZE..]) && c[0] == m1[0] && Authenticator(c) == Authenticator(m1)
      && CheckAttributes(c, HEADER_SIZE, hmac, false) == Met(true, c)
  {
    var c := WithMessageAuthenticator(m1, hmac);
    SealLayout(m1, listed, hmac);
    SealChecks(m1, hmac);
    PassOver(c, HEADER_SIZE, |m1|, listed, hmac, false);
    SealIgnoresEap(c, |m1|, hmac);
  }

  // Verification of a message whose signature covers a message `c`, from the point where the
  // authenticator is as it was when `c` was signed
  lemma CoveredChecks(m: bytes, attributes: seq<Attribute>, password: bytes, md5: bytes -> Block, hmac: bytes -> Block,
                      secret: bytes, initial: Block, msgAuth: bool)
    requires |m| >= HEADER_SIZE && m[HEADER_SIZE..] == EncodeAll(attributes)
    requires |password| % HASH_SIZE == 0 && SigningFits(m, password, msgAuth)
    requires NoneIsMessageAuthenticator(attributes)
    ensures var c := Covered(m, password, md5, hmac, secret, initial, msgAuth);
      && Proper(c[HEADER_SIZE..]) && c[0] == m[0] && Authenticator(c) == initial
      && CheckAttributes(c, HEADER_SIZE, hmac, false) == (if msgAuth then Met(true, c) else NotMet(HasEap(attributes)))
  {
    var c := Covered(m, password, md5, hmac, secret, initial, msgAuth);
    var m1 := WithPassword(WithAuthenticator(m, initial), password, md5, secret);
    var listed := Listed(attributes, password, md5, secret, initial);
    PasswordListed(m, attributes, password, md5, secret, initial);
    if msgAuth {
      MessageAuthenticatorChecks(m1, listed, hmac);
    } else {
      NothingElseChecks(c, listed, hmac);
    }
  }

  // A message made of added attributes, none of them a Message-Authenticator, and signed as an
  // Access-Request with random authenticator, or as any other message without, verifies under the same
  // secret and request authenticator exactly if a Message-Authenticator was asked for in case it carries
  // an EAP-Message; and verification leaves the message as it is
  lemma SignedVerifies(m: bytes, attributes: seq<Attribute>, password: bytes, md5: bytes -> Block, hmac: bytes -> Block,
                       secret: bytes, reqAuth: Option<Block>, draw: Option<Block>, msgAuth: bool)
    requires |m| >= HEADER_SIZE && m[HEADER_SIZE..] == EncodeAll(attributes)
    requires |password| % HASH_SIZE == 0 && SigningFits(m, password, msgAuth)
    requires NoneIsMessageAuthenticator(attributes)
    requires m[0] == ACCESS_REQUEST <==> draw.Some?
    ensures var signed := Signed(m, password, md5, hmac, secret, reqAuth, draw, msgAuth);
      && Proper(signed[HEADER_SIZE..])
      && Verified(signed, md5, hmac, secret, reqAuth) == Verdict(HasEap(attributes) ==> msgAuth, signed)
  {
    var initial := Initial(draw, reqAuth);
    CoveredChecks(m, attributes, password, md5, hmac, secret, initial, msgAuth);
    var c := Covered(m, password, md5, hmac, secret, initial, msgAuth);
    var signed := Signed(m, password, md5, hmac, secret, reqAuth, draw, msgAuth);
    if draw.None? {
      assert signed[..4][0] == c[..4][0];
      SetAuthenticatorTwice(c, md5(c + secret), initial);
      SetAuthenticatorTwice(c, initial, initial);
      assert Patched(signed, reqAuth) == c;
    }
  }

  // ---------------------------------------------------------------- what was signed can be read

  lemma ValueReplaced(open: bytes, before: bytes, mac: Block)
    requires |open| >= HEADER_SIZE && open[HEADER_SIZE..] == before + Encode(MESSAGE_AUTHENTICATOR, Zeros(HASH_SIZE))
    ensures |open| >= HEADER_SIZE + HASH_SIZE
    ensures (open[..|open| - HASH_SIZE] + mac)[HEADER_SIZE..] == before + ([MESSAGE_AUTHENTICATOR, 2 + HASH_SIZE] + mac)
  {
    var kept := open[HEADER_SIZE..][..|open| - HASH_SIZE - HEADER_SIZE];
    assert kept == before + [MESSAGE_AUTHENTICATOR, 2 + HASH_SIZE];
    assert (open[..|open| - HASH_SIZE] + mac)[HEADER_SIZE..] == kept + mac;
  }

  lemma SealedAttribute(m1: bytes, listed: seq<Attribute>, hmac: bytes -> Block) returns (mac: bytes)
    requires |m1| >= HEADER_SIZE && m1[HEADER_SIZE..] == EncodeAll(listed) && |m1| + 2 + HASH_SIZE <= 0xFFFF
    ensures |mac| == HASH_SIZE
    ensures var c := WithMessageAuthenticator(m1, hmac);
      c[HEADER_SIZE..] == EncodeAll(listed + [Attribute(MESSAGE_AUTHENTICATOR, mac)])
  {
    var open := Added(m1, MESSAGE_AUTHENTICATOR, Zeros(HASH_SIZE));
    mac := hmac(open);
    var a := Attribute(MESSAGE_AUTHENTICATOR, mac);
    ValueReplaced(open, EncodeAll(listed), mac);
    calc {
      EncodeAll(listed) + ([MESSAGE_AUTHENTICATOR, 2 + HASH_SIZE] + mac);
    ==  { assert EncodeAll([a]) == Encode(a.kind, a.value) + EncodeAll([]); }
      EncodeAll(listed) + EncodeAll([a]);
    ==  { EncodeAllConcat(listed, [a]); }
      EncodeAll(listed + [a]);
    }
  }

  lemma CoveredLayout(m: bytes, attributes: seq<Attribute>, password: bytes, md5: bytes -> Block,
                      hmac: bytes -> Block, secret: bytes, initial: Block, msgAuth: bool) returns (mac: bytes)
    requires |m| >= HEADER_SIZE && m[HEADER_SIZE..] == EncodeAll(attributes)
    requires |password| % HASH_SIZE == 0 && SigningFits(m, password, msgAuth)
    ensures |mac| == HASH_SIZE
    ensures var c := Covered(m, password, md5, hmac, secret, initial, msgAuth);
      var last := if msgAuth then [Attribute(MESSAGE_AUTHENTICATOR, mac)] else [];
      && c[HEADER_SIZE..] == EncodeAll(Listed(attributes, password, md5, secret, initial) + last)
      && Authenticator(c) == initial
  {
    var m1 := WithPassword(WithAuthenticator(m, initial), password, md5, secret);
    var listed := Listed(attributes, password, md5, secret, initial);
    PasswordLayout(m, attributes, password, md5, secret, initial);
    if msgAuth {
      mac := SealedAttribute(m1, listed, hmac);
      SealLayout(m1, listed, hmac);
    } else {
      mac := Zeros(HASH_SIZE);
      assert listed + [] == listed;
    }
  }

  // A signed message enumerates to what was added, the encrypted password, and a Message-Authenticator;
  // the password is encrypted under the authenticator the message has while it is signed, for a request
  // that which it is sent with
  lemma SignedIsEnumerated(m: bytes, attributes: seq<Attribute>, password: bytes, md5: bytes -> Block,
                           hmac: bytes -> Block, secret: bytes, reqAuth: Option<Block>, draw: Option<Block>,
                           msgAuth: bool) returns (cipher: bytes, mac: bytes)
    requires |m| >= HEADER_SIZE && m[HEADER_SIZE..] == EncodeAll(attributes)
    requires |password| % HASH_SIZE == 0 && SigningFits(m, password, msgAuth)
    ensures |mac| == 16 && |cipher| == |password|
    ensures Chain(false, md5, secret, Initial(draw, reqAuth), cipher) == password
    ensures var signed := Signed(m, password, md5, hmac, secret, reqAuth, draw, msgAuth);
      && Proper(signed[HEADER_SIZE..])
      && Attributes(signed[HEADER_SIZE..]) == CutAll(
           attributes + (if password != [] then [Attribute(2, cipher)] else [])
           + (if msgAuth then [Attribute(80, mac)] else []))
      && (draw.Some? ==> Authenticator(signed) == draw.value == Initial(draw, reqAuth))
  {
    var initial := Initial(draw, reqAuth);
    cipher := Chain(true, md5, secret, initial, password);
    ChainInverse(md5, secret, initial, password);
    mac := CoveredLayout(m, attributes, password, md5, hmac, secret, initial, msgAuth);
    var signed := Signed(m, password, md5, hmac, secret, reqAuth, draw, msgAuth);
    var all := attributes + (if password != [] then [Attribute(2, cipher)] else [])
      + (if msgAuth then [Attribute(80, mac)] else []);
    assert attributes + [] == attributes;
    assert signed[HEADER_SIZE..] == EncodeAll(all);
    AttributesOfEncoding(all);
  }

  // What a receiver makes of an encrypted password
  predicate Decrypts(md5: bytes -> Block, secret: bytes, authenticator: bytes, value: bytes, password: bytes) {
    CryptSizes(|value|, |value|) && Chain(false, md5, secret, authenticator, value) == password
  }

  lemma CutPassword(md5: bytes -> Block, secret: bytes, authenticator: bytes, cipher: bytes, value: bytes,
                    password: bytes)
    requires |cipher| == |password| && |password| % HASH_SIZE == 0 && password != []
    requires Chain(false, md5, secret, authenticator, cipher) == password
    requires value == if |cipher| <= 253 then cipher else cipher[..253]
    ensures Decrypts(md5, secret, authenticator, value, password) <==> |password| <= 240
  {}

  // A server that knows the secret reads the padded password of a request exactly if that has at most 240
  // bytes; a longer one is cut to 253, which cannot be decrypted
  lemma PasswordArrivesIff(m: bytes, attributes: seq<Attribute>, password: bytes, md5: bytes -> Block,
                           hmac: bytes -> Block, secret: bytes, reqAuth: Option<Block>, random: Block, msgAuth: bool)
    requires |m| >= HEADER_SIZE && m[HEADER_SIZE..] == EncodeAll(attributes) && password != []
    requires |password| % HASH_SIZE == 0 && SigningFits(m, password, msgAuth)
    ensures var signed := Signed(m, password, md5, hmac, secret, reqAuth, Some(random), msgAuth);
      && Proper(signed[HEADER_SIZE..]) && |attributes| < |Attributes(signed[HEADER_SIZE..])|
      && var found := Attributes(signed[HEADER_SIZE..])[|attributes|];
         && found.kind == 2
         && (Decrypts(md5, secret, signed[4..20], found.value, password) <==> |password| <= 240)
  {
    var cipher, mac := SignedIsEnumerated(m, attributes, password, md5, hmac, secret, reqAuth, Some(random), msgAuth);
    var all := attributes + [Attribute(2, cipher)] + (if msgAuth then [Attribute(80, mac)] else []);
    assert all[|attributes|] == Attribute(2, cipher);
    var signed := Signed(m, password, md5, hmac, secret, reqAuth, Some(random), msgAuth);
    CutPassword(md5, secret, random, cipher, Attributes(signed[HEADER_SIZE..])[|attributes|].value, password);
  }
}
