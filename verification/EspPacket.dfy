// ESP packets (esp_packet.c): padding, encryption and decryption as in RFC 4303.
module EspPacket {
  import opened Base
  import opened EspContext
  import opened IpPacket

  const IPPROTO_IPIP: byte := 4
  const IPPROTO_IPV6: byte := 41
  const IPPROTO_NONE: byte := 59

  datatype Status = Success | ParseError | VerifyError | Failed | NotFound

  // ---------------------------------------------------------------- padding

  // Fill the last block, then move the end of the ciphertext to a 4-byte boundary
  function PaddingLen(payloadLen: nat, blockSize: nat, ivSize: nat): nat
    requires blockSize > 0
  {
    var plainLen := payloadLen + 2;
    var first := PadLen(plainLen, blockSize);
    first + PadLen(ivSize + plainLen + first, 4)
  }

  function PlainLen(payloadLen: nat, blockSize: nat, ivSize: nat): nat
    requires blockSize > 0
  {
    payloadLen + 2 + PaddingLen(payloadLen, blockSize, ivSize)
  }

  // The sizes for which the padding always ends a block and its length fits its byte
  predicate SizesFit(blockSize: nat, ivSize: nat) {
    || blockSize == 1
    || (blockSize == 2 && ivSize % 2 == 0)
    || (0 < blockSize <= 256 && blockSize % 4 == 0 && ivSize % 4 == 0)
  }

  ghost predicate PaddingWorks(payloadLen: nat, blockSize: nat, ivSize: nat)
    requires blockSize > 0
  {
    && PlainLen(payloadLen, blockSize, ivSize) % blockSize == 0
    && PaddingLen(payloadLen, blockSize, ivSize) <= 255
  }

  lemma PaddedIsMultiple(x: nat, a: nat)
    requires a > 0
    ensures (x + PadLen(x, a)) % a == 0
  {
    var q := x / a;
    assert x == q * a + x % a;
    if x % a == 0 {
    } else {
      assert x + PadLen(x, a) == (q + 1) * a + 0;
      DivModUnique(x + PadLen(x, a), q + 1, 0, a);
    }
  }

  lemma MultipleOfMultiple(x: nat, a: nat)
    requires a > 0 && a % 4 == 0 && x % a == 0
    ensures x % 4 == 0
  {
    var q, k := x / a, a / 4;
    assert x == q * a && a == k * 4;
    assert x == (q * k) * 4;
  }

  lemma SingleBytesWork(n: nat, ivSize: nat)
    ensures PaddingWorks(n, 1, ivSize)
  {}

  lemma ParityModFour(x: nat)
    ensures x % 4 % 2 == x % 2
  {
    var q, r := x / 4, x % 4;
    assert x == (2 * q + r / 2) * 2 + r % 2;
    DivModUnique(x, 2 * q + r / 2, r % 2, 2);
  }

  lemma EvenPad(x: nat)
    requires x % 2 == 0
    ensures PadLen(x, 4) == 0 || PadLen(x, 4) == 2
  {
    ParityModFour(x);
  }

  lemma PairsWork(n: nat, ivSize: nat)
    requires ivSize % 2 == 0
    ensures PaddingWorks(n, 2, ivSize)
  {
    var x := n + 2 + PadLen(n + 2, 2);
    assert x % 2 == 0;
    EvenPad(ivSize + x);
  }

  lemma NoSecondPadding(ivSize: nat, x: nat)
    requires ivSize % 4 == 0 && x % 4 == 0
    ensures PadLen(ivSize + x, 4) == 0
  {}

  lemma FittingSizesWork(n: nat, blockSize: nat, ivSize: nat)
    requires blockSize > 0 && SizesFit(blockSize, ivSize)
    ensures PaddingWorks(n, blockSize, ivSize)
  {
    if blockSize == 1 {
      SingleBytesWork(n, ivSize);
    } else if blockSize == 2 {
      PairsWork(n, ivSize);
    } else {
      PaddedIsMultiple(n + 2, blockSize);
      var x := n + 2 + PadLen(n + 2, blockSize);
      MultipleOfMultiple(x, blockSize);
      NoSecondPadding(ivSize, x);
    }
  }

  lemma OddPad(x: nat)
    requires x % 2 == 1
    ensures PadLen(x, 4) == 1 || PadLen(x, 4) == 3
  {
    ParityModFour(x);
  }

  lemma OddIvBreaksPairs(ivSize: nat)
    requires ivSize % 2 == 1
    ensures !PaddingWorks(0, 2, ivSize)
  {
    assert PadLen(2, 2) == 0;
    OddPad(ivSize + 2);
    assert PlainLen(0, 2, ivSize) == 2 + PadLen(ivSize + 2, 4);
  }

  lemma OneOverABlock(blockSize: nat, ivSize: nat)
    requires blockSize > 256
    ensures !PaddingWorks(blockSize - 1, blockSize, ivSize)
  {
    ModPlusMultiple(1, 1, blockSize);
    assert (blockSize + 1) % blockSize == 1;
    assert PadLen(blockSize + 1, blockSize) == blockSize - 1;
  }

  // A second padding that is too short to be a block
  predicate Misfits(second: nat, blockSize: nat) { 0 < second < 4 && (blockSize == 3 ==> second < 3) }

  lemma ThirdBlock(ivSize: nat, x: nat)
    requires x == if (ivSize + 3) % 4 >= 2 then 3 else if (ivSize + 6) % 4 >= 2 then 6 else 9
    ensures (ivSize + x) % 4 >= 2
  {
    assert (ivSize + 9) % 4 == (ivSize + 1) % 4;
  }

  lemma SecondBlock(blockSize: nat, ivSize: nat)
    requires (blockSize % 4 != 0 || ivSize % 4 != 0) && (ivSize + blockSize) % 4 == 0
    ensures (ivSize + (blockSize + blockSize)) % 4 != 0
  {
    var q := (ivSize + blockSize) / 4;
    assert ivSize + blockSize == 4 * q;
    if (ivSize + (blockSize + blockSize)) % 4 == 0 {
      var p := (ivSize + (blockSize + blockSize)) / 4;
      assert blockSize == (p - q) * 4 && ivSize == (2 * q - p) * 4;
      DivModUnique(blockSize, p - q, 0, 4);
      DivModUnique(ivSize, 2 * q - p, 0, 4);
    }
  }

  // A plaintext of one, two or three whole blocks that does not end where the ICV may start
  lemma BadPlaintext(blockSize: nat, ivSize: nat) returns (x: nat)
    requires blockSize >= 3 && (blockSize % 4 != 0 || ivSize % 4 != 0)
    ensures x >= blockSize && x % blockSize == 0 && Misfits(PadLen(ivSize + x, 4), blockSize)
  {
    if blockSize == 3 {
      x := if (ivSize + 3) % 4 >= 2 then 3 else if (ivSize + 6) % 4 >= 2 then 6 else 9;
      ThirdBlock(ivSize, x);
    } else if (ivSize + blockSize) % 4 != 0 {
      x := blockSize;
      ModPlusMultiple(0, 1, blockSize);
    } else {
      x := blockSize + blockSize;
      ModPlusMultiple(0, 2, blockSize);
      SecondBlock(blockSize, ivSize);
    }
  }

  lemma WholeBlocks(x: nat, blockSize: nat, ivSize: nat)
    requires blockSize >= 3 && x >= blockSize && x % blockSize == 0 && Misfits(PadLen(ivSize + x, 4), blockSize)
    ensures !PaddingWorks(x - 2, blockSize, ivSize)
  {
    var second := PadLen(ivSize + x, 4);
    assert PadLen(x, blockSize) == 0;
    assert PlainLen(x - 2, blockSize, ivSize) == x + second;
    DivModUnique(x + second, x / blockSize, second, blockSize);
  }

  lemma BadPayloadLen(blockSize: nat, ivSize: nat) returns (n: nat)
    requires blockSize > 0 && !SizesFit(blockSize, ivSize)
    ensures !PaddingWorks(n, blockSize, ivSize)
  {
    if blockSize == 2 {
      n := 0;
      OddIvBreaksPairs(ivSize);
    } else if blockSize % 4 == 0 && ivSize % 4 == 0 {
      n := blockSize - 1;
      OneOverABlock(blockSize, ivSize);
    } else {
      var x := BadPlaintext(blockSize, ivSize);
      n := x - 2;
      WholeBlocks(x, blockSize, ivSize);
    }
  }

  lemma IcvIsAligned(n: nat, blockSize: nat, ivSize: nat)
    requires blockSize > 0
    ensures (8 + ivSize + PlainLen(n, blockSize, ivSize)) % 4 == 0
  {
    var x := ivSize + n + 2 + PadLen(n + 2, blockSize);
    assert (x + PadLen(x, 4)) % 4 == 0;
  }

  // The ICV starts on a 4-byte boundary whatever the sizes; the rest holds for every payload exactly
  // if the sizes fit
  lemma PaddingWorksIff(blockSize: nat, ivSize: nat)
    requires blockSize > 0
    ensures forall n: nat :: (8 + ivSize + PlainLen(n, blockSize, ivSize)) % 4 == 0
    ensures SizesFit(blockSize, ivSize) <==> forall n: nat :: PaddingWorks(n, blockSize, ivSize)
  {
    forall n: nat ensures (8 + ivSize + PlainLen(n, blockSize, ivSize)) % 4 == 0 {
      IcvIsAligned(n, blockSize, ivSize);
    }
    if SizesFit(blockSize, ivSize) {
      forall n: nat ensures PaddingWorks(n, blockSize, ivSize) { FittingSizesWork(n, blockSize, ivSize); }
    } else {
      var n := BadPayloadLen(blockSize, ivSize);
      assert !PaddingWorks(n, blockSize, ivSize);
    }
  }

  lemma LeastPad(x: nat, a: nat, m: nat)
    requires a > 0 && (x + m) % a == 0
    ensures m >= PadLen(x, a)
  {
    if m < PadLen(x, a) {
      assert x + m == (x / a) * a + (x % a + m);
      DivModUnique(x + m, x / a, x % a + m, a);
    }
  }

  // Nothing shorter would do: any padding that ends a block and lets the ICV start on a 4-byte boundary
  // has at least that length, whatever the sizes
  lemma PaddingIsLeast(payloadLen: nat, blockSize: nat, ivSize: nat, n: nat)
    requires blockSize > 0 && (payloadLen + 2 + n) % blockSize == 0 && (8 + ivSize + payloadLen + 2 + n) % 4 == 0
    ensures n >= PaddingLen(payloadLen, blockSize, ivSize)
  {
    var plainLen := payloadLen + 2;
    LeastPad(plainLen, blockSize, n);
    var first := PadLen(plainLen, blockSize);
    LeastPad(ivSize + plainLen + first, 4, n - first);
  }

  function Padding(n: nat): (p: bytes)
    ensures |p| == n
  {
    seq(n, i requires 0 <= i => (i + 1) % 0x100)
  }

  // generate_padding, on part of a buffer
  method GeneratePadding(buf: array<byte>, off: nat, n: nat)
    requires off + n <= buf.Length
    modifies buf
    ensures buf[..off] == old(buf[..off]) && buf[off + n..] == old(buf[off + n..])
    ensures buf[off..off + n] == Padding(n)
    ensures n <= 255 ==> forall k | off <= k < off + n :: buf[k] == k - off + 1
  {
    for i := 0 to n
      invariant buf[..off] == old(buf[..off]) && buf[off + n..] == old(buf[off + n..])
      invariant buf[off..off + i] == Padding(n)[..i]
      invariant n <= 255 ==> forall k | off <= k < off + i :: buf[k] == k - off + 1
    {
      buf[off + i] := (i + 1) % 0x100;
    }
  }

  method CheckPadding(padding: bytes) returns (ok: bool)
    ensures ok <==> padding == Padding(|padding|)
    ensures |padding| <= 255 ==> (ok <==> forall i | 0 <= i < |padding| :: padding[i] == i + 1)
  {
    for i := 0 to |padding|
      invariant forall j | 0 <= j < i :: padding[j] == (j + 1) % 0x100
    {
      if padding[i] != (i + 1) % 0x100 {
        assert padding[i] != Padding(|padding|)[i];
        return false;
      }
    }
    return true;
  }

  // ---------------------------------------------------------------- encryption

  function Header(spi: u32, seqno: u32): bytes { Be32(spi) + Be32(seqno) }

  function Plaintext(aead: Aead, payload: bytes, nextHeader: byte): bytes
  {
    var n := PaddingLen(|payload|, aead.blockSize, aead.ivSize);
    payload + Padding(n) + [n % 0x100, nextHeader]
  }

  // What `encrypt` makes of a payload once it has a sequence number
  function Seal(aead: Aead, spi: u32, seqno: u32, payload: bytes, nextHeader: byte): (Status, bytes)
  {
    if aead.ivGen.None? then (NotFound, [])
    else match aead.ivGen.value(seqno)
      case None => (Failed, [])
      case Some(iv) =>
        match aead.encrypt(Plaintext(aead, payload, nextHeader), Header(spi, seqno), iv)
        case None => (Failed, [])
        case Some(sealed) => (Success, Header(spi, seqno) + iv + sealed)
  }

  // What `encrypt` does in a context whose last number is `last`; the number is used up even if the
  // encryption then fails
  datatype Sent = Sent(status: Status, data: bytes, last: u32)

  function EncryptNext(aead: Aead, inbound: bool, last: u32, spi: u32, payload: bytes, nextHeader: byte): Sent
  {
    if inbound || last == SEQNO_MAX then Sent(Failed, [], last)
    else
      var (status, data) := Seal(aead, spi, last + 1, payload, nextHeader);
      Sent(status, data, last + 1)
  }

  // ---------------------------------------------------------------- decryption

  datatype Parts = Parts(spi: u32, seqno: u32, iv: bytes, sealed: bytes)

  function Split(aead: Aead, data: bytes): Option<Parts>
  {
    if |data| < 8 + aead.ivSize + aead.icvSize then None
    else if (|data| - 8 - aead.ivSize - aead.icvSize) % aead.blockSize != 0 then None
    else Some(Parts(U32(data, 0), U32(data, 4), data[8..8 + aead.ivSize], data[8 + aead.ivSize..]))
  }

  // Payload and next header of a plaintext whose padding is as generated
  function Unpad(plain: bytes): Option<(bytes, byte)> {
    if |plain| < 2 then None
    else
      var rest, n := plain[..|plain| - 2], plain[|plain| - 2];
      if |rest| < n || rest[|rest| - n..] != Padding(n) then None
      else Some((rest[..|rest| - n], plain[|plain| - 1]))
  }

  // The plaintext of section 2.4 of RFC 4303: payload, padding 1, 2, 3, ..., its length, next header
  predicate IsPadded(plain: bytes, payload: bytes, nextHeader: byte) {
    var n := |plain| - 2 - |payload|;
    && 0 <= n <= 255 && payload <= plain
    && (forall k | |payload| <= k < |payload| + n :: plain[k] == k - |payload| + 1)
    && plain[|plain| - 2] == n && plain[|plain| - 1] == nextHeader
  }

  lemma PaddingCounts(b: bytes)
    requires |b| <= 255
    ensures b == Padding(|b|) <==> forall i | 0 <= i < |b| :: b[i] == i + 1
  {}

  // Exactly the plaintexts of that form are accepted, and taken apart the one way possible
  lemma UnpadIff(plain: bytes, payload: bytes, nextHeader: byte)
    ensures Unpad(plain) == Some((payload, nextHeader)) <==> IsPadded(plain, payload, nextHeader)
  {
    if |plain| >= 2 && plain[|plain| - 2] + 2 <= |plain| {
      var n := plain[|plain| - 2];
      var rest := plain[..|plain| - 2];
      var start := |rest| - n;
      PaddingCounts(rest[start..]);
      assert forall k | start <= k < start + n :: plain[k] == rest[start..][k - start];
      assert forall i | 0 <= i < n :: rest[start..][i] == plain[start + i];
      assert rest[..start] == plain[..start];
      assert IsPadded(plain, payload, nextHeader) ==> payload == plain[..start];
    }
  }

  function RemovePadding(plain: bytes): Option<(Ip, byte)> {
    match Unpad(plain)
    case None => None
    case Some((payload, nextHeader)) =>
      match Parse(payload)
      case None => None
      case Some(ip) => Some((ip, nextHeader))
  }

  lemma RemovesPaddingIff(plain: bytes, ip: Ip, nextHeader: byte)
    ensures RemovePadding(plain) == Some((ip, nextHeader)) <==>
      exists payload :: IsPadded(plain, payload, nextHeader) && Parse(payload) == Some(ip)
  {
    forall payload ensures Unpad(plain) == Some((payload, nextHeader)) <==> IsPadded(plain, payload, nextHeader) {
      UnpadIff(plain, payload, nextHeader);
    }
  }

  datatype Outcome = Outcome(status: Status, payload: Option<(Ip, byte)>, replay: Replay)

  // What `decrypt` does with a packet in an inbound context
  function Open(aead: Aead, r: Replay, data: bytes): Outcome
  {
    match Split(aead, data)
    case None => Outcome(ParseError, None, r)
    case Some(parts) =>
      if !r.Fresh(parts.seqno) then Outcome(VerifyError, None, r)
      else match aead.decrypt(parts.sealed, data[..8], parts.iv)
        case None => Outcome(Failed, None, r)
        case Some(plain) =>
          match RemovePadding(plain)
          case None => Outcome(ParseError, None, r.Mark(parts.seqno))
          case Some(payload) => Outcome(Success, Some(payload), r.Mark(parts.seqno))
  }

  lemma SuccessHasPayload(aead: Aead, r: Replay, data: bytes)
    ensures Open(aead, r, data).status == Success <==> Open(aead, r, data).payload.Some?
  {}

  function NextHeaderOf(payload: Option<Ip>): byte {
    if payload.None? then IPPROTO_NONE else if payload.value.version == 4 then IPPROTO_IPIP else IPPROTO_IPV6
  }

  // 4 for an IPv4 packet, 41 for an IPv6 packet, 59 for none
  lemma NextHeaderSays(packet: bytes)
    ensures NextHeaderOf(None) == 59
    ensures Parse(packet).Some? ==> NextHeaderOf(Parse(packet)) == if packet[0] / 16 == 4 then 4 else 41
  {}

  lemma Joined(all: bytes, left: bytes, right: bytes)
    requires |all| == |left| + |right| && all[..|left|] == left && all[|left|..|all|] == right
    ensures all == left + right
  {}

  method WritePlaintext(buf: array<byte>, start: nat, payload: bytes, padding: nat, nextHeader: byte)
    requires start + |payload| + padding + 2 <= buf.Length
    modifies buf
    ensures buf[..start] == old(buf[..start])
    ensures buf[start..start + |payload| + padding + 2] == payload + Padding(padding) + [padding % 0x100, nextHeader]
  {
    ghost var before := buf[..start];
    var middle := start + |payload|;
    Write(buf, start, payload);
    Joined(buf[..middle], before, payload);
    GeneratePadding(buf, middle, padding);
    var end := middle + padding;
    Joined(buf[..end], before + payload, Padding(padding));
    Write(buf, end, [padding % 0x100, nextHeader]);
    Joined(buf[..end + 2], before + payload + Padding(padding), [padding % 0x100, nextHeader]);
    assert buf[start..end + 2] == buf[..end + 2][start..];
  }

  // Header, IV and plaintext in one buffer, with room for the ICV
  method Layout(aead: Aead, spi: u32, seqno: u32, iv: bytes, payload: bytes, nextHeader: byte)
    returns (writer: array<byte>)
    ensures fresh(writer) && writer.Length == 8 + |iv| + |Plaintext(aead, payload, nextHeader)| + aead.icvSize
    ensures writer[..8] == Header(spi, seqno) && writer[8..8 + |iv|] == iv
    ensures writer[8 + |iv|..writer.Length - aead.icvSize] == Plaintext(aead, payload, nextHeader)
  {
    var plainLen := |payload| + 2;
    var padding := PadLen(plainLen, aead.blockSize);
    padding := padding + PadLen(aead.ivSize + plainLen + padding, 4);
    plainLen := plainLen + padding;
    assert padding == PaddingLen(|payload|, aead.blockSize, aead.ivSize);

    var head := Be32(spi) + Be32(seqno) + iv;
    writer := new byte[|head| + plainLen + aead.icvSize];
    Write(writer, 0, head);
    WritePlaintext(writer, |head|, payload, padding, nextHeader);
    assert head[..8] == Header(spi, seqno) && head[8..] == iv;
    assert writer[..8] == head[..8] && writer[8..|head|] == head[8..];
  }

  lemma Rejoined(all: bytes, start: nat, head: bytes, rest: bytes)
    requires |all| == start + |rest| && all[..start] == head && all[start..start + |rest|] == rest
    ensures all == head + rest
  {
    assert all[start..start + |rest|] == all[start..];
  }

  // The plaintext is encrypted where it is
  method SealInPlace(aead: Aead, spi: u32, seqno: u32, iv: bytes, payload: bytes, nextHeader: byte)
    returns (r: Option<bytes>)
    requires aead.Lawful()
    ensures r == match aead.encrypt(Plaintext(aead, payload, nextHeader), Header(spi, seqno), iv)
                 case None => None
                 case Some(sealed) => Some(Header(spi, seqno) + iv + sealed)
  {
    var writer := Layout(aead, spi, seqno, iv, payload, nextHeader);
    var start := 8 + |iv|;
    var sealed := aead.encrypt(writer[start..writer.Length - aead.icvSize], writer[..8], writer[8..start]);
    if sealed.None? {
      return None;
    }
    assert writer[..start] == Header(spi, seqno) + iv;
    Write(writer, start, sealed.value);
    Rejoined(writer[..], start, Header(spi, seqno) + iv, sealed.value);
    return Some(writer[..]);
  }

  class Packet {
    const src: Host
    const dst: Host
    var data: bytes
    var payload: Option<Ip>
    var nextHeader: byte

    constructor FromPacket(src: Host, dst: Host, data: bytes)
      ensures this.src == src && this.dst == dst
      ensures this.data == data && payload == None && nextHeader == IPPROTO_NONE
    {
      this.src, this.dst := src, dst;
      this.data, payload, nextHeader := data, None, IPPROTO_NONE;
    }

    constructor FromPayload(src: Host, dst: Host, payload: Option<Ip>)
      ensures this.src == src && this.dst == dst && data == [] && this.payload == payload
      ensures nextHeader == NextHeaderOf(payload)
    {
      this.src, this.dst, data, this.payload := src, dst, [], payload;
      nextHeader := NextHeaderOf(payload);
    }

    method ParseHeader() returns (spi: Option<u32>)
      ensures spi == if |data| < 8 then None else Some(U32(data, 0))
    {
      if |data| < 4 || |data| - 4 < 4 {
        return None;
      }
      return Some(U32(data, 0));
    }

    method ExtractPayload() returns (extracted: Option<Ip>)
      modifies `payload
      ensures extracted == old(payload) && payload.None?
    {
      extracted := payload;
      payload := None;
    }

    ghost function PayloadBytes(): bytes
      reads this
    {
      if payload.Some? then payload.value.packet else []
    }

    method Encrypt(ctx: Context, spi: u32) returns (status: Status)
      requires ctx.Valid() && ctx.aead.Lawful()
      modifies this, ctx
      ensures ctx.Valid() && ctx.seen == old(ctx.seen)
      ensures payload == old(payload) && nextHeader == old(nextHeader)
      ensures Sent(status, data, ctx.lastSeqno)
        == EncryptNext(ctx.aead, ctx.inbound, old(ctx.lastSeqno), spi, PayloadBytes(), nextHeader)
      ensures ctx.inbound || old(ctx.lastSeqno) == 0xFFFF_FFFF ==>
        status == Failed && ctx.lastSeqno == old(ctx.lastSeqno)
      ensures !ctx.inbound && old(ctx.lastSeqno) < 0xFFFF_FFFF ==>
        && ctx.lastSeqno == old(ctx.lastSeqno) + 1
        && (status == NotFound <==> ctx.aead.ivGen.None?) && (status == Failed || status == NotFound <==> data == [])
    {
      data := [];
      var ok, seqno := ctx.NextSeqno();
      if !ok {
        return Failed;
      }
      var aead := ctx.aead;
      if aead.ivGen.None? {
        return NotFound;
      }
      var generated := aead.ivGen.value(seqno);
      if generated.None? {
        return Failed;
      }
      var encoding := if payload.Some? then payload.value.packet else [];
      var sealed := SealInPlace(aead, spi, seqno, generated.value, encoding, nextHeader);
      if sealed.None? {
        return Failed;
      }
      data := sealed.value;
      return Success;
    }

    method RemovePaddingFrom(plain: bytes) returns (ok: bool)
      requires payload.None?
      modifies this
      ensures data == old(data) && (ok <==> RemovePadding(plain).Some?)
      ensures payload == (if ok then Some(RemovePadding(plain).value.0) else None)
      ensures nextHeader == (if ok then RemovePadding(plain).value.1 else old(nextHeader))
    {
      if |plain| < 2 {
        return false;
      }
      var n := plain[|plain| - 2];
      var rest := plain[..|plain| - 2];
      if |rest| < n {
        return false;
      }
      var good := CheckPadding(rest[|rest| - n..]);
      if !good {
        return false;
      }
      payload := Parse(rest[..|rest| - n]);
      if payload.None? {
        return false;
      }
      nextHeader := plain[|plain| - 1];
      return true;
    }

    method Decrypt(ctx: Context) returns (status: Status)
      requires ctx.Valid() && ctx.aead.Lawful()
      modifies this, ctx, ctx.window
      ensures ctx.Valid() && data == old(data)
      ensures ctx.inbound ==>
        var outcome := Open(ctx.aead, old(ctx.View()), data);
        && status == outcome.status && ctx.View() == outcome.replay
        && payload == (if outcome.payload.Some? then Some(outcome.payload.value.0) else None)
        && nextHeader == (if outcome.payload.Some? then outcome.payload.value.1 else old(nextHeader))
      ensures !ctx.inbound ==>
        && ctx.View() == old(ctx.View()) && payload.None?
        && status == (if Split(ctx.aead, data).None? then ParseError else VerifyError)
    {
      payload := None;
      var aead := ctx.aead;
      if |data| < 8 + aead.ivSize + aead.icvSize || (|data| - 8 - aead.ivSize - aead.icvSize) % aead.blockSize != 0 {
        return ParseError;
      }
      var seqno := U32(data, 4);
      var verified := ctx.VerifySeqno(seqno);
      if !verified {
        return VerifyError;
      }
      var plain := aead.decrypt(data[8 + aead.ivSize..], data[..8], data[8..8 + aead.ivSize]);
      if plain.None? {
        return Failed;
      }
      ctx.SetAuthenticatedSeqno(seqno);
      var ok := RemovePaddingFrom(plain.value);
      return if ok then Success else ParseError;
    }
  }

  // ---------------------------------------------------------------- round trip

  lemma UnpadPadded(payload: bytes, n: nat, nextHeader: byte)
    requires n <= 255
    ensures Unpad(payload + Padding(n) + [n % 0x100, nextHeader]) == Some((payload, nextHeader))
  {
    var plain := payload + Padding(n) + [n % 0x100, nextHeader];
    assert plain[..|plain| - 2] == payload + Padding(n);
    assert (payload + Padding(n))[|payload|..] == Padding(n) && (payload + Padding(n))[..|payload|] == payload;
  }

  lemma UnpadPlaintext(aead: Aead, payload: bytes, nextHeader: byte)
    requires SizesFit(aead.blockSize, aead.ivSize)
    ensures |Plaintext(aead, payload, nextHeader)| == PlainLen(|payload|, aead.blockSize, aead.ivSize)
    ensures |Plaintext(aead, payload, nextHeader)| % aead.blockSize == 0
    ensures Unpad(Plaintext(aead, payload, nextHeader)) == Some((payload, nextHeader))
  {
    FittingSizesWork(|payload|, aead.blockSize, aead.ivSize);
    UnpadPadded(payload, PaddingLen(|payload|, aead.blockSize, aead.ivSize), nextHeader);
  }

  lemma U32OfBe32(n: u32, rest: bytes)
    ensures U32(Be32(n) + rest, 0) == n
  {
    var b := Be32(n) + rest;
    assert U16(b, 0) == n / 0x1_0000 && U16(b, 2) == n % 0x1_0000;
  }

  lemma HeaderParts(spi: u32, seqno: u32, rest: bytes)
    ensures var data := Header(spi, seqno) + rest;
      data[..8] == Header(spi, seqno) && data[8..] == rest && U32(data, 0) == spi && U32(data, 4) == seqno
  {
    var data := Header(spi, seqno) + rest;
    assert data == Be32(spi) + (Be32(seqno) + rest);
    U32OfBe32(spi, Be32(seqno) + rest);
    U32OfBe32(seqno, rest);
    assert data[4..8] == Be32(seqno);
  }

  lemma SealedParts(aead: Aead, spi: u32, seqno: u32, payload: bytes, nextHeader: byte)
    returns (iv: bytes, sealed: bytes)
    requires aead.Lawful() && Seal(aead, spi, seqno, payload, nextHeader).0 == Success
    ensures var plain := Plaintext(aead, payload, nextHeader);
      && Seal(aead, spi, seqno, payload, nextHeader).1 == Header(spi, seqno) + (iv + sealed)
      && |iv| == aead.ivSize && |sealed| == |plain| + aead.icvSize
      && aead.decrypt(sealed, Header(spi, seqno), iv) == Some(plain)
  {
    iv := aead.ivGen.value(seqno).value;
    sealed := aead.encrypt(Plaintext(aead, payload, nextHeader), Header(spi, seqno), iv).value;
    assert Header(spi, seqno) + iv + sealed == Header(spi, seqno) + (iv + sealed);
  }

  lemma SplitParts(aead: Aead, data: bytes, iv: bytes, sealed: bytes)
    requires |data| >= 8 && data[8..] == iv + sealed && |iv| == aead.ivSize && |sealed| >= aead.icvSize
    requires (|sealed| - aead.icvSize) % aead.blockSize == 0
    ensures Split(aead, data) == Some(Parts(U32(data, 0), U32(data, 4), iv, sealed))
  {
    assert data[8..8 + |iv|] == data[8..][..|iv|] == iv;
    assert data[8 + |iv|..] == data[8..][|iv|..] == sealed;
  }

  // A sealed packet is taken apart into what it was made of
  lemma SplitSealed(aead: Aead, spi: u32, seqno: u32, payload: bytes, nextHeader: byte)
    requires aead.Lawful() && SizesFit(aead.blockSize, aead.ivSize)
    requires Seal(aead, spi, seqno, payload, nextHeader).0 == Success
    ensures var data := Seal(aead, spi, seqno, payload, nextHeader).1;
      var parts := Split(aead, data);
      && parts.Some? && parts.value.spi == spi && parts.value.seqno == seqno
      && aead.decrypt(parts.value.sealed, data[..8], parts.value.iv) == Some(Plaintext(aead, payload, nextHeader))
  {
    var iv, sealed := SealedParts(aead, spi, seqno, payload, nextHeader);
    UnpadPlaintext(aead, payload, nextHeader);
    HeaderParts(spi, seqno, iv + sealed);
    SplitParts(aead, Header(spi, seqno) + (iv + sealed), iv, sealed);
  }

  // ---------------------------------------------------------------- packets byte by byte

  lemma HeaderBytes(data: bytes)
    requires |data| >= 8
    ensures Number(data[..4]) == U32(data, 0) && Number(data[4..8]) == U32(data, 4)
  {
    NetworkOrder(data, 0);
    NetworkOrder(data, 4);
    assert data[0..4] == data[..4];
  }

  // A packet on the wire (section 2 of RFC 4303): SPI and sequence number in network order, the IV
  // generated for that number, and the ciphertext of the padded payload, with the first 8 bytes as
  // associated data; whole blocks, and an ICV that starts on a 4-byte boundary
  ghost predicate IsEspPacket(aead: Aead, spi: u32, seqno: u32, payload: bytes, nextHeader: byte, data: bytes) {
    && |data| >= 8 + aead.ivSize + aead.icvSize && (|data| - aead.icvSize) % 4 == 0
    && Number(data[..4]) == spi && Number(data[4..8]) == seqno
    && aead.ivGen.Some? && aead.ivGen.value(seqno) == Some(data[8..8 + aead.ivSize])
    && exists plain ::
      && IsPadded(plain, payload, nextHeader) && |plain| % aead.blockSize == 0
      && aead.encrypt(plain, data[..8], data[8..8 + aead.ivSize]) == Some(data[8 + aead.ivSize..])
  }

  lemma PartsOnWire(spi: u32, seqno: u32, iv: bytes, sealed: bytes)
    ensures var data := Header(spi, seqno) + (iv + sealed);
      && |data| == 8 + |iv| + |sealed| && Number(data[..4]) == spi && Number(data[4..8]) == seqno
      && data[..8] == Header(spi, seqno) && data[8..8 + |iv|] == iv && data[8 + |iv|..] == sealed
  {
    var data := Header(spi, seqno) + (iv + sealed);
    HeaderParts(spi, seqno, iv + sealed);
    HeaderBytes(data);
    assert data[8..8 + |iv|] == data[8..][..|iv|] == iv;
    assert data[8 + |iv|..] == data[8..][|iv|..] == sealed;
  }

  lemma PlaintextIsPadded(aead: Aead, payload: bytes, nextHeader: byte)
    requires SizesFit(aead.blockSize, aead.ivSize)
    ensures IsPadded(Plaintext(aead, payload, nextHeader), payload, nextHeader)
  {
    UnpadPlaintext(aead, payload, nextHeader);
    UnpadIff(Plaintext(aead, payload, nextHeader), payload, nextHeader);
  }

  lemma PlaintextIsAligned(aead: Aead, payload: bytes, nextHeader: byte)
    requires SizesFit(aead.blockSize, aead.ivSize)
    ensures |Plaintext(aead, payload, nextHeader)| % aead.blockSize == 0
    ensures (8 + aead.ivSize + |Plaintext(aead, payload, nextHeader)|) % 4 == 0
  {
    UnpadPlaintext(aead, payload, nextHeader);
    IcvIsAligned(|payload|, aead.blockSize, aead.ivSize);
  }

  lemma SealedIsEspPacket(aead: Aead, spi: u32, seqno: u32, payload: bytes, nextHeader: byte)
    requires aead.Lawful() && SizesFit(aead.blockSize, aead.ivSize)
    requires Seal(aead, spi, seqno, payload, nextHeader).0 == Success
    ensures IsEspPacket(aead, spi, seqno, payload, nextHeader, Seal(aead, spi, seqno, payload, nextHeader).1)
  {
    var plain := Plaintext(aead, payload, nextHeader);
    PlaintextIsPadded(aead, payload, nextHeader);
    PlaintextIsAligned(aead, payload, nextHeader);
    var iv := aead.ivGen.value(seqno).value;
    var sealed := aead.encrypt(plain, Header(spi, seqno), iv).value;
    PartsOnWire(spi, seqno, iv, sealed);
    var data := Header(spi, seqno) + (iv + sealed);
    assert data == Seal(aead, spi, seqno, payload, nextHeader).1;
    assert aead.encrypt(plain, data[..8], data[8..8 + aead.ivSize]) == Some(data[8 + aead.ivSize..]);
  }

  // The number is new: above all taken so far, or less than 128 below the highest and not among them
  predicate IsNew(r: Replay, n: nat) { n > 0 && (n > r.highest || (r.highest - n < 128 && n !in r.seen)) }

  predicate HasEspSizes(aead: Aead, data: bytes) {
    |data| >= 8 + aead.ivSize + aead.icvSize && (|data| - 8 - aead.ivSize - aead.icvSize) % aead.blockSize == 0
  }

  // A payload comes out exactly if the sizes are right, the number is new, the ciphertext decrypts with the
  // first 8 bytes as associated data, and the plaintext is that payload with its padding and parses as
  // the IP packet; the number is used up exactly if the first three hold
  lemma OpensIff(aead: Aead, r: Replay, data: bytes, ip: Ip, nextHeader: byte)
    ensures var outcome := Open(aead, r, data);
      && (outcome.payload == Some((ip, nextHeader)) <==>
            && HasEspSizes(aead, data) && IsNew(r, Number(data[4..8]))
            && exists plain, payload ::
              && aead.decrypt(data[8 + aead.ivSize..], data[..8], data[8..8 + aead.ivSize]) == Some(plain)
              && IsPadded(plain, payload, nextHeader) && Parse(payload) == Some(ip))
      && outcome.status == (
           if !HasEspSizes(aead, data) then ParseError
           else if !IsNew(r, Number(data[4..8])) then VerifyError
           else if aead.decrypt(data[8 + aead.ivSize..], data[..8], data[8..8 + aead.ivSize]).None? then Failed
           else if outcome.payload.None? then ParseError
           else Success)
      && (if HasEspSizes(aead, data) && IsNew(r, Number(data[4..8]))
              && aead.decrypt(data[8 + aead.ivSize..], data[..8], data[8..8 + aead.ivSize]).Some?
          then var n := Number(data[4..8]);
            outcome.replay.highest == (if n > r.highest then n else r.highest) && outcome.replay.seen == r.seen + {n}
          else outcome.replay == r)
  {
    if HasEspSizes(aead, data) {
      HeaderBytes(data);
      var decrypted := aead.decrypt(data[8 + aead.ivSize..], data[..8], data[8..8 + aead.ivSize]);
      if decrypted.Some? {
        RemovesPaddingIff(decrypted.value, ip, nextHeader);
      }
    }
  }

  // What was sealed under a number the receiver has not seen is opened again, if it parses as an IP
  // packet; if not, the number is used up all the same
  lemma OpenSealed(aead: Aead, spi: u32, seqno: u32, payload: bytes, nextHeader: byte, r: Replay)
    requires aead.Lawful() && SizesFit(aead.blockSize, aead.ivSize)
    requires Seal(aead, spi, seqno, payload, nextHeader).0 == Success
    ensures Open(aead, r, Seal(aead, spi, seqno, payload, nextHeader).1) ==
      if !r.Fresh(seqno) then Outcome(VerifyError, None, r)
      else match Parse(payload)
        case None => Outcome(ParseError, None, r.Mark(seqno))
        case Some(ip) => Outcome(Success, Some((ip, nextHeader)), r.Mark(seqno))
  {
    SplitSealed(aead, spi, seqno, payload, nextHeader);
    UnpadPlaintext(aead, payload, nextHeader);
  }

  // For a parsed packet that means: the same packet comes out exactly if the number is new and an
  // IPv4 header declares at least its own size
  lemma RoundTripIff(aead: Aead, spi: u32, seqno: u32, packet: bytes, nextHeader: byte, r: Replay)
    requires aead.Lawful() && SizesFit(aead.blockSize, aead.ivSize)
    requires Parse(packet).Some?
    requires Seal(aead, spi, seqno, Parse(packet).value.packet, nextHeader).0 == Success
    ensures var ip := Parse(packet).value;
      var outcome := Open(aead, r, Seal(aead, spi, seqno, ip.packet, nextHeader).1);
      && (outcome.payload == Some((ip, nextHeader)) <==> r.Fresh(seqno) && HeaderFits(packet))
      && (outcome.status == Success <==> r.Fresh(seqno) && HeaderFits(packet))
      && outcome.replay == (if r.Fresh(seqno) then r.Mark(seqno) else r)
  {
    OpenSealed(aead, spi, seqno, Parse(packet).value.packet, nextHeader, r);
    ParseIsIdempotentIff(packet);
  }

  // A dummy packet, sent without payload, is authenticated but never a success
  lemma DummyIsAuthenticatedOnly(aead: Aead, spi: u32, seqno: u32, r: Replay)
    requires aead.Lawful() && SizesFit(aead.blockSize, aead.ivSize) && r.Fresh(seqno)
    requires Seal(aead, spi, seqno, [], IPPROTO_NONE).0 == Success
    ensures Open(aead, r, Seal(aead, spi, seqno, [], IPPROTO_NONE).1) == Outcome(ParseError, None, r.Mark(seqno))
  {
    OpenSealed(aead, spi, seqno, [], IPPROTO_NONE, r);
  }

  // ---------------------------------------------------------------- whole runs

  // The sending end of a run: each payload, or none for a dummy packet, encrypted in turn
  function SendAll(aead: Aead, last: u32, spi: u32, payloads: seq<Option<Ip>>): (r: seq<Sent>)
    ensures |r| == |payloads|
    decreases |payloads|
  {
    if payloads == [] then []
    else
      var encoding := if payloads[0].Some? then payloads[0].value.packet else [];
      var sent := EncryptNext(aead, false, last, spi, encoding, NextHeaderOf(payloads[0]));
      [sent] + SendAll(aead, sent.last, spi, payloads[1..])
  }

  // The packets of one context, encrypted in place one after the other
  method EncryptAll(ctx: Context, spi: u32, src: Host, dst: Host, payloads: seq<Option<Ip>>) returns (sent: seq<Sent>)
    requires ctx.Valid() && ctx.aead.Lawful() && !ctx.inbound
    modifies ctx
    ensures ctx.Valid()
    ensures sent == SendAll(ctx.aead, old(ctx.lastSeqno), spi, payloads)
  {
    if payloads == [] {
      return [];
    }
    var packet := new Packet.FromPayload(src, dst, payloads[0]);
    var status := packet.Encrypt(ctx, spi);
    sent := [Sent(status, packet.data, ctx.lastSeqno)];
    var rest := EncryptAll(ctx, spi, src, dst, payloads[1..]);
    sent := sent + rest;
  }

  lemma HeaderNumbers(aead: Aead, spi: u32, seqno: u32, payload: Option<Ip>)
    requires aead.Lawful()
    ensures var encoding := if payload.Some? then payload.value.packet else [];
      var (status, data) := Seal(aead, spi, seqno, encoding, NextHeaderOf(payload));
      status == Success ==> |data| >= 8 && U32(data, 0) == spi && U32(data, 4) == seqno
  {
    var encoding := if payload.Some? then payload.value.packet else [];
    var (status, data) := Seal(aead, spi, seqno, encoding, NextHeaderOf(payload));
    if status == Success {
      assert data == Header(spi, seqno) + data[8..];
      HeaderParts(spi, seqno, data[8..]);
    }
  }

  // Over any run, with encryptions that fail in between: a packet that is produced carries the number
  // of encryptions before it plus one, and once that exceeds 2^32 - 1 no packet is produced any more
  lemma {:induction false} NumbersNeverRepeat(aead: Aead, last: u32, spi: u32, payloads: seq<Option<Ip>>, k: nat)
    requires aead.Lawful() && k < |payloads|
    ensures var sent := SendAll(aead, last, spi, payloads)[k];
      && (sent.status == Success ==>
            && last + 1 + k <= SEQNO_MAX && |sent.data| >= 8
            && U32(sent.data, 0) == spi && U32(sent.data, 4) == last + 1 + k)
      && (last + 1 + k > SEQNO_MAX ==> sent == Sent(Failed, [], SEQNO_MAX))
    decreases |payloads|
  {
    var first := SendAll(aead, last, spi, payloads)[0];
    if k > 0 {
      NumbersNeverRepeat(aead, first.last, spi, payloads[1..], k - 1);
    } else if first.status == Success {
      HeaderNumbers(aead, spi, last + 1, payloads[0]);
    }
  }

  // So the numbers of the packets produced strictly increase and lie between 1 and 2^32 - 1
  lemma NumbersIncrease(aead: Aead, last: u32, spi: u32, payloads: seq<Option<Ip>>, j: nat, k: nat)
    requires aead.Lawful() && j < k < |payloads|
    ensures var sent := SendAll(aead, last, spi, payloads);
      sent[j].status == Success && sent[k].status == Success ==>
        |sent[j].data| >= 8 && |sent[k].data| >= 8 && 1 <= U32(sent[j].data, 4) < U32(sent[k].data, 4) <= SEQNO_MAX
  {
    NumbersNeverRepeat(aead, last, spi, payloads, j);
    NumbersNeverRepeat(aead, last, spi, payloads, k);
  }

  // The receiving end of a run, packet by packet
  function OpenAll(aead: Aead, r: Replay, packets: seq<bytes>): Replay
  {
    if packets == [] then r else Open(aead, OpenAll(aead, r, packets[..|packets| - 1]), packets[|packets| - 1]).replay
  }

  // A packet as the anti-replay window sees it; one that cannot be split counts as forged
  function Seen(aead: Aead, data: bytes): Arrival
  {
    match Split(aead, data)
    case None => Arrival(0, false)
    case Some(parts) => Arrival(parts.seqno, aead.decrypt(parts.sealed, data[..8], parts.iv).Some?)
  }

  function SeenAll(aead: Aead, packets: seq<bytes>): (r: seq<Arrival>)
    ensures |r| == |packets|
  {
    seq(|packets|, i requires 0 <= i < |packets| => Seen(aead, packets[i]))
  }

  lemma OpenIsReceive(aead: Aead, r: Replay, data: bytes)
    ensures Open(aead, r, data).replay == Receive(r, Seen(aead, data))
  {}

  lemma {:induction false} OpenAllIsAfter(aead: Aead, r: Replay, packets: seq<bytes>)
    ensures OpenAll(aead, r, packets) == After(r, SeenAll(aead, packets))
  {
    if packets != [] {
      var k := |packets| - 1;
      OpenAllIsAfter(aead, r, packets[..k]);
      assert SeenAll(aead, packets)[..k] == SeenAll(aead, packets[..k]);
      OpenIsReceive(aead, OpenAll(aead, r, packets[..k]), packets[k]);
    }
  }

  // End to end, whatever else arrives in whatever order: packet k, if the sender sealed it under
  // number n, delivers its payload exactly if n is a new high, or inside the window and not taken
  // before; and then no later packet is taken under n
  lemma DeliveredOnce(aead: Aead, spi: u32, n: u32, packet: bytes, nextHeader: byte, packets: seq<bytes>, k: nat)
    requires aead.Lawful() && SizesFit(aead.blockSize, aead.ivSize) && n > 0
    requires Parse(packet).Some? && HeaderFits(packet)
    requires Seal(aead, spi, n, Parse(packet).value.packet, nextHeader).0 == Success
    requires k < |packets| && packets[k] == Seal(aead, spi, n, Parse(packet).value.packet, nextHeader).1
    ensures var r := Replay(0, {});
      var h := OpenAll(aead, r, packets[..k]).highest;
      var outcome := Open(aead, OpenAll(aead, r, packets[..k]), packets[k]);
      var taken := n > h || (h - n < WINDOW_SIZE && !TakenBefore(r, SeenAll(aead, packets), k, n));
      && (taken <==> outcome.payload == Some((Parse(packet).value, nextHeader)))
      && (taken <==> Taken(r, SeenAll(aead, packets), k))
      && (taken ==> forall j | k < j < |packets| && SeenAll(aead, packets)[j].seqno == n ::
            !Taken(r, SeenAll(aead, packets), j))
  {
    var r, seen := Replay(0, {}), SeenAll(aead, packets);
    OpenAllIsAfter(aead, r, packets[..k]);
    assert seen[..k] == SeenAll(aead, packets[..k]);
    SplitSealed(aead, spi, n, Parse(packet).value.packet, nextHeader);
    RoundTripIff(aead, spi, n, packet, nextHeader, OpenAll(aead, r, packets[..k]));
    TakenIff(r, seen, k);
    forall j | Taken(r, seen, k) && k < j < |packets| && seen[j].seqno == n ensures !Taken(r, seen, j) {
      if Taken(r, seen, j) { TakenAtMostOnce(r, seen, k, j); }
    }
  }
}
