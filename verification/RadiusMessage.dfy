// RADIUS messages (radius_message.c): building, enumerating, signing and verifying.
module RadiusMessage {
  import opened Base
  import opened RadiusCrypto

  const HEADER_SIZE := 20
  const MAX_ATTRIBUTE_SIZE := 253
  const ACCESS_REQUEST: byte := 1
  const USER_PASSWORD: byte := 2
  const VENDOR_SPECIFIC: byte := 26
  const EAP_MESSAGE: byte := 79
  const MESSAGE_AUTHENTICATOR: byte := 80

  datatype Attribute = Attribute(kind: byte, value: bytes)
  datatype VendorAttribute = VendorAttribute(vendor: u32, kind: byte, value: bytes)

  // ---------------------------------------------------------------- the attribute list

  // Going from attribute to attribute one gets to the end, to one that is cut off, or to a
  // Message-Authenticator: none before it that is wholly there declares a length of 0
  predicate Ends(b: bytes)
    decreases |b|
  {
    |b| < 2 || |b| < b[1] || b[0] == MESSAGE_AUTHENTICATOR || (b[1] > 0 && Ends(b[b[1]..]))
  }

  // No attribute that is wholly there declares less than its own header (section 5 of RFC 2865)
  predicate Proper(b: bytes): (proper: bool)
    ensures proper ==> Ends(b)
    decreases |b|
  {
    |b| < 2 || |b| < b[1] || (b[1] >= 2 && Proper(b[b[1]..]))
  }

  // After n attributes comes one that the enumerator does not move past
  predicate StuckAfter(b: bytes, n: nat)
    decreases n
  {
    && |b| >= 2 && |b| >= b[1] && b[0] != MESSAGE_AUTHENTICATOR
    && if n == 0 then b[1] == 0 else StuckAfter(b[b[1]..], n - 1)
  }

  // Only that keeps a search for a Message-Authenticator from coming to an end
  lemma {:induction false} EndsIff(b: bytes)
    ensures Ends(b) ==> forall n: nat :: !StuckAfter(b, n)
    ensures !Ends(b) ==> exists n: nat :: StuckAfter(b, n)
    decreases |b|
  {
    if |b| >= 2 && |b| >= b[1] > 0 && b[0] != MESSAGE_AUTHENTICATOR {
      var rest := b[b[1]..];
      EndsIff(rest);
      if Ends(b) {
        forall n: nat ensures !StuckAfter(b, n) {
          assert n > 0 ==> !StuckAfter(rest, n - 1);
        }
      } else {
        var n: nat :| StuckAfter(rest, n);
        assert StuckAfter(b, n + 1);
      }
    } else if !Ends(b) {
      assert StuckAfter(b, 0);
    }
  }

  // The attributes up to the end, or to the first one that is cut off
  function Attributes(b: bytes): seq<Attribute>
    requires Proper(b)
    decreases |b|
  {
    if |b| < 2 || |b| < b[1] then [] else [Attribute(b[0], b[2..b[1]])] + Attributes(b[b[1]..])
  }

  // There is a whole attribute at a position
  predicate WholeAt(b: bytes, pos: nat) { pos + 2 <= |b| && pos + b[pos + 1] <= |b| }

  function Cut(data: bytes): bytes { if |data| > MAX_ATTRIBUTE_SIZE then data[..MAX_ATTRIBUTE_SIZE] else data }

  function Encode(kind: byte, data: bytes): bytes { [kind, |Cut(data)| + 2] + Cut(data) }

  function EncodeAll(attributes: seq<Attribute>): bytes {
    if attributes == [] then [] else Encode(attributes[0].kind, attributes[0].value) + EncodeAll(attributes[1..])
  }

  // What arrives of a list of attributes
  function CutAll(attributes: seq<Attribute>): (r: seq<Attribute>)
    ensures |r| == |attributes|
    ensures forall i | 0 <= i < |r| :: r[i].kind == attributes[i].kind
    ensures forall i | 0 <= i < |r| ::
      r[i].value == if |attributes[i].value| <= 253 then attributes[i].value else attributes[i].value[..253]
  {
    seq(|attributes|, i requires 0 <= i < |attributes| => attributes[i].(value := Cut(attributes[i].value)))
  }

  lemma {:induction false} EncodeAllConcat(a: seq<Attribute>, b: seq<Attribute>)
    ensures EncodeAll(a + b) == EncodeAll(a) + EncodeAll(b)
  {
    if a == [] {
      assert a + b == b;
    } else {
      assert (a + b)[0] == a[0] && (a + b)[1..] == a[1..] + b;
      EncodeAllConcat(a[1..], b);
    }
  }

  lemma FirstEncoded(kind: byte, data: bytes, rest: bytes)
    ensures var b := Encode(kind, data) + rest;
      && |b| >= 2 && 2 <= b[1] <= |b| && b[0] == kind && b[2..b[1]] == Cut(data) && b[b[1]..] == rest
  {}

  // What was encoded is enumerated again, in order, values cut to what fits
  lemma {:induction false} AttributesOfEncoding(attributes: seq<Attribute>)
    ensures Proper(EncodeAll(attributes)) && Attributes(EncodeAll(attributes)) == CutAll(attributes)
  {
    if attributes != [] {
      AttributesOfEncoding(attributes[1..]);
      FirstEncoded(attributes[0].kind, attributes[0].value, EncodeAll(attributes[1..]));
      assert CutAll(attributes) == [attributes[0].(value := Cut(attributes[0].value))] + CutAll(attributes[1..]);
    }
  }

  // Sub-attributes in the recommended format, up to the first malformed one
  function SubAttributes(vendor: u32, b: bytes): seq<VendorAttribute>
    decreases |b|
  {
    if |b| < 2 || b[1] < 2 || |b| < b[1] then []
    else [VendorAttribute(vendor, b[0], b[2..b[1]])] + SubAttributes(vendor, b[b[1]..])
  }

  function VendorAttributesOf(a: Attribute): seq<VendorAttribute> {
    if a.kind == VENDOR_SPECIFIC && |a.value| >= 4 then SubAttributes(U32(a.value, 0), a.value[4..]) else []
  }

  function Flatten(attributes: seq<Attribute>): seq<VendorAttribute> {
    if attributes == [] then [] else VendorAttributesOf(attributes[0]) + Flatten(attributes[1..])
  }

  // The recommended format of a Vendor-Specific attribute (section 5.26 of RFC 2865)
  function EncodeSub(sub: Attribute): bytes { [sub.kind, (2 + |sub.value|) % 0x100] + sub.value }

  function EncodeSubs(subs: seq<Attribute>): bytes {
    if subs == [] then [] else EncodeSub(subs[0]) + EncodeSubs(subs[1..])
  }

  function VendorSpecific(vendor: u32, subs: seq<Attribute>, rest: bytes): Attribute {
    Attribute(26, Be32(vendor) + EncodeSubs(subs) + rest)
  }

  function Labelled(vendor: u32, subs: seq<Attribute>): (r: seq<VendorAttribute>)
    ensures |r| == |subs|
  {
    seq(|subs|, i requires 0 <= i < |subs| => VendorAttribute(vendor, subs[i].kind, subs[i].value))
  }

  // No whole sub-attribute starts here
  predicate Malformed(b: bytes) { |b| < 2 || b[1] < 2 || |b| < b[1] }

  lemma FirstSub(vendor: u32, first: Attribute, after: bytes)
    requires |first.value| <= 253
    ensures SubAttributes(vendor, EncodeSub(first) + after)
      == [VendorAttribute(vendor, first.kind, first.value)] + SubAttributes(vendor, after)
  {
    var b := EncodeSub(first) + after;
    assert |b| >= 2 && b[0] == first.kind && b[1] == 2 + |first.value| <= |b|;
    assert b[2..b[1]] == first.value && b[b[1]..] == after;
  }

  lemma {:induction false} SubsOfEncoding(vendor: u32, subs: seq<Attribute>, rest: bytes)
    requires (forall i | 0 <= i < |subs| :: |subs[i].value| <= 253) && Malformed(rest)
    ensures SubAttributes(vendor, EncodeSubs(subs) + rest) == Labelled(vendor, subs)
  {
    if subs == [] {
      assert EncodeSubs(subs) + rest == rest;
    } else {
      var first, after := subs[0], EncodeSubs(subs[1..]) + rest;
      calc {
        SubAttributes(vendor, EncodeSubs(subs) + rest);
      ==  { assert EncodeSubs(subs) + rest == EncodeSub(first) + after; }
        SubAttributes(vendor, EncodeSub(first) + after);
      ==  { FirstSub(vendor, first, after); }
        [VendorAttribute(vendor, first.kind, first.value)] + SubAttributes(vendor, after);
      ==  { SubsOfEncoding(vendor, subs[1..], rest); }
        [VendorAttribute(vendor, first.kind, first.value)] + Labelled(vendor, subs[1..]);
      ==
        Labelled(vendor, subs);
      }
    }
  }

  lemma VendorIsRead(vendor: u32, inner: bytes)
    ensures var b := Be32(vendor) + inner; |b| >= 4 && U32(b, 0) == vendor && b[4..] == inner
  {
    var b := Be32(vendor) + inner;
    NetworkOrder(b, 0);
    WrittenInNetworkOrder(0, vendor);
    assert b[0..4] == Be32(vendor);
  }

  // Sub-attributes that a vendor encoded come out in order, up to the first malformed one, which ends
  // this attribute only
  lemma VendorAttributesOfEncoding(vendor: u32, subs: seq<Attribute>, rest: bytes, others: seq<Attribute>)
    requires (forall i | 0 <= i < |subs| :: |subs[i].value| <= 253) && Malformed(rest)
    ensures Flatten([VendorSpecific(vendor, subs, rest)] + others) == Labelled(vendor, subs) + Flatten(others)
  {
    var a := VendorSpecific(vendor, subs, rest);
    var inner := EncodeSubs(subs) + rest;
    SubsOfEncoding(vendor, subs, rest);
    assert a.value == Be32(vendor) + inner;
    VendorIsRead(vendor, inner);
    assert ([a] + others)[1..] == others;
  }

  lemma SubsLeft(vendor: u32, b: bytes, others: seq<VendorAttribute>)
    ensures SubAttributes(vendor, b) + others ==
      if Malformed(b) then others
      else [VendorAttribute(vendor, b[0], b[2..b[1]])] + (SubAttributes(vendor, b[b[1]..]) + others)
  {}

  // attribute_enumerate; the cursor moves over the buffer
  class AttributeEnumerator {
    const buf: array<byte>
    var next: nat

    ghost predicate Valid()
      reads this, buf
    {
      next <= buf.Length
    }

    // The attributes to come are as section 5 of RFC 2865 demands
    ghost predicate IsProper()
      reads this, buf
      requires Valid()
    {
      Proper(buf[next..])
    }

    ghost function Remaining(): seq<Attribute>
      reads this, buf
      requires Valid() && IsProper()
    {
      Attributes(buf[next..])
    }

    constructor (buf: array<byte>)
      requires buf.Length >= HEADER_SIZE
      ensures Valid() && this.buf == buf && next == HEADER_SIZE
    {
      this.buf := buf;
      next := HEADER_SIZE;
    }

    // The value is found in the buffer from `off` on; its size wraps around if the attribute declares
    // less than its own header
    method Enumerate() returns (found: bool, kind: byte, off: nat, size: u64)
      requires Valid()
      modifies this
      ensures Valid() && found == WholeAt(buf[..], old(next))
      ensures !found ==> next == old(next)
      ensures found ==>
        && kind == buf[old(next)] && next == old(next) + buf[old(next) + 1]
        && off == old(next) + 2 && size == Sub64(buf[old(next) + 1], 2)
      ensures old(IsProper()) ==> IsProper() && found == (old(Remaining()) != [])
      ensures old(IsProper()) && found ==>
        && off + size == next && old(Remaining()) == [Attribute(kind, buf[off..next])] + Remaining()
    {
      found, kind, off, size := false, 0, 0, 0;
      var left := buf.Length - next;
      if left == 0 || left < 2 || left < buf[next + 1] {
        return;
      }
      var length := buf[next + 1];
      ghost var b := buf[next..];
      found, kind, off, size := true, buf[next], next + 2, Sub64(length, 2);
      next := next + length;
      assert b[length..] == buf[next..] && (length >= 2 ==> b[2..length] == buf[off..next]);
    }
  }

  // vendor_enumerate: an outer enumerator, and a reader while inside a Vendor-Specific attribute
  class VendorEnumerator {
    const inner: AttributeEnumerator
    var reader: Option<bytes>
    var vendor: u32

    ghost predicate Valid()
      reads this, inner, inner.buf
    {
      inner.Valid() && inner.IsProper()
    }

    ghost function Remaining(): seq<VendorAttribute>
      reads this, inner, inner.buf
      requires Valid()
    {
      (if reader.Some? then SubAttributes(vendor, reader.value) else []) + Flatten(inner.Remaining())
    }

    constructor (inner: AttributeEnumerator)
      requires inner.Valid() && inner.IsProper()
      ensures Valid() && this.inner == inner && Remaining() == Flatten(inner.Remaining())
    {
      this.inner := inner;
      reader, vendor := None, 0;
    }

    // The next sub-attribute, or none any more, and the reader is given up
    method ReadSubAttribute() returns (found: Option<VendorAttribute>)
      requires Valid() && reader.Some?
      modifies this
      ensures Valid()
      ensures if found.None? then reader.None? && Remaining() == old(Remaining())
              else old(Remaining()) == [found.value] + Remaining()
    {
      var b := reader.value;
      ghost var others := Flatten(inner.Remaining());
      SubsLeft(vendor, b, others);
      if |b| >= 2 && b[1] >= 2 && |b| >= b[1] {
        reader := Some(b[b[1]..]);
        return Some(VendorAttribute(vendor, b[0], b[2..b[1]]));
      }
      reader := None;
      return None;
    }

    // Takes the next attribute; a Vendor-Specific one is entered
    method Advance() returns (more: bool)
      requires Valid() && reader.None?
      modifies this, inner
      ensures Valid() && Remaining() == old(Remaining())
      ensures if more then inner.next > old(inner.next) else Remaining() == []
    {
      ghost var before := inner.Remaining();
      var kind, off, size;
      more, kind, off, size := inner.Enumerate();
      if more && kind == VENDOR_SPECIFIC {
        var value := inner.buf[off..off + size];
        assert before == [Attribute(kind, value)] + inner.Remaining();
        if |value| >= 4 {
          reader, vendor := Some(value[4..]), U32(value, 0);
        }
      }
    }

    method Enumerate() returns (found: Option<VendorAttribute>)
      requires Valid()
      modifies this, inner
      ensures Valid()
      ensures if found.None? then old(Remaining()) == [] && Remaining() == []
              else old(Remaining()) == [found.value] + Remaining()
    {
      while true
        invariant Valid() && Remaining() == old(Remaining())
        decreases inner.buf.Length - inner.next, reader.Some?
      {
        if reader.Some? {
          found := ReadSubAttribute();
          if found.Some? {
            return;
          }
        }
        var more := Advance();
        if !more {
          return None;
        }
      }
    }
  }

  // What create_vendor_enumerator yields, call by call, until there is nothing left
  method AllVendorAttributes(buf: array<byte>) returns (all: seq<VendorAttribute>)
    requires buf.Length >= HEADER_SIZE && Proper(buf[HEADER_SIZE..])
    ensures all == Flatten(Attributes(buf[HEADER_SIZE..]))
  {
    var inner := new AttributeEnumerator(buf);
    var e := new VendorEnumerator(inner);
    ghost var whole, left := e.Remaining(), e.Remaining();
    all := [];
    var more := true;
    while more
      invariant fresh(inner) && fresh(e) && e.inner == inner && inner.buf == buf && e.Valid()
      invariant left == e.Remaining() && (!more ==> left == [])
      invariant all + left == whole
      decreases more, |left|
    {
      var found := e.Enumerate();
      more := found.Some?;
      if more {
        assert all + left == (all + [found.value]) + e.Remaining();
        all := all + [found.value];
      }
      left := e.Remaining();
    }
  }
}
