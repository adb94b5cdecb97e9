// IP packets (ip_packet.c): parsing, and building with transport ports and checksums filled in.
module IpPacket {
  import opened Base
  import Checksum

  const TCP: byte := 6
  const UDP: byte := 17

  datatype Host = Host(family: Family, address: bytes, port: u16) {
    // What ip_equals compares
    function Where(): Address { Address(family, address) }

    predicate Wf() { |address| == match family case Inet => 4 case Inet6 => 16 case Other => 0 }
  }

  // The payload is the part of the packet after its header
  datatype Ip = Ip(version: byte, src: Host, dst: Host, packet: bytes, payload: bytes, nextHeader: byte)

  // ---------------------------------------------------------------- parsing

  // Source and destination port, or None if the packet is too short for its transport header
  function ParseTransport(packet: bytes, proto: byte): Option<(u16, u16)> {
    if proto == UDP then
      if |packet| < 8 then None else Some((U16(packet, 0), U16(packet, 2)))
    else if proto == TCP then
      if |packet| < 20 then None else Some((U16(packet, 0), U16(packet, 2)))
    else Some((0, 0))
  }

  function Min(a: nat, b: nat): nat { if a < b then a else b }

  function Parse4(packet: bytes): Option<Ip> {
    if |packet| < 20 then None else
    var trimmed := packet[..Min(|packet|, U16(packet, 2))];
    var payload := Skip(trimmed, packet[0] % 16 * 4);
    match ParseTransport(payload, packet[9])
    case None => None
    case Some((sport, dport)) =>
      Some(Ip(4, Host(Inet, packet[12..16], sport), Host(Inet, packet[16..20], dport), trimmed, payload, packet[9]))
  }

  function Parse6(packet: bytes): Option<Ip> {
    if |packet| < 40 then None else
    var trimmed := packet[..Min(|packet|, 40 + U16(packet, 4))];
    var payload := Skip(trimmed, 40);
    match ParseTransport(payload, packet[6])
    case None => None
    case Some((sport, dport)) =>
      Some(Ip(6, Host(Inet6, packet[8..24], sport), Host(Inet6, packet[24..40], dport), trimmed, payload, packet[6]))
  }

  // Bytes beyond the length the header declares are traffic flow confidentiality padding
  function Parse(packet: bytes): Option<Ip> {
    if |packet| < 1 then None
    else match packet[0] / 16
      case 4 => Parse4(packet)
      case 6 => Parse6(packet)
      case _ => None
  }

  // The header does not declare a packet shorter than itself
  predicate HeaderFits(packet: bytes) {
    |packet| >= 20 && (packet[0] / 16 == 4 ==> U16(packet, 2) >= 20)
  }

  // The length the header declares
  function Declared(packet: bytes): nat
    requires |packet| >= 6
  {
    if packet[0] / 16 == 4 then U16(packet, 2) else 40 + U16(packet, 4)
  }

  // The parser accepts what it kept of a packet, with the same result, exactly if an IPv4 header
  // declares at least its own size; otherwise the packet was cut inside its header
  lemma ParseIsIdempotentIff(packet: bytes)
    requires Parse(packet).Some?
    ensures Parse(Parse(packet).value.packet) == (if HeaderFits(packet) then Parse(packet) else None)
  {
    var kept := Parse(packet).value.packet;
    if HeaderFits(packet) {
      assert kept == packet[..|kept|] && kept[..|kept|] == kept;
      assert kept[12..16] == packet[12..16] && kept[16..20] == packet[16..20];
      if packet[0] / 16 == 6 {
        assert kept[8..24] == packet[8..24] && kept[24..40] == packet[24..40];
      }
    }
  }

  // Whatever follows a complete packet is ignored
  lemma PaddingIsIgnored(packet: bytes, tfc: bytes)
    requires Parse(packet).Some? && Declared(packet) <= |packet|
    ensures Parse(packet + tfc) == Parse(packet)
  {
    var all, n := packet + tfc, Declared(packet);
    assert all[..n] == packet[..n];
    assert all[12..16] == packet[12..16] && all[16..20] == packet[16..20];
    if packet[0] / 16 == 6 {
      assert all[8..24] == packet[8..24] && all[24..40] == packet[24..40];
    }
  }

  lemma ParsedHosts(packet: bytes)
    requires Parse(packet).Some?
    ensures Parse(packet).value.src.Wf() && Parse(packet).value.dst.Wf()
  {}

  // ---------------------------------------------------------------- headers byte by byte

  // How long a transport header is at least
  function LeastHeader(proto: byte): nat { if proto == 17 then 8 else if proto == 6 then 20 else 0 }

  // How long the part of a packet that is kept is, and what follows the IP header in it
  function KeptLen(packet: bytes): nat
    requires |packet| >= 20
  {
    Min(|packet|, if packet[0] / 16 == 4 then Number(packet[2..4]) else 40 + Number(packet[4..6]))
  }

  // A packet is accepted exactly if it has a complete header of version 4 or 6, and what follows that header
  // (in version 4 as long as it declares in words of 4 bytes) in the part kept has room for the
  // transport header
  lemma ParsesIff(packet: bytes)
    ensures Parse(packet).Some? <==>
      || (|packet| >= 20 && packet[0] / 16 == 4
          && (LeastHeader(packet[9]) == 0 || packet[0] % 16 * 4 + LeastHeader(packet[9]) <= KeptLen(packet)))
      || (|packet| >= 40 && packet[0] / 16 == 6
          && (LeastHeader(packet[6]) == 0 || 40 + LeastHeader(packet[6]) <= KeptLen(packet)))
  {
    if |packet| >= 20 {
      NetworkOrder(packet, 2);
      NetworkOrder(packet, 4);
    }
  }

  // The payload starts with the ports, if its protocol has any
  predicate CarriesPorts(proto: byte, payload: bytes, sport: u16, dport: u16) {
    if proto == 17 || proto == 6 then
      |payload| >= LeastHeader(proto) && Number(payload[0..2]) == sport && Number(payload[2..4]) == dport
    else sport == 0 && dport == 0
  }

  lemma PortsAreRead(proto: byte, payload: bytes, sport: u16, dport: u16)
    requires CarriesPorts(proto, payload, sport, dport)
    ensures ParseTransport(payload, proto) == Some((sport, dport))
  {
    NetworkOrder(payload, 0);
    NetworkOrder(payload, 2);
  }

  // Section 3.1 of RFC 791: version and header length, type of service, total length, identification and
  // fragment, time to live, protocol, checksum, addresses, options
  function Ipv4(tos: byte, fragment: bytes, ttl: byte, proto: byte, sum: bytes, src: bytes, dst: bytes,
                options: bytes, payload: bytes): bytes
    requires |options| % 4 == 0 && |options| <= 40 && 20 + |options| + |payload| <= 0xFFFF
  {
    [0x45 + |options| / 4, tos] + Be16(20 + |options| + |payload|) + fragment + [ttl, proto] + sum + src + dst
    + options + payload
  }

  lemma Ipv4Fields(tos: byte, fragment: bytes, ttl: byte, proto: byte, sum: bytes, src: bytes, dst: bytes,
                   options: bytes, payload: bytes, tfc: bytes)
    requires |fragment| == 4 && |sum| == 2 && |src| == |dst| == 4
    requires |options| % 4 == 0 && |options| <= 40 && 20 + |options| + |payload| <= 0xFFFF
    ensures var packet := Ipv4(tos, fragment, ttl, proto, sum, src, dst, options, payload);
      var all := packet + tfc;
      && |packet| == 20 + |options| + |payload| == U16(all, 2)
      && all[0] == 0x45 + |options| / 4 && all[9] == proto && all[12..16] == src && all[16..20] == dst
      && packet[20 + |options|..] == payload
  {}

  // Whatever the other fields and the options are, an IPv4 packet of that form is parsed into its addresses,
  // ports, protocol and payload, and what follows it is dropped
  lemma Ipv4IsParsed(tos: byte, fragment: bytes, ttl: byte, proto: byte, sum: bytes, src: bytes, dst: bytes,
                     options: bytes, payload: bytes, tfc: bytes, sport: u16, dport: u16)
    requires |fragment| == 4 && |sum| == 2 && |src| == |dst| == 4
    requires |options| % 4 == 0 && |options| <= 40 && 20 + |options| + |payload| <= 0xFFFF
    requires CarriesPorts(proto, payload, sport, dport)
    ensures var packet := Ipv4(tos, fragment, ttl, proto, sum, src, dst, options, payload);
      Parse(packet + tfc) == Some(Ip(4, Host(Inet, src, sport), Host(Inet, dst, dport), packet, payload, proto))
  {
    var packet := Ipv4(tos, fragment, ttl, proto, sum, src, dst, options, payload);
    Ipv4Fields(tos, fragment, ttl, proto, sum, src, dst, options, payload, tfc);
    PortsAreRead(proto, payload, sport, dport);
    assert (packet + tfc)[..|packet|] == packet;
    assert (0x45 + |options| / 4) % 16 * 4 == 20 + |options|;
    assert Skip(packet, 20 + |options|) == payload;
  }

  // Section 3 of RFC 8200: version, traffic class and flow label, payload length, next header, hop limit,
  // addresses
  function Ipv6(class_: byte, flow: bytes, proto: byte, hops: byte, src: bytes, dst: bytes, payload: bytes): bytes
    requires class_ < 16 && |payload| <= 0xFFFF
  {
    [0x60 + class_] + flow + Be16(|payload|) + [proto, hops] + src + dst + payload
  }

  lemma Ipv6Fields(class_: byte, flow: bytes, proto: byte, hops: byte, src: bytes, dst: bytes, payload: bytes,
                   tfc: bytes)
    requires class_ < 16 && |flow| == 3 && |src| == |dst| == 16 && |payload| <= 0xFFFF
    ensures var packet := Ipv6(class_, flow, proto, hops, src, dst, payload);
      var all := packet + tfc;
      && |packet| == 40 + |payload| == 40 + U16(all, 4)
      && all[0] == 0x60 + class_ && all[6] == proto && all[8..24] == src && all[24..40] == dst
      && packet[40..] == payload
  {}

  lemma Ipv6IsParsed(class_: byte, flow: bytes, proto: byte, hops: byte, src: bytes, dst: bytes, payload: bytes,
                     tfc: bytes, sport: u16, dport: u16)
    requires class_ < 16 && |flow| == 3 && |src| == |dst| == 16 && |payload| <= 0xFFFF
    requires CarriesPorts(proto, payload, sport, dport)
    ensures var packet := Ipv6(class_, flow, proto, hops, src, dst, payload);
      Parse(packet + tfc) == Some(Ip(6, Host(Inet6, src, sport), Host(Inet6, dst, dport), packet, payload, proto))
  {
    var packet := Ipv6(class_, flow, proto, hops, src, dst, payload);
    Ipv6Fields(class_, flow, proto, hops, src, dst, payload, tfc);
    PortsAreRead(proto, payload, sport, dport);
    assert (packet + tfc)[..|packet|] == packet;
    assert Skip(packet, 40) == payload;
  }

  // ---------------------------------------------------------------- building

  // What the transport checksum covers besides the segment; the IPv6 length is stored by a
  // little-endian machine as two bytes followed by zeros, which the sum does not notice
  function PseudoHeader(src: Host, dst: Host, proto: byte, len: nat): bytes {
    match src.family
    case Inet => src.address + dst.address + [0, proto] + Be16(len % 0x1_0000)
    case Inet6 => src.address + dst.address + Be16(len % 0x1_0000) + [0, 0, 0, 0, 0, proto]
    case Other => []
  }

  function PseudoChecksum(src: Host, dst: Host, proto: byte, payload: bytes): u16 {
    if src.family.Other? then 0xFFFF else Checksum.Of(PseudoHeader(src, dst, proto, |payload|))
  }

  // Where the checksum of a transport header is, if the payload has one
  function CheckOffset(proto: byte, len: nat): Option<nat> {
    if proto == UDP && len >= 8 then Some(6) else if proto == TCP && len >= 20 then Some(16) else None
  }

  function WithPort(payload: bytes, i: nat, port: u16): bytes
    requires i + 2 <= |payload|
  {
    if port != 0 then Checksum.Store(payload, i, port) else payload
  }

  // Ports filled in, checksum cleared
  function OpenTransport(src: Host, dst: Host, payload: bytes, i: nat): (r: bytes)
    requires |payload| >= 4 && i + 2 <= |payload|
    ensures |r| == |payload|
  {
    Checksum.Store(WithPort(WithPort(payload, 0, src.port), 2, dst.port), i, 0)
  }

  function FixTransport(src: Host, dst: Host, proto: byte, payload: bytes): (r: bytes)
    ensures |r| == |payload|
  {
    match CheckOffset(proto, |payload|)
    case None => payload
    case Some(i) =>
      var open := OpenTransport(src, dst, payload, i);
      Checksum.Store(open, i, Checksum.Inc(open, PseudoChecksum(src, dst, proto, payload)))
  }

  // Writes a word at position i of the part of the buffer that starts at `off`
  method StoreWord(a: array<byte>, off: nat, i: nat, n: u16)
    requires off + i + 2 <= a.Length
    modifies a
    ensures a[..off] == old(a[..off])
    ensures a[off..] == Checksum.Store(old(a[off..]), i, n)
  {
    a[off + i] := n / 0x100;
    a[off + i + 1] := n % 0x100;
  }

  // Ports filled in, checksum at `check` cleared
  method FillPorts(src: Host, dst: Host, packet: array<byte>, off: nat, check: nat)
    requires off + 4 <= packet.Length && off + check + 2 <= packet.Length
    modifies packet
    ensures packet[..off] == old(packet[..off])
    ensures packet[off..] == OpenTransport(src, dst, old(packet[off..]), check)
  {
    if src.port != 0 {
      StoreWord(packet, off, 0, src.port);
    }
    if dst.port != 0 {
      StoreWord(packet, off, 2, dst.port);
    }
    StoreWord(packet, off, check, 0);
  }

  method PseudoHeaderChecksum(src: Host, dst: Host, proto: byte, payload: bytes) returns (sum: u16)
    ensures sum == PseudoChecksum(src, dst, proto, payload)
  {
    sum := 0xFFFF;
    if !src.family.Other? {
      sum := Checksum.ComputeInc(PseudoHeader(src, dst, proto, |payload|), 0xFFFF);
    }
  }

  // fix_transport_header on the payload, which is the packet from `off` on
  method FixTransportHeader(src: Host, dst: Host, proto: byte, packet: array<byte>, off: nat)
    requires off <= packet.Length
    modifies packet
    ensures packet[..off] == old(packet[..off])
    ensures packet[off..] == FixTransport(src, dst, proto, old(packet[off..]))
  {
    var check := CheckOffset(proto, packet.Length - off);
    if check.None? {
      return;
    }
    FillPorts(src, dst, packet, off, check.value);
    var sum := PseudoHeaderChecksum(src, dst, proto, packet[off..]);
    sum := Checksum.ComputeInc(packet[off..], sum);
    StoreWord(packet, off, check.value, sum);
  }

  // The header before its checksum is filled in
  function OpenHeader4(src: Host, dst: Host, nextHeader: byte, len: nat): bytes {
    [0x45, 0] + Be16((20 + len) % 0x1_0000) + [0, 0, 0, 0, 0x80, nextHeader, 0, 0] + src.address + dst.address
  }

  function Header4(src: Host, dst: Host, nextHeader: byte, len: nat): (h: bytes)
    requires src.family.Inet? && dst.family.Inet? && src.Wf() && dst.Wf()
    ensures |h| == 20
  {
    var open := OpenHeader4(src, dst, nextHeader, len);
    Checksum.Store(open, 10, Checksum.Of(open))
  }

  // The flow word is the number 6 in network order, so the version nibble of the first byte is 0
  function Header6(src: Host, dst: Host, nextHeader: byte, len: nat): (h: bytes)
    requires src.family.Inet6? && dst.family.Inet6? && src.Wf() && dst.Wf()
    ensures |h| == 40
  {
    Be32(6) + Be16(len % 0x1_0000) + [nextHeader, 0x80] + src.address + dst.address
  }

  function Build(src: Host, dst: Host, nextHeader: byte, data: bytes): Option<Ip>
    requires src.Wf() && dst.Wf()
  {
    if src.family != dst.family then None
    else match src.family
      case Inet => Parse(Header4(src, dst, nextHeader, |data|) + FixTransport(src, dst, nextHeader, data))
      case Inet6 => Parse(Header6(src, dst, nextHeader, |data|) + FixTransport(src, dst, nextHeader, data))
      case Other => None
  }

  // Header and data in one buffer, with ports and checksum filled in
  method Assemble(src: Host, dst: Host, nextHeader: byte, header: bytes, data: bytes) returns (packet: bytes)
    ensures packet == header + FixTransport(src, dst, nextHeader, data)
  {
    var all := header + data;
    var buf := new byte[|all|](i requires 0 <= i < |all| => all[i]);
    assert buf[..] == all;
    assert buf[..|header|] == header && buf[|header|..] == data;
    FixTransportHeader(src, dst, nextHeader, buf, |header|);
    assert buf[..] == buf[..|header|] + buf[|header|..];
    return buf[..];
  }

  method ComputeHeader4(src: Host, dst: Host, nextHeader: byte, len: nat) returns (header: bytes)
    requires src.family.Inet? && dst.family.Inet? && src.Wf() && dst.Wf()
    ensures header == Header4(src, dst, nextHeader, len)
  {
    header := OpenHeader4(src, dst, nextHeader, len);
    var sum := Checksum.ComputeInc(header, 0xFFFF);
    header := Checksum.Store(header, 10, sum);
  }

  // ip_packet_create_from_data
  method CreateFromData(src: Host, dst: Host, nextHeader: byte, data: bytes) returns (r: Option<Ip>)
    requires src.Wf() && dst.Wf()
    ensures r == Build(src, dst, nextHeader, data)
  {
    if src.family != dst.family || src.family.Other? {
      return None;
    }
    var header;
    if src.family.Inet? {
      header := ComputeHeader4(src, dst, nextHeader, |data|);
    } else {
      header := Header6(src, dst, nextHeader, |data|);
    }
    var packet := Assemble(src, dst, nextHeader, header, data);
    return Parse(packet);
  }

  function UdpSegment(data: bytes): bytes { [0, 0, 0, 0] + Be16((8 + |data|) % 0x1_0000) + [0, 0] + data }

  // ip_packet_create_udp_from_data
  method CreateUdpFromData(src: Host, dst: Host, data: bytes) returns (r: Option<Ip>)
    requires src.Wf() && dst.Wf()
    ensures r == Build(src, dst, UDP, UdpSegment(data))
  {
    r := CreateFromData(src, dst, UDP, UdpSegment(data));
  }

  // ---------------------------------------------------------------- what was built

  // IPv6 packets are built with version 0, which the parser the builder ends with refuses
  lemma BuildingIPv6Fails(src: Host, dst: Host, nextHeader: byte, data: bytes)
    requires src.Wf() && dst.Wf() && src.family.Inet6?
    ensures Build(src, dst, nextHeader, data).None?
  {}

  lemma StoreFields(b: bytes, i: nat, n: u16)
    requires i + 2 <= |b|
    ensures U16(Checksum.Store(b, i, n), i) == n
    ensures forall j | 0 <= j < |b| && j != i && j != i + 1 :: Checksum.Store(b, i, n)[j] == b[j]
  {}

  lemma Header4Fields(src: Host, dst: Host, nextHeader: byte, len: nat)
    requires src.Wf() && dst.Wf() && src.family.Inet? && dst.family.Inet?
    ensures var h := Header4(src, dst, nextHeader, len);
      && h[0] == 0x45 && U16(h, 2) == (20 + len) % 0x1_0000 && h[9] == nextHeader
      && h[12..16] == src.address && h[16..20] == dst.address
      && Checksum.AllOnes(h)
  {
    var open, h := OpenHeader4(src, dst, nextHeader, len), Header4(src, dst, nextHeader, len);
    assert open[0] == 0x45 && U16(open, 2) == (20 + len) % 0x1_0000 && open[9] == nextHeader && U16(open, 10) == 0;
    assert open[12..16] == src.address && open[16..20] == dst.address;
    StoreFields(open, 10, Checksum.Of(open));
    assert h[12..16] == open[12..16] && h[16..20] == open[16..20];
    Checksum.StoredChecksumCloses([], open, 10);
    assert Checksum.Of([]) == 0xFFFF;
    assert [] + h == h;
  }

  lemma OpenFields(src: Host, dst: Host, payload: bytes, i: nat)
    requires |payload| >= 8 && 4 <= i && i + 2 <= |payload|
    ensures var r := OpenTransport(src, dst, payload, i);
      && U16(r, 0) == (if src.port != 0 then src.port else U16(payload, 0))
      && U16(r, 2) == (if dst.port != 0 then dst.port else U16(payload, 2))
      && U16(r, i) == 0
      && (forall j | 4 <= j < |payload| && j != i && j != i + 1 :: r[j] == payload[j])
  {}

  // The sum over a segment and what RFC 768 and RFC 793 add to it, the addresses, protocol and length, is all
  // ones
  predicate TransportSumCloses(src: Host, dst: Host, proto: byte, segment: bytes) {
    Checksum.Fold(Checksum.WordSum(src.address) + Checksum.WordSum(dst.address) + proto + |segment|
                  + Checksum.WordSum(segment)) == 0xFFFF
  }

  lemma SumAfterAddresses(src: bytes, dst: bytes, rest: bytes)
    requires |src| % 2 == 0 && |dst| % 2 == 0
    ensures Checksum.WordSum(src + dst + rest)
      == Checksum.WordSum(src) + Checksum.WordSum(dst) + Checksum.WordSum(rest)
  {
    Checksum.WordSumConcat(src, dst);
    Checksum.WordSumConcat(src + dst, rest);
  }

  lemma SumOfRest4(proto: byte, len: u16)
    ensures Checksum.WordSum([0, proto] + Be16(len)) == proto as int + len
  {
    assert [0, proto] == Be16(proto) && Be16(len) == Be16(len) + [];
    Checksum.WordSumWord(proto, Be16(len));
    Checksum.WordSumWord(len, []);
  }

  lemma SumOfRest6(proto: byte, len: u16)
    ensures Checksum.WordSum(Be16(len) + [0, 0, 0, 0, 0, proto]) == proto as int + len
  {
    var low := Be16(proto) + [];
    var middle := Be16(0) + low;
    assert [0, 0, 0, 0, 0, proto] == Be16(0) + middle;
    Checksum.WordSumWord(len, Be16(0) + middle);
    Checksum.WordSumWord(0, middle);
    Checksum.WordSumWord(0, low);
    Checksum.WordSumWord(proto, []);
  }

  lemma PseudoHeaderSum4(src: Host, dst: Host, proto: byte, len: u16)
    requires src.Wf() && dst.Wf() && src.family.Inet? && dst.family.Inet?
    ensures Checksum.WordSum(PseudoHeader(src, dst, proto, len))
      == Checksum.WordSum(src.address) + Checksum.WordSum(dst.address) + proto + len
  {
    var rest := [0, proto] + Be16(len);
    SumOfRest4(proto, len);
    SumAfterAddresses(src.address, dst.address, rest);
    assert PseudoHeader(src, dst, proto, len) == src.address + dst.address + rest;
  }

  lemma PseudoHeaderSum6(src: Host, dst: Host, proto: byte, len: u16)
    requires src.Wf() && dst.Wf() && src.family.Inet6? && dst.family.Inet6?
    ensures Checksum.WordSum(PseudoHeader(src, dst, proto, len))
      == Checksum.WordSum(src.address) + Checksum.WordSum(dst.address) + proto + len
  {
    var rest := Be16(len) + [0, 0, 0, 0, 0, proto];
    SumOfRest6(proto, len);
    SumAfterAddresses(src.address, dst.address, rest);
    assert PseudoHeader(src, dst, proto, len) == src.address + dst.address + rest;
  }

  lemma PseudoHeaderSum(src: Host, dst: Host, proto: byte, len: u16)
    requires src.Wf() && dst.Wf() && src.family == dst.family && !src.family.Other?
    ensures |PseudoHeader(src, dst, proto, len)| % 2 == 0
    ensures Checksum.WordSum(PseudoHeader(src, dst, proto, len))
      == Checksum.WordSum(src.address) + Checksum.WordSum(dst.address) + proto + len
  {
    if src.family.Inet? {
      PseudoHeaderSum4(src, dst, proto, len);
    } else {
      PseudoHeaderSum6(src, dst, proto, len);
    }
  }

  lemma SumClosesIff(src: Host, dst: Host, proto: byte, segment: bytes)
    requires src.Wf() && dst.Wf() && src.family == dst.family && !src.family.Other? && |segment| <= 0xFFFF
    ensures TransportSumCloses(src, dst, proto, segment) <==>
      Checksum.AllOnes(PseudoHeader(src, dst, proto, |segment|) + segment)
  {
    PseudoHeaderSum(src, dst, proto, |segment|);
    Checksum.WordSumConcat(PseudoHeader(src, dst, proto, |segment|), segment);
  }

  lemma ChecksumStored(src: Host, dst: Host, proto: byte, payload: bytes, open: bytes, i: nat)
    requires src.Wf() && dst.Wf() && src.family == dst.family && !src.family.Other?
    requires |open| == |payload| <= 0xFFFF && i % 2 == 0 && i + 2 <= |open| && U16(open, i) == 0
    ensures Checksum.AllOnes(PseudoHeader(src, dst, proto, |payload|) +
                             Checksum.Store(open, i, Checksum.Inc(open, PseudoChecksum(src, dst, proto, payload))))
  {
    var pseudo := PseudoHeader(src, dst, proto, |payload|);
    assert |pseudo| == 12 || |pseudo| == 40;
    Checksum.StoredChecksumCloses(pseudo, open, i);
  }

  // Ports as asked for (or as they were), the rest of the segment untouched, and a checksum that
  // closes the sum over pseudo-header and segment
  lemma FixedFields(src: Host, dst: Host, proto: byte, payload: bytes)
    requires src.Wf() && dst.Wf() && src.family == dst.family && !src.family.Other?
    requires ((proto == 17 && |payload| >= 8) || (proto == 6 && |payload| >= 20)) && |payload| <= 0xFFFF
    ensures var r := FixTransport(src, dst, proto, payload);
      && U16(r, 0) == (if src.port != 0 then src.port else U16(payload, 0))
      && U16(r, 2) == (if dst.port != 0 then dst.port else U16(payload, 2))
      && (var i := if proto == 17 then 6 else 16;
          forall j | 4 <= j < |payload| && j != i && j != i + 1 :: r[j] == payload[j])
      && TransportSumCloses(src, dst, proto, r)
  {
    SumClosesIff(src, dst, proto, FixTransport(src, dst, proto, payload));
    var i := CheckOffset(proto, |payload|).value;
    var open := OpenTransport(src, dst, payload, i);
    OpenFields(src, dst, payload, i);
    StoreFields(open, i, Checksum.Inc(open, PseudoChecksum(src, dst, proto, payload)));
    ChecksumStored(src, dst, proto, payload, open, i);
  }

  // Anything else is left as it is
  lemma OthersUntouched(src: Host, dst: Host, proto: byte, payload: bytes)
    requires !(proto == 17 && |payload| >= 8) && !(proto == 6 && |payload| >= 20)
    ensures FixTransport(src, dst, proto, payload) == payload
  {}

  lemma OpenHeaderIs(src: Host, dst: Host, nextHeader: byte, len: nat)
    requires |src.address| == |dst.address| == 4
    ensures var start := [0x45, 0] + Be16((20 + len) % 0x1_0000) + [0, 0, 0, 0] + [128, nextHeader];
      OpenHeader4(src, dst, nextHeader, len) == start + [0, 0] + (src.address + dst.address) && |start| == 10
  {}

  lemma StoredAt10(start: bytes, rest: bytes, sum: u16)
    requires |start| == 10
    ensures Checksum.Store(start + [0, 0] + rest, 10, sum) == start + Be16(sum) + rest
  {}

  lemma PlainIpv4(proto: byte, sum: bytes, src: bytes, dst: bytes, data: bytes)
    requires 20 + |data| <= 0xFFFF
    ensures [0x45, 0] + Be16(20 + |data|) + [0, 0, 0, 0] + [128, proto] + sum + (src + dst) + data
      == Ipv4(0, [0, 0, 0, 0], 128, proto, sum, src, dst, [], data)
  {}

  // The header of a built packet is one of RFC 791 without options or fragmentation, with time to live 128
  lemma BuiltHeader(src: Host, dst: Host, nextHeader: byte, data: bytes)
    requires src.Wf() && dst.Wf() && src.family.Inet? && dst.family.Inet? && 20 + |data| <= 0xFFFF
    ensures exists sum: u16 ::
      Header4(src, dst, nextHeader, |data|) + data
        == Ipv4(0, [0, 0, 0, 0], 128, nextHeader, Be16(sum), src.address, dst.address, [], data)
  {
    var start := [0x45, 0] + Be16((20 + |data|) % 0x1_0000) + [0, 0, 0, 0] + [128, nextHeader];
    var sum := Checksum.Of(OpenHeader4(src, dst, nextHeader, |data|));
    OpenHeaderIs(src, dst, nextHeader, |data|);
    StoredAt10(start, src.address + dst.address, sum);
    PlainIpv4(nextHeader, Be16(sum), src.address, dst.address, data);
    assert Header4(src, dst, nextHeader, |data|) == start + Be16(sum) + (src.address + dst.address);
  }

  // A built IPv4 packet has the addresses, protocol and data it was built from, and its header sums to all
  // ones; it is as long as its header declares, in 16 bits
  lemma BuiltIsParsed(src: Host, dst: Host, nextHeader: byte, data: bytes)
    requires src.Wf() && dst.Wf() && src.family.Inet? && dst.family.Inet?
    ensures var packet := Header4(src, dst, nextHeader, |data|) + FixTransport(src, dst, nextHeader, data);
      var kept := packet[..(20 + |data|) % 0x1_0000];
      var payload := Skip(kept, 20);
      && Checksum.AllOnes(packet[..20])
      && Build(src, dst, nextHeader, data) ==
        match ParseTransport(payload, nextHeader)
        case None => None
        case Some((sport, dport)) => Some(Ip(4, src.(port := sport), dst.(port := dport), kept, payload, nextHeader))
  {
    var header := Header4(src, dst, nextHeader, |data|);
    var packet := header + FixTransport(src, dst, nextHeader, data);
    Header4Fields(src, dst, nextHeader, |data|);
    assert packet[..20] == header && packet[12..16] == src.address && packet[16..20] == dst.address;
    assert U16(packet, 2) == (20 + |data|) % 0x1_0000 <= |packet| == 20 + |data|;
  }

  lemma AllKept(header: bytes, body: bytes)
    requires |header| == 20 && 20 + |body| <= 0xFFFF
    ensures (header + body)[..(20 + |body|) % 0x1_0000] == header + body && Skip(header + body, 20) == body
  {
    assert (20 + |body|) % 0x1_0000 == |header + body|;
  }

  // Data that fits is all there
  lemma BuiltWhole(src: Host, dst: Host, nextHeader: byte, data: bytes)
    requires src.Wf() && dst.Wf() && src.family.Inet? && dst.family.Inet? && 20 + |data| <= 0xFFFF
    ensures var body := FixTransport(src, dst, nextHeader, data);
      var packet := Header4(src, dst, nextHeader, |data|) + body;
      && Checksum.AllOnes(packet[..20])
      && Build(src, dst, nextHeader, data) ==
        match ParseTransport(body, nextHeader)
        case None => None
        case Some((sport, dport)) => Some(Ip(4, src.(port := sport), dst.(port := dport), packet, body, nextHeader))
  {
    BuiltIsParsed(src, dst, nextHeader, data);
    AllKept(Header4(src, dst, nextHeader, |data|), FixTransport(src, dst, nextHeader, data));
  }

  lemma UdpBody(segment: bytes, body: bytes, data: bytes)
    requires segment == UdpSegment(data) && 8 + |data| <= 0xFFFF && |body| == |segment|
    requires forall j | 4 <= j < |segment| && j != 6 && j != 7 :: body[j] == segment[j]
    ensures body[8..] == data && U16(body, 4) == 8 + |data|
  {}

  lemma UdpSegmentFixed(src: Host, dst: Host, data: bytes)
    requires src.Wf() && dst.Wf() && src.family.Inet? && dst.family.Inet? && 28 + |data| <= 0xFFFF
    ensures var body := FixTransport(src, dst, UDP, UdpSegment(data));
      && ParseTransport(body, UDP) == Some((src.port, dst.port))
      && |body| == 8 + |data| && body[8..] == data && U16(body, 4) == 8 + |data|
      && TransportSumCloses(src, dst, UDP, body)
  {
    var segment := UdpSegment(data);
    FixedFields(src, dst, UDP, segment);
    assert U16(segment, 0) == 0 && U16(segment, 2) == 0;
    UdpBody(segment, FixTransport(src, dst, UDP, segment), data);
  }

  lemma UdpThatFits(src: Host, dst: Host, data: bytes)
    requires src.Wf() && dst.Wf() && src.family.Inet? && dst.family.Inet? && 28 + |data| <= 0xFFFF
    ensures var header, body := Header4(src, dst, UDP, 8 + |data|), FixTransport(src, dst, UDP, UdpSegment(data));
      && Build(src, dst, UDP, UdpSegment(data)) == Some(Ip(4, src, dst, header + body, body, UDP))
      && |body| == 8 + |data| && body[8..] == data && U16(body, 4) == 8 + |data|
      && Checksum.AllOnes(header)
      && TransportSumCloses(src, dst, UDP, body)
  {
    var segment := UdpSegment(data);
    var header, body := Header4(src, dst, UDP, 8 + |data|), FixTransport(src, dst, UDP, segment);
    Header4Fields(src, dst, UDP, 8 + |data|);
    BuiltWhole(src, dst, UDP, segment);
    UdpSegmentFixed(src, dst, data);
    assert src.(port := src.port) == src && dst.(port := dst.port) == dst;
  }

  // Data that does not fit is cut to the length that wrapped around, and if that is too short for the
  // transport header no packet results
  lemma OversizedIsCut(src: Host, dst: Host, nextHeader: byte, data: bytes)
    requires src.Wf() && dst.Wf() && src.family.Inet? && dst.family.Inet? && 20 + |data| > 0xFFFF
    ensures var r := Build(src, dst, nextHeader, data);
      var packet := Header4(src, dst, nextHeader, |data|) + FixTransport(src, dst, nextHeader, data);
      var kept := (20 + |data|) % 0x1_0000;
      && (r.None? <==> ParseTransport(Skip(packet[..kept], 20), nextHeader).None?)
      && (r.Some? ==> r.value.packet == packet[..kept] && |r.value.payload| < |data|)
  {
    BuiltIsParsed(src, dst, nextHeader, data);
  }

  // Building a UDP packet and parsing it gives back both endpoints and the data, and both checksums
  // are right, exactly for IPv4 endpoints and data that fits the 16-bit length fields
  lemma UdpRoundTrip(src: Host, dst: Host, data: bytes)
    requires src.Wf() && dst.Wf()
    ensures var r := Build(src, dst, UDP, UdpSegment(data));
      var good := src.family.Inet? && dst.family.Inet? && 28 + |data| <= 0xFFFF;
      && (good <==> r.Some? && |r.value.payload| >= 8 && r.value.payload[8..] == data)
      && (good ==>
            && r.value.src == src && r.value.dst == dst && r.value.nextHeader == UDP
            && r.value.packet[20..] == r.value.payload && U16(r.value.payload, 4) == 8 + |data|
            && Checksum.AllOnes(r.value.packet[..20])
            && TransportSumCloses(src, dst, 17, r.value.payload))
  {
    if src.family != dst.family || src.family.Other? {
    } else if src.family.Inet6? {
      BuildingIPv6Fails(src, dst, UDP, UdpSegment(data));
    } else if 28 + |data| <= 0xFFFF {
      UdpThatFits(src, dst, data);
      var header, body := Header4(src, dst, UDP, 8 + |data|), FixTransport(src, dst, UDP, UdpSegment(data));
      assert (header + body)[..20] == header && (header + body)[20..] == body;
    } else {
      OversizedIsCut(src, dst, UDP, UdpSegment(data));
    }
  }
}
