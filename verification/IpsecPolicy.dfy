// IPsec policies (ipsec_policy.c) and the traffic selectors they match packets with.
module IpsecPolicy {
  import opened Base
  import opened IpPacket

  datatype AddrType = Ipv4Range | Ipv6Range

  // A range of addresses, a range of ports and a protocol (0 for any).  `mask` is the length of the
  // prefix that the addresses of the range have in common, as to_subnet computes it.
  type prefix = n: int | 0 <= n <= 128
  datatype Selector = Selector(
    kind: AddrType, from: bytes, to: bytes, fromPort: u16, toPort: u16, protocol: byte, mask: prefix)

  datatype Direction = In | Out | Fwd
  datatype PolicyType = Ipsec | Pass | Drop
  datatype Class = PassThrough | Default | Routed | Fallback
  datatype Mark = Mark(value: u32, mask: u32)

  // What add_policy and del_policy are called with
  datatype Args = Args(
    srcTs: Selector, dstTs: Selector, direction: Direction, kind: PolicyType, reqid: u32, mark: Mark, priority: Class)

  // `id` numbers the policy objects in the order they are created: two policies that were installed
  // with the same arguments are still different objects
  datatype Policy = Policy(id: nat, args: Args) {
    function Protocol(): byte { Max(args.srcTs.protocol, args.dstTs.protocol) }
  }

  function Max(a: nat, b: nat): nat { if a > b then a else b }

  // traffic_selector_cmp() == 0, which does not look at the prefix length
  predicate SameSelector(a: Selector, b: Selector) {
    && a.kind == b.kind && a.from == b.from && a.to == b.to
    && a.protocol == b.protocol && a.fromPort == b.fromPort && a.toPort == b.toPort
  }

  predicate Matches(p: Policy, a: Args) {
    && p.args.direction == a.direction
    && p.args.priority == a.priority
    && p.args.reqid == a.reqid
    && p.args.mark == a.mark
    && SameSelector(p.args.srcTs, a.srcTs)
    && SameSelector(p.args.dstTs, a.dstTs)
  }

  // memcmp() <= 0 over the bytes both have
  predicate AtMost(a: bytes, b: bytes) {
    a == [] || b == [] || a[0] < b[0] || (a[0] == b[0] && AtMost(a[1..], b[1..]))
  }

  predicate Includes(ts: Selector, host: Host) {
    && host.family == (match ts.kind case Ipv4Range => Inet case Ipv6Range => Inet6)
    && AtMost(ts.from, host.address) && AtMost(host.address, ts.to)
  }

  predicate AnyPort(ts: Selector) { ts.fromPort == 0 && ts.toPort == 0xFFFF }

  predicate OpaquePort(ts: Selector) { ts.fromPort == 0xFFFF && ts.toPort == 0 }

  predicate MatchPort(ts: Selector, host: Host) {
    AnyPort(ts) || OpaquePort(ts) || ts.fromPort <= host.port <= ts.toPort
  }

  predicate MatchPacket(p: Policy, packet: Ip) {
    && (p.Protocol() == 0 || p.Protocol() == packet.nextHeader)
    && Includes(p.args.srcTs, packet.src) && MatchPort(p.args.srcTs, packet.src)
    && Includes(p.args.dstTs, packet.dst) && MatchPort(p.args.dstTs, packet.dst)
  }

  // ---------------------------------------------------------------- what matching means

  // The addresses of the range have the size of their kind
  predicate Wf(ts: Selector) {
    |ts.from| == |ts.to| == match ts.kind case Ipv4Range => 4 case Ipv6Range => 16
  }

  function Pow256(n: nat): nat { if n == 0 then 1 else 0x100 * Pow256(n - 1) }

  lemma {:induction false} NumberFits(b: bytes)
    ensures Number(b) < Pow256(|b|)
    decreases |b|
  {
    if b != [] { NumberFits(b[..|b| - 1]); }
  }

  lemma Shifted(first: nat, size: nat, rest: nat, last: nat)
    ensures 0x100 * (first * size + rest) + last == first * (0x100 * size) + (0x100 * rest + last)
  {}

  lemma {:induction false} NumberFromFront(b: bytes)
    requires b != []
    ensures Number(b) == b[0] * Pow256(|b| - 1) + Number(b[1..])
    decreases |b|
  {
    if |b| > 1 {
      var front, last := b[..|b| - 1], b[|b| - 1];
      NumberFromFront(front);
      assert b[1..][..|b| - 2] == front[1..];
      Shifted(b[0], Pow256(|b| - 2), Number(front[1..]), last);
    }
  }

  lemma FirstByteDecides(x: nat, y: nat, size: nat, m: nat, n: nat)
    requires m < size && n < size
    ensures x < y ==> x * size + m < y * size + n
  {
    if x < y {
      assert (x + 1) * size <= y * size;
    }
  }

  // memcmp orders addresses of equal size by the numbers they are in network order
  lemma {:induction false} AtMostIsNumeric(a: bytes, b: bytes)
    requires |a| == |b|
    ensures AtMost(a, b) <==> Number(a) <= Number(b)
    decreases |a|
  {
    if a != [] {
      NumberFromFront(a);
      NumberFromFront(b);
      NumberFits(a[1..]);
      NumberFits(b[1..]);
      AtMostIsNumeric(a[1..], b[1..]);
      var size := Pow256(|a| - 1);
      FirstByteDecides(a[0], b[0], size, Number(a[1..]), Number(b[1..]));
      FirstByteDecides(b[0], a[0], size, Number(b[1..]), Number(a[1..]));
    }
  }

  // The host's address lies in the range as a number, and its port in that of the ports, unless these say any
  // or opaque
  predicate Covers(ts: Selector, host: Host) {
    && (if ts.kind == Ipv4Range then host.family == Inet else host.family == Inet6)
    && Number(ts.from) <= Number(host.address) <= Number(ts.to)
    && ((ts.fromPort == 0 && ts.toPort == 65535) || (ts.fromPort == 65535 && ts.toPort == 0)
        || ts.fromPort <= host.port <= ts.toPort)
  }

  // Source covers source, destination covers destination, and the greater of the two protocols is that of
  // the packet, unless both are 0
  predicate Governs(p: Policy, packet: Ip) {
    && Covers(p.args.srcTs, packet.src) && Covers(p.args.dstTs, packet.dst)
    && (p.args.srcTs.protocol == p.args.dstTs.protocol == 0
        || (packet.nextHeader == p.args.srcTs.protocol >= p.args.dstTs.protocol)
        || (packet.nextHeader == p.args.dstTs.protocol >= p.args.srcTs.protocol))
  }

  lemma CoversIff(ts: Selector, host: Host)
    requires Wf(ts) && host.Wf()
    ensures Covers(ts, host) <==> Includes(ts, host) && MatchPort(ts, host)
  {
    if |host.address| == |ts.from| {
      AtMostIsNumeric(ts.from, host.address);
      AtMostIsNumeric(host.address, ts.to);
    }
  }

  lemma GovernsIff(p: Policy, packet: Ip)
    requires Wf(p.args.srcTs) && Wf(p.args.dstTs) && packet.src.Wf() && packet.dst.Wf()
    ensures MatchPacket(p, packet) <==> Governs(p, packet)
  {
    CoversIff(p.args.srcTs, packet.src);
    CoversIff(p.args.dstTs, packet.dst);
  }

  // What a deletion is for agrees with the policy in all but the kind and how long the prefixes are
  lemma MatchesIff(p: Policy, a: Args)
    ensures Matches(p, a) <==>
      a == p.args.(kind := a.kind, srcTs := p.args.srcTs.(mask := a.srcTs.mask),
                   dstTs := p.args.dstTs.(mask := a.dstTs.mask))
  {}
}
