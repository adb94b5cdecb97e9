// The packet processor of libipsec (ipsec_processor.c): the two jobs that take packets from the queues,
// and find policies and SAs for them.
module Processor {
  import opened Base
  import opened IpPacket
  import opened EspContext
  import opened EspPacket
  import opened IpsecPolicy
  import opened PolicyMgr
  import opened IpsecSa
  import SaManager

  type Callback = nat  // callbacks, of which only identity matters

  // What a job does to the things it shares with others.  Deliver hands the payload of an ESP packet
  // over, Send a whole ESP packet.
  datatype Effect =
    | Dequeue
    | CheckOut | UseSa | CheckIn
    | TakePolicy | UsePolicy | ReleasePolicy
    | Deliver(callback: Callback, ip: Ip)
    | Send(to: Callback, src: Host, dst: Host, data: bytes)
    | Destroy

  // ---------------------------------------------------------------- what the jobs hand over

  // An SA with what the jobs use of its context
  datatype SaView = SaView(
    spi: u32, reqid: u32, inbound: bool, lifetime: Lifetime, aead: Aead, replay: Replay, state: IpsecSa.State)
  {
    function Identity(): SaManager.Sa {
      SaManager.Sa(spi, state.src.Where(), state.dst.Where(), reqid, inbound, state.hardExpired)
    }
  }

  // The position of the first SA that a key finds, or the length of the list
  ghost function FindSa(sas: seq<SaView>, key: SaManager.Key): (i: nat)
    ensures i <= |sas|
    ensures forall j | 0 <= j < i :: !SaManager.Matches(sas[j].Identity(), key)
    ensures i < |sas| ==> SaManager.Matches(sas[i].Identity(), key)
  {
    if sas == [] || SaManager.Matches(sas[0].Identity(), key) then 0 else 1 + FindSa(sas[1..], key)
  }

  function Length32(b: bytes): u32 { |b| % 0x1_0000_0000 }

  ghost function Count(sa: SaView, b: bytes): SaView {
    sa.(state := Used(sa.state, sa.spi, sa.lifetime, Length32(b)))
  }

  // The SA that a key finds, if wait_for_entry lets the thread have it
  ghost function Found(sas: seq<SaView>, key: SaManager.Key, granted: bool): Option<SaView> {
    var i := FindSa(sas, key);
    if i < |sas| && granted then Some(sas[i]) else None
  }

  // What is handed to callbacks, and the SA that was checked out, as it is afterwards
  datatype Job = Job(handed: seq<Effect>, sa: Option<SaView>)

  // An authenticated packet is delivered if a policy lets it in
  ghost function Dispatch(ip: Ip, nextHeader: byte, reqid: u32, policies: seq<Entry>, callback: Option<Callback>)
    : seq<Effect>
  {
    if nextHeader != IPPROTO_IPIP && nextHeader != IPPROTO_IPV6 then []
    else if FindFirst(policies, ip, true, reqid).None? then []
    else match callback case None => [] case Some(cb) => [Deliver(cb, ip)]
  }

  // An SA after it was used for a packet, and what that gave
  datatype Opened = Opened(sa: SaView, payload: Option<(Ip, byte)>)

  ghost function Authenticated(data: bytes, sa: SaView): Opened
  {
    if !sa.inbound then Opened(sa, None)
    else
      var outcome := Open(sa.aead, sa.replay, data);
      var sa' := sa.(replay := outcome.replay);
      if outcome.status != Success then Opened(sa', None)
      else Opened(Count(sa', outcome.payload.value.0.packet), outcome.payload)
  }

  ghost function Received(data: bytes, sa: SaView, policies: seq<Entry>, callback: Option<Callback>): Job {
    var r := Authenticated(data, sa);
    Job(match r.payload
        case None => []
        case Some((ip, nextHeader)) => Dispatch(ip, nextHeader, sa.reqid, policies, callback),
        Some(r.sa))
  }

  ghost function Inbound(data: bytes, dst: Host, sas: seq<SaView>, granted: bool,
                         policies: seq<Entry>, callback: Option<Callback>): Job
  {
    if |data| < 8 then Job([], None)
    else match Found(sas, SaManager.BySpiDst(U32(data, 0), dst.Where()), granted)
      case None => Job([], None)
      case Some(sa) => Received(data, sa, policies, callback)
  }

  // A packet under the next sequence number
  ghost function SealNext(sa: SaView, ip: Ip): Sent
  {
    EncryptNext(sa.aead, sa.inbound, sa.replay.highest, sa.spi, ip.packet, NextHeaderOf(Some(ip)))
  }

  ghost function AfterSealing(sa: SaView, ip: Ip): SaView
  {
    var sent := SealNext(sa, ip);
    var sa' := sa.(replay := sa.replay.(highest := sent.last));
    if sent.status == Success then Count(sa', ip.packet) else sa'
  }

  ghost function Forwarded(ip: Ip, sa: SaView, callback: Option<Callback>): Job {
    var sent := SealNext(sa, ip);
    Job(if sent.status == Success && callback.Some?
        then [Send(callback.value, sa.state.src, sa.state.dst, sent.data)] else [],
        Some(AfterSealing(sa, ip)))
  }

  ghost function ForwardedUnder(ip: Ip, sas: seq<SaView>, granted: bool, policy: Policy,
                                callback: Option<Callback>): Job
  {
    match Found(sas, SaManager.ByReqid(policy.args.reqid, false), granted)
    case None => Job([], None)
    case Some(sa) => Forwarded(ip, sa, callback)
  }

  ghost function Outbound(ip: Ip, sas: seq<SaView>, granted: bool,
                          policies: seq<Entry>, callback: Option<Callback>): Job
  {
    match FindFirst(policies, ip, false, 0)
    case None => Job([], None)
    case Some(policy) => ForwardedUnder(ip, sas, granted, policy, callback)
  }

  // ---------------------------------------------------------------- custody

  // What a job has in its hands: the packet or what is left of it, an SA, a policy
  datatype Hands = Hands(packet: Holding, sa: bool, policy: bool)
  datatype Holding = Nothing | Whole | Shell

  const EMPTY := Hands(Nothing, false, false)

  // None if the effect is not allowed: nothing is used, handed over or given back that is not held,
  // and nothing is taken while something of its kind is held
  function Handle(h: Hands, e: Effect): Option<Hands> {
    match e
    case Dequeue => if h.packet.Nothing? then Some(h.(packet := Whole)) else None
    case CheckOut => if !h.sa then Some(h.(sa := true)) else None
    case UseSa => if h.sa then Some(h) else None
    case CheckIn => if h.sa then Some(h.(sa := false)) else None
    case TakePolicy => if !h.policy then Some(h.(policy := true)) else None
    case UsePolicy => if h.policy then Some(h) else None
    case ReleasePolicy => if h.policy then Some(h.(policy := false)) else None
    case Deliver(_, _) => if h.packet.Whole? then Some(h.(packet := Shell)) else None
    case Send(_, _, _, _) => if h.packet.Whole? then Some(h.(packet := Nothing)) else None
    case Destroy => if !h.packet.Nothing? then Some(h.(packet := Nothing)) else None
  }

  // The hands after a log of effects, if all of them were allowed
  function HandsAfter(log: seq<Effect>): Option<Hands> {
    if log == [] then Some(EMPTY)
    else match HandsAfter(log[..|log| - 1])
      case None => None
      case Some(h) => Handle(h, log[|log| - 1])
  }

  predicate IsHandedOver(e: Effect) { e.Deliver? || e.Send? }

  function HandedOver(log: seq<Effect>): seq<Effect> {
    if log == [] then []
    else
      var rest := HandedOver(log[..|log| - 1]);
      if IsHandedOver(log[|log| - 1]) then rest + [log[|log| - 1]] else rest
  }

  // How often what was done
  datatype Tally = Tally(
    dequeued: nat, destroyed: nat, sent: nat, delivered: nat,
    checkedOut: nat, checkedIn: nat, taken: nat, released: nat)

  function TallyOf(log: seq<Effect>): Tally {
    if log == [] then Tally(0, 0, 0, 0, 0, 0, 0, 0)
    else
      var t := TallyOf(log[..|log| - 1]);
      match log[|log| - 1]
      case Dequeue => t.(dequeued := t.dequeued + 1)
      case Destroy => t.(destroyed := t.destroyed + 1)
      case Send(_, _, _, _) => t.(sent := t.sent + 1)
      case Deliver(_, _) => t.(delivered := t.delivered + 1)
      case CheckOut => t.(checkedOut := t.checkedOut + 1)
      case CheckIn => t.(checkedIn := t.checkedIn + 1)
      case TakePolicy => t.(taken := t.taken + 1)
      case ReleasePolicy => t.(released := t.released + 1)
      case UseSa => t
      case UsePolicy => t
  }

  // In a log of allowed effects everything taken was given back exactly once, but for what is in hand:
  // each packet was destroyed or sent, each SA checked in, each policy released
  lemma {:induction false} EverythingIsGivenBack(log: seq<Effect>)
    requires HandsAfter(log).Some?
    ensures var (h, t) := (HandsAfter(log).value, TallyOf(log));
      && t.dequeued == t.destroyed + t.sent + (if h.packet.Nothing? then 0 else 1)
      && t.checkedOut == t.checkedIn + (if h.sa then 1 else 0)
      && t.taken == t.released + (if h.policy then 1 else 0)
      && t.delivered <= t.destroyed + (if h.packet.Shell? then 1 else 0)
  {
    if log != [] {
      EverythingIsGivenBack(log[..|log| - 1]);
    }
  }

  // At each point of such a log: an SA is used and checked in only between its checkout and its return, a
  // policy only while it is held, a packet is handed over or destroyed only if it was dequeued and not
  // destroyed or sent since, and its payload is delivered at most once
  lemma {:induction false} UsedOnlyWhileHeld(log: seq<Effect>, i: nat)
    requires HandsAfter(log).Some? && i < |log|
    ensures var t := TallyOf(log[..i]);
      match log[i]
      case Dequeue => t.dequeued == t.destroyed + t.sent
      case CheckOut => t.checkedOut == t.checkedIn
      case TakePolicy => t.taken == t.released
      case UseSa => t.checkedOut == t.checkedIn + 1
      case CheckIn => t.checkedOut == t.checkedIn + 1
      case UsePolicy => t.taken == t.released + 1
      case ReleasePolicy => t.taken == t.released + 1
      case Deliver(_, _) => t.dequeued == t.destroyed + t.sent + 1 && t.delivered <= t.destroyed
      case Send(_, _, _, _) => t.dequeued == t.destroyed + t.sent + 1
      case Destroy => t.dequeued == t.destroyed + t.sent + 1
    decreases |log|
  {
    var before := log[..|log| - 1];
    if i < |before| {
      assert before[..i] == log[..i];
      UsedOnlyWhileHeld(before, i);
    } else {
      EverythingIsGivenBack(before);
    }
  }

  // ---------------------------------------------------------------- the processor

  // What the two jobs hold of the program's objects
  datatype Held = NoPacket | Esp(packet: Packet) | Emptied(packet: Packet) | Plain(ip: Ip)

  datatype Custody = Custody(packet: Held, sa: Option<SaObject>, policy: Option<Policy>) {
    function InHand(): Hands {
      Hands(match packet case NoPacket => Nothing case Emptied(_) => Shell case _ => Whole, sa.Some?, policy.Some?)
    }
  }

  ghost function ViewOf(sa: SaObject): SaView
    reads sa, sa.context
  {
    SaView(sa.spi, sa.reqid, sa.inbound, sa.lifetime, sa.context.aead, sa.context.View(), sa.View())
  }

  ghost function Contexts(sas: seq<SaObject>): set<Context> { set sa | sa in sas :: sa.context }

  // How the SAs of the list are seen
  ghost predicate Show(sas: seq<SaObject>, views: seq<SaView>)
    reads sas, Contexts(sas)
  {
    |views| == |sas| && forall i | 0 <= i < |sas| :: views[i] == ViewOf(sas[i])
  }

  ghost function FoundObject(sas: seq<SaObject>, views: seq<SaView>, key: SaManager.Key, granted: bool)
    : Option<SaObject>
    requires |views| == |sas|
  {
    var i := FindSa(views, key);
    if i < |sas| && granted then Some(sas[i]) else None
  }

  ghost function InboundSa(data: bytes, dst: Host, sas: seq<SaObject>, views: seq<SaView>, granted: bool)
    : Option<SaObject>
    requires |views| == |sas|
  {
    if |data| < 8 then None else FoundObject(sas, views, SaManager.BySpiDst(U32(data, 0), dst.Where()), granted)
  }

  ghost function OutboundSa(ip: Ip, sas: seq<SaObject>, views: seq<SaView>, granted: bool, policies: seq<Entry>)
    : Option<SaObject>
    requires |views| == |sas|
  {
    match FindFirst(policies, ip, false, 0)
    case None => None
    case Some(policy) => FoundObject(sas, views, SaManager.ByReqid(policy.args.reqid, false), granted)
  }

  ghost function Footprint(found: Option<SaObject>): set<object> {
    if found.None? then {} else {found.value, found.value.context, found.value.context.window}
  }

  ghost function ViewOfFound(found: Option<SaObject>): Option<SaView>
    reads if found.Some? then {found.value, found.value.context} else {}
  {
    if found.None? then None else Some(ViewOf(found.value))
  }

  class Processor {
    var inboundQueue: seq<Packet>
    var outboundQueue: seq<Ip>
    var inbound: Option<Callback>
    var outbound: Option<Callback>
    ghost var custody: Custody   // what the job that runs has in its hands
    ghost var log: seq<Effect>   // everything that was done so far

    ghost predicate Valid()
      reads this
    {
      HandsAfter(log) == Some(custody.InHand())
    }

    constructor ()
      ensures Valid() && custody == Custody(NoPacket, None, None) && log == []
      ensures inboundQueue == [] && outboundQueue == [] && inbound == None && outbound == None
    {
      inboundQueue, outboundQueue, inbound, outbound := [], [], None, None;
      custody, log := Custody(NoPacket, None, None), [];
    }

    // -------------------------------------------------------------- single operations

    // All an operation does to this object is to change what is in hand
    twostate predicate Holds(new c: Custody)
      reads this
    {
      Valid() && custody == c && HandedOver(log) == old(HandedOver(log))
    }

    ghost method Emit(e: Effect, c: Custody)
      requires Valid() && Handle(custody.InHand(), e) == Some(c.InHand())
      modifies `custody, `log
      ensures Valid() && custody == c
      ensures HandedOver(log) == old(HandedOver(log)) + (if IsHandedOver(e) then [e] else [])
    {
      log, custody := log + [e], c;
      assert log[..|log| - 1] == old(log);
    }

    method DequeueInbound() returns (packet: Packet)
      requires Valid() && custody.packet.NoPacket? && inboundQueue != []
      modifies `inboundQueue, `custody, `log
      ensures packet == old(inboundQueue)[0] && inboundQueue == old(inboundQueue)[1..]
      ensures Holds(old(custody).(packet := Esp(packet)))
    {
      packet := inboundQueue[0];
      inboundQueue := inboundQueue[1..];
      Emit(Dequeue, custody.(packet := Esp(packet)));
    }

    method DequeueOutbound() returns (packet: Ip)
      requires Valid() && custody.packet.NoPacket? && outboundQueue != []
      modifies `outboundQueue, `custody, `log
      ensures packet == old(outboundQueue)[0] && outboundQueue == old(outboundQueue)[1..]
      ensures Holds(old(custody).(packet := Plain(packet)))
    {
      packet := outboundQueue[0];
      outboundQueue := outboundQueue[1..];
      Emit(Dequeue, custody.(packet := Plain(packet)));
    }

    static method SearchSa(sas: seq<SaObject>, ghost views: seq<SaView>, key: SaManager.Key) returns (i: nat)
      requires Show(sas, views)
      ensures i == FindSa(views, key)
    {
      i := 0;
      while i < |sas| && !sas[i].IsFoundBy(key)
        invariant 0 <= i <= |sas|
        invariant FindSa(views, key) == i + FindSa(views[i..], key)
      {
        assert views[i] == ViewOf(sas[i]);
        assert views[i..][1..] == views[i + 1..];
        i := i + 1;
      }
      if i < |sas| {
        assert views[i] == ViewOf(sas[i]);
      }
    }

    // checkout_by_spi and checkout_by_reqid
    method CheckOutSa(sas: seq<SaObject>, ghost views: seq<SaView>, key: SaManager.Key, granted: bool)
      returns (found: Option<SaObject>)
      requires Valid() && custody.sa.None? && Show(sas, views)
      modifies `custody, `log
      ensures found == FoundObject(sas, views, key, granted)
      ensures Holds(old(custody).(sa := found))
    {
      var i := SearchSa(sas, views, key);
      if i == |sas| || !granted {
        return None;
      }
      Emit(CheckOut, custody.(sa := Some(sas[i])));
      return Some(sas[i]);
    }

    method CheckInSa(sa: SaObject)
      requires Valid() && custody.sa == Some(sa)
      modifies `custody, `log
      ensures Holds(old(custody).(sa := None))
    {
      Emit(CheckIn, custody.(sa := None));
    }

    method IsInbound(sa: SaObject) returns (r: bool)
      requires Valid() && custody.sa == Some(sa)
      modifies `log, `custody
      ensures Holds(old(custody)) && r == sa.inbound
    {
      Emit(UseSa, custody);
      return sa.inbound;
    }

    method ReqidOf(sa: SaObject) returns (r: u32)
      requires Valid() && custody.sa == Some(sa)
      modifies `log, `custody
      ensures Holds(old(custody)) && r == sa.reqid
    {
      Emit(UseSa, custody);
      return sa.reqid;
    }

    method EndpointsOf(sa: SaObject) returns (src: Host, dst: Host)
      requires Valid() && custody.sa == Some(sa)
      modifies `log, `custody
      ensures Holds(old(custody)) && src == sa.src && dst == sa.dst
    {
      Emit(UseSa, custody);
      return sa.src, sa.dst;
    }

    method CountUse(sa: SaObject, encoding: bytes, now: nat)
      requires Valid() && custody.sa == Some(sa)
      modifies `log, `custody, sa
      ensures Holds(old(custody)) && ViewOf(sa) == Count(old(ViewOf(sa)), encoding)
    {
      Emit(UseSa, custody);
      sa.UpdateUsestats(Length32(encoding), now);
    }

    method DecryptPacket(packet: Packet, sa: SaObject) returns (status: Status)
      requires Valid() && custody.sa == Some(sa) && custody.packet == Esp(packet)
      requires sa.Valid() && sa.inbound
      modifies `log, `custody, packet, sa.context, sa.context.window
      ensures Holds(old(custody)) && sa.Valid()
      ensures var outcome := Open(sa.context.aead, old(sa.context.View()), old(packet.data));
        && status == outcome.status
        && ViewOf(sa) == old(ViewOf(sa)).(replay := outcome.replay)
        && (status == Success ==>
              packet.payload.Some? && outcome.payload == Some((packet.payload.value, packet.nextHeader)))
    {
      Emit(UseSa, custody);
      status := packet.Decrypt(sa.context);
    }

    method EncryptPacket(packet: Packet, sa: SaObject) returns (status: Status)
      requires Valid() && custody.sa == Some(sa) && custody.packet == Esp(packet)
      requires sa.Valid() && packet.payload.Some? && packet.nextHeader == NextHeaderOf(packet.payload)
      modifies `log, `custody, packet, sa.context
      ensures Holds(old(custody)) && sa.Valid()
      ensures var sent := SealNext(old(ViewOf(sa)), old(packet.payload).value);
        && status == sent.status && packet.data == sent.data
        && ViewOf(sa) == old(ViewOf(sa)).(replay := old(ViewOf(sa)).replay.(highest := sent.last))
    {
      Emit(UseSa, custody);
      status := packet.Encrypt(sa.context, sa.spi);
    }

    // The ESP packet owns the IP packet from now on
    method CreateFromPayload(src: Host, dst: Host, payload: Ip) returns (packet: Packet)
      requires Valid() && custody.packet == Plain(payload)
      modifies `custody
      ensures fresh(packet) && packet.src == src && packet.dst == dst
      ensures packet.payload == Some(payload) && packet.nextHeader == NextHeaderOf(packet.payload)
      ensures Holds(old(custody).(packet := Esp(packet))) && log == old(log)
    {
      packet := new Packet.FromPayload(src, dst, Some(payload));
      custody := custody.(packet := Esp(packet));
    }

    // find_by_packet, for a packet in hand
    method FindPolicy(policies: Manager, packet: Ip, inbound: bool, reqid: u32) returns (policy: Option<Policy>)
      requires Valid() && custody.policy.None?
      requires match custody.packet
        case Esp(esp) => esp.payload == Some(packet)
        case Plain(ip) => ip == packet
        case _ => false
      modifies `custody, `log
      ensures policy == FindFirst(policies.policies, packet, inbound, reqid)
      ensures Holds(old(custody).(policy := policy))
    {
      policy := policies.FindByPacket(packet, inbound, reqid);
      if policy.Some? {
        Emit(TakePolicy, custody.(policy := policy));
      }
    }

    method PolicyReqid(policy: Policy) returns (reqid: u32)
      requires Valid() && custody.policy == Some(policy)
      modifies `custody, `log
      ensures Holds(old(custody)) && reqid == policy.args.reqid
    {
      Emit(UsePolicy, custody);
      return policy.args.reqid;
    }

    method Release(policy: Policy)
      requires Valid() && custody.policy == Some(policy)
      modifies `custody, `log
      ensures Holds(old(custody).(policy := None))
    {
      Emit(ReleasePolicy, custody.(policy := None));
    }

    method DestroyPacket()
      requires Valid() && !custody.packet.NoPacket?
      modifies `custody, `log
      ensures Holds(old(custody).(packet := NoPacket))
    {
      Emit(Destroy, custody.(packet := NoPacket));
    }

    // -------------------------------------------------------------- the callbacks

    method RegisterInbound(cb: Callback)
      modifies `inbound
      ensures inbound == Some(cb)
    {
      inbound := Some(cb);
    }

    method UnregisterInbound(cb: Callback)
      modifies `inbound
      ensures inbound == if old(inbound) == Some(cb) then None else old(inbound)
    {
      if inbound == Some(cb) {
        inbound := None;
      }
    }

    method RegisterOutbound(cb: Callback)
      modifies `outbound
      ensures outbound == Some(cb)
    {
      outbound := Some(cb);
    }

    method UnregisterOutbound(cb: Callback)
      modifies `outbound
      ensures outbound == if old(outbound) == Some(cb) then None else old(outbound)
    {
      if outbound == Some(cb) {
        outbound := None;
      }
    }

    method QueueInbound(packet: Packet)
      modifies `inboundQueue
      ensures inboundQueue == old(inboundQueue) + [packet]
    {
      inboundQueue := inboundQueue + [packet];
    }

    method QueueOutbound(packet: Ip)
      modifies `outboundQueue
      ensures outboundQueue == old(outboundQueue) + [packet]
    {
      outboundQueue := outboundQueue + [packet];
    }

    // The payload is handed over, what is left of the packet destroyed
    method DeliverInbound(packet: Packet)
      requires Valid() && custody.packet == Esp(packet) && packet.payload.Some?
      modifies `custody, `log, packet`payload
      ensures Valid() && custody == old(custody).(packet := NoPacket)
      ensures HandedOver(log) == old(HandedOver(log)) + match inbound
        case None => []
        case Some(cb) => [Deliver(cb, old(packet.payload).value)]
    {
      if inbound.Some? {
        var payload := packet.ExtractPayload();
        Emit(Deliver(inbound.value, payload.value), custody.(packet := Emptied(packet)));
      }
      DestroyPacket();
    }

    method SendOutbound(packet: Packet)
      requires Valid() && custody.packet == Esp(packet)
      modifies `custody, `log
      ensures Valid() && custody == old(custody).(packet := NoPacket)
      ensures HandedOver(log) == old(HandedOver(log)) + match outbound
        case None => []
        case Some(cb) => [Send(cb, packet.src, packet.dst, packet.data)]
    {
      if outbound.Some? {
        Emit(Send(outbound.value, packet.src, packet.dst, packet.data), custody.(packet := NoPacket));
      } else {
        DestroyPacket();
      }
    }

    // -------------------------------------------------------------- the inbound job

    // From the checkout of the SA to its return; without payload the packet is gone as well
    method Authenticate(packet: Packet, sa: SaObject, now: nat) returns (payload: Option<(Ip, byte)>, reqid: u32)
      requires Valid() && custody == Custody(Esp(packet), Some(sa), None) && sa.Valid()
      modifies `custody, `log, packet, sa, sa.context, sa.context.window
      ensures sa.Valid()
      ensures Holds(Custody(if payload.Some? then Esp(packet) else NoPacket, None, None))
      ensures Opened(ViewOf(sa), payload) == Authenticated(old(packet.data), old(ViewOf(sa)))
      ensures payload.Some? ==> packet.payload == Some(payload.value.0) && reqid == sa.reqid
    {
      reqid := 0;
      var isInbound := IsInbound(sa);
      if !isInbound {
        DestroyPacket();
        CheckInSa(sa);
        return None, 0;
      }
      var status := DecryptPacket(packet, sa);
      if status != Success {
        CheckInSa(sa);
        DestroyPacket();
        return None, 0;
      }
      CountUse(sa, packet.payload.value.packet, now);
      reqid := ReqidOf(sa);
      CheckInSa(sa);
      return Some((packet.payload.value, packet.nextHeader)), reqid;
    }

    // The rest of process_inbound
    method DispatchInbound(packet: Packet, ip: Ip, nextHeader: byte, policies: Manager, reqid: u32)
      requires Valid() && custody == Custody(Esp(packet), None, None) && packet.payload == Some(ip)
      modifies `custody, `log, packet`payload
      ensures Valid() && custody == Custody(NoPacket, None, None)
      ensures HandedOver(log)
        == old(HandedOver(log)) + Dispatch(ip, nextHeader, reqid, policies.policies, inbound)
    {
      if nextHeader == IPPROTO_IPIP || nextHeader == IPPROTO_IPV6 {
        var policy := FindPolicy(policies, ip, true, reqid);
        if policy.Some? {
          DeliverInbound(packet);
          Release(policy.value);
          return;
        }
      }
      DestroyPacket();
    }

    method Receive(packet: Packet, sa: SaObject, policies: Manager, now: nat)
      requires Valid() && custody == Custody(Esp(packet), Some(sa), None) && sa.Valid()
      modifies `custody, `log, packet, sa, sa.context, sa.context.window
      ensures Valid() && custody == Custody(NoPacket, None, None) && sa.Valid()
      ensures var job := Received(old(packet.data), old(ViewOf(sa)), policies.policies, inbound);
        HandedOver(log) == old(HandedOver(log)) + job.handed && Some(ViewOf(sa)) == job.sa
    {
      var payload, reqid := Authenticate(packet, sa, now);
      if payload.Some? {
        ghost var view := ViewOf(sa);
        DispatchInbound(packet, payload.value.0, payload.value.1, policies, reqid);
        assert ViewOf(sa) == view;
      }
    }

    // `expected` is the SA that the lookup finds, if any
    method ReceiveFrom(packet: Packet, sas: seq<SaObject>, ghost views: seq<SaView>, granted: bool,
                       policies: Manager, now: nat, ghost expected: Option<SaObject>)
      requires Valid() && custody == Custody(Esp(packet), None, None)
      requires Show(sas, views) && forall sa | sa in sas :: sa.Valid()
      requires expected == InboundSa(packet.data, packet.dst, sas, views, granted)
      modifies `custody, `log, packet, Footprint(expected)
      ensures Valid() && custody == Custody(NoPacket, None, None)
      ensures expected.Some? ==> expected.value.Valid()
      ensures var job := Inbound(old(packet.data), packet.dst, views, granted, old(policies.policies), old(inbound));
        HandedOver(log) == old(HandedOver(log)) + job.handed && ViewOfFound(expected) == job.sa
    {
      var spi := packet.ParseHeader();
      if spi.None? {
        DestroyPacket();
        return;
      }
      var found := CheckOutSa(sas, views, SaManager.BySpiDst(spi.value, packet.dst.Where()), granted);
      if found.None? {
        DestroyPacket();
        return;
      }
      Receive(packet, found.value, policies, now);
    }

    // The queue blocks until there is a packet
    method ProcessInbound(sas: seq<SaObject>, ghost views: seq<SaView>, granted: bool, policies: Manager, now: nat,
                          ghost expected: Option<SaObject>)
      requires Valid() && custody == Custody(NoPacket, None, None) && inboundQueue != []
      requires Show(sas, views) && forall sa | sa in sas :: sa.Valid()
      requires expected == InboundSa(inboundQueue[0].data, inboundQueue[0].dst, sas, views, granted)
      modifies `inboundQueue, `custody, `log, inboundQueue[0], Footprint(expected)
      ensures Valid() && custody == Custody(NoPacket, None, None)
      ensures inboundQueue == old(inboundQueue)[1..]
      ensures expected.Some? ==> expected.value.Valid()
      ensures var packet := old(inboundQueue)[0];
        var job := Inbound(old(packet.data), packet.dst, views, granted, old(policies.policies), old(inbound));
        HandedOver(log) == old(HandedOver(log)) + job.handed && ViewOfFound(expected) == job.sa
    {
      var packet := DequeueInbound();
      ReceiveFrom(packet, sas, views, granted, policies, now, expected);
    }

    // -------------------------------------------------------------- the outbound job

    // From the checkout of the SA to the return of SA and policy
    method Protect(ip: Ip, sa: SaObject, policy: Policy, now: nat) returns (sealed: Option<Packet>)
      requires Valid() && custody == Custody(Plain(ip), Some(sa), Some(policy)) && sa.Valid()
      modifies `custody, `log, sa, sa.context
      ensures sa.Valid()
      ensures Holds(Custody(if sealed.Some? then Esp(sealed.value) else NoPacket, None, None))
      ensures ViewOf(sa) == AfterSealing(old(ViewOf(sa)), ip)
      ensures var sent := SealNext(old(ViewOf(sa)), ip);
        && (sealed.Some? <==> sent.status == Success)
        && (sealed.Some? ==>
              && fresh(sealed.value) && sealed.value.data == sent.data
              && sealed.value.src == old(sa.src) && sealed.value.dst == old(sa.dst))
    {
      var src, dst := EndpointsOf(sa);
      var packet := CreateFromPayload(src, dst, ip);
      var status := EncryptPacket(packet, sa);
      if status != Success {
        CheckInSa(sa);
        DestroyPacket();
        Release(policy);
        return None;
      }
      CountUse(sa, ip.packet, now);
      CheckInSa(sa);
      Release(policy);
      return Some(packet);
    }

    method Forward(ip: Ip, sa: SaObject, policy: Policy, now: nat)
      requires Valid() && custody == Custody(Plain(ip), Some(sa), Some(policy)) && sa.Valid()
      modifies `custody, `log, sa, sa.context
      ensures Valid() && custody == Custody(NoPacket, None, None) && sa.Valid()
      ensures var job := Forwarded(ip, old(ViewOf(sa)), old(outbound));
        HandedOver(log) == old(HandedOver(log)) + job.handed && Some(ViewOf(sa)) == job.sa
    {
      var sealed := Protect(ip, sa, policy, now);
      if sealed.Some? {
        SendOutbound(sealed.value);
      }
    }

    method ForwardUnder(ip: Ip, sas: seq<SaObject>, ghost views: seq<SaView>, granted: bool, policy: Policy, now: nat,
                        ghost expected: Option<SaObject>)
      requires Valid() && custody == Custody(Plain(ip), None, Some(policy))
      requires Show(sas, views) && forall sa | sa in sas :: sa.Valid()
      requires expected == FoundObject(sas, views, SaManager.ByReqid(policy.args.reqid, false), granted)
      modifies `custody, `log, Footprint(expected)
      ensures Valid() && custody == Custody(NoPacket, None, None)
      ensures expected.Some? ==> expected.value.Valid()
      ensures var job := ForwardedUnder(ip, views, granted, policy, old(outbound));
        HandedOver(log) == old(HandedOver(log)) + job.handed && ViewOfFound(expected) == job.sa
    {
      var reqid := PolicyReqid(policy);
      var found := CheckOutSa(sas, views, SaManager.ByReqid(reqid, false), granted);
      if found.None? {
        DestroyPacket();
        Release(policy);
        return;
      }
      Forward(ip, found.value, policy, now);
    }

    method ForwardWith(ip: Ip, sas: seq<SaObject>, ghost views: seq<SaView>, granted: bool,
                       policies: Manager, now: nat, ghost expected: Option<SaObject>)
      requires Valid() && custody == Custody(Plain(ip), None, None)
      requires Show(sas, views) && forall sa | sa in sas :: sa.Valid()
      requires expected == OutboundSa(ip, sas, views, granted, policies.policies)
      modifies `custody, `log, Footprint(expected)
      ensures Valid() && custody == Custody(NoPacket, None, None)
      ensures expected.Some? ==> expected.value.Valid()
      ensures var job := Outbound(ip, views, granted, old(policies.policies), old(outbound));
        HandedOver(log) == old(HandedOver(log)) + job.handed && ViewOfFound(expected) == job.sa
    {
      var policy := FindPolicy(policies, ip, false, 0);
      if policy.None? {
        DestroyPacket();
        return;
      }
      ForwardUnder(ip, sas, views, granted, policy.value, now, expected);
    }

    // The queue blocks until there is a packet
    method ProcessOutbound(sas: seq<SaObject>, ghost views: seq<SaView>, granted: bool, policies: Manager, now: nat,
                           ghost expected: Option<SaObject>)
      requires Valid() && custody == Custody(NoPacket, None, None) && outboundQueue != []
      requires Show(sas, views) && forall sa | sa in sas :: sa.Valid()
      requires expected == OutboundSa(outboundQueue[0], sas, views, granted, policies.policies)
      modifies `outboundQueue, `custody, `log, Footprint(expected)
      ensures Valid() && custody == Custody(NoPacket, None, None)
      ensures outboundQueue == old(outboundQueue)[1..]
      ensures expected.Some? ==> expected.value.Valid()
      ensures var job := Outbound(old(outboundQueue)[0], views, granted, old(policies.policies), old(outbound));
        HandedOver(log) == old(HandedOver(log)) + job.handed && ViewOfFound(expected) == job.sa
    {
      var ip := DequeueOutbound();
      ForwardWith(ip, sas, views, granted, policies, now, expected);
    }
  }

  // ---------------------------------------------------------------- what is delivered, and what arrives

  // The SA authenticates the packet, whose number it has not seen, and its payload is this IP packet
  ghost predicate Accepted(sa: SaView, data: bytes, ip: Ip) {
    var parts := Split(sa.aead, data);
    && sa.inbound && parts.Some? && sa.replay.Fresh(parts.value.seqno)
    && var plain := sa.aead.decrypt(parts.value.sealed, data[..8], parts.value.iv);
       && plain.Some?
       && var payload := RemovePadding(plain.value);
          payload == Some((ip, IPPROTO_IPIP)) || payload == Some((ip, IPPROTO_IPV6))
  }

  // The first SA in the list with the packet's SPI and destination that has not hard-expired
  ghost predicate IsFirstFor(sas: seq<SaView>, i: nat, spi: u32, dst: Address) {
    && i < |sas|
    && sas[i].spi == spi && sas[i].state.dst.Where() == dst && !sas[i].state.hardExpired
    && forall j | 0 <= j < i :: sas[j].spi == spi && sas[j].state.dst.Where() == dst ==> sas[j].state.hardExpired
  }

  lemma FirstIsFound(sas: seq<SaView>, spi: u32, dst: Address)
    ensures forall i: nat :: IsFirstFor(sas, i, spi, dst) <==> i == FindSa(sas, SaManager.BySpiDst(spi, dst)) < |sas|
  {}

  lemma AcceptedIff(sa: SaView, data: bytes, ip: Ip)
    ensures Accepted(sa, data, ip) <==>
      var payload := Authenticated(data, sa).payload;
      payload == Some((ip, IPPROTO_IPIP)) || payload == Some((ip, IPPROTO_IPV6))
  {}

  lemma FoundIff(policies: seq<Entry>, ip: Ip, reqid: u32)
    ensures FindFirst(policies, ip, true, reqid).Some? <==>
      exists e :: e in policies && Selects(e.policy, ip, true, reqid)
  {
    var i := Search(policies, ip, true, reqid);
    if i < |policies| { assert policies[i] in policies; }
  }

  lemma ReceivedIff(data: bytes, sa: SaView, policies: seq<Entry>, callback: Option<Callback>, cb: Callback, ip: Ip)
    ensures Received(data, sa, policies, callback).handed == [Deliver(cb, ip)] <==>
      && callback == Some(cb) && Accepted(sa, data, ip)
      && exists e :: e in policies && Selects(e.policy, ip, true, sa.reqid)
  {
    AcceptedIff(sa, data, ip);
    var r := Authenticated(data, sa);
    if r.payload.Some? {
      FoundIff(policies, r.payload.value.0, sa.reqid);
    }
  }

  // A payload is delivered exactly if the first SA for the packet is inbound and authenticated it under a
  // number that was new, its next header says it is an IP packet, a callback is registered, and an
  // inbound policy matches it whose reqid is the SA's, unless that is 0
  lemma DeliveredIff(data: bytes, dst: Host, sas: seq<SaView>, granted: bool, policies: seq<Entry>,
                     callback: Option<Callback>, cb: Callback, ip: Ip)
    ensures Inbound(data, dst, sas, granted, policies, callback).handed == [Deliver(cb, ip)] <==>
      && callback == Some(cb) && |data| >= 8 && granted
      && exists i: nat ::
        && IsFirstFor(sas, i, U32(data, 0), dst.Where())
        && Accepted(sas[i], data, ip)
        && exists e :: e in policies && Selects(e.policy, ip, true, sas[i].reqid)
  {
    if |data| >= 8 {
      var key := SaManager.BySpiDst(U32(data, 0), dst.Where());
      var i := FindSa(sas, key);
      FirstIsFound(sas, U32(data, 0), dst.Where());
      if i < |sas| && granted {
        ReceivedIff(data, sas[i], policies, callback, cb, ip);
      }
    }
  }

  // What the policy that let a packet in is: for inbound traffic, governing the packet by its addresses, ports
  // and protocol, and with the reqid of the SA unless that is 0
  lemma AdmittedBy(policies: seq<Entry>, ip: Ip, reqid: u32)
    requires FindFirst(policies, ip, true, reqid).Some?
    ensures var p := FindFirst(policies, ip, true, reqid).value;
      && p.args.direction == IpsecPolicy.In && (reqid != 0 ==> p.args.reqid == reqid)
      && (WfArgs(p.args) && ip.src.Wf() && ip.dst.Wf() ==> Governs(p, ip))
  {
    var p := FindFirst(policies, ip, true, reqid).value;
    if WfArgs(p.args) && ip.src.Wf() && ip.dst.Wf() {
      GovernsIff(p, ip);
    }
  }

  // `out` is the SA that is checked out for an outbound packet: the one for the reqid of its policy
  ghost predicate IsSaFor(ip: Ip, sas: seq<SaView>, granted: bool, policies: seq<Entry>, out: SaView) {
    match FindFirst(policies, ip, false, 0)
    case None => false
    case Some(policy) => Found(sas, SaManager.ByReqid(policy.args.reqid, false), granted) == Some(out)
  }

  // What is sent was sealed by that SA, the first with the reqid of the policy that is outbound and has not
  // hard-expired, under its next number and its SPI, and goes to its destination
  lemma SentBy(ip: Ip, sas: seq<SaView>, granted: bool, policies: seq<Entry>, callback: Option<Callback>,
               cb: Callback, src: Host, dst: Host, data: bytes) returns (policy: Policy, i: nat, out: SaView)
    requires Outbound(ip, sas, granted, policies, callback).handed == [Send(cb, src, dst, data)]
    ensures IsSaFor(ip, sas, granted, policies, out) && FindFirst(policies, ip, false, 0) == Some(policy)
    ensures i < |sas| && sas[i] == out && granted
    ensures out.reqid == policy.args.reqid && !out.inbound && !out.state.hardExpired
    ensures forall j | 0 <= j < i ::
      sas[j].reqid != policy.args.reqid || sas[j].inbound || sas[j].state.hardExpired
    ensures out.replay.highest < SEQNO_MAX
    ensures src == out.state.src && dst == out.state.dst && callback == Some(cb)
    ensures (Success, data)
      == Seal(out.aead, out.spi, out.replay.highest + 1, ip.packet, NextHeaderOf(Some(ip)))
  {
    policy := FindFirst(policies, ip, false, 0).value;
    i := FindSa(sas, SaManager.ByReqid(policy.args.reqid, false));
    out := Found(sas, SaManager.ByReqid(policy.args.reqid, false), granted).value;
  }

  // ---------------------------------------------------------------- what is counted

  // What comes by one SA: ESP packets to decrypt, or IP packets to encrypt
  datatype Traffic = Arrives(data: bytes) | Leaves(ip: Ip)

  ghost function Passed(sa: SaView, t: Traffic): SaView {
    match t
    case Arrives(data) => Authenticated(data, sa).sa
    case Leaves(ip) => AfterSealing(sa, ip)
  }

  ghost function PassedAll(sa: SaView, ts: seq<Traffic>): SaView {
    if ts == [] then sa else Passed(PassedAll(sa, ts[..|ts| - 1]), ts[|ts| - 1])
  }

  // The IP packet that got through, encrypted or decrypted
  ghost function Through(sa: SaView, t: Traffic): seq<bytes> {
    match t
    case Arrives(data) =>
      var payload := Open(sa.aead, sa.replay, data).payload;
      if sa.inbound && payload.Some? then [payload.value.0.packet] else []
    case Leaves(ip) =>
      var nextHeader := if ip.version == 4 then 4 else 41;
      var sent := EncryptNext(sa.aead, sa.inbound, sa.replay.highest, sa.spi, ip.packet, nextHeader);
      if sent.status == Success then [ip.packet] else []
  }

  ghost function ThroughAll(sa: SaView, ts: seq<Traffic>): seq<bytes> {
    if ts == [] then []
    else
      var before := ts[..|ts| - 1];
      ThroughAll(sa, before) + Through(PassedAll(sa, before), ts[|ts| - 1])
  }

  function TotalSize(packets: seq<bytes>): nat {
    if packets == [] then 0
    else TotalSize(packets[..|packets| - 1]) + |packets[|packets| - 1]| % 0x1_0000_0000
  }

  // The counters of r are those of sa and these packets
  ghost predicate Counts(sa: SaView, through: seq<bytes>, r: SaView) {
    && r.state.packets == (sa.state.packets + |through|) % 0x1_0000_0000_0000_0000
    && r.state.bytes == (sa.state.bytes + TotalSize(through)) % 0x1_0000_0000_0000_0000
  }

  lemma CountIsOne(sa: SaView, packet: bytes)
    ensures Counts(sa, [packet], Count(sa, packet))
  {
    UsedCounts(sa.state, sa.spi, sa.lifetime, Length32(packet));
    assert TotalSize([packet]) == TotalSize([]) + |packet| % 0x1_0000_0000 by { assert [packet][..0] == []; }
  }

  lemma NothingCounted(sa: SaView)
    ensures Counts(sa, [], sa)
  {}

  // The counting of an SA that has opened a packet with this outcome
  lemma OutcomeCounted(sa: SaView, outcome: Outcome, through: seq<bytes>, r: SaView)
    requires outcome.status == Success <==> outcome.payload.Some?
    requires through == if outcome.payload.Some? then [outcome.payload.value.0.packet] else []
    requires r == if outcome.status != Success then sa.(replay := outcome.replay)
                  else Count(sa.(replay := outcome.replay), outcome.payload.value.0.packet)
    ensures Counts(sa, through, r)
  {
    if outcome.payload.Some? {
      CountIsOne(sa.(replay := outcome.replay), outcome.payload.value.0.packet);
    } else {
      NothingCounted(sa);
    }
  }

  lemma ArrivalCounted(sa: SaView, data: bytes)
    ensures Counts(sa, Through(sa, Arrives(data)), Passed(sa, Arrives(data)))
  {
    if sa.inbound {
      SuccessHasPayload(sa.aead, sa.replay, data);
      var outcome := Open(sa.aead, sa.replay, data);
      OutcomeCounted(sa, outcome, Through(sa, Arrives(data)), Passed(sa, Arrives(data)));
    } else {
      NothingCounted(sa);
    }
  }

  lemma ThroughIfSealed(sa: SaView, ip: Ip)
    ensures Through(sa, Leaves(ip)) == if SealNext(sa, ip).status == Success then [ip.packet] else []
  {}

  lemma DepartureCounted(sa: SaView, ip: Ip)
    ensures Counts(sa, Through(sa, Leaves(ip)), Passed(sa, Leaves(ip)))
  {
    var sent := SealNext(sa, ip);
    ThroughIfSealed(sa, ip);
    if sent.status == Success {
      CountIsOne(sa.(replay := sa.replay.(highest := sent.last)), ip.packet);
    } else {
      NothingCounted(sa);
    }
  }

  lemma TrafficCounted(sa: SaView, t: Traffic)
    ensures |Through(sa, t)| <= 1 && Counts(sa, Through(sa, t), Passed(sa, t))
  {
    match t
    case Arrives(data) => ArrivalCounted(sa, data);
    case Leaves(ip) => DepartureCounted(sa, ip);
  }

  lemma AddWrapped64(a: nat, b: nat, c: nat)
    ensures ((a + b) % 0x1_0000_0000_0000_0000 + c) % 0x1_0000_0000_0000_0000
      == (a + (b + c)) % 0x1_0000_0000_0000_0000
  {}

  lemma TotalOfOneMore(packets: seq<bytes>, more: seq<bytes>)
    requires |more| <= 1
    ensures TotalSize(packets + more) == TotalSize(packets) + TotalSize(more)
  {
    if more == [] {
      assert packets + more == packets;
    } else {
      assert (packets + more)[..|packets|] == packets && more[..0] == [];
    }
  }

  lemma CountsAddUp(sa: SaView, packets: seq<bytes>, s: SaView, more: seq<bytes>, r: SaView)
    requires Counts(sa, packets, s) && Counts(s, more, r) && |more| <= 1
    ensures Counts(sa, packets + more, r)
  {
    TotalOfOneMore(packets, more);
    AddWrapped64(sa.state.packets, |packets|, |more|);
    AddWrapped64(sa.state.bytes, TotalSize(packets), TotalSize(more));
  }

  // Over any traffic the counters of an SA show how many IP packets got through and their total size, in
  // 64 bits; what was refused, failed or could not be encrypted does not count
  lemma {:induction false} CountersMatchTraffic(sa: SaView, ts: seq<Traffic>)
    ensures Counts(sa, ThroughAll(sa, ts), PassedAll(sa, ts))
    decreases |ts|
  {
    if ts == [] {
      NothingCounted(sa);
    } else {
      var before, t := ts[..|ts| - 1], ts[|ts| - 1];
      var s := PassedAll(sa, before);
      CountersMatchTraffic(sa, before);
      TrafficCounted(s, t);
      CountsAddUp(sa, ThroughAll(sa, before), s, Through(s, t), Passed(s, t));
    }
  }

  // ---------------------------------------------------------------- through the tunnel

  // The sender's and the receiver's SA of one tunnel direction
  ghost predicate Paired(out: SaView, in_: SaView) {
    && out.aead == in_.aead && out.aead.Lawful() && SizesFit(out.aead.blockSize, out.aead.ivSize)
    && out.spi == in_.spi && out.state.dst.Where() == in_.state.dst.Where() && in_.inbound
  }

  // What the paired SA makes of the packet
  lemma AcceptedFromPeer(packet: bytes, out: SaView, in_: SaView, data: bytes)
    requires Paired(out, in_) && Parse(packet).Some? && out.replay.highest < SEQNO_MAX
    requires var ip := Parse(packet).value;
      (Success, data) == Seal(out.aead, out.spi, out.replay.highest + 1, ip.packet, NextHeaderOf(Some(ip)))
    ensures |data| >= 8 && U32(data, 0) == out.spi
    ensures Accepted(in_, data, Parse(packet).value) <==>
      in_.replay.Fresh(out.replay.highest + 1) && HeaderFits(packet)
  {
    var ip := Parse(packet).value;
    var n := out.replay.highest + 1;
    var nextHeader := NextHeaderOf(Some(ip));
    RoundTripIff(out.aead, out.spi, n, packet, nextHeader, in_.replay);
    SplitSealed(out.aead, out.spi, n, ip.packet, nextHeader);
    OpenSealed(out.aead, out.spi, n, ip.packet, nextHeader, in_.replay);
    AcceptedIff(in_, data, ip);
  }

  // No other SA in the list has the SPI and the destination of SA k
  ghost predicate IsOnly(sas: seq<SaView>, k: nat) {
    && k < |sas|
    && forall j | 0 <= j < |sas| && j != k ::
         !(sas[j].spi == sas[k].spi && sas[j].state.dst.Where() == sas[k].state.dst.Where())
  }

  lemma OnlyIsFirst(sas: seq<SaView>, k: nat, spi: u32, dst: Address)
    requires IsOnly(sas, k) && sas[k].spi == spi && sas[k].state.dst.Where() == dst
    ensures forall i: nat :: IsFirstFor(sas, i, spi, dst) <==> i == k && !sas[k].state.hardExpired
  {}

  lemma DeliveredByOnly(data: bytes, dst: Host, sas: seq<SaView>, k: nat, granted: bool, policies: seq<Entry>,
                        cb: Callback, ip: Ip)
    requires IsOnly(sas, k) && |data| >= 8 && sas[k].spi == U32(data, 0) && sas[k].state.dst.Where() == dst.Where()
    ensures Inbound(data, dst, sas, granted, policies, Some(cb)).handed == [Deliver(cb, ip)] <==>
      && !sas[k].state.hardExpired && granted && Accepted(sas[k], data, ip)
      && exists e :: e in policies && Selects(e.policy, ip, true, sas[k].reqid)
  {
    OnlyIsFirst(sas, k, U32(data, 0), dst.Where());
    DeliveredIff(data, dst, sas, granted, policies, Some(cb), cb, ip);
  }

  // Through the tunnel: what an outbound job sends for a packet finds, by the SPI written into it and the
  // address it is sent to, the paired SA of the receiver, if that is the only one there with both.  It is
  // delivered, as the very packet that was queued, exactly if that SA has not hard-expired and can be had,
  // the number is new there, the packet's IPv4 header declares at least its own size, and a policy lets
  // it in.
  lemma TunnelDelivers(packet: bytes, sasOut: seq<SaView>, grantedOut: bool, policiesOut: seq<Entry>, send: Callback,
                       out: SaView, src: Host, dst: Host, data: bytes,
                       sasIn: seq<SaView>, k: nat, grantedIn: bool, policiesIn: seq<Entry>, deliver: Callback)
    requires Parse(packet).Some?
    requires Outbound(Parse(packet).value, sasOut, grantedOut, policiesOut, Some(send)).handed
      == [Send(send, src, dst, data)]
    requires IsSaFor(Parse(packet).value, sasOut, grantedOut, policiesOut, out)
    requires IsOnly(sasIn, k) && Paired(out, sasIn[k])
    ensures var ip := Parse(packet).value;
      Inbound(data, dst, sasIn, grantedIn, policiesIn, Some(deliver)).handed == [Deliver(deliver, ip)] <==>
        && !sasIn[k].state.hardExpired && grantedIn
        && sasIn[k].replay.Fresh(out.replay.highest + 1)
        && HeaderFits(packet)
        && exists e :: e in policiesIn && Selects(e.policy, ip, true, sasIn[k].reqid)
  {
    var ip := Parse(packet).value;
    var policy, i, sender := SentBy(ip, sasOut, grantedOut, policiesOut, Some(send), send, src, dst, data);
    assert sender == out;
    AcceptedFromPeer(packet, out, sasIn[k], data);
    DeliveredByOnly(data, dst, sasIn, k, grantedIn, policiesIn, deliver, ip);
  }
}
