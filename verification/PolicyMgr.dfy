// The policy database of libipsec (ipsec_policy_mgr.c): a list sorted by a priority value, so that the
// first policy that matches a packet is the best one.
module PolicyMgr {
  import opened Base
  import opened IpPacket
  import opened IpsecPolicy

  // ---------------------------------------------------------------- the priority value

  const PRIO_BASE: u32 := 384

  // The port of the subnet a selector is converted to
  function SubnetPort(ts: Selector): u16 { if ts.toPort == ts.fromPort then ts.toPort else 0 }

  function ClassBase(c: Class): u32 {
    match c
    case PassThrough => PRIO_BASE
    case Default => PRIO_BASE * 2
    case Routed => PRIO_BASE * 2 * 2
    case Fallback => PRIO_BASE * 2 * 2 * 2
  }

  // In unsigned 32-bit arithmetic
  function CalculatePriority(c: Class, src: Selector, dst: Selector): u32 {
    var priority := Sub32(Sub32(ClassBase(c), src.mask), dst.mask);
    var proto := Max(src.protocol, dst.protocol);
    var port := Max(SubnetPort(src), SubnetPort(dst));
    (priority * 4 + (if port != 0 then 0 else 2) + (if proto != 0 then 0 else 1)) % 0x1_0000_0000
  }

  // What the priority value is to order policies by, the most significant first: the class, the bits
  // the prefixes leave open, whether no port and whether no protocol is given
  datatype Rank = Rank(class_: nat, openBits: int, noPort: bool, noProtocol: bool)

  function RankOf(c: Class, src: Selector, dst: Selector): Rank {
    Rank(match c case PassThrough => 0 case Default => 1 case Routed => 2 case Fallback => 3,
         256 - src.mask - dst.mask,
         !(src.fromPort == src.toPort > 0) && !(dst.fromPort == dst.toPort > 0),
         src.protocol == 0 && dst.protocol == 0)
  }

  predicate Lower(a: Rank, b: Rank) {
    || a.class_ < b.class_
    || (a.class_ == b.class_ && a.openBits < b.openBits)
    || (a.class_ == b.class_ && a.openBits == b.openBits && !a.noPort && b.noPort)
    || (a.class_ == b.class_ && a.openBits == b.openBits && a.noPort == b.noPort && !a.noProtocol && b.noProtocol)
  }

  lemma PortRank(src: Selector, dst: Selector)
    ensures Max(SubnetPort(src), SubnetPort(dst)) != 0
      <==> src.fromPort == src.toPort > 0 || dst.fromPort == dst.toPort > 0
  {}

  lemma Subtracted(base: u32, m: prefix, n: prefix)
    requires base >= PRIO_BASE
    ensures Sub32(Sub32(base, m), n) == base - m - n
  {}

  lemma Weighted(base: u32, m: prefix, n: prefix, port: bool, proto: bool)
    requires PRIO_BASE <= base <= 0x1_0000
    ensures (Sub32(Sub32(base, m), n) * 4 + (if port then 0 else 2) + (if proto then 0 else 1)) % 0x1_0000_0000
      == 4 * (base - m - n) + (if port then 0 else 2) + (if proto then 0 else 1)
  {
    Subtracted(base, m, n);
  }

  lemma ProtocolRank(src: Selector, dst: Selector)
    ensures Max(src.protocol, dst.protocol) != 0 <==> !(src.protocol == 0 && dst.protocol == 0)
  {}

  lemma PriorityValue(c: Class, src: Selector, dst: Selector)
    ensures var r := RankOf(c, src, dst);
      CalculatePriority(c, src, dst) ==
        4 * (ClassBase(c) - 256 + r.openBits) + (if r.noPort then 2 else 0) + (if r.noProtocol then 1 else 0)
  {
    PortRank(src, dst);
    ProtocolRank(src, dst);
    var port, proto := Max(SubnetPort(src), SubnetPort(dst)) != 0, Max(src.protocol, dst.protocol) != 0;
    Weighted(ClassBase(c), src.mask, dst.mask, port, proto);
  }

  // No step of the computation wraps around, and each class has a range of its own
  lemma NoUnderflow(c: Class, src: Selector, dst: Selector)
    ensures var r := RankOf(c, src, dst);
      CalculatePriority(c, src, dst) ==
        4 * (ClassBase(c) - 256 + r.openBits) + (if r.noPort then 2 else 0) + (if r.noProtocol then 1 else 0)
    ensures 4 * (ClassBase(c) - 256) <= CalculatePriority(c, src, dst) < 4 * ClassBase(c) + 4
    ensures match c
      case PassThrough => true
      case Default => 4 * ClassBase(PassThrough) + 4 <= CalculatePriority(c, src, dst)
      case Routed => 4 * ClassBase(Default) + 4 <= CalculatePriority(c, src, dst)
      case Fallback => 4 * ClassBase(Routed) + 4 <= CalculatePriority(c, src, dst)
  {
    PriorityValue(c, src, dst);
  }

  // The 32-bit value is a faithful encoding: smaller exactly for lower ranks, equal exactly for equal ones
  lemma PriorityIsRank(a: Args, b: Args)
    ensures var p := CalculatePriority(a.priority, a.srcTs, a.dstTs);
      var q := CalculatePriority(b.priority, b.srcTs, b.dstTs);
      var (r, s) := (RankOf(a.priority, a.srcTs, a.dstTs), RankOf(b.priority, b.srcTs, b.dstTs));
      (p < q <==> Lower(r, s)) && (p == q <==> r == s)
  {
    NoUnderflow(a.priority, a.srcTs, a.dstTs);
    NoUnderflow(b.priority, b.srcTs, b.dstTs);
  }

  // ---------------------------------------------------------------- the list

  datatype Entry = Entry(priority: u32, policy: Policy)

  datatype State = State(entries: seq<Entry>, created: nat)

  function CreateEntry(p: Policy): Entry {
    Entry(CalculatePriority(p.args.priority, p.args.srcTs, p.args.dstTs), p)
  }

  predicate Ignored(a: Args) { a.kind != Ipsec || a.direction == Fwd }

  // The position of the first entry that does not have a smaller value
  function Place(entries: seq<Entry>, priority: u32): (i: nat)
    ensures i <= |entries|
    ensures forall j | 0 <= j < i :: entries[j].priority < priority
    ensures i < |entries| ==> entries[i].priority >= priority
  {
    if entries == [] || entries[0].priority >= priority then 0 else 1 + Place(entries[1..], priority)
  }

  predicate IsTarget(e: Entry, a: Args) {
    e.priority == CalculatePriority(a.priority, a.srcTs, a.dstTs) && Matches(e.policy, a)
  }

  // The position of the first entry to delete, or the length of the list
  function Locate(entries: seq<Entry>, a: Args): (i: nat)
    ensures i <= |entries|
    ensures forall j | 0 <= j < i :: !IsTarget(entries[j], a)
    ensures i < |entries| ==> IsTarget(entries[i], a)
  {
    if entries == [] || IsTarget(entries[0], a) then 0 else 1 + Locate(entries[1..], a)
  }

  function InsertAt(entries: seq<Entry>, i: nat, e: Entry): seq<Entry>
    requires i <= |entries|
  {
    entries[..i] + [e] + entries[i..]
  }

  function RemoveAt(entries: seq<Entry>, i: nat): seq<Entry>
    requires i < |entries|
  {
    entries[..i] + entries[i + 1..]
  }

  function Added(s: State, a: Args): State {
    if Ignored(a) then s else
    var e := CreateEntry(Policy(s.created, a));
    State(InsertAt(s.entries, Place(s.entries, e.priority), e), s.created + 1)
  }

  function Deleted(s: State, a: Args): State {
    var i := Locate(s.entries, a);
    if Ignored(a) || i == |s.entries| then s else s.(entries := RemoveAt(s.entries, i))
  }

  predicate Selects(p: Policy, packet: Ip, inbound: bool, reqid: u32) {
    && inbound == (p.args.direction == In)
    && MatchPacket(p, packet)
    && (reqid == 0 || reqid == p.args.reqid)
  }

  // The position of the first policy selected, or the length of the list
  function Search(entries: seq<Entry>, packet: Ip, inbound: bool, reqid: u32): (i: nat)
    ensures i <= |entries|
    ensures forall j | 0 <= j < i :: !Selects(entries[j].policy, packet, inbound, reqid)
    ensures i < |entries| ==> Selects(entries[i].policy, packet, inbound, reqid)
  {
    if entries == [] || Selects(entries[0].policy, packet, inbound, reqid) then 0
    else 1 + Search(entries[1..], packet, inbound, reqid)
  }

  function FindFirst(entries: seq<Entry>, packet: Ip, inbound: bool, reqid: u32): Option<Policy> {
    var i := Search(entries, packet, inbound, reqid);
    if i < |entries| then Some(entries[i].policy) else None
  }

  predicate WfArgs(a: Args) { Wf(a.srcTs) && Wf(a.dstTs) }

  lemma GovernsAll(packet: Ip)
    ensures forall p: Policy | WfArgs(p.args) && packet.src.Wf() && packet.dst.Wf() ::
      MatchPacket(p, packet) <==> Governs(p, packet)
  {
    forall p: Policy | WfArgs(p.args) && packet.src.Wf() && packet.dst.Wf()
      ensures MatchPacket(p, packet) <==> Governs(p, packet)
    {
      GovernsIff(p, packet);
    }
  }

  class Manager {
    var policies: seq<Entry>
    var created: nat

    function View(): State
      reads this
    {
      State(policies, created)
    }

    constructor ()
      ensures View() == State([], 0)
    {
      policies, created := [], 0;
    }

    method AddPolicy(a: Args)
      modifies this
      ensures View() == Added(old(View()), a)
    {
      if a.kind != Ipsec || a.direction == Fwd {
        return;
      }
      var entry := CreateEntry(Policy(created, a));
      created := created + 1;
      var i := 0;
      while i < |policies| && policies[i].priority < entry.priority
        invariant 0 <= i <= |policies|
        invariant Place(policies, entry.priority) == i + Place(policies[i..], entry.priority)
      {
        i := i + 1;
      }
      policies := policies[..i] + [entry] + policies[i..];
    }

    method DelPolicy(a: Args) returns (success: bool)
      modifies this
      ensures View() == Deleted(old(View()), a)
      ensures success <==> a.kind != Ipsec || a.direction == Fwd || exists e :: e in old(policies) && IsTarget(e, a)
    {
      if a.kind != Ipsec || a.direction == Fwd {
        return true;
      }
      var priority := CalculatePriority(a.priority, a.srcTs, a.dstTs);
      var i := 0;
      while i < |policies|
        invariant 0 <= i <= |policies| && policies == old(policies)
        invariant Locate(policies, a) == i + Locate(policies[i..], a)
      {
        if policies[i].priority == priority && Matches(policies[i].policy, a) {
          policies := policies[..i] + policies[i + 1..];
          return true;
        }
        i := i + 1;
      }
      return false;
    }

    method FlushPolicies()
      modifies this
      ensures View() == old(View()).(entries := [])
    {
      while |policies| > 0
        invariant created == old(created)
      {
        policies := policies[..|policies| - 1];
      }
    }

    method FindByPacket(packet: Ip, inbound: bool, reqid: u32) returns (found: Option<Policy>)
      ensures found == FindFirst(policies, packet, inbound, reqid)
      ensures match found
        case None => forall e | e in policies && WfArgs(e.policy.args) && packet.src.Wf() && packet.dst.Wf() ::
          (inbound != (e.policy.args.direction == In)) || !Governs(e.policy, packet)
          || (reqid != 0 && e.policy.args.reqid != reqid)
        case Some(p) =>
          && inbound == (p.args.direction == In) && (reqid != 0 ==> p.args.reqid == reqid)
          && (WfArgs(p.args) && packet.src.Wf() && packet.dst.Wf() ==> Governs(p, packet))
    {
      GovernsAll(packet);
      var i := 0;
      while i < |policies|
        invariant 0 <= i <= |policies|
        invariant Search(policies, packet, inbound, reqid) == i + Search(policies[i..], packet, inbound, reqid)
      {
        var policy := policies[i].policy;
        if inbound == (policy.args.direction == In) && MatchPacket(policy, packet) {
          if reqid == 0 || reqid == policy.args.reqid {
            return Some(policy);
          }
        }
        i := i + 1;
      }
      return None;
    }
  }

  // ---------------------------------------------------------------- whole runs

  datatype Op = Add(a: Args) | Del(a: Args) | Flush

  function Apply(s: State, op: Op): State {
    match op
    case Add(a) => Added(s, a)
    case Del(a) => Deleted(s, a)
    case Flush => s.(entries := [])
  }

  function Run(s: State, ops: seq<Op>): State
    decreases |ops|
  {
    if ops == [] then s else Run(Apply(s, ops[0]), ops[1..])
  }

  function PolicyRank(p: Policy): Rank { RankOf(p.args.priority, p.args.srcTs, p.args.dstTs) }

  // p comes before q: a lower rank, or among equals the newer one
  predicate Before(p: Policy, q: Policy) {
    Lower(PolicyRank(p), PolicyRank(q)) || (PolicyRank(p) == PolicyRank(q) && p.id > q.id)
  }

  ghost predicate Ordered(s: State) {
    && (forall i | 0 <= i < |s.entries| :: s.entries[i] == CreateEntry(s.entries[i].policy))
    && (forall i | 0 <= i < |s.entries| :: s.entries[i].policy.id < s.created)
    && (forall i, j | 0 <= i < j < |s.entries| :: Before(s.entries[i].policy, s.entries[j].policy))
  }

  lemma PlaceSplits(s: State, e: Entry, j: nat)
    requires Ordered(s) && j < |s.entries| && e == CreateEntry(e.policy) && e.policy.id == s.created
    ensures if j < Place(s.entries, e.priority) then Before(s.entries[j].policy, e.policy)
            else Before(e.policy, s.entries[j].policy)
  {
    var i := Place(s.entries, e.priority);
    var p := s.entries[j].policy;
    PriorityIsRank(p.args, e.policy.args);
    if i <= j {
      PriorityIsRank(s.entries[i].policy.args, p.args);
      PriorityIsRank(e.policy.args, p.args);
    }
  }

  lemma InsertKeepsOrder(s: State, i: nat, e: Entry)
    requires Ordered(s) && i <= |s.entries| && e == CreateEntry(e.policy) && e.policy.id == s.created
    requires forall j: nat | j < |s.entries| ::
      if j < i then Before(s.entries[j].policy, e.policy) else Before(e.policy, s.entries[j].policy)
    ensures Ordered(State(InsertAt(s.entries, i, e), s.created + 1))
  {}

  lemma AddKeepsOrder(s: State, a: Args)
    requires Ordered(s)
    ensures Ordered(Added(s, a))
  {
    if !Ignored(a) {
      var e := CreateEntry(Policy(s.created, a));
      var i := Place(s.entries, e.priority);
      forall j: nat | j < |s.entries|
        ensures if j < i then Before(s.entries[j].policy, e.policy) else Before(e.policy, s.entries[j].policy)
      {
        PlaceSplits(s, e, j);
      }
      InsertKeepsOrder(s, i, e);
    }
  }

  lemma ApplyKeepsOrder(s: State, op: Op)
    requires Ordered(s)
    ensures Ordered(Apply(s, op))
  {
    match op
    case Add(a) => AddKeepsOrder(s, a);
    case Del(a) =>
    case Flush =>
  }

  lemma {:induction false} RunKeepsOrder(s: State, ops: seq<Op>)
    requires Ordered(s)
    ensures Ordered(Run(s, ops))
    decreases |ops|
  {
    if ops != [] {
      ApplyKeepsOrder(s, ops[0]);
      RunKeepsOrder(Apply(s, ops[0]), ops[1..]);
    }
  }

  // ---------------------------------------------------------------- the list as a set of policies

  ghost function Installed(s: State): set<Policy> { set e | e in s.entries :: e.policy }

  // p is the best of the policies in `all` that a condition picks
  ghost predicate IsBest(all: set<Policy>, picks: Policy -> bool, p: Policy) {
    p in all && picks(p) && forall q | q in all && picks(q) && q != p :: Before(p, q)
  }

  // del_policy takes a policy that matches and has the rank of the arguments
  ghost predicate Deletes(p: Policy, a: Args) {
    Matches(p, a) && PolicyRank(p) == RankOf(a.priority, a.srcTs, a.dstTs)
  }

  // What an operation does to the set of policies, without any list
  ghost predicate SetStep(all: set<Policy>, op: Op, created: nat, all': set<Policy>) {
    match op
    case Add(a) => all' == if a.kind == Ipsec && a.direction != Fwd then all + {Policy(created, a)} else all
    case Del(a) =>
      if a.kind != Ipsec || a.direction == Fwd || forall p | p in all :: !Deletes(p, a) then all' == all
      else exists p | IsBest(all, q => Deletes(q, a), p) :: all' == all - {p}
    case Flush => all' == {}
  }

  lemma InsertedSet(entries: seq<Entry>, i: nat, e: Entry)
    requires i <= |entries|
    ensures Installed(State(InsertAt(entries, i, e), 0)) == Installed(State(entries, 0)) + {e.policy}
  {}

  lemma RemovedSet(s: State, i: nat)
    requires Ordered(s) && i < |s.entries|
    ensures Installed(s.(entries := RemoveAt(s.entries, i))) == Installed(s) - {s.entries[i].policy}
  {}

  lemma DeletionRefinesSet(s: State, a: Args)
    requires Ordered(s) && !Ignored(a)
    ensures SetStep(Installed(s), Del(a), s.created, Installed(Deleted(s, a)))
  {
    forall i | 0 <= i < |s.entries| ensures IsTarget(s.entries[i], a) <==> Deletes(s.entries[i].policy, a) {
      PriorityIsRank(s.entries[i].policy.args, a);
    }
    var i := Locate(s.entries, a);
    if i < |s.entries| {
      RemovedSet(s, i);
      assert IsBest(Installed(s), q => Deletes(q, a), s.entries[i].policy);
    }
  }

  lemma ListRefinesSet(s: State, op: Op)
    requires Ordered(s)
    ensures SetStep(Installed(s), op, s.created, Installed(Apply(s, op)))
  {
    match op
    case Add(a) =>
      if !Ignored(a) {
        var e := CreateEntry(Policy(s.created, a));
        InsertedSet(s.entries, Place(s.entries, e.priority), e);
      }
    case Del(a) =>
      if !Ignored(a) { DeletionRefinesSet(s, a); }
    case Flush =>
  }

  // In a sorted list the first policy selected is the best, and there is one exactly if any is selected
  lemma FirstIsBest(s: State, packet: Ip, inbound: bool, reqid: u32)
    requires Ordered(s)
    ensures match FindFirst(s.entries, packet, inbound, reqid)
      case None => forall p | p in Installed(s) :: !Selects(p, packet, inbound, reqid)
      case Some(p) => IsBest(Installed(s), q => Selects(q, packet, inbound, reqid), p)
  {}

  // After any run, find_by_packet returns the best of the installed policies that the packet, the
  // direction and the reqid select, or nothing exactly if none is selected
  lemma BestAfterAnyRun(ops: seq<Op>, packet: Ip, inbound: bool, reqid: u32)
    ensures var s := Run(State([], 0), ops);
      match FindFirst(s.entries, packet, inbound, reqid)
      case None => forall p | p in Installed(s) :: !Selects(p, packet, inbound, reqid)
      case Some(p) => IsBest(Installed(s), q => Selects(q, packet, inbound, reqid), p)
  {
    RunKeepsOrder(State([], 0), ops);
    FirstIsBest(Run(State([], 0), ops), packet, inbound, reqid);
  }

  // ---------------------------------------------------------------- the policy for a packet

  // The policy is one of those handled, for the direction, and for the reqid unless that is 0, and governs the
  // packet by its addresses, ports and protocol
  predicate Applies(p: Policy, packet: Ip, inbound: bool, reqid: u32) {
    && p.args.direction == (if inbound then In else Out)
    && Governs(p, packet)
    && (reqid != 0 ==> p.args.reqid == reqid)
  }

  ghost predicate AllHandled(s: State) {
    forall i | 0 <= i < |s.entries| ::
      var a := s.entries[i].policy.args; a.kind == Ipsec && a.direction != Fwd && WfArgs(a)
  }

  // Only policies of type IPsec for inbound or outbound traffic are ever installed
  lemma {:induction false} OnlyHandledInstalled(s: State, ops: seq<Op>)
    requires AllHandled(s) && forall i | 0 <= i < |ops| && ops[i].Add? :: WfArgs(ops[i].a)
    ensures AllHandled(Run(s, ops))
    decreases |ops|
  {
    if ops != [] {
      assert ops[0].Add? ==> WfArgs(ops[0].a);
      OnlyHandledInstalled(Apply(s, ops[0]), ops[1..]);
    }
  }

  lemma AppliesIff(p: Policy, packet: Ip, inbound: bool, reqid: u32)
    requires WfArgs(p.args) && p.args.direction != Fwd && packet.src.Wf() && packet.dst.Wf()
    ensures Selects(p, packet, inbound, reqid) <==> Applies(p, packet, inbound, reqid)
  {
    GovernsIff(p, packet);
  }

  // After any run, what find_by_packet returns for a packet that was parsed is the best of the installed
  // policies that apply to it, and nothing exactly if none applies
  lemma BestApplies(ops: seq<Op>, data: bytes, inbound: bool, reqid: u32)
    requires Parse(data).Some? && forall i | 0 <= i < |ops| && ops[i].Add? :: WfArgs(ops[i].a)
    ensures var s, packet := Run(State([], 0), ops), Parse(data).value;
      match FindFirst(s.entries, packet, inbound, reqid)
      case None => forall p | p in Installed(s) :: !Applies(p, packet, inbound, reqid)
      case Some(p) =>
        && p in Installed(s) && Applies(p, packet, inbound, reqid)
        && forall q | q in Installed(s) && Applies(q, packet, inbound, reqid) && q != p :: Before(p, q)
  {
    var s, packet := Run(State([], 0), ops), Parse(data).value;
    BestAfterAnyRun(ops, packet, inbound, reqid);
    OnlyHandledInstalled(State([], 0), ops);
    ParsedHosts(data);
    forall p | p in Installed(s)
      ensures Selects(p, packet, inbound, reqid) <==> Applies(p, packet, inbound, reqid)
    {
      AppliesIff(p, packet, inbound, reqid);
    }
  }

  // ---------------------------------------------------------------- additions undone

  // Properly nested pairs of an addition and a deletion with the same arguments
  datatype Nest = Done | Bracket(a: Args, inner: Nest, next: Nest)

  function Ops(n: Nest): seq<Op> {
    match n
    case Done => []
    case Bracket(a, inner, next) => [Add(a)] + Ops(inner) + [Del(a)] + Ops(next)
  }

  // del_policy undoes add_policy, from any list: sorted or not, with duplicates or without
  lemma DeleteUndoesAdd(entries: seq<Entry>, created: nat, a: Args, n: nat)
    ensures Deleted(State(Added(State(entries, created), a).entries, n), a) == State(entries, n)
  {
    if !Ignored(a) {
      var e := CreateEntry(Policy(created, a));
      var i := Place(entries, e.priority);
      var after := InsertAt(entries, i, e);
      assert IsTarget(after[i], a);
      assert Locate(after, a) == i;
      assert RemoveAt(after, i) == entries;
    }
  }

  lemma {:induction false} RunConcat(s: State, a: seq<Op>, b: seq<Op>)
    ensures Run(s, a + b) == Run(Run(s, a), b)
    decreases |a|
  {
    if a == [] {
      assert a + b == b;
    } else {
      assert (a + b)[1..] == a[1..] + b;
      RunConcat(Apply(s, a[0]), a[1..], b);
    }
  }

  lemma {:induction false} NestedRestores(s: State, n: Nest)
    ensures Run(s, Ops(n)).entries == s.entries
    decreases n
  {
    match n {
      case Done =>
      case Bracket(a, inner, next) =>
        var s1 := Apply(s, Add(a));
        var s2 := Run(s1, Ops(inner));
        NestedRestores(s1, inner);
        DeleteUndoesAdd(s.entries, s.created, a, s2.created);
        var s3 := Apply(s2, Del(a));
        NestedRestores(s3, next);
        RunConcat(s, [Add(a)] + Ops(inner) + [Del(a)], Ops(next));
        RunConcat(s, [Add(a)] + Ops(inner), [Del(a)]);
        RunConcat(s, [Add(a)], Ops(inner));
        assert Run(s, [Add(a)]) == s1 by { assert [Add(a)][1..] == []; }
        assert Run(s2, [Del(a)]) == s3 by { assert [Del(a)][1..] == []; }
    }
  }
}
