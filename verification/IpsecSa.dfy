// IPsec SAs (ipsec_sa.c): usage statistics, lifetimes and the expiry events they trigger, and the timer
// that the SA manager sets for each SA (ipsec_sa_mgr.c).
module IpsecSa {
  import opened Base
  import opened IpPacket
  import opened EspContext
  import SaManager

  // 0 stands for no limit
  datatype Limit = Limit(life: u64, rekey: u64)
  datatype Lifetime = Lifetime(time: Limit, bytes: Limit, packets: Limit)

  datatype Event = Expired(spi: u32, dst: Host, hard: bool)

  // What changes in an SA, and the events raised for it so far
  datatype State = State(
    src: Host, dst: Host, packets: u64, bytes: u64, softExpired: bool, hardExpired: bool, events: seq<Event>)

  // ---------------------------------------------------------------- expiry

  function AfterExpiry(s: State, spi: u32, hard: bool): State {
    if hard then
      if s.hardExpired then s else s.(hardExpired := true, events := s.events + [Expired(spi, s.dst, true)])
    else
      if s.hardExpired || s.softExpired then s
      else s.(softExpired := true, events := s.events + [Expired(spi, s.dst, false)])
  }

  predicate Reached(count: u64, limit: u64) { limit != 0 && count >= limit }

  predicate LifeReached(l: Lifetime, packets: u64, bytes: u64) {
    Reached(packets, l.packets.life) || Reached(bytes, l.bytes.life)
  }

  predicate RekeyReached(l: Lifetime, packets: u64, bytes: u64) {
    Reached(packets, l.packets.rekey) || Reached(bytes, l.bytes.rekey)
  }

  // One more packet, in unsigned 64-bit arithmetic
  function Counted(s: State, n: u32): State {
    s.(packets := (s.packets + 1) % 0x1_0000_0000_0000_0000, bytes := (s.bytes + n) % 0x1_0000_0000_0000_0000)
  }

  function Used(s: State, spi: u32, l: Lifetime, n: u32): State {
    var c := Counted(s, n);
    if LifeReached(l, c.packets, c.bytes) then AfterExpiry(c, spi, true)
    else if RekeyReached(l, c.packets, c.bytes) then AfterExpiry(c, spi, false)
    else c
  }

  lemma UsedCounts(s: State, spi: u32, l: Lifetime, n: u32)
    ensures var r := Used(s, spi, l, n);
      && r.packets == (s.packets + 1) % 0x1_0000_0000_0000_0000
      && r.bytes == (s.bytes + n) % 0x1_0000_0000_0000_0000
  {}

  class SaObject {
    const spi: u32
    const reqid: u32
    const inbound: bool
    const lifetime: Lifetime
    const context: Context
    var src: Host
    var dst: Host
    var lastUse: nat
    var packets: u64
    var bytesUsed: u64
    var softExpired: bool
    var hardExpired: bool
    ghost var events: seq<Event>

    ghost function View(): State
      reads this
    {
      State(src, dst, packets, bytesUsed, softExpired, hardExpired, events)
    }

    ghost predicate Valid()
      reads context, context.window
    {
      context.Valid() && context.inbound == inbound && context.aead.Lawful()
    }

    constructor (spi: u32, src: Host, dst: Host, reqid: u32, lifetime: Lifetime, inbound: bool, context: Context)
      requires context.Valid() && context.inbound == inbound && context.aead.Lawful()
      ensures Valid()
      ensures View() == State(src, dst, 0, 0, false, false, [])
      ensures this.spi == spi && this.reqid == reqid && this.inbound == inbound
      ensures this.lifetime == lifetime && this.context == context
    {
      this.spi, this.reqid, this.inbound, this.lifetime, this.context := spi, reqid, inbound, lifetime, context;
      this.src, this.dst, lastUse, packets, bytesUsed := src, dst, 0, 0, 0;
      softExpired, hardExpired, events := false, false, [];
    }

    method Expire(hard: bool)
      modifies `softExpired, `hardExpired, `events
      ensures View() == AfterExpiry(old(View()), spi, hard)
    {
      if hard {
        if !hardExpired {
          hardExpired := true;
          events := events + [Expired(spi, dst, true)];
        }
      } else {
        if !hardExpired && !softExpired {
          softExpired := true;
          events := events + [Expired(spi, dst, false)];
        }
      }
    }

    method UpdateUsestats(n: u32, now: nat)
      modifies this
      ensures View() == Used(old(View()), spi, lifetime, n) && lastUse == now
    {
      lastUse := now;
      packets := (packets + 1) % 0x1_0000_0000_0000_0000;
      bytesUsed := (bytesUsed + n) % 0x1_0000_0000_0000_0000;
      if lifetime.packets.life != 0 && packets >= lifetime.packets.life {
        Expire(true);
        return;
      }
      if lifetime.bytes.life != 0 && bytesUsed >= lifetime.bytes.life {
        Expire(true);
        return;
      }
      if lifetime.packets.rekey != 0 && packets >= lifetime.packets.rekey {
        Expire(false);
        return;
      }
      if lifetime.bytes.rekey != 0 && bytesUsed >= lifetime.bytes.rekey {
        Expire(false);
      }
    }

    method SetSource(addr: Host)
      modifies this
      ensures View() == old(View()).(src := addr)
    {
      src := addr;
    }

    method SetDestination(addr: Host)
      modifies this
      ensures View() == old(View()).(dst := addr)
    {
      dst := addr;
    }

    // match_by_spi_dst, match_by_spi_src_dst and match_by_reqid
    predicate IsFoundBy(key: SaManager.Key)
      reads this
    {
      SaManager.Matches(SaManager.Sa(spi, src.Where(), dst.Where(), reqid, inbound, hardExpired), key)
    }
  }

  // ---------------------------------------------------------------- any run

  datatype Op = Use(n: u32) | Timer(hard: bool) | Move(src: Host, dst: Host)

  function Apply(s: State, spi: u32, l: Lifetime, op: Op): State {
    match op
    case Use(n) => Used(s, spi, l, n)
    case Timer(hard) => AfterExpiry(s, spi, hard)
    case Move(src, dst) => s.(src := src, dst := dst)
  }

  function Run(s: State, spi: u32, l: Lifetime, ops: seq<Op>): State {
    if ops == [] then s else Apply(Run(s, spi, l, ops[..|ops| - 1]), spi, l, ops[|ops| - 1])
  }

  function Created(src: Host, dst: Host): State { State(src, dst, 0, 0, false, false, []) }

  function Kinds(events: seq<Event>): seq<bool> {
    if events == [] then [] else Kinds(events[..|events| - 1]) + [events[|events| - 1].hard]
  }

  ghost predicate EventsMatchFlags(s: State, spi: u32) {
    && Kinds(s.events) == (if s.softExpired then [false] else []) + (if s.hardExpired then [true] else [])
    && forall e | e in s.events :: e.spi == spi
  }

  lemma ExpiryKeepsEvents(s: State, spi: u32, hard: bool)
    requires EventsMatchFlags(s, spi)
    ensures EventsMatchFlags(AfterExpiry(s, spi, hard), spi)
  {
    var e := Expired(spi, s.dst, hard);
    var all := s.events + [e];
    assert all[..|all| - 1] == s.events && all[|all| - 1] == e;
    assert Kinds(all) == Kinds(s.events) + [hard];
    assert forall f | f in all :: f in s.events || f == e;
  }

  lemma ApplyKeepsEvents(s: State, spi: u32, l: Lifetime, op: Op)
    requires EventsMatchFlags(s, spi)
    ensures EventsMatchFlags(Apply(s, spi, l, op), spi)
  {
    match op
    case Use(n) =>
      ExpiryKeepsEvents(Counted(s, n), spi, true);
      ExpiryKeepsEvents(Counted(s, n), spi, false);
    case Timer(hard) => ExpiryKeepsEvents(s, spi, hard);
    case Move(_, _) =>
  }

  // The events raised are always none, one soft, one hard, or one soft and then one hard one, and the
  // flags say which
  lemma {:induction false} EventsOfAnyRun(src: Host, dst: Host, spi: u32, l: Lifetime, ops: seq<Op>)
    ensures EventsMatchFlags(Run(Created(src, dst), spi, l, ops), spi)
    decreases |ops|
  {
    if ops != [] {
      EventsOfAnyRun(src, dst, spi, l, ops[..|ops| - 1]);
      ApplyKeepsEvents(Run(Created(src, dst), spi, l, ops[..|ops| - 1]), spi, l, ops[|ops| - 1]);
    }
  }

  // An event is raised exactly when a flag becomes set, and names the SPI and the destination the SA has then
  lemma EventsTellFlags(s: State, spi: u32, l: Lifetime, op: Op)
    ensures var r := Apply(s, spi, l, op);
      && (s.softExpired ==> r.softExpired) && (s.hardExpired ==> r.hardExpired)
      && !(r.softExpired != s.softExpired && r.hardExpired != s.hardExpired)
      && r.events == s.events
           + (if r.softExpired && !s.softExpired then [Expired(spi, s.dst, false)] else [])
           + (if r.hardExpired && !s.hardExpired then [Expired(spi, s.dst, true)] else [])
  {}

  // Whether operation k demands a hard (or, if it does not, a soft) expiry
  predicate DemandsHard(s: State, spi: u32, l: Lifetime, op: Op) {
    match op
    case Use(n) => LifeReached(l, Counted(s, n).packets, Counted(s, n).bytes)
    case Timer(hard) => hard
    case Move(_, _) => false
  }

  lemma HardStep(s: State, spi: u32, l: Lifetime, op: Op)
    ensures Apply(s, spi, l, op).hardExpired <==> s.hardExpired || DemandsHard(s, spi, l, op)
  {}

  ghost predicate DemandedAt(s: State, spi: u32, l: Lifetime, ops: seq<Op>, k: int) {
    0 <= k < |ops| && DemandsHard(Run(s, spi, l, ops[..k]), spi, l, ops[k])
  }

  // An SA is hard expired exactly if some operation demanded it
  lemma {:induction false} HardIffDemanded(s: State, spi: u32, l: Lifetime, ops: seq<Op>)
    requires !s.hardExpired
    ensures Run(s, spi, l, ops).hardExpired <==> exists k :: DemandedAt(s, spi, l, ops, k)
    decreases |ops|
  {
    if ops != [] {
      var before := ops[..|ops| - 1];
      HardIffDemanded(s, spi, l, before);
      HardStep(Run(s, spi, l, before), spi, l, ops[|ops| - 1]);
      assert DemandedAt(s, spi, l, ops, |before|) <==> DemandsHard(Run(s, spi, l, before), spi, l, ops[|ops| - 1]);
      forall k | 0 <= k < |before| ensures DemandedAt(s, spi, l, ops, k) <==> DemandedAt(s, spi, l, before, k) {
        assert ops[..k] == before[..k];
      }
    }
  }

  // From the operation that raised the hard event on, no lookup for use selects the SA
  lemma NotSelectedOnceHard(sa: SaObject, s: State, ops: seq<Op>, k: nat, key: SaManager.Key)
    requires !s.hardExpired && sa.View() == Run(s, sa.spi, sa.lifetime, ops)
    requires DemandedAt(s, sa.spi, sa.lifetime, ops, k)
    ensures !key.BySpiSrcDst? ==> !sa.IsFoundBy(key)
  {
    HardIffDemanded(s, sa.spi, sa.lifetime, ops);
  }

  // ---------------------------------------------------------------- usage limits

  function TotalBytes(sizes: seq<u32>): nat {
    if sizes == [] then 0 else TotalBytes(sizes[..|sizes| - 1]) + sizes[|sizes| - 1]
  }

  function Uses(sizes: seq<u32>): seq<Op> { seq(|sizes|, i requires 0 <= i < |sizes| => Use(sizes[i])) }

  predicate Countable(n: nat) { n < 0x1_0000_0000_0000_0000 }

  lemma CountsExactly(s: State, n: u32)
    requires Countable(s.packets + 1) && Countable(s.bytes + n)
    ensures Counted(s, n) == s.(packets := s.packets + 1, bytes := s.bytes + n)
  {}

  lemma {:induction false} CountersAreTotals(s: State, spi: u32, l: Lifetime, sizes: seq<u32>)
    requires s.packets == 0 && s.bytes == 0 && Countable(|sizes|) && Countable(TotalBytes(sizes))
    ensures var r := Run(s, spi, l, Uses(sizes)); r.packets == |sizes| && r.bytes == TotalBytes(sizes)
    decreases |sizes|
  {
    if sizes != [] {
      var before := sizes[..|sizes| - 1];
      assert Uses(sizes)[..|sizes| - 1] == Uses(before);
      CountersAreTotals(s, spi, l, before);
      CountsExactly(Run(s, spi, l, Uses(before)), sizes[|sizes| - 1]);
    }
  }

  lemma {:induction false} TotalGrows(sizes: seq<u32>, k: nat)
    requires k <= |sizes|
    ensures TotalBytes(sizes[..k]) <= TotalBytes(sizes)
    decreases |sizes|
  {
    if k < |sizes| {
      var before := sizes[..|sizes| - 1];
      assert before[..k] == sizes[..k];
      TotalGrows(before, k);
    } else {
      assert sizes[..k] == sizes;
    }
  }

  ghost predicate OverLife(l: Lifetime, sizes: seq<u32>) {
    || (l.packets.life != 0 && |sizes| >= l.packets.life)
    || (l.bytes.life != 0 && TotalBytes(sizes) >= l.bytes.life)
  }

  ghost predicate OverRekey(l: Lifetime, sizes: seq<u32>) {
    || (l.packets.rekey != 0 && |sizes| >= l.packets.rekey)
    || (l.bytes.rekey != 0 && TotalBytes(sizes) >= l.bytes.rekey)
  }

  // A rekey limit had been reached after k packets, and no life limit
  ghost predicate RekeyWindow(l: Lifetime, sizes: seq<u32>, k: int) {
    0 <= k <= |sizes| && OverRekey(l, sizes[..k]) && !OverLife(l, sizes[..k])
  }

  lemma UseStep(s: State, spi: u32, l: Lifetime, sizes: seq<u32>)
    requires sizes != [] && Countable(|sizes|) && Countable(TotalBytes(sizes))
    requires s.packets == |sizes| - 1 && s.bytes == TotalBytes(sizes[..|sizes| - 1])
    ensures var r := Used(s, spi, l, sizes[|sizes| - 1]);
      && (r.hardExpired <==> s.hardExpired || OverLife(l, sizes))
      && (r.softExpired <==> s.softExpired || (!s.hardExpired && OverRekey(l, sizes) && !OverLife(l, sizes)))
  {
    var n := sizes[|sizes| - 1];
    assert TotalBytes(sizes) == s.bytes + n;
    CountsExactly(s, n);
    var c := Counted(s, n);
    assert LifeReached(l, c.packets, c.bytes) <==> OverLife(l, sizes);
    assert RekeyReached(l, c.packets, c.bytes) <==> OverRekey(l, sizes);
  }

  lemma WindowGrows(l: Lifetime, sizes: seq<u32>, before: seq<u32>)
    requires sizes != [] && before == sizes[..|sizes| - 1]
    ensures (exists k :: RekeyWindow(l, sizes, k)) <==>
      (exists k :: RekeyWindow(l, before, k)) || (OverRekey(l, sizes) && !OverLife(l, sizes))
  {
    var n := |sizes| - 1;
    assert sizes[..|sizes|] == sizes;
    assert RekeyWindow(l, sizes, |sizes|) <==> OverRekey(l, sizes) && !OverLife(l, sizes);
    forall k | 0 <= k <= n ensures RekeyWindow(l, sizes, k) <==> RekeyWindow(l, before, k) {
      assert before[..k] == sizes[..k];
    }
  }

  // As long as the 64-bit counters do not wrap around: once packets of these sizes have been processed,
  // the SA is hard expired exactly if their number or size has reached a limit, and soft expired
  // exactly if a rekey limit had been reached at some point when no life limit was
  lemma {:induction false} UsageExpiresAtLimits(src: Host, dst: Host, spi: u32, l: Lifetime, sizes: seq<u32>)
    requires Countable(|sizes|) && Countable(TotalBytes(sizes))
    ensures var r := Run(Created(src, dst), spi, l, Uses(sizes));
      && (r.hardExpired <==> OverLife(l, sizes))
      && (r.softExpired <==> exists k :: RekeyWindow(l, sizes, k))
    decreases |sizes|
  {
    if sizes == [] {
      assert !OverRekey(l, []);
      forall k ensures !RekeyWindow(l, sizes, k) { if 0 <= k <= |sizes| { assert sizes[..k] == []; } }
    } else {
      var n := |sizes| - 1;
      TotalGrows(sizes, n);
      UsageExpiresAtLimits(src, dst, spi, l, sizes[..n]);
      var s := Run(Created(src, dst), spi, l, Uses(sizes[..n]));
      assert Uses(sizes)[..n] == Uses(sizes[..n]);
      CountersAreTotals(Created(src, dst), spi, l, sizes[..n]);
      UseStep(s, spi, l, sizes);
      WindowGrows(l, sizes, sizes[..n]);
    }
  }

  // ---------------------------------------------------------------- the timer

  // schedule_expiration: the differences and the timeout are 64-bit values cut to 32 bits
  function HardOffset(t: Limit): u32 {
    if t.life <= t.rekey || t.rekey == 0 then 0 else (t.life - t.rekey) % 0x1_0000_0000
  }

  function Timeout(t: Limit): Option<u32> {
    if t.life == 0 then None
    else if t.life <= t.rekey || t.rekey == 0 then Some(t.life % 0x1_0000_0000)
    else Some(t.rekey % 0x1_0000_0000)
  }

  // The job that expires an SA: 0 if the next expiry is a hard one, otherwise the seconds from the soft
  // expiry to the hard one
  class ExpiryJob {
    var hardOffset: u32

    constructor (hardOffset: u32)
      ensures this.hardOffset == hardOffset
    {
      this.hardOffset := hardOffset;
    }

    // None if the SA does not expire, otherwise the job and when it is first run
    static method Schedule(l: Lifetime) returns (scheduled: Option<(ExpiryJob, u32)>)
      ensures match scheduled
        case None => Timeout(l.time) == None
        case Some((job, timeout)) =>
          fresh(job) && Timeout(l.time) == Some(timeout) && job.hardOffset == HardOffset(l.time)
    {
      if l.time.life == 0 {
        return None;
      }
      var job := new ExpiryJob((l.time.life - l.time.rekey) % 0x1_0000_0000);
      var timeout := l.time.rekey % 0x1_0000_0000;
      if l.time.life <= l.time.rekey || l.time.rekey == 0 {
        job.hardOffset := 0;
        timeout := l.time.life % 0x1_0000_0000;
      }
      return Some((job, timeout));
    }

    // Returns when the job is to be run again and whether the SA is to be removed
    method Fire(sa: SaObject, installed: bool) returns (again: Option<u32>, remove: bool)
      modifies this, sa
      ensures if !installed then again.None? && !remove && sa.View() == old(sa.View())
        else
          && sa.View() == AfterExpiry(old(sa.View()), sa.spi, old(hardOffset) == 0)
          && again == (if old(hardOffset) == 0 then None else Some(old(hardOffset)))
          && remove == (old(hardOffset) == 0) && hardOffset == 0
    {
      if !installed {
        return None, false;
      }
      var offset := hardOffset;
      sa.Expire(offset == 0);
      if offset != 0 {
        hardOffset := 0;
        return Some(offset), false;
      }
      return None, true;
    }
  }

  datatype Firing = Firing(at: nat, hard: bool)

  // When the job runs, in seconds since the SA was installed, and what expiry it asks for
  function Timeline(t: Limit): seq<Firing> {
    match Timeout(t)
    case None => []
    case Some(at) =>
      if HardOffset(t) == 0 then [Firing(at, true)] else [Firing(at, false), Firing(at + HardOffset(t), true)]
  }

  function TimerOps(firings: seq<Firing>): seq<Op> {
    seq(|firings|, i requires 0 <= i < |firings| => Timer(firings[i].hard))
  }

  lemma OneMoreFiring(s: State, spi: u32, l: Lifetime, firings: seq<Firing>, f: Firing)
    ensures Run(s, spi, l, TimerOps(firings + [f])) == AfterExpiry(Run(s, spi, l, TimerOps(firings)), spi, f.hard)
  {
    var ops := TimerOps(firings + [f]);
    assert ops[..|firings|] == TimerOps(firings) && ops[|firings|] == Timer(f.hard);
  }

  // The scheduler runs the job when it is due, again as long as the job asks for it, for an SA that stays
  // installed and is not used: the firings are those of the timeline, and so are the events
  method RunTimer(sa: SaObject) returns (firings: seq<Firing>)
    modifies sa
    ensures firings == Timeline(sa.lifetime.time)
    ensures sa.View() == Run(old(sa.View()), sa.spi, sa.lifetime, TimerOps(firings))
  {
    firings := [];
    var scheduled := ExpiryJob.Schedule(sa.lifetime);
    if scheduled.None? {
      return;
    }
    var (job, at) := scheduled.value;
    var due: Option<nat> := Some(at);
    ghost var start := job.hardOffset;
    while due.Some?
      invariant match due
        case None => firings == Timeline(sa.lifetime.time)
        case Some(t) =>
          if firings == [] then t == at && job.hardOffset == start
          else firings == [Firing(at, false)] && t == at as int + start && start != 0 && job.hardOffset == 0
      invariant fresh(job)
      invariant sa.View() == Run(old(sa.View()), sa.spi, sa.lifetime, TimerOps(firings))
      decreases due.Some?, job.hardOffset
    {
      var again, remove := job.Fire(sa, true);
      OneMoreFiring(old(sa.View()), sa.spi, sa.lifetime, firings, Firing(due.value, remove));
      firings := firings + [Firing(due.value, remove)];
      due := if again.Some? then Some(due.value + again.value) else None;
    }
  }

  // The events of a timeline, for an SA that is not used
  lemma TimelineEvents(src: Host, dst: Host, spi: u32, l: Lifetime)
    ensures var firings := Timeline(l.time);
      Run(Created(src, dst), spi, l, TimerOps(firings)).events
        == seq(|firings|, i requires 0 <= i < |firings| => Expired(spi, dst, firings[i].hard))
  {
    var s, firings := Created(src, dst), Timeline(l.time);
    var ops := TimerOps(firings);
    if |ops| == 1 {
      assert ops[..0] == [];
    } else if |ops| == 2 {
      var first := ops[..1];
      assert first[..0] == [] && first[0] == Timer(false) && ops[1] == Timer(true);
      var s1 := AfterExpiry(s, spi, false);
      assert Run(s, spi, l, first) == s1;
      assert Run(s, spi, l, ops) == AfterExpiry(s1, spi, true);
    }
  }

  function Configured(t: Limit): seq<Firing> {
    if t.life == 0 then []
    else if 0 < t.rekey < t.life then [Firing(t.rekey, false), Firing(t.life, true)]
    else [Firing(t.life, true)]
  }

  // The timer keeps to the configured times exactly if no time span it is set to exceeds 32 bits
  lemma TimelineIsConfiguredIff(t: Limit)
    ensures Timeline(t) == Configured(t) <==>
      || t.life == 0
      || (if 0 < t.rekey < t.life then t.rekey < 0x1_0000_0000 && t.life - t.rekey < 0x1_0000_0000
          else t.life < 0x1_0000_0000)
  {}

  // A span of a multiple of 2^32 seconds from rekeying to expiry turns the rekeying into a hard expiry
  lemma SpanOfExactMultipleSkipsRekeying(rekey: u32)
    requires rekey > 0
    ensures Timeline(Limit(rekey + 0x1_0000_0000, rekey)) == [Firing(rekey, true)]
  {}
}
