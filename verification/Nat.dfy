/** Per-client NAT keyed by UDP endpoint (src/nat.rs, `Nat`). */
module Nat {
  import opened Bytes
  import opened Ring
  import opened Rewrite
  import Checksum
  import Pool

  datatype Session = Session(internal: Ip4, clientIp: Ip4)

  datatype Ingress = Rewrote(internal: Ip4) | Exhausted | Invalid

  datatype State = State(pool: Pool.State, byPeer: map<SocketAddr, Session>, byInternal: map<Ip4, SocketAddr>)
  {
    /** Peers and leased addresses are in bijection, over assignable addresses only. */
    ghost predicate Ok() {
      && pool.Ok()
      && (forall p :: p in byPeer ==> byPeer[p].internal in byInternal && byInternal[byPeer[p].internal] == p)
      && (forall i :: i in byInternal ==> byInternal[i] in byPeer && byPeer[byInternal[i]].internal == i)
      && byInternal.Keys == pool.leases.Keys
    }

    /** The internal address `ingress` would use for `peer`. */
    function InternalFor(peer: SocketAddr): Option<Ip4>
      requires Ok()
    {
      if peer in byPeer then Some(byPeer[peer].internal) else pool.Pick()
    }

    function IngressOutcome(peer: SocketAddr, pkt: seq<Byte>): Ingress
      requires Ok()
    {
      if !IsIpv4(pkt) then Invalid
      else match InternalFor(peer) case None => Exhausted case Some(i) => Rewrote(i)
    }

    function IngressPacket(peer: SocketAddr, pkt: seq<Byte>): seq<Byte>
      requires Ok()
    {
      match IngressOutcome(peer, pkt)
      case Rewrote(i) => Rewritten(pkt, SRC_OFFSET, i)
      case _ => pkt
    }

    function AfterIngress(peer: SocketAddr, pkt: seq<Byte>, now: Time): State
      requires Ok()
    {
      match IngressOutcome(peer, pkt)
      case Rewrote(i) =>
        if peer in byPeer then this.(pool := pool.Refresh(i, now))
        else State(pool.Allocate(now), byPeer[peer := Session(i, Addr(pkt, SRC_OFFSET))], byInternal[i := peer])
      case _ => this
    }

    function AfterTouch(peer: SocketAddr, now: Time): State {
      if peer in byPeer then this.(pool := pool.Refresh(byPeer[peer].internal, now)) else this
    }

    /** The peer that owns the destination of `pkt`. */
    function EgressPeer(pkt: seq<Byte>): Option<SocketAddr> {
      match AddrAt(pkt, DST_OFFSET)
      case None => None
      case Some(dst) =>
        if dst in byInternal && byInternal[dst] in byPeer then Some(byInternal[dst]) else None
    }

    function EgressPacket(pkt: seq<Byte>): seq<Byte> {
      match EgressPeer(pkt)
      case None => pkt
      case Some(peer) => Rewritten(pkt, DST_OFFSET, byPeer[peer].clientIp)
    }

    function AfterEgress(pkt: seq<Byte>, now: Time): State {
      match EgressPeer(pkt)
      case None => this
      case Some(_) => this.(pool := pool.Refresh(Addr(pkt, DST_OFFSET), now))
    }

    function AfterReap(now: Time): State {
      var freed := pool.Expired(now);
      State(pool.Reap(now), byPeer - Mapped(byPeer, freed), byInternal - freed)
    }
  }

  datatype Event =
    | Inbound(peer: SocketAddr, pkt: seq<Byte>, now: Time)
    | Keepalive(peer: SocketAddr, now: Time)
    | Outbound(pkt: seq<Byte>, now: Time)
    | Sweep(now: Time)

  function Step(s: State, e: Event): State
    requires s.Ok()
  {
    match e
    case Inbound(peer, pkt, now) => s.AfterIngress(peer, pkt, now)
    case Keepalive(peer, now) => s.AfterTouch(peer, now)
    case Outbound(pkt, now) => s.AfterEgress(pkt, now)
    case Sweep(now) => s.AfterReap(now)
  }

  lemma IngressKeepsBijection(s: State, peer: SocketAddr, pkt: seq<Byte>, now: Time)
    requires s.Ok()
    ensures s.AfterIngress(peer, pkt, now).Ok()
  {
    hide IsIpv4, Addr, Rewritten;
    Pool.AllocateExact(s.pool, now);
  }

  lemma ReapKeepsBijection(s: State, now: Time)
    requires s.Ok()
    ensures s.AfterReap(now).Ok()
  {
    var t := s.AfterReap(now);
    assert t.byInternal.Keys == t.pool.leases.Keys;
  }

  lemma StepKeepsBijection(s: State, e: Event)
    requires s.Ok()
    ensures Step(s, e).Ok()
  {
    match e {
      case Inbound(peer, pkt, now) => IngressKeepsBijection(s, peer, pkt, now);
      case Keepalive(_, _) =>
      case Outbound(_, _) =>
      case Sweep(now) => ReapKeepsBijection(s, now);
    }
  }

  /** As many peers as leased addresses, and no more than the capacity. */
  lemma PeersCounted(s: State)
    requires s.Ok()
    ensures |s.byPeer| == |s.byInternal| == |s.pool.leases| <= s.pool.Capacity()
  {
    var f := map p | p in s.byPeer :: s.byPeer[p].internal;
    assert f.Keys == s.byPeer.Keys;
    InverseSameSize(f, s.byInternal);
    assert |s.byInternal.Keys| == |s.pool.leases.Keys|;
    Pool.CapacityCounts(s.pool);
    SubsetSize(s.pool.leases.Keys, s.pool.Assignable());
  }

  /** A sweep drops one peer per expired lease. */
  lemma ReapCounted(s: State, now: Time)
    requires s.Ok()
    ensures |s.byPeer| - |s.AfterReap(now).byPeer| == |s.pool.Expired(now)|
  {
    hide State.Ok, Mapped;
    ReapKeepsBijection(s, now);
    PeersCounted(s);
    PeersCounted(s.AfterReap(now));
    LeasesLeft(s.pool, now);
  }

  lemma LeasesLeft(p: Pool.State, now: Time)
    ensures |p.Reap(now).leases| == |p.leases| - |p.Expired(now)|
  {
    var all, gone := p.leases.Keys, p.Expired(now);
    assert p.Reap(now).leases.Keys == all - gone;
    assert all == (all - gone) + gone;
  }

  /** A parseable packet is refused exactly when its peer is new and `capacity()` peers are mapped. */
  lemma ExhaustedExactly(s: State, peer: SocketAddr, pkt: seq<Byte>)
    requires s.Ok()
    ensures s.IngressOutcome(peer, pkt) == Exhausted
       <==> IsIpv4(pkt) && peer !in s.byPeer && |s.byPeer| == s.pool.Capacity()
  {
    PeersCounted(s);
    Pool.AllocateExact(s.pool, 0);
  }

  /** Egress finds a peer exactly for a mapped destination, and it is the only peer mapped there. */
  lemma EgressFindsOwner(s: State, pkt: seq<Byte>, peer: SocketAddr)
    requires s.Ok()
    ensures s.EgressPeer(pkt) == Some(peer)
       <==> IsIpv4(pkt) && peer in s.byPeer && s.byPeer[peer].internal == Addr(pkt, DST_OFFSET)
  {
  }

  /** Steps are only defined on states in order; that every state of a run is one has to be proved. */
  ghost predicate Follows(s: State, e: Event, s': State) {
    s.Ok() ==> s' == Step(s, e)
  }

  /**
   * Ingress of a parseable packet for a peer with an address: the source, and only it and checksums,
   * becomes the peer's one internal address, which a new peer shares with nobody.
   */
  lemma IngressReplacesSource(s: State, peer: SocketAddr, pkt: seq<Byte>, now: Time)
    requires s.Ok()
    ensures var t, out := s.AfterIngress(peer, pkt, now), s.IngressPacket(peer, pkt);
            match s.IngressOutcome(peer, pkt)
            case Rewrote(i) =>
              && IsIpv4(pkt) && Replaces(pkt, out, SRC_OFFSET, i)
              && AddrAt(out, SRC_OFFSET) == Some(i) && AddrAt(out, DST_OFFSET) == AddrAt(pkt, DST_OFFSET)
              && peer in t.byPeer && t.byPeer[peer].internal == i
              && (if peer in s.byPeer then s.byPeer[peer].internal == i else i !in s.byInternal)
            case Exhausted => IsIpv4(pkt) && out == pkt && t == s
            case Invalid => !IsIpv4(pkt) && out == pkt && t == s
  {
    hide Rewritten;
    if s.IngressOutcome(peer, pkt).Rewrote? {
      RewriteReplaces(pkt, SRC_OFFSET, s.IngressOutcome(peer, pkt).internal);
      Pool.AllocateExact(s.pool, now);
    }
  }

  /** Egress of a packet for a mapped address: the destination becomes the placeholder of the peer mapped there. */
  lemma EgressReplacesDestination(s: State, pkt: seq<Byte>)
    requires s.Ok()
    ensures match s.EgressPeer(pkt)
            case None => s.EgressPacket(pkt) == pkt
            case Some(peer) =>
              && IsIpv4(pkt) && peer in s.byPeer
              && Replaces(pkt, s.EgressPacket(pkt), DST_OFFSET, s.byPeer[peer].clientIp)
              && AddrAt(s.EgressPacket(pkt), SRC_OFFSET) == AddrAt(pkt, SRC_OFFSET)
  {
    hide Rewritten;
    if s.EgressPeer(pkt).Some? {
      RewriteReplaces(pkt, DST_OFFSET, s.byPeer[s.EgressPeer(pkt).value].clientIp);
    }
  }

  /** A run: each state follows from the one before by an event, and the first one maps nobody. */
  ghost predicate Run(states: seq<State>, events: seq<Event>) {
    && |states| == |events| + 1
    && states[0].Ok() && states[0].byPeer == map[]
    && forall i :: 0 <= i < |events| ==> Follows(states[i], events[i], states[i + 1])
  }

  /** In every run peers, internal addresses and leases stay in bijection, and every step is taken. */
  lemma {:induction false} RunKeepsBijection(states: seq<State>, events: seq<Event>, i: nat)
    requires Run(states, events) && i < |states|
    ensures states[i].Ok()
    ensures i > 0 ==> states[i - 1].Ok() && states[i] == Step(states[i - 1], events[i - 1])
  {
    hide Step, State.Ok;
    if i > 0 {
      RunKeepsBijection(states, events, i - 1);
      assert Follows(states[i - 1], events[i - 1], states[i]);
      StepKeepsBijection(states[i - 1], events[i - 1]);
    }
  }

  /** Whether the event is traffic of `peer`: from it, or for its internal address. */
  predicate Concerns(s: State, e: Event, peer: SocketAddr) {
    match e
    case Inbound(p, pkt, _) => p == peer && IsIpv4(pkt)
    case Keepalive(p, _) => p == peer
    case Outbound(pkt, _) => s.EgressPeer(pkt) == Some(peer)
    case Sweep(_) => false
  }

  /** A sweep drops a peer exactly when its last traffic is more than the lease time ago. */
  lemma SweepDropsIdle(s: State, e: Event, peer: SocketAddr, now: Time)
    requires s.Ok() && Step(s, e).Ok() && Concerns(s, e, peer) && peer in Step(s, e).byPeer
    ensures var t := Step(s, e);
            && (peer in t.AfterReap(now).byPeer <==> Idle(now, e.now) <= t.pool.ttl)
            && (peer in t.AfterReap(now).byPeer ==> t.AfterReap(now).byPeer[peer] == t.byPeer[peer])
  {
    hide IsIpv4, Addr, Rewritten, Pool.State.Ok;
    var t := Step(s, e);
    var i := t.byPeer[peer].internal;
    assert t.pool.leases[i] == e.now;
  }

  /** `k` is the step that created `peer`'s present mapping, which has stood ever since. */
  ghost predicate CreatedAt(states: seq<State>, events: seq<Event>, peer: SocketAddr, k: nat, n: nat)
    requires |states| == |events| + 1 && k < n < |states|
  {
    && peer !in states[k].byPeer
    && events[k].Inbound? && events[k].peer == peer && IsIpv4(events[k].pkt)
    && peer in states[k + 1].byPeer
    && (forall j :: k < j <= n ==> peer in states[j].byPeer && states[j].byPeer[peer] == states[k + 1].byPeer[peer])
    && states[k + 1].byPeer[peer].clientIp == Addr(events[k].pkt, SRC_OFFSET)
  }

  /** A step neither changes nor creates a mapping, except that ingress creates the sender's. */
  lemma StepOnPeer(s: State, e: Event, peer: SocketAddr)
    requires s.Ok() && peer in Step(s, e).byPeer
    ensures if peer in s.byPeer then Step(s, e).byPeer[peer] == s.byPeer[peer]
            else e.Inbound? && e.peer == peer && IsIpv4(e.pkt)
                 && Step(s, e).byPeer[peer].clientIp == Addr(e.pkt, SRC_OFFSET)
  {
  }

  /** Every mapping of every run carries the source address of the packet that created it. */
  lemma {:induction false} MappingOrigin(states: seq<State>, events: seq<Event>, peer: SocketAddr, n: nat)
    requires Run(states, events) && n < |states| && peer in states[n].byPeer
    ensures exists k :: 0 <= k < n && CreatedAt(states, events, peer, k, n)
  {
    RunKeepsBijection(states, events, n);
    StepOnPeer(states[n - 1], events[n - 1], peer);
    if peer in states[n - 1].byPeer {
      MappingOrigin(states, events, peer, n - 1);
      var k :| 0 <= k < n - 1 && CreatedAt(states, events, peer, k, n - 1);
      assert CreatedAt(states, events, peer, k, n);
    } else {
      assert CreatedAt(states, events, peer, n - 1, n);
    }
  }

  /**
   * In every run, a packet for a mapped internal address goes to the one peer mapped there, with
   * the destination replaced by the source of the packet that created the mapping.
   */
  lemma EgressRestoresPlaceholder(states: seq<State>, events: seq<Event>, n: nat, pkt: seq<Byte>)
    requires Run(states, events) && n < |states| && states[n].EgressPeer(pkt).Some?
    ensures var s, peer := states[n], states[n].EgressPeer(pkt).value;
            && peer in s.byPeer && s.byPeer[peer].internal == Addr(pkt, DST_OFFSET)
            && exists k :: 0 <= k < n && CreatedAt(states, events, peer, k, n)
                 && s.EgressPacket(pkt) == Rewritten(pkt, DST_OFFSET, Addr(events[k].pkt, SRC_OFFSET))
  {
    var s, peer := states[n], states[n].EgressPeer(pkt).value;
    RunKeepsBijection(states, events, n);
    EgressFindsOwner(s, pkt, peer);
    MappingOrigin(states, events, peer, n);
    var k :| 0 <= k < n && CreatedAt(states, events, peer, k, n);
    assert states[n].byPeer[peer] == states[k + 1].byPeer[peer];
    assert s.EgressPacket(pkt) == Rewritten(pkt, DST_OFFSET, Addr(events[k].pkt, SRC_OFFSET));
  }

  /** While a mapping stands it does not change. */
  lemma {:induction false} MappingStands(states: seq<State>, events: seq<Event>, peer: SocketAddr, a: nat, b: nat)
    requires Run(states, events) && a <= b < |states|
    requires forall j :: a <= j <= b ==> peer in states[j].byPeer
    ensures states[b].byPeer[peer] == states[a].byPeer[peer]
    decreases b
  {
    hide State.Ok, Step;
    if a < b {
      MappingStands(states, events, peer, a, b - 1);
      RunKeepsBijection(states, events, b);
      StepOnPeer(states[b - 1], events[b - 1], peer);
    }
  }

  /**
   * End to end over a run: a packet that ingress sent on for a peer, and any later packet addressed to
   * its new source. While the peer's mapping stands egress gives that packet to the peer, addressed to
   * the source of the packet that created the mapping and with its own source.
   */
  lemma RepliesReturn(states: seq<State>, events: seq<Event>, k: nat, n: nat, reply: seq<Byte>)
    requires Run(states, events) && k < n < |states| && events[k].Inbound? && IsIpv4(reply)
    requires states[k].Ok() && states[k].IngressOutcome(events[k].peer, events[k].pkt).Rewrote?
    requires AddrAt(reply, DST_OFFSET) == AddrAt(states[k].IngressPacket(events[k].peer, events[k].pkt), SRC_OFFSET)
    requires forall j :: k < j <= n ==> events[k].peer in states[j].byPeer
    ensures var peer := events[k].peer;
            && states[n].EgressPeer(reply) == Some(peer)
            && exists c :: 0 <= c < n && CreatedAt(states, events, peer, c, n)
                 && Replaces(reply, states[n].EgressPacket(reply), DST_OFFSET, Addr(events[c].pkt, SRC_OFFSET))
                 && AddrAt(states[n].EgressPacket(reply), SRC_OFFSET) == AddrAt(reply, SRC_OFFSET)
  {
    hide State.Ok, Rewritten, Replaces, CreatedAt, State.AfterIngress;
    var peer, pkt := events[k].peer, events[k].pkt;
    IngressReplacesSource(states[k], peer, pkt, events[k].now);
    RunKeepsBijection(states, events, k + 1);
    RunKeepsBijection(states, events, n);
    MappingStands(states, events, peer, k + 1, n);
    EgressFindsOwner(states[n], reply, peer);
    EgressReplacesDestination(states[n], reply);
    MappingOrigin(states, events, peer, n);
    var c :| 0 <= c < n && CreatedAt(states, events, peer, c, n);
    CreatedWith(states, events, peer, c, n);
  }

  lemma CreatedWith(states: seq<State>, events: seq<Event>, peer: SocketAddr, c: nat, n: nat)
    requires |states| == |events| + 1 && c < n < |states| && CreatedAt(states, events, peer, c, n)
    ensures IsIpv4(events[c].pkt) && peer in states[n].byPeer
    ensures states[n].byPeer[peer].clientIp == Addr(events[c].pkt, SRC_OFFSET)
  {
  }

  /** Whatever the translator does to a packet, in either direction, its checksums are as good as before. */
  lemma TranslationKeepsChecksums(s: State, peer: SocketAddr, pkt: seq<Byte>)
    requires s.Ok() && IsIpv4(pkt)
    ensures SameChecksums(pkt, s.IngressPacket(peer, pkt)) && SameChecksums(pkt, s.EgressPacket(pkt))
  {
    hide Rewritten, HeaderSum, TransportSum, IsIpv4, TransportPos, Checksum.SumOk;
    if s.IngressOutcome(peer, pkt).Rewrote? {
      RewriteKeepsChecksums(pkt, SRC_OFFSET, s.IngressOutcome(peer, pkt).internal);
    }
    if s.EgressPeer(pkt).Some? {
      RewriteKeepsChecksums(pkt, DST_OFFSET, s.byPeer[s.EgressPeer(pkt).value].clientIp);
    }
  }

  /** Both are IPv4 packets of one length, and header and transport checksum are valid in both or in neither. */
  ghost predicate SameChecksums(pkt: seq<Byte>, out: seq<Byte>)
    requires IsIpv4(pkt)
  {
    && IsIpv4(out) && |out| == |pkt| && HeaderLen(out) == HeaderLen(pkt)
    && (Checksum.SumOk(HeaderSum(out)) <==> Checksum.SumOk(HeaderSum(pkt)))
    && (TransportPos(pkt).Some? ==>
          (Checksum.SumOk(TransportSum(out, |out|)) <==> Checksum.SumOk(TransportSum(pkt, |pkt|))))
  }

  lemma RewriteKeepsChecksums(pkt: seq<Byte>, off: nat, ip: Ip4)
    requires IsIpv4(pkt) && IsOffset(off)
    ensures SameChecksums(pkt, Rewritten(pkt, off, ip))
  {
    hide Rewritten, HeaderSum, TransportSum, Checksum.SumOk;
    HeaderChecksumKept(pkt, off, ip);
    RewriteFrame(pkt, off, ip);
    if TransportPos(pkt).Some? {
      TransportChecksumKept(pkt, off, ip, |pkt|);
    }
  }

  class Translator {
    const pool: Pool.LeasePool
    var byPeer: map<SocketAddr, Session>
    var byInternal: map<Ip4, SocketAddr>

    function View(): State
      reads this, pool
    {
      State(pool.View(), byPeer, byInternal)
    }

    ghost predicate Valid()
      reads this, pool
    {
      View().Ok()
    }

    constructor (serverIp: Ip4, netmask: Ip4, ttl: nat)
      ensures Valid() && fresh(pool) && byPeer == map[]
      ensures pool.serverIp == serverIp && pool.ttl == ttl
      ensures (pool.start, pool.end) == Pool.HostRange(serverIp, netmask)
    {
      pool := new Pool.LeasePool(serverIp, netmask, ttl);
      byPeer, byInternal := map[], map[];
    }

    method Ingress(peer: SocketAddr, pkt: array<Byte>, now: Time) returns (outcome: Ingress)
      requires Valid()
      modifies this, pool, pkt
      ensures Valid()
      ensures outcome == old(View().IngressOutcome(peer, pkt[..]))
      ensures pkt[..] == old(View().IngressPacket(peer, pkt[..]))
      ensures View() == old(View().AfterIngress(peer, pkt[..], now))
    {
      StepKeepsBijection(View(), Inbound(peer, pkt[..], now));
      var src := AddrAt(pkt[..], SRC_OFFSET);
      if src.None? {
        return Invalid;
      }
      var internal: Ip4;
      if peer in byPeer {
        internal := byPeer[peer].internal;
        var _ := pool.Refresh(internal, now);
      } else {
        var picked := pool.Allocate(now);
        if picked.None? {
          return Exhausted;
        }
        internal := picked.value;
        byPeer := byPeer[peer := Session(internal, src.value)];
        byInternal := byInternal[internal := peer];
      }
      RewriteAddr(pkt, SRC_OFFSET, internal);
      outcome := Rewrote(internal);
    }

    method Touch(peer: SocketAddr, now: Time)
      requires Valid()
      modifies pool
      ensures Valid() && View() == old(View().AfterTouch(peer, now))
    {
      if peer in byPeer {
        var _ := pool.Refresh(byPeer[peer].internal, now);
      }
    }

    method Egress(pkt: array<Byte>, now: Time) returns (peer: Option<SocketAddr>)
      requires Valid()
      modifies pool, pkt
      ensures Valid()
      ensures peer == old(View().EgressPeer(pkt[..]))
      ensures pkt[..] == old(View().EgressPacket(pkt[..]))
      ensures View() == old(View().AfterEgress(pkt[..], now))
    {
      var dst := AddrAt(pkt[..], DST_OFFSET);
      if dst.None? || dst.value !in byInternal || byInternal[dst.value] !in byPeer {
        return None;
      }
      var owner := byInternal[dst.value];
      var _ := pool.Refresh(dst.value, now);
      RewriteAddr(pkt, DST_OFFSET, byPeer[owner].clientIp);
      peer := Some(owner);
    }

    method Reap(now: Time) returns (dropped: nat)
      requires Valid()
      modifies this, pool
      ensures Valid() && View() == old(View().AfterReap(now))
      ensures dropped == |old(byPeer)| - |byPeer|
    {
      hide Pool.State.Ok, Pool.State.Expired, Pool.State.Reap;
      ghost var was := View();
      ReapKeepsBijection(was, now);
      ReapCounted(was, now);
      var freed := pool.Reap(now);
      Forget(freed, was.pool.Expired(now));
      hide State.Ok;
      assert View() == was.AfterReap(now);
      dropped := |freed|;
    }

    /** Drop the mappings of the addresses the pool freed. */
    method Forget(freed: seq<Ip4>, ghost gone: set<Ip4>)
      requires Lists(freed, gone)
      requires forall i :: i in byInternal ==> byInternal[i] in byPeer && byPeer[byInternal[i]].internal == i
      requires forall p :: p in byPeer ==> byPeer[p].internal in byInternal && byInternal[byPeer[p].internal] == p
      modifies this
      ensures byInternal == old(byInternal) - gone
      ensures byPeer == old(byPeer) - Mapped(old(byPeer), gone)
    {
      hide Mapped;
      ghost var peers, internals := byPeer, byInternal;
      ForgetNothing(peers, internals);
      assert freed[..0] == [];
      for k := 0 to |freed|
        invariant byInternal == internals - Elems(freed[..k])
        invariant byPeer == peers - Mapped(peers, Elems(freed[..k]))
      {
        var ip := freed[k];
        ForgetStep(peers, internals, Elems(freed[..k]), ip);
        ElemsGrow(freed, k);
        if ip in byInternal {
          byPeer := byPeer - {byInternal[ip]};
          byInternal := byInternal - {ip};
        }
      }
      assert freed[..|freed|] == freed && Elems(freed) == gone;
    }
  }

  /** The peers mapped to some address of `gone`. */
  function Mapped(peers: map<SocketAddr, Session>, gone: set<Ip4>): set<SocketAddr> {
    set p | p in peers && peers[p].internal in gone
  }

  lemma ForgetNothing(peers: map<SocketAddr, Session>, internals: map<Ip4, SocketAddr>)
    ensures Elems<Ip4>([]) == {} && internals - {} == internals && peers - Mapped(peers, {}) == peers
  {
    assert Mapped(peers, {}) == {};
  }

  /** Forgetting one more address drops the one peer mapped to it. */
  lemma ForgetStep(peers: map<SocketAddr, Session>, internals: map<Ip4, SocketAddr>, done: set<Ip4>, ip: Ip4)
    requires forall i :: i in internals ==> internals[i] in peers && peers[internals[i]].internal == i
    requires forall p :: p in peers ==> peers[p].internal in internals && internals[peers[p].internal] == p
    ensures var left, kept := internals - done, peers - Mapped(peers, done);
            if ip in left
            then internals - (done + {ip}) == left - {ip} && peers - Mapped(peers, done + {ip}) == kept - {left[ip]}
            else internals - (done + {ip}) == left && peers - Mapped(peers, done + {ip}) == kept
  {
    if ip in internals - done {
      assert Mapped(peers, done + {ip}) == Mapped(peers, done) + {internals[ip]};
    } else {
      assert Mapped(peers, done + {ip}) == Mapped(peers, done);
    }
  }
}
