/** The learning-mode server (src/bin/server.rs): one step per datagram or sweep. */
module Server {
  import opened Bytes
  import opened Ring
  import opened Messages
  import opened Codec
  import opened Subnets
  import L = LeaseTable
  import Names
  import NameTableObject

  /** One learned inner address. */
  datatype ClientEntry = ClientEntry(peer: SocketAddr, lastSeen: Time)

  type Clients = map<IpAddr, ClientEntry>

  datatype Config = Config(assign: L.Config, policy: Approval, leaseTtl: nat)
  {
    ghost predicate Valid() {
      assign.Valid() && policy.Valid()
    }
  }

  datatype State = State(clients: Clients, routes: Routes, leases: L.Table, names: Names.Table)

  /** The clocks a step reads: on receipt, when an address is learned, and the wall clock. */
  datatype Clock = Clock(now: Time, learned: Time, wall: Time)

  // ---- Learning ----

  function Learn(clients: Clients, src: IpAddr, peer: SocketAddr, at: Time): Clients {
    clients[src := ClientEntry(peer, at)]
  }

  /** The node that holds a lease of the address. */
  function Holder(t: L.Table, ip: IpAddr): Option<NodeId> {
    match ip
    case V4(a) => if a in t.byIp4 then Some(t.byIp4[a]) else None
    case V6(a) => if a in t.byIp6 then Some(t.byIp6[a]) else None
  }

  function NodeForPeer(t: L.Table, peer: SocketAddr): Option<NodeId> {
    if peer in t.byPeer then Some(t.byPeer[peer]) else None
  }

  /** Whether `peer` may claim `src`: nobody holds it, or the node bound to `peer` does. */
  predicate MayLearn(t: L.Table, src: IpAddr, peer: SocketAddr) {
    Holder(t, src).Some? ==> NodeForPeer(t, peer) == Holder(t, src)
  }

  function MaybeLearn(s: State, src: IpAddr, peer: SocketAddr, at: Time): State {
    if MayLearn(s.leases, src, peer) then s.(clients := Learn(s.clients, src, peer, at)) else s
  }

  function MaybeLearn6(s: State, src: Option<Ip6>, peer: SocketAddr, at: Time): State {
    if src.Some? then MaybeLearn(s, V6(src.value), peer, at) else s
  }

  function Unlearn(clients: Clients, ip: IpAddr, lastPeer: Option<SocketAddr>, now: Time, ttl: nat): Clients {
    if ip in clients && (lastPeer == Some(clients[ip].peer) || Idle(now, clients[ip].lastSeen) > ttl)
    then clients - {ip} else clients
  }

  function UnlearnLease(clients: Clients, l: L.Lease, now: Time, ttl: nat): Clients {
    var c4 := Unlearn(clients, V4(l.ip4), l.lastPeer, now, ttl);
    if l.ip6.Some? then Unlearn(c4, V6(l.ip6.value), l.lastPeer, now, ttl) else c4
  }

  function WithdrawName(names: Names.Table, l: L.Lease): Names.Table {
    if l.lastPeer.Some? then names.Withdraw(l.lastPeer.value) else names
  }

  /** `unlearn_dropped`: forget the addresses and the name of every dropped lease. */
  function UnlearnAll(s: State, dropped: seq<L.Lease>, now: Time, ttl: nat): State {
    if dropped == [] then s
    else
      var t, l := UnlearnAll(s, dropped[..|dropped| - 1], now, ttl), dropped[|dropped| - 1];
      t.(clients := UnlearnLease(t.clients, l, now, ttl), names := WithdrawName(t.names, l))
  }

  predicate Live(e: ClientEntry, now: Time, ttl: nat) {
    Idle(now, e.lastSeen) <= ttl
  }

  /** An exact live client first, then the longest approved prefix. */
  ghost function Lookup(s: State, dst: IpAddr, now: Time, ttl: nat): Option<SocketAddr> {
    if dst in s.clients && Live(s.clients[dst], now, ttl) then Some(s.clients[dst].peer)
    else Subnets.Lookup(s.routes, dst)
  }

  function ExpireClients(clients: Clients, ttl: nat, now: Time): Clients {
    map ip | ip in clients && Live(clients[ip], now, ttl) :: clients[ip]
  }

  // ---- Control messages ----

  /** The clients after a reply: the granted addresses are reachable through the requester. */
  function LearnGrant(clients: Clients, reply: Assign, peer: SocketAddr, at: Time): Clients {
    if reply.status != Ok then clients
    else
      var c4 := Learn(clients, V4(reply.tunIp), peer, at);
      if reply.tunIp6.Some? then Learn(c4, V6(reply.tunIp6.value), peer, at) else c4
  }

  ghost predicate RequestStep(c: Config, s: State, req: AssignReq, peer: SocketAddr, k: Clock,
                              s': State, reply: Assign, reclaimed: Option<NodeId>, dropped: seq<L.Lease>)
    requires c.Valid()
  {
    && L.Allocates(c.assign, s.leases, req, peer, k.wall, s'.leases, reply, reclaimed)
    && Lists(dropped, s.leases.Rows(L.Removed(c.assign, s.leases, k.wall, reclaimed)))
    && var t := UnlearnAll(s.(leases := s'.leases), dropped, k.now, c.leaseTtl);
    s' == t.(clients := LearnGrant(t.clients, reply, peer, k.learned))
  }

  function AfterAdvert(s: State, a: RouteAdvert, peer: SocketAddr, k: Clock): State {
    MaybeLearn6(MaybeLearn(s, V4(a.tunnelIp), peer, k.learned), a.tunnelIp6, peer, k.learned)
  }

  function AfterName(s: State, n: NameAdvert, peer: SocketAddr, k: Clock): State {
    var t := MaybeLearn6(MaybeLearn(s, V4(n.tunnelIp), peer, k.learned), n.tunnelIp6, peer, k.learned);
    t.(names := t.names.Advertise(peer, n.name, n.tunnelIp, n.tunnelIp6, NodeForPeer(t.leases, peer), k.now))
  }

  ghost predicate AdvertReply(s: State, peer: SocketAddr, wanted: bool, reply: Option<Control>) {
    if wanted then reply.Some? && reply.value.RoutePush? && Lists(reply.value.pushed, RoutesFor(s.routes, peer))
    else reply == None
  }

  ghost predicate NameReply(s: State, wanted: bool, reply: Option<Control>) {
    if wanted then
      exists peers :: Lists(peers, s.names.byPeer.Keys) && (forall i :: 0 <= i < |peers| ==> peers[i] in s.names.byPeer)
        && reply == Some(PeerPush(NameTableObject.Snapshot(s.names, peers)))
    else reply == None
  }

  /** `handle_control` for one parsed message. */
  ghost predicate ControlStep(c: Config, s: State, peer: SocketAddr, m: Control, k: Clock, s': State, reply: Option<Control>)
    requires c.Valid() && WellFormed(m)
  {
    match m
    case Keepalive(ip) =>
      s' == (if ip.Some? then MaybeLearn(s, V4(ip.value), peer, k.learned) else s) && reply == None
    case Advert(a) =>
      && (forall n :: n in CanonicalSet(a.routes) ==> n.Valid())
      && var t := AfterAdvert(s, a, peer, k);
      && s' == t.(routes := Advertised(t.routes, peer, CanonicalSet(a.routes), c.policy, k.now))
      && AdvertReply(s', peer, a.acceptRoutes, reply)
    case Request(req) =>
      && reply.Some? && reply.value.Reply?
      && exists reclaimed, dropped :: RequestStep(c, s, req, peer, k, s', reply.value.assign, reclaimed, dropped)
    case Name(n) => s' == AfterName(s, n, peer, k) && NameReply(s', n.wantPeers, reply)
    case _ => s' == s && reply == None
  }

  // ---- Datagrams and sweeps ----

  /** `ip_src` and `ip_dst` of a raw IP packet. */
  function IpAt(p: seq<Byte>, off4: nat, off6: nat): Option<IpAddr>
    requires off4 <= 16 && off6 <= 24
  {
    if p == [] then None
    else if p[0] / 16 == 4 && |p| >= 20 then Some(V4(Addr(p, off4)))
    else if p[0] / 16 == 6 && |p| >= 40 then Some(V6(FromOctets6(p[off6..off6 + 16])))
    else None
  }

  function IpSrc(p: seq<Byte>): Option<IpAddr> {
    IpAt(p, 12, 8)
  }

  function IpDst(p: seq<Byte>): Option<IpAddr> {
    IpAt(p, 16, 24)
  }

  /** What becomes of a decrypted payload. */
  datatype Action = Answer(reply: Control) | Handled | Dropped | ToTun | Relay(next: SocketAddr) | Bounce

  function AfterData(s: State, peer: SocketAddr, p: seq<Byte>, k: Clock): State {
    if IpSrc(p).Some? then MaybeLearn(s, IpSrc(p).value, peer, k.learned) else s
  }

  /** The relay decision. */
  ghost function Decide(s: State, peer: SocketAddr, p: seq<Byte>, now: Time, ttl: nat): Action {
    if IpDst(p).None? then ToTun
    else match Lookup(s, IpDst(p).value, now, ttl)
         case None => ToTun
         case Some(next) => if next != peer then Relay(next) else Bounce
  }

  function AnswerOrDone(reply: Option<Control>): Action {
    if reply.Some? then Answer(reply.value) else Handled
  }

  ghost predicate DatagramStep(c: Config, s: State, peer: SocketAddr, p: seq<Byte>, k: Clock, s': State, act: Action)
    requires c.Valid()
  {
    if p != [] && p[0] == 0 then
      match Parsed(p)
      case None => s' == s && act == Handled
      case Some(m) =>
        WellFormed(m) && exists reply :: ControlStep(c, s, peer, m, k, s', reply) && act == AnswerOrDone(reply)
    else if |p| < 20 then s' == s && act == Dropped
    else s' == AfterData(s, peer, p, k) && act == Decide(s', peer, p, k.now, c.leaseTtl)
  }

  ghost predicate SweepStep(c: Config, s: State, k: Clock, s': State)
    requires c.Valid()
  {
    exists dropped ::
      && Lists(dropped, s.leases.Rows(s.leases.Expired(k.wall, c.assign.ttl)))
      && s' == UnlearnAll(Swept(c, s, k), dropped, k.now, c.leaseTtl)
  }

  /** A sweep before the dropped leases are unlearned. */
  ghost function Swept(c: Config, s: State, k: Clock): State {
    State(ExpireClients(s.clients, c.leaseTtl, k.now), Expired(s.routes, c.leaseTtl, k.now),
          L.Reaped(c.assign, s.leases, k.wall), s.names.Expire(c.leaseTtl, k.now))
  }

  datatype Event =
    | Datagram(peer: SocketAddr, payload: seq<Byte>, clock: Clock, act: Action)
    | Sweep(clock: Clock)

  ghost predicate Step(c: Config, s: State, e: Event, s': State)
    requires c.Valid()
  {
    match e
    case Datagram(peer, p, k, act) => DatagramStep(c, s, peer, p, k, s', act)
    case Sweep(k) => SweepStep(c, s, k, s')
  }

  /** A run that starts with nothing learned, on any consistent lease table: empty, or loaded from disk. */
  ghost predicate Run(c: Config, states: seq<State>, events: seq<Event>) {
    && c.Valid() && |states| == |events| + 1
    && states[0].clients == map[] && states[0].routes == map[] && states[0].leases.Consistent()
    && states[0].names.Ok() && states[0].names.byPeer == map[]
    && forall i :: 0 <= i < |events| ==> Step(c, states[i], events[i], states[i + 1])
  }
}
