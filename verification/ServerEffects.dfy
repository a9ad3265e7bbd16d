/** What each kind of step of the server does, and what follows over runs (src/bin/server.rs). */
module ServerEffects {
  import opened Bytes
  import opened Ring
  import opened Messages
  import opened Codec
  import opened Subnets
  import opened Server
  import opened ServerLaws
  import L = LeaseTable
  import opened LeaseLaws
  import Names

  // ---- Where packets go ----

  /** A datagram that is an IP packet rather than a control message or noise. */
  predicate IsData(p: seq<Byte>) {
    |p| >= 20 && p[0] != 0
  }

  ghost predicate HasLive(s: State, ip: IpAddr, now: Time, ttl: nat) {
    ip in s.clients && Idle(now, s.clients[ip].lastSeen) <= ttl
  }

  /** To another endpoint, but never back to the sender. */
  function Onward(next: SocketAddr, sender: SocketAddr): Action {
    if next != sender then Relay(next) else Bounce
  }

  /**
   * In every run, where a data packet goes: to the learned endpoint of a live client, leased or not; else
   * to the owner of the longest approved network that contains the destination; and to the TUN device
   * exactly when there is neither.
   */
  lemma RelayExactly(c: Config, states: seq<State>, events: seq<Event>, i: nat, dst: IpAddr)
    requires Run(c, states, events) && i < |events| && events[i].Datagram?
    requires IsData(events[i].payload) && IpDst(events[i].payload) == Some(dst)
    ensures var s, e := states[i + 1], events[i];
            if HasLive(s, dst, e.clock.now, c.leaseTtl) then e.act == Onward(s.clients[dst].peer, e.peer)
            else && (forall n :: n in s.routes && Best(s.routes, dst, n) ==> e.act == Onward(s.routes[n].peer, e.peer))
                 && (e.act == ToTun <==>
                       forall n :: n in s.routes && s.routes[n].approved && n.Valid() ==> !n.Contains(dst))
  {
    hide L.Table.Consistent, RoutesOk, ControlStep, Parsed, Subnets.Lookup, IpDst, AfterData, Network.Contains, Agree, IsCanonical;
    RunOk(c, states, events, i + 1);
    assert Step(c, states[i], events[i], states[i + 1]);
    LookupExact(states[i + 1].routes, c.policy, dst);
    if Subnets.Lookup(states[i + 1].routes, dst).Some? {
      var n :| Matches(states[i + 1].routes, dst, n);
    }
  }

  /** A packet without a readable destination goes to the TUN device; a short payload is dropped and changes nothing. */
  lemma OtherPayloads(c: Config, s: State, peer: SocketAddr, p: seq<Byte>, k: Clock, s': State, act: Action)
    requires c.Valid() && DatagramStep(c, s, peer, p, k, s', act)
    ensures IsData(p) && IpDst(p).None? ==> act == ToTun
    ensures |p| < 20 && (p == [] || p[0] != 0) ==> act == Dropped && s' == s
    ensures p != [] && p[0] == 0 && Parsed(p).None? ==> act == Handled && s' == s
  {
    hide Parsed, ControlStep, IpDst, IpSrc;
  }

  /** Messages that only flow to clients are ignored. */
  lemma PushesAreIgnored(c: Config, s: State, peer: SocketAddr, m: Control, k: Clock, s': State, reply: Option<Control>)
    requires c.Valid() && WellFormed(m) && ControlStep(c, s, peer, m, k, s', reply)
    requires m.RoutePush? || m.Reply? || m.PeerPush?
    ensures s' == s && reply == None
  {
  }

  // ---- What is learned ----

  /** `peer` may claim the address: nobody holds it, or the node bound to `peer` does. */
  predicate Claims(t: L.Table, ip: IpAddr, peer: SocketAddr) {
    match ip
    case V4(a) => a !in t.byIp4 || (peer in t.byPeer && t.byPeer[peer] == t.byIp4[a])
    case V6(a) => a !in t.byIp6 || (peer in t.byPeer && t.byPeer[peer] == t.byIp6[a])
  }

  /** The address is learned through `peer` if `peer` may claim it, and otherwise as it was. */
  ghost predicate LearnsAt(s: State, s': State, ip: IpAddr, peer: SocketAddr, at: Time) {
    if Claims(s.leases, ip, peer) then ip in s'.clients && s'.clients[ip] == ClientEntry(peer, at)
    else (ip in s'.clients <==> ip in s.clients) && (ip in s.clients ==> s'.clients[ip] == s.clients[ip])
  }

  /** All other addresses are as they were. */
  ghost predicate LearnsOnly(s: State, s': State, ips: set<IpAddr>) {
    forall ip :: ip !in ips ==> (ip in s'.clients <==> ip in s.clients) && (ip in s.clients ==> s'.clients[ip] == s.clients[ip])
  }

  /** A data packet makes its source, and nothing else, reachable through its sender. */
  lemma DataIsLearned(c: Config, s: State, peer: SocketAddr, p: seq<Byte>, k: Clock, s': State, act: Action)
    requires c.Valid() && DatagramStep(c, s, peer, p, k, s', act) && IsData(p)
    ensures s'.leases == s.leases && s'.routes == s.routes && s'.names == s.names
    ensures match IpSrc(p)
            case None => s' == s
            case Some(src) => LearnsAt(s, s', src, peer, k.learned) && LearnsOnly(s, s', {src})
  {
    hide Parsed, ControlStep, IpSrc, IpDst;
  }

  /** The tunnel addresses a control message claims for its sender. */
  function Claimed(m: Control): set<IpAddr> {
    match m
    case Keepalive(Some(ip)) => {V4(ip)}
    case Advert(a) => Pair(a.tunnelIp, a.tunnelIp6)
    case Name(n) => Pair(n.tunnelIp, n.tunnelIp6)
    case _ => {}
  }

  function Pair(ip4: Ip4, ip6: Option<Ip6>): set<IpAddr> {
    {V4(ip4)} + if ip6.Some? then {V6(ip6.value)} else {}
  }

  /** Keepalives and adverts make their tunnel addresses, and nothing else, reachable through their sender. */
  lemma ControlIsLearned(c: Config, s: State, peer: SocketAddr, m: Control, k: Clock, s': State, reply: Option<Control>)
    requires c.Valid() && WellFormed(m) && ControlStep(c, s, peer, m, k, s', reply) && !m.Request?
    ensures s'.leases == s.leases && LearnsOnly(s, s', Claimed(m))
    ensures forall ip :: ip in Claimed(m) ==> LearnsAt(s, s', ip, peer, k.learned)
  {
    hide Advertised, AdvertReply, NameReply, Names.Table.Advertise, RequestStep;
    match m {
      case Keepalive(ip) =>
      case Advert(a) => BothLearned(s, a.tunnelIp, a.tunnelIp6, peer, k.learned);
      case Name(n) => BothLearned(s, n.tunnelIp, n.tunnelIp6, peer, k.learned);
      case _ =>
    }
  }

  lemma OneLearned(s: State, ip: IpAddr, peer: SocketAddr, at: Time)
    ensures var t := MaybeLearn(s, ip, peer, at);
            t.leases == s.leases && LearnsOnly(s, t, {ip}) && LearnsAt(s, t, ip, peer, at)
  {
  }

  lemma BothLearned(s: State, ip4: Ip4, ip6: Option<Ip6>, peer: SocketAddr, at: Time)
    ensures var t := MaybeLearn6(MaybeLearn(s, V4(ip4), peer, at), ip6, peer, at);
            && t.leases == s.leases && LearnsOnly(s, t, Pair(ip4, ip6))
            && forall ip :: ip in Pair(ip4, ip6) ==> LearnsAt(s, t, ip, peer, at)
  {
    hide MaybeLearn, Claims;
    OneLearned(s, V4(ip4), peer, at);
    if ip6.Some? {
      OneLearned(MaybeLearn(s, V4(ip4), peer, at), V6(ip6.value), peer, at);
    }
  }

  // ---- The endpoint of a grant keeps its say over the address ----

  /** The step is a request of node `n`, from endpoint `p`. */
  ghost predicate Asks(e: Event, n: NodeId, p: SocketAddr) {
    && e.Datagram? && e.peer == p && e.payload != [] && e.payload[0] == 0
    && Parsed(e.payload).Some? && Parsed(e.payload).value.Request? && Parsed(e.payload).value.req.nodeId == n
  }

  /** The binding of an endpoint stands unless its node loses its lease, asks from elsewhere, or another asks from it. */
  lemma BindingStands(c: Config, s: State, e: Event, s': State, n: NodeId, p: SocketAddr)
    requires c.Valid() && s.leases.Consistent() && Step(c, s, e, s')
    requires NodeForPeer(s.leases, p) == Some(n) && n in s'.leases.byNode
    requires forall q, m :: Asks(e, m, q) ==> (m == n <==> q == p)
    ensures NodeForPeer(s'.leases, p) == Some(n)
  {
    hide L.Table.Consistent, Parsed, RequestStep, Advertised, AdvertReply, NameReply, Names.Table.Advertise, UnlearnAll, Lists;
    match e {
      case Sweep(k) =>
        var dropped :| Lists(dropped, s.leases.Rows(s.leases.Expired(k.wall, c.assign.ttl)))
          && s' == UnlearnAll(Swept(c, s, k), dropped, k.now, c.leaseTtl);
        UnlearnAllShrinks(Swept(c, s, k), dropped, k.now, c.leaseTtl);
      case Datagram(peer, pay, k, act) =>
        if pay != [] && pay[0] == 0 && Parsed(pay).Some? {
          var m := Parsed(pay).value;
          var reply :| ControlStep(c, s, peer, m, k, s', reply) && act == AnswerOrDone(reply);
          if m.Request? {
            assert Asks(e, m.req.nodeId, peer);
            var reclaimed, dropped :| RequestStep(c, s, m.req, peer, k, s', reply.value.assign, reclaimed, dropped);
            RequestKeepsBinding(c, s, m.req, peer, k, s', reply.value.assign, reclaimed, dropped, n, p);
          } else {
            OtherControlKeepsLeases(c, s, peer, m, k, s', reply);
          }
        }
    }
  }

  lemma RequestKeepsBinding(c: Config, s: State, req: AssignReq, peer: SocketAddr, k: Clock, s': State, reply: Assign,
                            reclaimed: Option<NodeId>, dropped: seq<L.Lease>, n: NodeId, p: SocketAddr)
    requires c.Valid() && s.leases.Consistent() && RequestStep(c, s, req, peer, k, s', reply, reclaimed, dropped)
    requires NodeForPeer(s.leases, p) == Some(n) && n in s'.leases.byNode && (req.nodeId == n <==> peer == p)
    ensures NodeForPeer(s'.leases, p) == Some(n)
  {
    hide L.Allocates, L.Table.Consistent, L.Removed;
    AllocateBinds(c.assign, s.leases, req, peer, k.wall, s'.leases, reply, reclaimed);
    AllocateEffect(c.assign, s.leases, req, peer, k.wall, s'.leases, reply, reclaimed);
    if n != req.nodeId && n in L.Removed(c.assign, s.leases, k.wall, reclaimed) {
      RemovedIsGone(c.assign, s.leases, req, peer, k.wall, s'.leases, reply, reclaimed, n);
    }
  }

  /** From step `a` to step `b` the node holds the address, asks from nowhere but `p`, and nobody else asks from `p`. */
  ghost predicate Undisturbed(states: seq<State>, events: seq<Event>, n: NodeId, p: SocketAddr, ip: IpAddr, a: nat, b: nat)
    requires a <= b < |states| == |events| + 1
  {
    && (forall j :: a <= j <= b ==> Holder(states[j].leases, ip) == Some(n))
    && (forall j, q, m :: a <= j < b && Asks(events[j], m, q) ==> (m == n <==> q == p))
  }

  lemma {:induction false} BindingHolds(c: Config, states: seq<State>, events: seq<Event>, n: NodeId, p: SocketAddr,
                                        ip: IpAddr, a: nat, b: nat)
    requires Run(c, states, events) && a <= b < |states| && Undisturbed(states, events, n, p, ip, a, b)
    requires NodeForPeer(states[a].leases, p) == Some(n)
    ensures NodeForPeer(states[b].leases, p) == Some(n)
    decreases b
  {
    hide L.Table.Consistent, RoutesOk, Agree, Step, Asks, NodeForPeer, Holder, Names.Table.Ok;
    if a < b {
      BindingHolds(c, states, events, n, p, ip, a, b - 1);
      RunOk(c, states, events, b - 1);
      RunOk(c, states, events, b);
      HolderHasRow(states[b].leases, ip);
      BindingStands(c, states[b - 1], events[b - 1], states[b], n, p);
    }
  }

  /**
   * Over a run: after a granted request of a node from an endpoint, a data packet from a granted address
   * through that endpoint is learned, however much later, as long as the node holds the address, asks
   * from nowhere else and nobody else asks from there.
   */
  lemma GrantedIsLearned(c: Config, states: seq<State>, events: seq<Event>, n: NodeId, ip: IpAddr, a: nat, b: nat)
    requires Run(c, states, events) && a < b < |events| && events[a].Datagram? && events[b].Datagram?
    requires Asks(events[a], n, events[a].peer) && events[a].act.Answer? && events[a].act.reply.Reply?
    requires events[a].act.reply.assign.status == Messages.Ok
    requires Undisturbed(states, events, n, events[a].peer, ip, a + 1, b)
    requires events[b].peer == events[a].peer && IsData(events[b].payload) && IpSrc(events[b].payload) == Some(ip)
    ensures ip in states[b + 1].clients && states[b + 1].clients[ip] == ClientEntry(events[a].peer, events[b].clock.learned)
  {
    hide L.Table.Consistent, RoutesOk, Agree, Parsed, ControlStep, IpSrc, IpDst, Names.Table.Ok, Undisturbed;
    var p := events[a].peer;
    RunOk(c, states, events, a);
    assert Step(c, states[a], events[a], states[a + 1]);
    GrantBinds(c, states[a], events[a], states[a + 1], n);
    BindingHolds(c, states, events, n, p, ip, a + 1, b);
    assert Step(c, states[b], events[b], states[b + 1]);
    DataIsLearned(c, states[b], p, events[b].payload, events[b].clock, states[b + 1], events[b].act);
    assert Holder(states[b].leases, ip) == Some(n) by {
      HeldAt(states, events, n, p, ip, a + 1, b);
    }
    ClaimsHeld(states[b].leases, ip, p, n);
  }

  lemma HeldAt(states: seq<State>, events: seq<Event>, n: NodeId, p: SocketAddr, ip: IpAddr, a: nat, b: nat)
    requires a <= b < |states| == |events| + 1 && Undisturbed(states, events, n, p, ip, a, b)
    ensures Holder(states[b].leases, ip) == Some(n)
  {
  }

  lemma ClaimsHeld(t: L.Table, ip: IpAddr, p: SocketAddr, n: NodeId)
    requires Holder(t, ip) == Some(n) && NodeForPeer(t, p) == Some(n)
    ensures Claims(t, ip, p)
  {
  }

  lemma GrantBinds(c: Config, s: State, e: Event, s': State, n: NodeId)
    requires c.Valid() && s.leases.Consistent() && Step(c, s, e, s') && e.Datagram? && Asks(e, n, e.peer)
    requires e.act.Answer? && e.act.reply.Reply? && e.act.reply.assign.status == Messages.Ok
    ensures NodeForPeer(s'.leases, e.peer) == Some(n)
  {
    hide L.Table.Consistent, Parsed, L.Allocates;
    var m := Parsed(e.payload).value;
    var reply :| ControlStep(c, s, e.peer, m, e.clock, s', reply) && e.act == AnswerOrDone(reply);
    var reclaimed, dropped :| RequestStep(c, s, m.req, e.peer, e.clock, s', reply.value.assign, reclaimed, dropped);
    AllocateBinds(c.assign, s.leases, m.req, e.peer, e.clock.wall, s'.leases, reply.value.assign, reclaimed);
  }
}
