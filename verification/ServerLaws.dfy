/** Every reachable server state: the learned endpoints agree with the leases. */
module ServerLaws {
  import opened Bytes
  import opened Ring
  import opened Messages
  import opened Codec
  import opened Subnets
  import opened Server
  import L = LeaseTable
  import opened LeaseLaws
  import Names

  /** If the address is leased and learned, it points to the last endpoint of its lease. */
  ghost predicate AgreesAt(clients: Clients, t: L.Table, ip: IpAddr) {
    ip in clients && Holder(t, ip).Some? ==>
      var n := Holder(t, ip).value;
      n in t.byNode && t.byNode[n].lastPeer == Some(clients[ip].peer)
  }

  /** Whether a granted address of this family is learned again with every reply: IPv6 only on a server that has it. */
  predicate Relearned(c: L.Config, ip: IpAddr) {
    ip.V4? || c.serverIp6.Some?
  }

  ghost predicate Agree(c: L.Config, clients: Clients, t: L.Table) {
    forall ip :: Relearned(c, ip) ==> AgreesAt(clients, t, ip)
  }

  /** What every state of every run satisfies. */
  ghost predicate Ok(c: Config, s: State)
    requires c.Valid()
  {
    s.leases.Consistent() && RoutesOk(s.routes, c.policy) && Agree(c.assign, s.clients, s.leases)
  }

  // ---- Learning ----

  lemma MaybeLearnKeeps(c: L.Config, s: State, src: IpAddr, peer: SocketAddr, at: Time)
    requires s.leases.Consistent() && Agree(c, s.clients, s.leases)
    ensures Agree(c, MaybeLearn(s, src, peer, at).clients, s.leases)
  {
    hide Relearned;
    forall ip | Relearned(c, ip) ensures AgreesAt(MaybeLearn(s, src, peer, at).clients, s.leases, ip) {
      MaybeLearnKeepsAt(s, src, peer, at, ip);
    }
  }

  lemma MaybeLearnKeepsAt(s: State, src: IpAddr, peer: SocketAddr, at: Time, ip: IpAddr)
    requires s.leases.Consistent() && AgreesAt(s.clients, s.leases, ip)
    ensures AgreesAt(MaybeLearn(s, src, peer, at).clients, s.leases, ip)
  {
  }

  lemma MaybeLearn2Keeps(c: L.Config, s: State, ip4: Ip4, ip6: Option<Ip6>, peer: SocketAddr, at: Time)
    requires s.leases.Consistent() && Agree(c, s.clients, s.leases)
    ensures var t := MaybeLearn6(MaybeLearn(s, V4(ip4), peer, at), ip6, peer, at);
            Agree(c, t.clients, t.leases) && t.leases == s.leases && t.routes == s.routes && t.names == s.names
  {
    hide Agree, L.Table.Consistent, MayLearn;
    MaybeLearnKeeps(c, s, V4(ip4), peer, at);
    if ip6.Some? {
      MaybeLearnKeeps(c, MaybeLearn(s, V4(ip4), peer, at), V6(ip6.value), peer, at);
    }
  }

  // ---- Unlearning ----

  lemma {:induction false} UnlearnAllShrinks(s: State, dropped: seq<L.Lease>, now: Time, ttl: nat)
    ensures var t := UnlearnAll(s, dropped, now, ttl);
            && t.leases == s.leases && t.routes == s.routes
            && forall ip :: ip in t.clients ==> ip in s.clients && t.clients[ip] == s.clients[ip]
  {
    if dropped != [] {
      UnlearnAllShrinks(s, dropped[..|dropped| - 1], now, ttl);
    }
  }

  lemma AgreeShrinks(c: L.Config, clients: Clients, fewer: Clients, t: L.Table, gone: set<NodeId>)
    requires Agree(c, clients, t) && forall ip :: ip in fewer ==> ip in clients && fewer[ip] == clients[ip]
    ensures Agree(c, fewer, t) && Agree(c, fewer, t.Without(gone))
  {
    forall ip | Relearned(c, ip) ensures AgreesAt(fewer, t, ip) && AgreesAt(fewer, t.Without(gone), ip) {
      assert AgreesAt(clients, t, ip);
    }
  }

  /** An address of the lease. */
  predicate IsOf(ip: IpAddr, l: L.Lease) {
    ip == V4(l.ip4) || (l.ip6.Some? && ip == V6(l.ip6.value))
  }

  /** Where a dropped lease's address still points to its last endpoint, it is forgotten. */
  lemma {:induction false} UnlearnAllForgets(s: State, dropped: seq<L.Lease>, now: Time, ttl: nat, k: nat, ip: IpAddr)
    requires k < |dropped| && IsOf(ip, dropped[k])
    requires ip in s.clients ==> dropped[k].lastPeer == Some(s.clients[ip].peer)
    ensures ip !in UnlearnAll(s, dropped, now, ttl).clients
  {
    var n := |dropped| - 1;
    UnlearnAllShrinks(s, dropped[..n], now, ttl);
    if k < n {
      UnlearnAllForgets(s, dropped[..n], now, ttl, k, ip);
    }
  }

  lemma HolderOfRow(t: L.Table, n: NodeId, ip: IpAddr)
    requires t.Consistent() && n in t.byNode && IsOf(ip, t.byNode[n])
    ensures Holder(t, ip) == Some(n)
  {
  }

  lemma HolderHasRow(t: L.Table, ip: IpAddr)
    requires t.Consistent() && Holder(t, ip).Some?
    ensures Holder(t, ip).value in t.byNode && IsOf(ip, t.byNode[Holder(t, ip).value])
  {
  }

  // ---- Address requests ----

  /** The addresses a granted reply names. */
  predicate IsGranted(ip: IpAddr, reply: Assign) {
    reply.status == Messages.Ok && (ip == V4(reply.tunIp) || (reply.tunIp6.Some? && ip == V6(reply.tunIp6.value)))
  }

  /** They are addresses of the requester's lease: all of those that replies relearn. */
  lemma GrantIsLease(c: L.Config, t: L.Table, req: AssignReq, peer: SocketAddr, now: Time,
                     t': L.Table, reply: Assign, reclaimed: Option<NodeId>, ip: IpAddr)
    requires c.Valid() && t'.Consistent() && L.Allocates(c, t, req, peer, now, t', reply, reclaimed)
    ensures IsGranted(ip, reply) <==> Holder(t', ip) == Some(req.nodeId) && Relearned(c, ip)
  {
    hide L.Allocates;
    AllocateEffect(c, t, req, peer, now, t', reply, reclaimed);
    if Holder(t', ip) == Some(req.nodeId) {
      HolderHasRow(t', ip);
    } else if IsGranted(ip, reply) {
      HolderOfRow(t', req.nodeId, ip);
    }
  }

  lemma LearnGrantAt(clients: Clients, reply: Assign, peer: SocketAddr, at: Time, ip: IpAddr)
    ensures var after := LearnGrant(clients, reply, peer, at);
            if IsGranted(ip, reply) then ip in after && after[ip].peer == peer
            else (ip in after <==> ip in clients) && (ip in after ==> after[ip] == clients[ip])
  {
  }

  lemma RequestKeepsTables(c: Config, s: State, req: AssignReq, peer: SocketAddr, k: Clock,
                           s': State, reply: Assign, reclaimed: Option<NodeId>, dropped: seq<L.Lease>)
    requires c.Valid() && s.leases.Consistent() && RequestStep(c, s, req, peer, k, s', reply, reclaimed, dropped)
    ensures s'.leases.Consistent() && s'.routes == s.routes
  {
    hide L.Table.Consistent, L.Allocates;
    AllocateConsistent(c.assign, s.leases, req, peer, k.wall, s'.leases, reply, reclaimed);
    UnlearnAllShrinks(s.(leases := s'.leases), dropped, k.now, c.leaseTtl);
  }

  /** A request keeps agreement at every address that replies relearn. */
  lemma RequestKeepsAgreeAt(c: Config, s: State, req: AssignReq, peer: SocketAddr, k: Clock,
                            s': State, reply: Assign, reclaimed: Option<NodeId>, dropped: seq<L.Lease>, ip: IpAddr)
    requires c.Valid() && s.leases.Consistent() && RequestStep(c, s, req, peer, k, s', reply, reclaimed, dropped)
    requires Relearned(c.assign, ip) && AgreesAt(s.clients, s.leases, ip)
    ensures AgreesAt(s'.clients, s'.leases, ip)
  {
    hide L.Table.Consistent, L.Allocates, LearnGrant, UnlearnAll, Holder, Relearned;
    if ip in s'.clients && Holder(s'.leases, ip).Some? {
      RequestKeepsTables(c, s, req, peer, k, s', reply, reclaimed, dropped);
      AllocateEffect(c.assign, s.leases, req, peer, k.wall, s'.leases, reply, reclaimed);
      var base := UnlearnAll(s.(leases := s'.leases), dropped, k.now, c.leaseTtl).clients;
      UnlearnAllShrinks(s.(leases := s'.leases), dropped, k.now, c.leaseTtl);
      var n := Holder(s'.leases, ip).value;
      HolderHasRow(s'.leases, ip);
      GrantIsLease(c.assign, s.leases, req, peer, k.wall, s'.leases, reply, reclaimed, ip);
      LearnGrantAt(base, reply, peer, k.learned, ip);
      if n != req.nodeId {
        HolderOfRow(s.leases, n, ip);
      }
    }
  }

  lemma RequestKeepsAgree(c: Config, s: State, req: AssignReq, peer: SocketAddr, k: Clock,
                          s': State, reply: Assign, reclaimed: Option<NodeId>, dropped: seq<L.Lease>)
    requires c.Valid() && Ok(c, s) && RequestStep(c, s, req, peer, k, s', reply, reclaimed, dropped)
    ensures Agree(c.assign, s'.clients, s'.leases)
  {
    hide L.Table.Consistent, RequestStep, RoutesOk, Relearned, AgreesAt;
    forall ip | Relearned(c.assign, ip) ensures AgreesAt(s'.clients, s'.leases, ip) {
      RequestKeepsAgreeAt(c, s, req, peer, k, s', reply, reclaimed, dropped, ip);
    }
  }

  /**
   * A request that removes a lease leaves none of that lease's addresses learned, unless the address
   * is granted to the requester in the same step, and then it points to the requester.
   */
  lemma RequestForgetsDropped(c: Config, s: State, req: AssignReq, peer: SocketAddr, k: Clock,
                              s': State, reply: Assign, reclaimed: Option<NodeId>, dropped: seq<L.Lease>,
                              n: NodeId, ip: IpAddr)
    requires c.Valid() && s.leases.Consistent() && RequestStep(c, s, req, peer, k, s', reply, reclaimed, dropped)
    requires AgreesAt(s.clients, s.leases, ip)
    requires n in s.leases.byNode && IsOf(ip, s.leases.byNode[n]) && n in L.Removed(c.assign, s.leases, k.wall, reclaimed)
    ensures ip in s'.clients ==> Holder(s'.leases, ip) == Some(req.nodeId) && s'.clients[ip].peer == peer
  {
    hide L.Table.Consistent, L.Allocates, LearnGrant, UnlearnAll, Holder, L.Removed;
    RequestKeepsTables(c, s, req, peer, k, s', reply, reclaimed, dropped);
    HolderOfRow(s.leases, n, ip);
    var l := s.leases.byNode[n];
    assert l in s.leases.Rows(L.Removed(c.assign, s.leases, k.wall, reclaimed));
    assert l in dropped;
    var i :| 0 <= i < |dropped| && dropped[i] == l;
    var from := s.(leases := s'.leases);
    UnlearnAllForgets(from, dropped, k.now, c.leaseTtl, i, ip);
    LearnGrantAt(UnlearnAll(from, dropped, k.now, c.leaseTtl).clients, reply, peer, k.learned, ip);
    GrantIsLease(c.assign, s.leases, req, peer, k.wall, s'.leases, reply, reclaimed, ip);
  }

  lemma {:induction false} UnlearnAllSpares(s: State, dropped: seq<L.Lease>, now: Time, ttl: nat, ip: IpAddr)
    requires ip in s.clients && forall i :: 0 <= i < |dropped| ==> !IsOf(ip, dropped[i])
    ensures ip in UnlearnAll(s, dropped, now, ttl).clients && UnlearnAll(s, dropped, now, ttl).clients[ip] == s.clients[ip]
  {
    if dropped != [] {
      UnlearnAllSpares(s, dropped[..|dropped| - 1], now, ttl, ip);
      assert !IsOf(ip, dropped[|dropped| - 1]);
    }
  }

  // ---- Sweeps ----

  lemma SweepKeeps(c: Config, s: State, k: Clock, s': State)
    requires c.Valid() && Ok(c, s) && SweepStep(c, s, k, s')
    ensures Ok(c, s')
  {
    hide L.Table.Consistent, UnlearnAll, Agree, L.Table.Expired, L.Table.Without, L.Table.Rows, Lists;
    var dropped :| Lists(dropped, s.leases.Rows(s.leases.Expired(k.wall, c.assign.ttl)))
      && s' == UnlearnAll(Swept(c, s, k), dropped, k.now, c.leaseTtl);
    WithoutConsistent(s.leases, s.leases.Expired(k.wall, c.assign.ttl));
    UnlearnAllShrinks(Swept(c, s, k), dropped, k.now, c.leaseTtl);
    AgreeShrinks(c.assign, s.clients, s'.clients, s.leases, s.leases.Expired(k.wall, c.assign.ttl));
  }

  /** A sweep leaves no address of an expired lease learned. */
  lemma SweepForgetsExpired(c: Config, s: State, k: Clock, s': State, n: NodeId, ip: IpAddr)
    requires c.Valid() && s.leases.Consistent() && SweepStep(c, s, k, s') && AgreesAt(s.clients, s.leases, ip)
    requires n in s.leases.Expired(k.wall, c.assign.ttl) && IsOf(ip, s.leases.byNode[n])
    ensures ip !in s'.clients
  {
    hide L.Table.Consistent, UnlearnAll, L.Table.Without, RoutesOk;
    var dropped :| Lists(dropped, s.leases.Rows(s.leases.Expired(k.wall, c.assign.ttl)))
      && s' == UnlearnAll(Swept(c, s, k), dropped, k.now, c.leaseTtl);
    HolderOfRow(s.leases, n, ip);
    var l := s.leases.byNode[n];
    assert l in s.leases.Rows(s.leases.Expired(k.wall, c.assign.ttl));
    assert l in dropped;
    var i :| 0 <= i < |dropped| && dropped[i] == l;
    UnlearnAllForgets(Swept(c, s, k), dropped, k.now, c.leaseTtl, i, ip);
  }

  // ---- Steps and runs ----

  lemma ControlKeeps(c: Config, s: State, peer: SocketAddr, m: Control, k: Clock, s': State, reply: Option<Control>)
    requires c.Valid() && WellFormed(m) && Ok(c, s) && ControlStep(c, s, peer, m, k, s', reply)
    ensures Ok(c, s')
  {
    hide L.Table.Consistent, Agree, RequestStep, MaybeLearn, MaybeLearn6, Advertised, AdvertReply, NameReply;
    match m {
      case Keepalive(ip) =>
        if ip.Some? {
          MaybeLearn2Keeps(c.assign, s, ip.value, None, peer, k.learned);
          MaybeLearnKeepsRest(s, V4(ip.value), peer, k.learned);
          MaybeLearnKeeps(c.assign, s, V4(ip.value), peer, k.learned);
        }
      case Advert(a) =>
        MaybeLearn2Keeps(c.assign, s, a.tunnelIp, a.tunnelIp6, peer, k.learned);
        AllCanonical(a.routes);
        AdvertiseKeepsOk(s.routes, peer, CanonicalSet(a.routes), c.policy, k.now);
      case Request(req) =>
        var reclaimed, dropped :| RequestStep(c, s, req, peer, k, s', reply.value.assign, reclaimed, dropped);
        RequestKeepsTables(c, s, req, peer, k, s', reply.value.assign, reclaimed, dropped);
        RequestKeepsAgree(c, s, req, peer, k, s', reply.value.assign, reclaimed, dropped);
      case Name(n) =>
        MaybeLearn2Keeps(c.assign, s, n.tunnelIp, n.tunnelIp6, peer, k.learned);
      case _ =>
    }
  }

  lemma MaybeLearnKeepsRest(s: State, src: IpAddr, peer: SocketAddr, at: Time)
    ensures var t := MaybeLearn(s, src, peer, at); t.leases == s.leases && t.routes == s.routes && t.names == s.names
  {
  }

  lemma AllCanonical(nets: seq<Network>)
    requires AllValid(nets)
    ensures forall n :: n in CanonicalSet(nets) ==> n.Valid() && IsCanonical(n)
  {
    forall n | n in CanonicalSet(nets) ensures n.Valid() && IsCanonical(n) {
      var i :| 0 <= i < |nets| && n == Canonical(nets[i]);
      CanonicalIsCanonical(nets[i]);
    }
  }

  lemma StepKeeps(c: Config, s: State, e: Event, s': State)
    requires c.Valid() && Ok(c, s) && Step(c, s, e, s')
    ensures Ok(c, s')
  {
    hide L.Table.Consistent, Agree, RoutesOk, ControlStep, SweepStep, Parsed, MaybeLearn;
    match e {
      case Sweep(k) => SweepKeeps(c, s, k, s');
      case Datagram(peer, p, k, act) =>
        if p != [] && p[0] == 0 {
          if Parsed(p).Some? {
            var reply :| ControlStep(c, s, peer, Parsed(p).value, k, s', reply) && act == AnswerOrDone(reply);
            ControlKeeps(c, s, peer, Parsed(p).value, k, s', reply);
          }
        } else if |p| >= 20 && IpSrc(p).Some? {
          MaybeLearnKeeps(c.assign, s, IpSrc(p).value, peer, k.learned);
          MaybeLearnKeepsRest(s, IpSrc(p).value, peer, k.learned);
        }
    }
  }

  /** In every run, whatever bytes arrive: the lease maps agree, routes are in order, learned endpoints match leases. */
  lemma {:induction false} RunOk(c: Config, states: seq<State>, events: seq<Event>, i: nat)
    requires Run(c, states, events) && i < |states|
    ensures Ok(c, states[i])
  {
    hide Step;
    if i > 0 {
      RunOk(c, states, events, i - 1);
      StepKeeps(c, states[i - 1], events[i - 1], states[i]);
    }
  }

  // ---- What the agreement buys ----

  /** A packet for a leased address that is learned and live goes to the holder's last endpoint. */
  lemma RelayedToHolder(c: Config, states: seq<State>, events: seq<Event>, i: nat, dst: IpAddr)
    requires Run(c, states, events) && i < |events| && events[i].Datagram?
    requires |events[i].payload| >= 20 && events[i].payload[0] != 0 && IpDst(events[i].payload) == Some(dst)
    requires Relearned(c.assign, dst) && Holder(states[i + 1].leases, dst).Some?
    requires dst in states[i + 1].clients && Live(states[i + 1].clients[dst], events[i].clock.now, c.leaseTtl)
    ensures var t := states[i + 1].leases;
            var holder := Holder(t, dst).value;
            && holder in t.byNode && t.byNode[holder].lastPeer.Some?
            && var to := t.byNode[holder].lastPeer.value;
            events[i].act == if to != events[i].peer then Relay(to) else Bounce
  {
    hide L.Table.Consistent, RoutesOk, ControlStep, Parsed, Subnets.Lookup, IpDst, AfterData;
    RunOk(c, states, events, i + 1);
    assert AgreesAt(states[i + 1].clients, states[i + 1].leases, dst);
    assert Step(c, states[i], events[i], states[i + 1]);
  }

  lemma RequestEndsLease(c: Config, s: State, req: AssignReq, peer: SocketAddr, k: Clock,
                         s': State, reply: Assign, reclaimed: Option<NodeId>, dropped: seq<L.Lease>, ip: IpAddr)
    requires c.Valid() && s.leases.Consistent() && RequestStep(c, s, req, peer, k, s', reply, reclaimed, dropped)
    requires AgreesAt(s.clients, s.leases, ip) && Holder(s.leases, ip).Some? && Holder(s'.leases, ip).None?
    ensures ip !in s'.clients
  {
    hide L.Table.Consistent, L.Allocates, RoutesOk, Agree, LearnGrant, UnlearnAll, Holder, L.Removed;
    var n := Holder(s.leases, ip).value;
    RequestKeepsTables(c, s, req, peer, k, s', reply, reclaimed, dropped);
    HolderHasRow(s.leases, ip);
    AllocateEffect(c.assign, s.leases, req, peer, k.wall, s'.leases, reply, reclaimed);
    if n in s'.leases.byNode && IsOf(ip, s'.leases.byNode[n]) {
      HolderOfRow(s'.leases, n, ip);
    }
    assert n in L.Removed(c.assign, s.leases, k.wall, reclaimed) by {
      ExpiredIsRemoved(c.assign, s.leases, k.wall, reclaimed, n);
      if n == req.nodeId && reply.status != Messages.Ok {
        RefusedHasNone(c.assign, s.leases, req, peer, k.wall, s'.leases, reply, reclaimed);
      }
    }
    RequestForgetsDropped(c, s, req, peer, k, s', reply, reclaimed, dropped, n, ip);
  }

  lemma ExpiredIsRemoved(c: L.Config, t: L.Table, now: Time, reclaimed: Option<NodeId>, n: NodeId)
    ensures n in t.Expired(now, c.ttl) ==> n in L.Removed(c, t, now, reclaimed)
  {
  }

  /** A node that is refused had no lease, or an expired one, and the reply names no address. */
  lemma RefusedHasNone(c: L.Config, t: L.Table, req: AssignReq, peer: SocketAddr, now: Time,
                       t': L.Table, reply: Assign, reclaimed: Option<NodeId>)
    requires c.Valid() && L.Allocates(c, t, req, peer, now, t', reply, reclaimed) && reply.status != Messages.Ok
    ensures req.nodeId in t.byNode ==> req.nodeId in t.Expired(now, c.ttl)
    ensures reply == Assign(Exhausted, 0, 0, 0, None, 0, 0, 0)
  {
    hide L.Chooser.Pick;
  }

  /** However the lease of an address in agreement ends, the address is no longer learned once the step is over. */
  lemma EndedLeaseIsForgotten(c: Config, s: State, e: Event, s': State, ip: IpAddr)
    requires c.Valid() && s.leases.Consistent() && Step(c, s, e, s')
    requires AgreesAt(s.clients, s.leases, ip) && Holder(s.leases, ip).Some? && Holder(s'.leases, ip).None?
    ensures ip !in s'.clients
  {
    hide L.Table.Consistent, Agree, RoutesOk, RequestStep, Parsed, MaybeLearn, MaybeLearn6, Holder, SweepStep;
    match e {
      case Sweep(k) => SweepEndsLease(c, s, k, s', ip);
      case Datagram(peer, p, k, act) =>
        if p != [] && p[0] == 0 && Parsed(p).Some? {
          var m := Parsed(p).value;
          var reply :| ControlStep(c, s, peer, m, k, s', reply) && act == AnswerOrDone(reply);
          if m.Request? {
            var reclaimed, dropped :| RequestStep(c, s, m.req, peer, k, s', reply.value.assign, reclaimed, dropped);
            RequestEndsLease(c, s, m.req, peer, k, s', reply.value.assign, reclaimed, dropped, ip);
          } else {
            OtherControlKeepsLeases(c, s, peer, m, k, s', reply);
          }
        } else if |p| >= 20 && IpSrc(p).Some? {
          MaybeLearnKeepsRest(s, IpSrc(p).value, peer, k.learned);
        }
    }
  }

  /** In every run, however a lease ends, the addresses that replies relearn are forgotten with it. */
  lemma RunForgetsEnded(c: Config, states: seq<State>, events: seq<Event>, i: nat, ip: IpAddr)
    requires Run(c, states, events) && i < |events| && Relearned(c.assign, ip)
    requires Holder(states[i].leases, ip).Some? && Holder(states[i + 1].leases, ip).None?
    ensures ip !in states[i + 1].clients
  {
    hide L.Table.Consistent, RoutesOk, Step, Holder, AgreesAt;
    RunOk(c, states, events, i);
    assert AgreesAt(states[i].clients, states[i].leases, ip);
    EndedLeaseIsForgotten(c, states[i], events[i], states[i + 1], ip);
  }

  lemma OtherControlKeepsLeases(c: Config, s: State, peer: SocketAddr, m: Control, k: Clock, s': State, reply: Option<Control>)
    requires c.Valid() && WellFormed(m) && ControlStep(c, s, peer, m, k, s', reply) && !m.Request?
    ensures s'.leases == s.leases
  {
    hide Advertised, AdvertReply, NameReply, MayLearn;
  }

  lemma SweepEndsLease(c: Config, s: State, k: Clock, s': State, ip: IpAddr)
    requires c.Valid() && s.leases.Consistent() && SweepStep(c, s, k, s')
    requires AgreesAt(s.clients, s.leases, ip) && Holder(s.leases, ip).Some? && Holder(s'.leases, ip).None?
    ensures ip !in s'.clients
  {
    hide L.Table.Consistent, Agree, RoutesOk, UnlearnAll, Holder;
    var n := Holder(s.leases, ip).value;
    HolderHasRow(s.leases, ip);
    if n in s.leases.Expired(k.wall, c.assign.ttl) {
      SweepForgetsExpired(c, s, k, s', n, ip);
    } else {
      WithoutConsistent(s.leases, s.leases.Expired(k.wall, c.assign.ttl));
      var dropped :| Lists(dropped, s.leases.Rows(s.leases.Expired(k.wall, c.assign.ttl)))
        && s' == UnlearnAll(Swept(c, s, k), dropped, k.now, c.leaseTtl);
      UnlearnAllShrinks(Swept(c, s, k), dropped, k.now, c.leaseTtl);
      HolderOfRow(s'.leases, n, ip);
    }
  }

  /** Datagrams that are not address requests cannot move a leased address they do not own. */
  lemma StrangerCannotMove(c: Config, s: State, peer: SocketAddr, p: seq<Byte>, k: Clock, s': State, act: Action, ip: IpAddr)
    requires c.Valid() && DatagramStep(c, s, peer, p, k, s', act)
    requires p != [] && p[0] == 0 && Parsed(p).Some? ==> !Parsed(p).value.Request?
    requires Holder(s.leases, ip).Some? && NodeForPeer(s.leases, peer) != Holder(s.leases, ip)
    ensures s'.leases == s.leases
    ensures (ip in s'.clients <==> ip in s.clients) && (ip in s.clients ==> s'.clients[ip] == s.clients[ip])
  {
    hide Parsed, Holder, NodeForPeer, Advertised, AdvertReply, NameReply, Names.Table.Advertise, WellFormed,
      RequestStep, AnswerOrDone;
  }

  // ---- Packets ----

  /** An IPv4 packet's addresses are the eight octets after the first twelve. */
  lemma PacketAddresses4(head: seq<Byte>, src: Ip4, dst: Ip4, rest: seq<Byte>)
    requires |head| == 12 && head[0] / 16 == 4
    ensures var p := head + BigEndian(src, 4) + BigEndian(dst, 4) + rest;
            IpSrc(p) == Some(V4(src)) && IpDst(p) == Some(V4(dst))
  {
    hide BigEndian;
    var p := head + BigEndian(src, 4) + BigEndian(dst, 4) + rest;
    assert p[12..16] == BigEndian(src, 4) && p[16..20] == BigEndian(dst, 4);
    OctetsRoundTrip(src, 0);
    OctetsRoundTrip(dst, 0);
    AddrIsOctets(p, 12);
    AddrIsOctets(p, 16);
  }

  lemma AddrIsOctets(p: seq<Byte>, i: nat)
    requires i + 4 <= |p|
    ensures Addr(p, i) == FromOctets4(p[i..i + 4])
  {
    var o := p[i..i + 4];
    assert o[..3] == [o[0], o[1], o[2]] && o[..3][..2] == [o[0], o[1]] && o[..3][..2][..1] == [o[0]];
    assert FromBigEndian([o[0]]) == o[0];
    assert FromBigEndian(o[..3][..2]) == o[0] as int * 256 + o[1];
    assert FromBigEndian(o[..3]) == (o[0] as int * 256 + o[1]) * 256 + o[2];
  }

  /** An IPv6 packet's addresses are the 32 octets after the first eight. */
  lemma PacketAddresses6(head: seq<Byte>, src: Ip6, dst: Ip6, rest: seq<Byte>)
    requires |head| == 8 && head[0] / 16 == 6
    ensures var p := head + BigEndian(src, 16) + BigEndian(dst, 16) + rest;
            IpSrc(p) == Some(V6(src)) && IpDst(p) == Some(V6(dst))
  {
    hide BigEndian, FromOctets6;
    var p := head + BigEndian(src, 16) + BigEndian(dst, 16) + rest;
    assert p[8..24] == BigEndian(src, 16) && p[24..40] == BigEndian(dst, 16);
    OctetsRoundTrip(0, src);
    OctetsRoundTrip(0, dst);
  }

  /** Right after a packet whose source its sender may claim, that source is reached through the sender. */
  lemma SenderIsReachable(c: Config, s: State, peer: SocketAddr, p: seq<Byte>, k: Clock, s': State, act: Action, now: Time)
    requires c.Valid() && DatagramStep(c, s, peer, p, k, s', act)
    requires |p| >= 20 && p[0] != 0 && IpSrc(p).Some? && Idle(now, k.learned) <= c.leaseTtl
    ensures MayLearn(s.leases, IpSrc(p).value, peer) ==> Server.Lookup(s', IpSrc(p).value, now, c.leaseTtl) == Some(peer)
    ensures !MayLearn(s.leases, IpSrc(p).value, peer) ==> s' == s
  {
    hide Parsed, ControlStep, IpSrc, IpDst;
  }
}
