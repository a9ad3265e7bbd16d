/** What adverts, requests and sweeps leave in the server's tables (src/bin/server.rs). */
module ServerTables {
  import opened Bytes
  import opened Ring
  import opened Messages
  import opened Codec
  import opened Subnets
  import opened Server
  import opened ServerLaws
  import L = LeaseTable
  import opened LeaseLaws
  import Names

  // ---- Adverts ----

  /**
   * After a route advert its sender owns exactly the canonical forms of what it listed. The reply is sent
   * exactly when asked for and lists the approved networks of the others.
   */
  lemma AdvertTakesEffect(c: Config, s: State, peer: SocketAddr, a: RouteAdvert, k: Clock, s': State, reply: Option<Control>)
    requires c.Valid() && WellFormed(Advert(a)) && ControlStep(c, s, peer, Advert(a), k, s', reply)
    ensures s'.names == s.names
    ensures forall n :: n in s'.routes && s'.routes[n].peer == peer <==> exists i :: 0 <= i < |a.routes| && n == Canonical(a.routes[i])
    ensures forall n :: n in s.routes && s.routes[n].peer != peer && n !in CanonicalSet(a.routes) ==>
              n in s'.routes && s'.routes[n] == s.routes[n]
    ensures reply.Some? <==> a.acceptRoutes
    ensures a.acceptRoutes ==>
              && reply.value.RoutePush?
              && forall n :: n in reply.value.pushed <==> n in s'.routes && s'.routes[n].approved && s'.routes[n].peer != peer
  {
    hide MayLearn, Approval.Approves, Canonical;
    AdvertiserOwnsExactly(s.routes, peer, CanonicalSet(a.routes), c.policy, k.now);
    assert s'.routes == Advertised(s.routes, peer, CanonicalSet(a.routes), c.policy, k.now);
    var owned := set n | n in s'.routes && s'.routes[n].peer == peer;
    assert forall n :: n in owned <==> n in s'.routes && s'.routes[n].peer == peer;
  }

  /** A name advert leaves its sender's row with the addresses of the advert, and no other table changes but the clients. */
  lemma NameTakesEffect(c: Config, s: State, peer: SocketAddr, n: NameAdvert, k: Clock, s': State, reply: Option<Control>)
    requires c.Valid() && WellFormed(Name(n)) && ControlStep(c, s, peer, Name(n), k, s', reply)
    ensures s'.routes == s.routes && s'.leases == s.leases && (reply.Some? <==> n.wantPeers)
    ensures peer in s'.names.byPeer <==> n.name != ""
    ensures n.name != "" ==>
              && s'.names.byPeer[peer].ip4 == n.tunnelIp && s'.names.byPeer[peer].ip6 == n.tunnelIp6
              && s'.names.byPeer[peer].lastSeen == k.now
    ensures forall p :: p != peer && p in s.names.byPeer ==> p in s'.names.byPeer && s'.names.byPeer[p] == s.names.byPeer[p]
  {
    hide MayLearn, Names.Table.Advertise;
    Names.AdvertiseStores(s.names, peer, n.name, n.tunnelIp, n.tunnelIp6, NodeForPeer(s.leases, peer), k.now);
  }

  // ---- Forgetting ----

  /** The end of a lease forgets an address of it that still points to its last endpoint, or is out of date. */
  predicate Forgets(l: L.Lease, ip: IpAddr, e: ClientEntry, now: Time, ttl: nat) {
    IsOf(ip, l) && (l.lastPeer == Some(e.peer) || Idle(now, e.lastSeen) > ttl)
  }

  lemma UnlearnExactly(clients: Clients, l: L.Lease, now: Time, ttl: nat, ip: IpAddr)
    ensures var after := UnlearnLease(clients, l, now, ttl);
            && (ip in after <==> ip in clients && !Forgets(l, ip, clients[ip], now, ttl))
            && (ip in after ==> after[ip] == clients[ip])
  {
  }

  /** Unlearning dropped leases forgets exactly those addresses. */
  lemma {:induction false} UnlearnAllExactly(s: State, dropped: seq<L.Lease>, now: Time, ttl: nat, ip: IpAddr)
    ensures var after := UnlearnAll(s, dropped, now, ttl).clients;
            && (ip in after <==> ip in s.clients && forall i :: 0 <= i < |dropped| ==> !Forgets(dropped[i], ip, s.clients[ip], now, ttl))
            && (ip in after ==> after[ip] == s.clients[ip])
  {
    hide Forgets, UnlearnLease;
    if dropped != [] {
      var last := |dropped| - 1;
      UnlearnAllExactly(s, dropped[..last], now, ttl, ip);
      UnlearnExactly(UnlearnAll(s, dropped[..last], now, ttl).clients, dropped[last], now, ttl, ip);
    }
  }

  /** And exactly the names of their last endpoints. */
  lemma {:induction false} UnlearnAllNames(s: State, dropped: seq<L.Lease>, now: Time, ttl: nat, p: SocketAddr)
    ensures var after := UnlearnAll(s, dropped, now, ttl).names.byPeer;
            && (p in after <==> p in s.names.byPeer && forall i :: 0 <= i < |dropped| ==> dropped[i].lastPeer != Some(p))
            && (p in after ==> after[p] == s.names.byPeer[p])
  {
    hide UnlearnLease;
    if dropped != [] {
      UnlearnAllNames(s, dropped[..|dropped| - 1], now, ttl, p);
    }
  }

  /** The dropped leases are those of the nodes `gone`. */
  lemma RowsListed(t: L.Table, gone: set<NodeId>, dropped: seq<L.Lease>)
    requires Lists(dropped, t.Rows(gone))
    ensures forall i :: 0 <= i < |dropped| ==> exists n :: n in gone && n in t.byNode && t.byNode[n] == dropped[i]
    ensures forall n :: n in gone && n in t.byNode ==> exists i :: 0 <= i < |dropped| && dropped[i] == t.byNode[n]
  {
    forall i | 0 <= i < |dropped| ensures exists n :: n in gone && n in t.byNode && t.byNode[n] == dropped[i] {
      assert dropped[i] in t.Rows(gone);
    }
    forall n | n in gone && n in t.byNode ensures exists i :: 0 <= i < |dropped| && dropped[i] == t.byNode[n] {
      assert t.byNode[n] in t.Rows(gone);
    }
  }

  /** Dropping the leases of `gone` keeps exactly the addresses that none of them forgets. */
  lemma DropKeepsClients(s: State, t: L.Table, gone: set<NodeId>, dropped: seq<L.Lease>, now: Time, ttl: nat, ip: IpAddr)
    requires Lists(dropped, t.Rows(gone))
    ensures var after := UnlearnAll(s, dropped, now, ttl).clients;
            && (ip in after <==>
                  && ip in s.clients
                  && forall n :: n in gone && n in t.byNode ==> !Forgets(t.byNode[n], ip, s.clients[ip], now, ttl))
            && (ip in after ==> after[ip] == s.clients[ip])
  {
    hide Forgets, UnlearnAll, L.Table.Rows, Lists;
    RowsListed(t, gone, dropped);
    UnlearnAllExactly(s, dropped, now, ttl, ip);
  }

  /** And exactly the names of all other endpoints. */
  lemma DropKeepsNames(s: State, t: L.Table, gone: set<NodeId>, dropped: seq<L.Lease>, now: Time, ttl: nat, p: SocketAddr)
    requires Lists(dropped, t.Rows(gone))
    ensures var after := UnlearnAll(s, dropped, now, ttl).names.byPeer;
            && (p in after <==>
                  p in s.names.byPeer && forall n :: n in gone && n in t.byNode ==> t.byNode[n].lastPeer != Some(p))
            && (p in after ==> after[p] == s.names.byPeer[p])
  {
    hide UnlearnAll, L.Table.Rows, Lists;
    RowsListed(t, gone, dropped);
    UnlearnAllNames(s, dropped, now, ttl, p);
  }

  /** The lease of a node has not been refreshed for longer than its time to live. */
  ghost predicate Overdue(c: L.Config, t: L.Table, n: NodeId, wall: Time) {
    n in t.byNode && Idle(wall, t.byNode[n].lastSeen) > c.ttl
  }

  /** A sweep keeps exactly the live addresses that no lease it drops still names, as they were. */
  lemma SweepClientsExactly(c: Config, s: State, k: Clock, s': State, ip: IpAddr)
    requires c.Valid() && SweepStep(c, s, k, s')
    ensures ip in s'.clients <==>
              && ip in s.clients && Idle(k.now, s.clients[ip].lastSeen) <= c.leaseTtl
              && forall n :: Overdue(c.assign, s.leases, n, k.wall) && IsOf(ip, s.leases.byNode[n]) ==>
                               s.leases.byNode[n].lastPeer != Some(s.clients[ip].peer)
    ensures ip in s'.clients ==> s'.clients[ip] == s.clients[ip]
  {
    hide UnlearnAll, L.Table.Without, L.Table.Rows, Lists, IsOf, Names.Table.Expire, Subnets.Expired;
    var gone := s.leases.Expired(k.wall, c.assign.ttl);
    var dropped :| Lists(dropped, s.leases.Rows(gone)) && s' == UnlearnAll(Swept(c, s, k), dropped, k.now, c.leaseTtl);
    DropKeepsClients(Swept(c, s, k), s.leases, gone, dropped, k.now, c.leaseTtl, ip);
  }

  /** A sweep keeps exactly the fresh routes and leases, and the fresh names whose endpoint no dropped lease names. */
  lemma SweepTablesExactly(c: Config, s: State, k: Clock, s': State)
    requires c.Valid() && SweepStep(c, s, k, s')
    ensures s'.routes == map n | n in s.routes && Idle(k.now, s.routes[n].lastSeen) <= c.leaseTtl :: s.routes[n]
    ensures s'.leases.byNode == map n | n in s.leases.byNode && !Overdue(c.assign, s.leases, n, k.wall) :: s.leases.byNode[n]
    ensures forall p :: p in s'.names.byPeer <==>
              && p in s.names.byPeer && Idle(k.now, s.names.byPeer[p].lastSeen) <= c.leaseTtl
              && forall n :: Overdue(c.assign, s.leases, n, k.wall) ==> s.leases.byNode[n].lastPeer != Some(p)
    ensures forall p :: p in s'.names.byPeer ==> s'.names.byPeer[p] == s.names.byPeer[p]
  {
    hide UnlearnAll, L.Table.Rows, Lists;
    var gone := s.leases.Expired(k.wall, c.assign.ttl);
    var dropped :| Lists(dropped, s.leases.Rows(gone)) && s' == UnlearnAll(Swept(c, s, k), dropped, k.now, c.leaseTtl);
    UnlearnAllShrinks(Swept(c, s, k), dropped, k.now, c.leaseTtl);
    forall p {
      DropKeepsNames(Swept(c, s, k), s.leases, gone, dropped, k.now, c.leaseTtl, p);
    }
  }

  /** A request leaves, besides what it grants, exactly the addresses that no lease it removes still names. */
  lemma RequestClientsExactly(c: Config, s: State, req: AssignReq, peer: SocketAddr, k: Clock, s': State, reply: Assign,
                              reclaimed: Option<NodeId>, dropped: seq<L.Lease>, ip: IpAddr)
    requires c.Valid() && RequestStep(c, s, req, peer, k, s', reply, reclaimed, dropped)
    ensures IsGranted(ip, reply) ==> ip in s'.clients && s'.clients[ip] == ClientEntry(peer, k.learned)
    ensures !IsGranted(ip, reply) ==>
              && (ip in s'.clients <==>
                    && ip in s.clients
                    && forall n :: n in s.leases.byNode && n in L.Removed(c.assign, s.leases, k.wall, reclaimed) ==>
                                  !Forgets(s.leases.byNode[n], ip, s.clients[ip], k.now, c.leaseTtl))
              && (ip in s'.clients ==> s'.clients[ip] == s.clients[ip])
  {
    hide UnlearnAll, L.Allocates, L.Removed, Forgets, L.Table.Rows, Lists;
    DropKeepsClients(s.(leases := s'.leases), s.leases, L.Removed(c.assign, s.leases, k.wall, reclaimed), dropped,
                     k.now, c.leaseTtl, ip);
  }

  /** A request takes the names of exactly the endpoints of the leases it removes. */
  lemma RequestNamesExactly(c: Config, s: State, req: AssignReq, peer: SocketAddr, k: Clock, s': State, reply: Assign,
                            reclaimed: Option<NodeId>, dropped: seq<L.Lease>, p: SocketAddr)
    requires c.Valid() && RequestStep(c, s, req, peer, k, s', reply, reclaimed, dropped)
    ensures p in s'.names.byPeer <==>
              && p in s.names.byPeer
              && forall n :: n in s.leases.byNode && n in L.Removed(c.assign, s.leases, k.wall, reclaimed) ==>
                            s.leases.byNode[n].lastPeer != Some(p)
    ensures p in s'.names.byPeer ==> s'.names.byPeer[p] == s.names.byPeer[p]
  {
    hide UnlearnAll, L.Allocates, L.Removed, L.Table.Rows, Lists;
    DropKeepsNames(s.(leases := s'.leases), s.leases, L.Removed(c.assign, s.leases, k.wall, reclaimed), dropped,
                   k.now, c.leaseTtl, p);
  }

  /** In every state of every run, which routes are approved: all with auto approval, else those an entry allows. */
  lemma RunApproval(c: Config, states: seq<State>, events: seq<Event>, i: nat, n: Network)
    requires Run(c, states, events) && i < |states| && n in states[i].routes
    ensures IsCanonical(n) && n.Valid()
    ensures c.policy.auto ==> states[i].routes[n].approved
    ensures !c.policy.auto ==>
              (states[i].routes[n].approved <==>
                 exists j :: 0 <= j < |c.policy.allowlist| && Allows(c.policy.allowlist[j], n))
  {
    hide L.Table.Consistent, Agree, Step, Allows;
    RunOk(c, states, events, i);
    ApprovedExactly(states[i].routes, c.policy, n);
  }
}
