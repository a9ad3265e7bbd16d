/** The learning-mode state object and its handlers (src/bin/server.rs), proved against the steps. */
module LearnStateObject {
  import opened Bytes
  import opened Ring
  import opened Messages
  import opened Codec
  import opened CodecLaws
  import opened CodecLoops
  import opened Subnets
  import opened Server
  import opened ServerLaws
  import opened AssignerObject
  import opened SubnetTableObject
  import opened NameTableObject
  import L = LeaseTable
  import Names

  class LearnState {
    const assigner: Assigner
    const subnets: SubnetTable
    const names: NameTable
    const policy: Approval
    const leaseTtl: nat
    var clients: Clients

    ghost function Cfg(): Config
      reads assigner
    {
      Config(assigner.Cfg(), policy, leaseTtl)
    }

    ghost function View(): State
      reads this, assigner, subnets, names
    {
      State(clients, subnets.View(), assigner.View(), names.View())
    }

    ghost predicate Valid()
      reads this, assigner, subnets, names
    {
      assigner.Valid() && policy.Valid() && Unique(subnets.routes) && ServerLaws.Ok(Cfg(), View())
    }

    constructor (assigner: Assigner, host: PeerEntry, policy: Approval, leaseTtl: nat)
      requires assigner.Valid() && policy.Valid()
      ensures Valid() && this.assigner == assigner && this.policy == policy && this.leaseTtl == leaseTtl
      ensures fresh(subnets) && fresh(names) && clients == map[] && subnets.routes == [] && names.byPeer == map[]
    {
      this.assigner := assigner;
      subnets := new SubnetTable();
      names := new NameTable(Some(host));
      this.policy := policy;
      this.leaseTtl := leaseTtl;
      clients := map[];
    }

    method MaybeLearn(src: IpAddr, peer: SocketAddr, at: Time)
      modifies this
      ensures clients == Server.MaybeLearn(old(View()), src, peer, at).clients
    {
      var owner := match src
                   case V4(a) => if a in assigner.byIp4 then Some(assigner.byIp4[a]) else None
                   case V6(a) => if a in assigner.byIp6 then Some(assigner.byIp6[a]) else None;
      if owner.Some? && (peer !in assigner.byPeer || assigner.byPeer[peer] != owner.value) {
        return;
      }
      clients := clients[src := ClientEntry(peer, at)];
    }

    method MaybeLearnBoth(ip4: Ip4, ip6: Option<Ip6>, peer: SocketAddr, at: Time)
      modifies this
      ensures View() == MaybeLearn6(Server.MaybeLearn(old(View()), V4(ip4), peer, at), ip6, peer, at)
    {
      MaybeLearn(V4(ip4), peer, at);
      if ip6.Some? {
        MaybeLearn(V6(ip6.value), peer, at);
      }
    }

    method Unlearn(ip: IpAddr, lastPeer: Option<SocketAddr>, now: Time)
      modifies this
      ensures clients == Server.Unlearn(old(clients), ip, lastPeer, now, leaseTtl)
    {
      if ip !in clients {
        return;
      }
      var live := Idle(now, clients[ip].lastSeen) <= leaseTtl;
      if lastPeer == Some(clients[ip].peer) || !live {
        clients := clients - {ip};
      }
    }

    method UnlearnDropped(dropped: seq<L.Lease>, now: Time)
      modifies this, names
      ensures View() == UnlearnAll(old(View()), dropped, now, leaseTtl)
    {
      hide Server.Unlearn;
      ghost var was := View();
      for i := 0 to |dropped|
        invariant View() == UnlearnAll(was, dropped[..i], now, leaseTtl)
      {
        assert dropped[..i + 1][..i] == dropped[..i];
        var l := dropped[i];
        Unlearn(V4(l.ip4), l.lastPeer, now);
        if l.ip6.Some? {
          Unlearn(V6(l.ip6.value), l.lastPeer, now);
        }
        if l.lastPeer.Some? {
          var _ := names.Withdraw(l.lastPeer.value);
        }
      }
      assert dropped[..|dropped|] == dropped;
    }

    method HandleRequest(req: AssignReq, peer: SocketAddr, k: Clock) returns (reply: Assign)
      requires Valid()
      modifies this, assigner, names
      ensures Valid() && Cfg() == old(Cfg())
      ensures exists reclaimed, dropped :: RequestStep(Cfg(), old(View()), req, peer, k, View(), reply, reclaimed, dropped)
    {
      hide L.Allocates, L.Table.Consistent, RoutesOk, Agree, UnlearnAll, L.Table.Rows, L.Removed;
      ghost var was := View();
      var dropped: seq<L.Lease>;
      ghost var reclaimed;
      reply, dropped, reclaimed := assigner.Allocate(req, peer, k.wall);
      UnlearnDropped(dropped, k.now);
      UnlearnAllShrinks(was.(leases := assigner.View()), dropped, k.now, leaseTtl);
      if reply.status == Messages.Ok {
        clients := clients[V4(reply.tunIp) := ClientEntry(peer, k.learned)];
        if reply.tunIp6.Some? {
          clients := clients[V6(reply.tunIp6.value) := ClientEntry(peer, k.learned)];
        }
      }
      assert RequestStep(Cfg(), was, req, peer, k, View(), reply, reclaimed, dropped);
      RequestKeepsTables(Cfg(), was, req, peer, k, View(), reply, reclaimed, dropped);
      RequestKeepsAgree(Cfg(), was, req, peer, k, View(), reply, reclaimed, dropped);
    }

    method HandleControl(peer: SocketAddr, m: Control, k: Clock) returns (reply: Option<Control>)
      requires Valid() && WellFormed(m)
      modifies this, assigner, subnets, names
      ensures Valid() && Cfg() == old(Cfg())
      ensures ControlStep(Cfg(), old(View()), peer, m, k, View(), reply)
    {
      hide L.Table.Consistent, RoutesOk, Agree, RequestStep, Server.MaybeLearn, MaybeLearn6,
        Advertised, Unique, Subnets.RoutesFor, Names.Table.Advertise, Index;
      ghost var was := View();
      reply := None;
      match m {
        case Keepalive(ip) =>
          if ip.Some? {
            MaybeLearnKeepsRest(was, V4(ip.value), peer, k.learned);
            MaybeLearn(V4(ip.value), peer, k.learned);
          }
        case Advert(a) =>
          AllCanonical(a.routes);
          MaybeLearnBoth(a.tunnelIp, a.tunnelIp6, peer, k.learned);
          var _ := subnets.Advertise(peer, a.routes, policy, k.now);
          if a.acceptRoutes {
            var nets := subnets.RoutesFor(peer);
            reply := Some(RoutePush(nets));
          }
        case Request(req) =>
          var answer := HandleRequest(req, peer, k);
          reply := Some(Reply(answer));
        case Name(n) =>
          MaybeLearnBoth(n.tunnelIp, n.tunnelIp6, peer, k.learned);
          var node := if peer in assigner.byPeer then Some(assigner.byPeer[peer]) else None;
          var _ := names.Advertise(peer, n.name, n.tunnelIp, n.tunnelIp6, node, k.now);
          if n.wantPeers {
            var entries := names.TakeSnapshot();
            reply := Some(PeerPush(entries));
          }
        case _ =>
      }
      ControlKeeps(Cfg(), was, peer, m, k, View(), reply);
    }

    method Lookup(dst: IpAddr, now: Time) returns (peer: Option<SocketAddr>)
      requires Valid()
      ensures peer == Server.Lookup(View(), dst, now, leaseTtl)
    {
      hide Subnets.Lookup, RoutesOk;
      if dst in clients && Idle(now, clients[dst].lastSeen) <= leaseTtl {
        return Some(clients[dst].peer);
      }
      peer := subnets.Lookup(dst, policy);
    }

    /** One decrypted datagram: a control message, noise, or an IP packet to learn from and route. */
    method HandleDatagram(peer: SocketAddr, p: seq<Byte>, k: Clock) returns (act: Action)
      requires Valid()
      modifies this, assigner, subnets, names
      ensures Valid() && Cfg() == old(Cfg())
      ensures DatagramStep(Cfg(), old(View()), peer, p, k, View(), act)
    {
      hide ControlStep, Parsed, Subnets.Lookup, L.Table.Consistent, RoutesOk, Agree, Index, Unique, FromOctets6;
      ghost var was := View();
      if p != [] && p[0] == 0 {
        var m := ParseControl(p);
        if m.None? {
          return Handled;
        }
        ParsedIsNormal(p);
        var reply := HandleControl(peer, m.value, k);
        return AnswerOrDone(reply);
      }
      if |p| < 20 {
        return Dropped;
      }
      var src, dst := IpSrc(p), IpDst(p);
      if src.Some? {
        MaybeLearnKeeps(Cfg().assign, was, src.value, peer, k.learned);
        MaybeLearnKeepsRest(was, src.value, peer, k.learned);
        MaybeLearn(src.value, peer, k.learned);
      }
      act := ToTun;
      if dst.Some? {
        var next := Lookup(dst.value, k.now);
        if next.Some? {
          act := if next.value != peer then Relay(next.value) else Bounce;
        }
      }
    }

    method HandleSweep(k: Clock)
      requires Valid()
      modifies this, assigner, subnets, names
      ensures Valid() && Cfg() == old(Cfg())
      ensures SweepStep(Cfg(), old(View()), k, View())
    {
      hide L.Table.Consistent, RoutesOk, Agree, UnlearnAll, L.Table.Rows, L.Table.Without,
        Expired, Names.Table.Expire, Names.Table.Ok, Names.Table.Idlers, Index, Unique, Lists, L.Table.Expired;
      ghost var was := View();
      var _ := subnets.Expire(leaseTtl, k.now);
      var _, _ := names.Expire(leaseTtl, k.now);
      clients := map ip | ip in clients && Idle(k.now, clients[ip].lastSeen) <= leaseTtl :: clients[ip];
      assert clients == ExpireClients(was.clients, leaseTtl, k.now);
      var dropped := assigner.Reap(k.wall);
      assert View() == Swept(Cfg(), was, k);
      UnlearnDropped(dropped, k.now);
      assert SweepStep(Cfg(), was, k, View());
      SweepKeeps(Cfg(), was, k, View());
    }
  }
}
