/** What every operation on the lease table keeps, and when a request can and cannot be served. */
module LeaseLaws {
  import opened Bytes
  import opened Ring
  import opened Prefix
  import opened Messages
  import opened LeaseTable

  // ---- The four indexes ----

  /** Dropping index by index removes exactly what refers to the node. */
  lemma DropIsWithout(t: Table, n: NodeId)
    requires t.Consistent()
    ensures t.Drop(n) == t.Without({n})
  {
    DropAddresses(t, n);
    assert t.Drop(n).byPeer == t.Without({n}).byPeer;
  }

  lemma DropAddresses(t: Table, n: NodeId)
    requires t.NodesOk() && t.Ip4Ok() && t.Ip6Ok()
    ensures t.Drop(n).byIp4 == t.Without({n}).byIp4
    ensures t.Drop(n).byIp6 == t.Without({n}).byIp6
  {
  }

  lemma WithoutConsistent(t: Table, gone: set<NodeId>)
    requires t.Consistent()
    ensures t.Without(gone).Consistent()
  {
  }

  lemma WithoutNobody(t: Table)
    ensures t.Without({}) == t
  {
    var w := t.Without({});
    assert w.byNode == t.byNode && w.byIp4 == t.byIp4 && w.byIp6 == t.byIp6 && w.byPeer == t.byPeer;
  }

  lemma WithoutTwice(t: Table, a: set<NodeId>, b: set<NodeId>)
    ensures t.Without(a).Without(b) == t.Without(a + b)
  {
    var l, r := t.Without(a).Without(b), t.Without(a + b);
    assert l.byNode == r.byNode && l.byIp4 == r.byIp4 && l.byIp6 == r.byIp6 && l.byPeer == r.byPeer;
  }

  lemma RefreshedConsistent(t: Table, n: NodeId, peer: SocketAddr, now: Time)
    requires t.Consistent() && n in t.byNode
    ensures t.Refreshed(n, peer, now).Consistent()
  {
  }

  lemma BoundConsistent(t: Table, n: NodeId, peer: SocketAddr, ip4: Ip4, ip6: Option<Ip6>, now: Time)
    requires t.Consistent() && n !in t.byNode && ip4 !in t.byIp4
    requires ip6.Some? ==> ip6.value !in t.byIp6
    ensures t.Bound(n, peer, ip4, ip6, now).Consistent()
  {
  }

  /** An accepted address is free for a node without a lease. */
  lemma AcceptedIsFree(ch: Chooser, ip: Ip4)
    requires ch.c.Valid() && ch.t.Consistent() && ch.node !in ch.t.byNode && ch.Accepts(ip)
    ensures ip !in ch.t.byIp4
    ensures ch.Pair(ip).1.Some? ==> ch.Pair(ip).1.value !in ch.t.byIp6
  {
  }

  lemma GrantedConsistent(c: Config, t: Table, req: AssignReq, peer: SocketAddr, now: Time, t': Table, reply: Assign)
    requires c.Valid() && t.Consistent() && req.nodeId !in t.byNode
    requires Granted(c, t, req, peer, now, t', reply)
    ensures t'.Consistent()
  {
    hide Table.Consistent;
    var ch := Chooser(c, t, req.nodeId, Want6(req));
    PickExact(ch, req.hintIp4);
    if ch.Pick(req.hintIp4).Some? {
      var pair := ch.Pick(req.hintIp4).value;
      AcceptedIsFree(ch, pair.0);
      BoundConsistent(t, req.nodeId, peer, pair.0, pair.1, now);
    }
  }

  lemma AllocateConsistent(c: Config, t: Table, req: AssignReq, peer: SocketAddr, now: Time,
                           t': Table, reply: Assign, reclaimed: Option<NodeId>)
    requires c.Valid() && t.Consistent()
    requires Allocates(c, t, req, peer, now, t', reply, reclaimed)
    ensures t'.Consistent()
  {
    hide Granted;
    var live := Reaped(c, t, now);
    WithoutConsistent(t, t.Expired(now, c.ttl));
    if req.nodeId in live.byNode {
      RefreshedConsistent(live, req.nodeId, peer, now);
    } else {
      var t2 := live.Unbound(peer);
      assert t2.Consistent();
      if reclaimed.Some? {
        WithoutConsistent(t2, {reclaimed.value});
        GrantedConsistent(c, t2.Without({reclaimed.value}), req, peer, now, t', reply);
      } else {
        GrantedConsistent(c, t2, req, peer, now, t', reply);
      }
    }
  }

  lemma LoadRowConsistent(t: Table, row: Row, now: Time, ttl: nat)
    requires t.Consistent()
    ensures LoadRow(t, row, now, ttl).Consistent()
  {
  }

  lemma {:induction false} LoadConsistent(t: Table, rows: seq<Row>, now: Time, ttl: nat)
    requires t.Consistent()
    ensures Load(t, rows, now, ttl).Consistent()
    ensures Load(t, rows, now, ttl).byPeer == t.byPeer
  {
    if rows != [] {
      LoadConsistent(t, rows[..|rows| - 1], now, ttl);
      LoadRowConsistent(Load(t, rows[..|rows| - 1], now, ttl), rows[|rows| - 1], now, ttl);
    }
  }

  /** Earlier rows win: what the first rows gave is there, unchanged, after all of them. */
  lemma {:induction false} EarlierRowsWin(t: Table, rows: seq<Row>, now: Time, ttl: nat, k: nat)
    requires k <= |rows|
    ensures var u, v := Load(t, rows[..k], now, ttl), Load(t, rows, now, ttl);
            forall n :: n in u.byNode ==> n in v.byNode && v.byNode[n] == u.byNode[n]
  {
    if k < |rows| {
      EarlierRowsWin(t, rows[..|rows| - 1], now, ttl, k);
      assert rows[..|rows| - 1][..k] == rows[..k];
    } else {
      assert rows[..k] == rows;
    }
  }

  /** A readable, unexpired row whose node and addresses no earlier row has taken is loaded as it stands. */
  lemma RowIsLoaded(t: Table, rows: seq<Row>, now: Time, ttl: nat, k: nat, n: NodeId, seen: Time)
    requires k < |rows| && rows[k].nodeId == Some(n) && rows[k].lastSeen == Some(seen) && Idle(now, seen) <= ttl
    requires var u := Load(t, rows[..k], now, ttl);
             n !in u.byNode && rows[k].ip4 !in u.byIp4 && (rows[k].ip6.Some? ==> rows[k].ip6.value !in u.byIp6)
    ensures var v := Load(t, rows, now, ttl);
            n in v.byNode && v.byNode[n] == Lease(n, rows[k].ip4, rows[k].ip6, seen, rows[k].lastPeer)
  {
    EarlierRowsWin(t, rows, now, ttl, k + 1);
    assert rows[..k + 1][..k] == rows[..k];
  }

  // ---- Range and capacity ----

  /** Every lease is of an assignable address, with IPv6 the one that embeds it. */
  ghost predicate Fits(c: Config, t: Table)
    requires c.Valid()
  {
    forall n :: n in t.byNode ==>
      && t.byNode[n].ip4 in c.Assignable()
      && (t.byNode[n].ip6.Some? ==> c.V6Active(true) && t.byNode[n].ip6.value == c.Embed(t.byNode[n].ip4))
  }

  lemma GrantedFits(c: Config, t: Table, req: AssignReq, peer: SocketAddr, now: Time, t': Table, reply: Assign)
    requires c.Valid() && Fits(c, t) && Granted(c, t, req, peer, now, t', reply)
    ensures Fits(c, t')
  {
    PickExact(Chooser(c, t, req.nodeId, Want6(req)), req.hintIp4);
  }

  lemma AllocateFits(c: Config, t: Table, req: AssignReq, peer: SocketAddr, now: Time,
                     t': Table, reply: Assign, reclaimed: Option<NodeId>)
    requires c.Valid() && Fits(c, t) && Allocates(c, t, req, peer, now, t', reply, reclaimed)
    ensures Fits(c, t')
  {
    hide Granted, Config.Assignable, Chooser.Pick;
    var live := Reaped(c, t, now);
    assert Fits(c, live);
    if req.nodeId !in live.byNode {
      var t2 := live.Unbound(peer);
      assert Fits(c, t2);
      if reclaimed.Some? {
        assert Fits(c, t2.Without({reclaimed.value}));
        GrantedFits(c, t2.Without({reclaimed.value}), req, peer, now, t', reply);
      } else {
        GrantedFits(c, t2, req, peer, now, t', reply);
      }
    }
  }

  /** With a prefix of at most 96 bits, an embedded address is in the server's network and ends in the address embedded. */
  lemma EmbedInNetwork(c: Config, ip: Ip4)
    requires c.Valid() && c.V6Active(true)
    ensures var net := c.serverIp6.value;
            && Base(c.Embed(ip), W6 - net.plen) == Base(net.ip, W6 - net.plen)
            && c.Embed(ip) % 0x1_0000_0000 == ip && c.Embed(ip) == Base(net.ip, W6 - net.plen) + ip
  {
    hide Base, Pow2;
    var net, h := c.serverIp6.value, W6 - c.serverIp6.value.plen;
    var k := WholeWords(net.ip, h);
    assert c.Embed(ip) == Base(net.ip, h) + ip;
    BaseExact(net.ip, c.Embed(ip), h);
  }

  /** Masking 32 bits or more leaves a multiple of 2^32. */
  lemma WholeWords(a: nat, h: nat) returns (k: nat)
    requires h >= W4
    ensures Base(a, h) == k * 0x1_0000_0000 && Pow2(h) >= 0x1_0000_0000
  {
    hide Base, Pow2;
    var q := BaseIsMultiple(a, h);
    Pow2Values();
    Pow2Splits(h, W4);
    k := q * Pow2(h - W4);
    Regroup(q, Pow2(h - W4));
  }

  lemma Regroup(q: nat, p: nat)
    ensures q * (p * 0x1_0000_0000) == q * p * 0x1_0000_0000
  {
  }

  /** What a granted reply tells its client, field by field. */
  lemma ReplyDescribes(c: Config, t: Table, req: AssignReq, peer: SocketAddr, now: Time,
                       t': Table, reply: Assign, reclaimed: Option<NodeId>)
    requires c.Valid() && t.Consistent() && Fits(c, t) && Allocates(c, t, req, peer, now, t', reply, reclaimed)
    requires reply.status == Ok
    ensures reply.tunIp in c.Assignable() && reply.tunIp != c.serverIp == reply.peerIp && reply.netmask == c.netmask
    ensures reply.tunIp6.Some? ==> c.serverIp6.Some? && reply.plen6 == c.serverIp6.value.plen
    ensures reply.tunIp6.Some? ==> Base(reply.tunIp6.value, W6 - reply.plen6) == Base(c.serverIp6.value.ip, W6 - reply.plen6)
    ensures reply.tunIp6.Some? ==> reply.tunIp6.value % 0x1_0000_0000 == reply.tunIp
    ensures reply.ttlSecs < U32_MAX ==> reply.ttlSecs * NANOS <= c.ttl < (reply.ttlSecs + 1) * NANOS
  {
    hide Allocates, Config.Embed;
    AllocateFits(c, t, req, peer, now, t', reply, reclaimed);
    AllocateEffect(c, t, req, peer, now, t', reply, reclaimed);
    if reply.tunIp6.Some? {
      EmbedInNetwork(c, reply.tunIp);
    }
  }

  /** As many leases as leased addresses, and no more than are assignable. */
  lemma LeasedWithinCapacity(c: Config, t: Table)
    requires c.Valid() && t.Consistent() && Fits(c, t)
    ensures |t.byNode| == |t.byIp4| <= |c.Assignable()|
  {
    var f := map n | n in t.byNode :: t.byNode[n].ip4;
    assert f.Keys == t.byNode.Keys;
    InverseSameSize(f, t.byIp4);
    SubsetSize(t.byIp4.Keys, c.Assignable());
  }

  /** What a node without a lease is offered: exactly the usable addresses nobody holds. */
  lemma AcceptsExact(ch: Chooser, ip: Ip4)
    requires ch.c.Valid() && ch.t.Consistent() && Fits(ch.c, ch.t) && ch.node !in ch.t.byNode
    ensures ch.Accepts(ip) <==> ip in ch.c.Usable(ch.want6) && ip !in ch.t.byIp4
  {
    if ch.c.V6Active(ch.want6) && ch.c.Embed(ip) in ch.t.byIp6 {
      var owner := ch.t.byIp6[ch.c.Embed(ip)];
      assert ch.c.Embed(ch.t.byNode[owner].ip4) == ch.c.Embed(ip);
    }
  }

  lemma PickFailsExactly(ch: Chooser, hint: Ip4)
    requires ch.c.Valid() && ch.t.Consistent() && Fits(ch.c, ch.t) && ch.node !in ch.t.byNode
    ensures ch.Pick(hint).None? <==> ch.c.Usable(ch.want6) <= ch.t.byIp4.Keys
  {
    hide Chooser.Accepts, Config.Usable, Chooser.Pick;
    PickExact(ch, hint);
    if ch.Pick(hint).None? {
      forall ip | ip in ch.c.Usable(ch.want6) ensures ip in ch.t.byIp4.Keys {
        AcceptsExact(ch, ip);
      }
    } else {
      AcceptsExact(ch, ch.Pick(hint).value.0);
    }
  }

  /** Removing leases or an endpoint binding keeps a table in order. */
  lemma ShrinkKeeps(c: Config, t: Table, gone: set<NodeId>, peer: SocketAddr)
    requires c.Valid() && t.Consistent() && Fits(c, t)
    ensures t.Without(gone).Consistent() && Fits(c, t.Without(gone))
    ensures t.Unbound(peer).Consistent() && Fits(c, t.Unbound(peer))
  {
    hide Config.Assignable, Config.Embed;
    WithoutConsistent(t, gone);
  }

  lemma GrantRefusedExactly(c: Config, t: Table, req: AssignReq, peer: SocketAddr, now: Time, t': Table, reply: Assign)
    requires c.Valid() && t.Consistent() && Fits(c, t) && req.nodeId !in t.byNode
    requires Granted(c, t, req, peer, now, t', reply)
    ensures reply.status == Exhausted <==> c.Usable(Want6(req)) <= t.byIp4.Keys
  {
    hide Chooser.Pick, Config.Usable, Fits, Table.Consistent;
    PickFailsExactly(Chooser(c, t, req.nodeId, Want6(req)), req.hintIp4);
  }

  lemma VictimFreesItsAddress(t: Table, v: NodeId)
    requires t.Consistent() && v in t.byNode
    ensures t.Without({v}).byIp4.Keys == t.byIp4.Keys - {t.byNode[v].ip4}
  {
  }

  /**
   * A request is refused exactly when the node has no live lease, every usable address is held,
   * and the lease reclaimed for it, if there was any, did not free a usable one.
   */
  lemma ExhaustedExactly(c: Config, t: Table, req: AssignReq, peer: SocketAddr, now: Time,
                         t': Table, reply: Assign, reclaimed: Option<NodeId>)
    requires c.Valid() && t.Consistent() && Fits(c, t) && Allocates(c, t, req, peer, now, t', reply, reclaimed)
    ensures var live, usable := Reaped(c, t, now), c.Usable(Want6(req));
            && (reclaimed.Some? ==> reclaimed.value in live.byNode && req.nodeId !in live.byNode && usable <= live.byIp4.Keys)
            && (reclaimed.None? && req.nodeId !in live.byNode && usable <= live.byIp4.Keys ==> live.byNode == map[])
            && (reply.status == Exhausted
                <==> req.nodeId !in live.byNode && usable <= live.byIp4.Keys
                     && (reclaimed.Some? ==> live.byNode[reclaimed.value].ip4 !in usable))
  {
    hide Chooser.Pick, Config.Usable, Fits, Table.Consistent, Granted, Table.Without;
    var live, usable := Reaped(c, t, now), c.Usable(Want6(req));
    ShrinkKeeps(c, t, t.Expired(now, c.ttl), peer);
    if req.nodeId !in live.byNode {
      var t2 := live.Unbound(peer);
      ShrinkKeeps(c, live, {}, peer);
      PickFailsExactly(Chooser(c, t2, req.nodeId, Want6(req)), req.hintIp4);
      if reclaimed.Some? {
        var v := reclaimed.value;
        ShrinkKeeps(c, t2, {v}, peer);
        VictimFreesItsAddress(t2, v);
        assert req.nodeId !in t2.Without({v}).byNode by {
          NotInWithout(t2, {v}, req.nodeId);
        }
        GrantRefusedExactly(c, t2.Without({v}), req, peer, now, t', reply);
      } else {
        GrantRefusedExactly(c, t2, req, peer, now, t', reply);
      }
    }
  }

  lemma NotInWithout(t: Table, gone: set<NodeId>, n: NodeId)
    ensures n in t.Without(gone).byNode <==> n in t.byNode && n !in gone
    ensures n in t.Without(gone).byNode ==> t.Without(gone).byNode[n] == t.byNode[n]
  {
  }

  lemma HeldAreAssignable(c: Config, t: Table)
    requires c.Valid() && t.Consistent() && Fits(c, t)
    ensures t.byIp4.Keys <= c.Assignable()
    ensures forall n :: n in t.byNode ==> t.byNode[n].ip4 in t.byIp4
  {
  }

  /** Without IPv6 in play a request is refused exactly when nothing is assignable at all. */
  lemma ExhaustedWithoutV6(c: Config, t: Table, req: AssignReq, peer: SocketAddr, now: Time,
                           t': Table, reply: Assign, reclaimed: Option<NodeId>)
    requires c.Valid() && t.Consistent() && Fits(c, t) && Allocates(c, t, req, peer, now, t', reply, reclaimed)
    requires !c.V6Active(Want6(req))
    ensures reply.status == Exhausted <==> c.Assignable() == {}
    ensures reclaimed.Some? ==> Reaped(c, t, now).byIp4.Keys == c.Assignable()
  {
    hide Config.Assignable, Fits, Table.Consistent, Granted, Table.Without, Chooser.Pick;
    ExhaustedExactly(c, t, req, peer, now, t', reply, reclaimed);
    var live := Reaped(c, t, now);
    ShrinkKeeps(c, t, t.Expired(now, c.ttl), peer);
    HeldAreAssignable(c, live);
    assert live.Unbound(peer).byNode == live.byNode;
    if live.byNode == map[] {
      NoNodeNoAddress(live);
    }
  }

  lemma NoNodeNoAddress(t: Table)
    requires t.Consistent() && t.byNode == map[]
    ensures t.byIp4 == map[]
  {
  }

  // ---- What a request leaves behind ----

  /** A grant leaves the requester's lease as replied; a refusal leaves it none; other leases are only removed. */
  lemma AllocateEffect(c: Config, t: Table, req: AssignReq, peer: SocketAddr, now: Time,
                       t': Table, reply: Assign, reclaimed: Option<NodeId>)
    requires c.Valid() && Allocates(c, t, req, peer, now, t', reply, reclaimed)
    ensures var n := req.nodeId;
            if reply.status == Ok then
              && n in t'.byNode && t'.byNode[n].lastSeen == now && t'.byNode[n].lastPeer == Some(peer)
              && reply == OkReply(c, t'.byNode[n].ip4, t'.byNode[n].ip6)
            else n !in t'.byNode
    ensures forall m :: m in t'.byNode && m != req.nodeId ==> m in t.byNode && t'.byNode[m] == t.byNode[m]
    ensures forall m :: m in t.byNode && m != req.nodeId ==> m in t'.byNode || m in Removed(c, t, now, reclaimed)
    ensures reply.status == Ok ==> req.nodeId in t.byNode ==>
              req.nodeId in t.Expired(now, c.ttl)
              || (t'.byNode[req.nodeId].ip4 == t.byNode[req.nodeId].ip4 && t'.byNode[req.nodeId].ip6 == t.byNode[req.nodeId].ip6)
  {
    hide Chooser.Pick, Table.Consistent;
  }

  // ---- Which endpoint, which address, which victim ----

  /**
   * A grant binds the requesting endpoint to the node, and a refusal leaves the endpoint unbound. Other
   * bindings only disappear, and only those of removed nodes or the requester's former endpoint.
   */
  lemma AllocateBinds(c: Config, t: Table, req: AssignReq, peer: SocketAddr, now: Time,
                      t': Table, reply: Assign, reclaimed: Option<NodeId>)
    requires c.Valid() && t.Consistent() && Allocates(c, t, req, peer, now, t', reply, reclaimed)
    ensures if reply.status == Ok then peer in t'.byPeer && t'.byPeer[peer] == req.nodeId else peer !in t'.byPeer
    ensures forall p :: p in t'.byPeer && p != peer ==> p in t.byPeer && t'.byPeer[p] == t.byPeer[p]
    ensures forall p :: p in t.byPeer && p != peer && p !in t'.byPeer ==>
              || t.byPeer[p] in Removed(c, t, now, reclaimed)
              || (t.byPeer[p] == req.nodeId && req.nodeId in t.byNode && t.byNode[req.nodeId].lastPeer == Some(p))
  {
    hide Allocates, Removed, Table.Consistent;
    BoundByRequest(c, t, req, peer, now, t', reply, reclaimed);
    forall p | p in t.byPeer && p != peer && p !in t'.byPeer
      ensures || t.byPeer[p] in Removed(c, t, now, reclaimed)
              || (t.byPeer[p] == req.nodeId && req.nodeId in t.byNode && t.byNode[req.nodeId].lastPeer == Some(p))
    {
      LostByRequest(c, t, req, peer, now, t', reply, reclaimed, p);
    }
  }

  lemma LostByRequest(c: Config, t: Table, req: AssignReq, peer: SocketAddr, now: Time,
                      t': Table, reply: Assign, reclaimed: Option<NodeId>, p: SocketAddr)
    requires c.Valid() && t.Consistent() && Allocates(c, t, req, peer, now, t', reply, reclaimed)
    requires p in t.byPeer && p != peer && p !in t'.byPeer
    ensures t.byPeer[p] in t.byNode
    ensures || t.byPeer[p] in Removed(c, t, now, reclaimed)
            || (t.byPeer[p] == req.nodeId && req.nodeId in t.byNode && t.byNode[req.nodeId].lastPeer == Some(p))
  {
    hide Chooser.Pick, Table.Ip4Ok, Table.Ip6Ok, Table.NodesOk;
  }

  lemma BoundByRequest(c: Config, t: Table, req: AssignReq, peer: SocketAddr, now: Time,
                       t': Table, reply: Assign, reclaimed: Option<NodeId>)
    requires c.Valid() && Allocates(c, t, req, peer, now, t', reply, reclaimed)
    ensures if reply.status == Ok then peer in t'.byPeer && t'.byPeer[peer] == req.nodeId else peer !in t'.byPeer
    ensures forall p :: p in t'.byPeer && p != peer ==> p in t.byPeer && t'.byPeer[p] == t.byPeer[p]
  {
    hide Chooser.Pick;
  }

  /** What a request removes is gone, unless it is the requester, granted anew. */
  lemma RemovedIsGone(c: Config, t: Table, req: AssignReq, peer: SocketAddr, now: Time,
                      t': Table, reply: Assign, reclaimed: Option<NodeId>, n: NodeId)
    requires c.Valid() && Allocates(c, t, req, peer, now, t', reply, reclaimed)
    requires n in Removed(c, t, now, reclaimed) && n != req.nodeId
    ensures n !in t'.byNode
  {
    hide Chooser.Pick;
  }

  /** A reclaimed lease is one that was used least recently among those still live. */
  lemma ReclaimsOldest(c: Config, t: Table, req: AssignReq, peer: SocketAddr, now: Time,
                       t': Table, reply: Assign, reclaimed: Option<NodeId>)
    requires c.Valid() && Allocates(c, t, req, peer, now, t', reply, reclaimed) && reclaimed.Some?
    ensures reclaimed.value in t.byNode && Idle(now, t.byNode[reclaimed.value].lastSeen) <= c.ttl
    ensures forall m :: m in t.byNode && Idle(now, t.byNode[m].lastSeen) <= c.ttl ==>
              t.byNode[reclaimed.value].lastSeen <= t.byNode[m].lastSeen
  {
    hide Chooser.Pick, Granted;
    var live := Reaped(c, t, now);
    assert live.Unbound(peer).Oldest(reclaimed.value);
    forall m | m in t.byNode && Idle(now, t.byNode[m].lastSeen) <= c.ttl
      ensures t.byNode[reclaimed.value].lastSeen <= t.byNode[m].lastSeen
    {
      assert m in live.byNode;
    }
  }

  /** A node without a live lease that hints at a usable address nobody holds is granted that address. */
  lemma HintIsGranted(c: Config, t: Table, req: AssignReq, peer: SocketAddr, now: Time,
                      t': Table, reply: Assign, reclaimed: Option<NodeId>)
    requires c.Valid() && t.Consistent() && Fits(c, t) && Allocates(c, t, req, peer, now, t', reply, reclaimed)
    requires req.nodeId in t.byNode ==> Idle(now, t.byNode[req.nodeId].lastSeen) > c.ttl
    requires req.hintIp4 in c.Usable(Want6(req)) && req.hintIp4 !in Reaped(c, t, now).byIp4
    ensures reply.status == Ok && reply.tunIp == req.hintIp4 && reclaimed == None
  {
    hide Table.Consistent, Fits, Config.Usable, Chooser.Accepts;
    var live := Reaped(c, t, now);
    ShrinkKeeps(c, t, t.Expired(now, c.ttl), peer);
    ShrinkKeeps(c, live, {}, peer);
    AcceptsExact(Chooser(c, live.Unbound(peer), req.nodeId, Want6(req)), req.hintIp4);
  }

  /**
   * Otherwise the address chosen is the first acceptable one from the node's hashed place in the range
   * on, wrapping around.
   */
  lemma PickFromHash(ch: Chooser, hint: Ip4) returns (k: nat)
    requires ch.c.Valid() && !ch.Accepts(hint) && ch.Pick(hint).Some?
    ensures ch.c.start <= ch.c.end
    ensures var first := ch.c.start + ch.c.hash(ch.node) % Span(ch.c.start, ch.c.end);
            FoundAt(ch.c.start, ch.c.end, first, ch.Accepts, ch.Pick(hint).value.0, k)
  {
    hide FoundAt, FirstFrom;
    k := FirstIsFirst(ch.c.start, ch.c.end, ch.c.start + ch.Offset(), ch.Accepts);
  }

  /** A node without a live lease is granted IPv6 exactly when it asks for it and the server's prefix leaves 32 bits. */
  lemma GrantsIp6Exactly(c: Config, t: Table, req: AssignReq, peer: SocketAddr, now: Time,
                         t': Table, reply: Assign, reclaimed: Option<NodeId>)
    requires c.Valid() && Allocates(c, t, req, peer, now, t', reply, reclaimed) && reply.status == Ok
    requires req.nodeId in t.byNode ==> Idle(now, t.byNode[req.nodeId].lastSeen) > c.ttl
    ensures reply.tunIp6.Some? <==> req.flags % 2 == 1 && c.serverIp6.Some? && c.serverIp6.value.plen <= 96
  {
    hide Chooser.Accepts, Config.Embed, Chooser.UsableIp4;
    var t2 := Reaped(c, t, now).Unbound(peer);
    PickExact(Chooser(c, t2, req.nodeId, Want6(req)), req.hintIp4);
    if reclaimed.Some? {
      PickExact(Chooser(c, t2.Without({reclaimed.value}), req.nodeId, Want6(req)), req.hintIp4);
    }
  }
}
