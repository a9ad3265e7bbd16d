/** The assigner object (src/assign.rs, `Assigner`), each method proved against the lease table. */
module AssignerObject {
  import opened Bytes
  import opened Ring
  import opened Messages
  import opened Prefix
  import opened Pool
  import opened LeaseTable
  import opened LeaseLaws

  class Assigner {
    const serverIp: Ip4
    const netmask: Ip4
    const serverIp6: Option<Ip6Net>
    const reserved: set<Ip4>
    const ttl: nat
    const hash: NodeId -> U32
    var start: U32
    var end: U32
    var byNode: map<NodeId, Lease>
    var byIp4: map<Ip4, NodeId>
    var byIp6: map<Ip6, NodeId>
    var byPeer: map<SocketAddr, NodeId>

    function Cfg(): Config
      reads this
    {
      Config(serverIp, netmask, serverIp6, start, end, reserved, ttl, hash)
    }

    function View(): Table
      reads this
    {
      Table(byNode, byIp4, byIp6, byPeer)
    }

    ghost predicate Valid()
      reads this
    {
      Cfg().Valid() && View().Consistent()
    }

    /**
      * The range is the host range of the server's subnet and `peer_ip` is always reserved; the rows of
      * the lease file, if any, are loaded at once.
      */
    constructor (serverIp: Ip4, netmask: Ip4, serverIp6: Option<Ip6Net>, peerIp: Ip4, extraReserved: set<Ip4>,
                 ttl: nat, hash: NodeId -> U32, rows: seq<Row>, now: Time)
      requires serverIp6.Some? ==> serverIp6.value.plen <= W6
      ensures var range := HostRange(serverIp, netmask);
              Valid() && Cfg() == Config(serverIp, netmask, serverIp6, range.0, range.1, extraReserved + {peerIp}, ttl, hash)
      ensures View() == Load(EMPTY, rows, now, ttl)
    {
      var range := HostRange(serverIp, netmask);
      this.serverIp, this.netmask, this.serverIp6 := serverIp, netmask, serverIp6;
      this.reserved, this.ttl, this.hash := extraReserved + {peerIp}, ttl, hash;
      start, end := range.0, range.1;
      byNode, byIp4, byIp6, byPeer := map[], map[], map[], map[];
      new;
      ghost var c := Cfg();
      for i := 0 to |rows|
        invariant Cfg() == c
        invariant View() == Load(EMPTY, rows[..i], now, ttl)
      {
        assert rows[..i + 1][..i] == rows[..i];
        if !Skipped(View(), rows[i], now, ttl) {
          var n := rows[i].nodeId.value;
          if rows[i].ip6.Some? {
            byIp6 := byIp6[rows[i].ip6.value := n];
          }
          byIp4 := byIp4[rows[i].ip4 := n];
          byNode := byNode[n := Lease(n, rows[i].ip4, rows[i].ip6, rows[i].lastSeen.value, rows[i].lastPeer)];
        }
      }
      assert rows[..|rows|] == rows;
      LoadConsistent(EMPTY, rows, now, ttl);
    }

    method SetHostRange(start: U32, end: U32)
      requires Valid() && Span(start, end) <= U32_MAX
      modifies this
      ensures Valid() && View() == old(View()) && Cfg() == old(Cfg()).(start := start, end := end)
    {
      this.start, this.end := start, end;
    }

    /** The span less the server's address and the reserved ones in range is the number assignable. */
    method Capacity() returns (cap: nat)
      requires Valid()
      ensures cap == |Cfg().Assignable()|
    {
      hide AddrRange, InRange, Span;
      ghost var range := AddrRange(start, end) - {serverIp};
      ClientRange(start, end, serverIp);
      if end < start {
        return 0;
      }
      cap := Span(start, end);
      if InRange(start, end, serverIp) {
        cap := cap - 1;
      }
      var todo := reserved;
      assert range - (reserved - todo) == range;
      while todo != {}
        invariant todo <= reserved && cap == |range - (reserved - todo)|
        decreases |todo|
      {
        var ip :| ip in todo;
        ReserveOne(range, reserved, todo, ip);
        if ip != serverIp && InRange(start, end, ip) {
          cap := cap - 1;
        }
        todo := todo - {ip};
      }
      assert range - (reserved - todo) == range - reserved;
    }

    method DropLease(n: NodeId) returns (lease: Option<Lease>)
      requires Valid()
      modifies this
      ensures Valid() && Cfg() == old(Cfg())
      ensures View() == old(View()).Without({n})
      ensures lease == if n in old(byNode) then Some(old(byNode)[n]) else None
    {
      hide Table.Consistent, Table.Without;
      DropIsWithout(View(), n);
      WithoutConsistent(View(), {n});
      if n !in byNode {
        return None;
      }
      var l := byNode[n];
      byNode := byNode - {n};
      byIp4 := byIp4 - {l.ip4};
      if l.ip6.Some? {
        byIp6 := byIp6 - {l.ip6.value};
      }
      if l.lastPeer.Some? && l.lastPeer.value in byPeer && byPeer[l.lastPeer.value] == n {
        byPeer := byPeer - {l.lastPeer.value};
      }
      assert View() == old(View()).Drop(n);
      lease := Some(l);
    }

    method ReapInner(now: Time) returns (dropped: seq<Lease>)
      requires Valid()
      modifies this
      ensures Valid() && Cfg() == old(Cfg())
      ensures View() == Reaped(Cfg(), old(View()), now)
      ensures Lists(dropped, old(View()).Rows(old(View()).Expired(now, ttl)))
    {
      hide Table.Consistent, Table.Without;
      ghost var was := View();
      var expired := Collect(View().Expired(now, ttl));
      forall j | 0 <= j < |expired| ensures expired[j] in was.byNode {
        assert expired[j] in expired;
      }
      dropped := [];
      WithoutNobody(was);
      assert Elems(expired[..0]) == {};
      for k := 0 to |expired|
        invariant Valid() && Cfg() == old(Cfg())
        invariant View() == was.Without(Elems(expired[..k]))
        invariant |dropped| == k && forall j :: 0 <= j < k ==> dropped[j] == was.byNode[expired[j]]
      {
        NotInWithout(was, Elems(expired[..k]), expired[k]);
        WithoutTwice(was, Elems(expired[..k]), {expired[k]});
        ElemsGrow(expired, k);
        var lease := DropLease(expired[k]);
        dropped := dropped + [lease.value];
      }
      assert expired[..|expired|] == expired && Elems(expired) == was.Expired(now, ttl);
      RowsListed(was, expired, dropped, was.Expired(now, ttl));
    }

    method Reap(now: Time) returns (dropped: seq<Lease>)
      requires Valid()
      modifies this
      ensures Valid() && Cfg() == old(Cfg())
      ensures View() == Reaped(Cfg(), old(View()), now)
      ensures Lists(dropped, old(View()).Rows(old(View()).Expired(now, ttl)))
    {
      dropped := ReapInner(now);
    }

    method PickAddrs(n: NodeId, hint: Ip4, want6: bool) returns (pair: Option<(Ip4, Option<Ip6>)>)
      requires Valid()
      ensures pair == Chooser(Cfg(), View(), n, want6).Pick(hint)
    {
      var ch := Chooser(Cfg(), View(), n, want6);
      if ch.Accepts(hint) {
        return Some(ch.Pair(hint));
      }
      if end < start {
        return None;
      }
      ghost var first := start + ch.Offset();
      var cand := start + ch.Offset();
      for i := 0 to Span(start, end)
        invariant start <= cand <= end && cand == At(start, end, first, i)
        invariant ch.Pick(hint) == match FirstFrom(start, end, first, i, ch.Accepts)
                                   case None => None
                                   case Some(ip) => Some(ch.Pair(ip))
      {
        if ch.Accepts(cand) {
          return Some(ch.Pair(cand));
        }
        AdvanceIsAt(start, end, first, i);
        cand := Advance(start, end, cand);
      }
      pair := None;
    }

    /** `None` when there is no lease; which of several oldest leases is taken is not specified. */
    method ReclaimOldest() returns (lease: Option<Lease>)
      requires Valid()
      modifies this
      ensures Valid() && Cfg() == old(Cfg())
      ensures match lease
              case None => old(byNode) == map[] && View() == old(View())
              case Some(l) => && old(View()).Oldest(l.nodeId) && l == old(byNode)[l.nodeId]
                              && View() == old(View()).Without({l.nodeId})
    {
      if byNode == map[] {
        return None;
      }
      var oldest :| oldest in byNode;
      var todo := byNode.Keys;
      while todo != {}
        invariant oldest in byNode && todo <= byNode.Keys
        invariant forall n :: n in byNode && n !in todo ==> byNode[oldest].lastSeen <= byNode[n].lastSeen
        decreases |todo|
      {
        var n :| n in todo;
        if byNode[n].lastSeen < byNode[oldest].lastSeen {
          oldest := n;
        }
        todo := todo - {n};
      }
      assert byNode[oldest].nodeId == oldest;
      lease := DropLease(oldest);
    }

    method RefreshExisting(req: AssignReq, peer: SocketAddr, now: Time) returns (reply: Option<Assign>)
      requires Valid()
      modifies this
      ensures Valid() && Cfg() == old(Cfg())
      ensures match reply
              case None => && (req.nodeId in old(byNode) ==> req.nodeId in old(View()).Expired(now, ttl))
                           && View() == old(View())
              case Some(r) => && req.nodeId in old(byNode)
                              && View() == old(View()).Refreshed(req.nodeId, peer, now)
                              && r == OkReply(Cfg(), old(byNode)[req.nodeId].ip4, old(byNode)[req.nodeId].ip6)
    {
      hide Table.Consistent;
      if req.nodeId !in byNode {
        return None;
      }
      var l := byNode[req.nodeId];
      if Idle(now, l.lastSeen) > ttl {
        return None;
      }
      RefreshedConsistent(View(), req.nodeId, peer, now);
      byNode := byNode[req.nodeId := l.(lastSeen := now)];
      if l.lastPeer != Some(peer) {
        if l.lastPeer.Some? && l.lastPeer.value in byPeer && byPeer[l.lastPeer.value] == req.nodeId {
          byPeer := byPeer - {l.lastPeer.value};
        }
        byNode := byNode[req.nodeId := byNode[req.nodeId].(lastPeer := Some(peer))];
      }
      byPeer := byPeer[peer := req.nodeId];
      assert View().byNode == old(View()).Refreshed(req.nodeId, peer, now).byNode;
      reply := Some(OkReply(Cfg(), l.ip4, l.ip6));
    }

    method BindNew(n: NodeId, peer: SocketAddr, ip4: Ip4, ip6: Option<Ip6>, now: Time) returns (reply: Assign)
      requires Valid() && n !in byNode && ip4 !in byIp4
      requires ip6.Some? ==> ip6.value !in byIp6
      modifies this
      ensures Valid() && Cfg() == old(Cfg())
      ensures View() == old(View()).Bound(n, peer, ip4, ip6, now) && reply == OkReply(Cfg(), ip4, ip6)
    {
      hide Table.Consistent, Table.Without;
      DropIsWithout(View(), n);
      var _ := DropLease(n);
      BoundConsistent(View(), n, peer, ip4, ip6, now);
      byNode := byNode[n := Lease(n, ip4, ip6, now, Some(peer))];
      byIp4 := byIp4[ip4 := n];
      if ip6.Some? {
        byIp6 := byIp6[ip6.value := n];
      }
      byPeer := byPeer[peer := n];
      reply := OkReply(Cfg(), ip4, ip6);
    }

    /** Choose and bind, or report exhaustion, for a node that holds nothing. */
    method Grant(req: AssignReq, peer: SocketAddr, now: Time) returns (reply: Option<Assign>)
      requires Valid() && req.nodeId !in byNode
      modifies this
      ensures Valid() && Cfg() == old(Cfg())
      ensures reply.None? <==> Chooser(Cfg(), old(View()), req.nodeId, Want6(req)).Pick(req.hintIp4).None?
      ensures Granted(Cfg(), old(View()), req, peer, now, View(), if reply.Some? then reply.value else EXHAUSTED)
    {
      hide Chooser.Pick, Table.Consistent;
      var pair := PickAddrs(req.nodeId, req.hintIp4, Want6(req));
      if pair.None? {
        return None;
      }
      ghost var ch := Chooser(Cfg(), View(), req.nodeId, Want6(req));
      PickExact(ch, req.hintIp4);
      AcceptedIsFree(ch, pair.value.0);
      var bound := BindNew(req.nodeId, peer, pair.value.0, pair.value.1, now);
      reply := Some(bound);
    }

    method Allocate(req: AssignReq, peer: SocketAddr, now: Time)
      returns (reply: Assign, dropped: seq<Lease>, ghost reclaimed: Option<NodeId>)
      requires Valid()
      modifies this
      ensures Valid() && Cfg() == old(Cfg())
      ensures Allocates(Cfg(), old(View()), req, peer, now, View(), reply, reclaimed)
      ensures Lists(dropped, old(View()).Rows(Removed(Cfg(), old(View()), now, reclaimed)))
    {
      hide Granted, Table.Consistent, Chooser.Pick, Table.Without, Table.Expired;
      ghost var was := View();
      reclaimed := None;
      dropped := ReapInner(now);
      ghost var live := View();
      NothingLeftExpired(was, now, ttl);
      var refreshed := RefreshExisting(req, peer, now);
      if refreshed.Some? {
        return refreshed.value, dropped, None;
      }
      byPeer := byPeer - {peer};
      ghost var t2 := View();
      UnboundConsistent(live, peer);
      var granted := Grant(req, peer, now);
      if granted.Some? {
        return granted.value, dropped, None;
      }
      assert View() == t2 by {
        RefusedUnchanged(Cfg(), t2, req, peer, now, View());
      }
      var victim := ReclaimOldest();
      if victim.None? {
        return EXHAUSTED, dropped, None;
      }
      reclaimed := Some(victim.value.nodeId);
      NotInWithout(was, was.Expired(now, ttl), victim.value.nodeId);
      OneMoreRow(was, dropped, victim.value, was.Expired(now, ttl));
      dropped := dropped + [victim.value];
      NotInWithout(t2, {victim.value.nodeId}, req.nodeId);
      granted := Grant(req, peer, now);
      reply := if granted.Some? then granted.value else EXHAUSTED;
    }
  }

  lemma UnboundConsistent(t: Table, peer: SocketAddr)
    requires t.Consistent()
    ensures t.Unbound(peer).Consistent()
  {
  }

  lemma NothingLeftExpired(t: Table, now: Time, ttl: nat)
    ensures t.Without(t.Expired(now, ttl)).Expired(now, ttl) == {}
  {
  }

  lemma RefusedUnchanged(c: Config, t: Table, req: AssignReq, peer: SocketAddr, now: Time, t': Table)
    requires c.Valid() && Granted(c, t, req, peer, now, t', EXHAUSTED)
    ensures t' == t
  {
  }

  /** The addresses in range but the server's, and how many there are. */
  lemma ClientRange(start: U32, end: U32, serverIp: Ip4)
    ensures var range := AddrRange(start, end) - {serverIp};
            && (forall ip :: ip in range <==> ip != serverIp && InRange(start, end, ip))
            && (end < start ==> range == {})
            && (start <= end ==> |range| == Span(start, end) - if InRange(start, end, serverIp) then 1 else 0)
  {
    AddrRangeSize(start, end);
    if !InRange(start, end, serverIp) {
      assert AddrRange(start, end) - {serverIp} == AddrRange(start, end);
    }
  }

  lemma RowsGrow(t: Table, l: Lease, expired: set<NodeId>)
    requires t.Consistent() && l.nodeId in t.byNode && l == t.byNode[l.nodeId] && l.nodeId !in expired
    ensures t.Rows(expired + {l.nodeId}) == t.Rows(expired) + {l} && l !in t.Rows(expired)
  {
    hide Table.Ip4Ok, Table.Ip6Ok, Table.PeersOk;
    forall r | r in t.Rows(expired) ensures r.nodeId in expired {
      var n :| n in expired && n in t.byNode && r == t.byNode[n];
    }
  }

  /** A reclaimed lease is listed after the expired ones. */
  lemma OneMoreRow(t: Table, rows: seq<Lease>, l: Lease, expired: set<NodeId>)
    requires t.Consistent() && Lists(rows, t.Rows(expired))
    requires l.nodeId in t.byNode && l == t.byNode[l.nodeId] && l.nodeId !in expired
    ensures Lists(rows + [l], t.Rows(expired + {l.nodeId}))
  {
    RowsGrow(t, l, expired);
    hide Table.Rows, Table.Consistent;
    ListsGrow(rows, t.Rows(expired), l);
  }

  /** One more reserved address leaves one address fewer, if it was in range. */
  lemma ReserveOne(range: set<Ip4>, reserved: set<Ip4>, todo: set<Ip4>, ip: Ip4)
    requires ip in todo && todo <= reserved
    ensures |range - (reserved - (todo - {ip}))| == |range - (reserved - todo)| - if ip in range then 1 else 0
  {
    assert range - (reserved - (todo - {ip})) == (range - (reserved - todo)) - {ip};
  }

  /** The leases of distinct nodes, listed in the order of the nodes. */
  lemma RowsListed(t: Table, ids: seq<NodeId>, rows: seq<Lease>, nodes: set<NodeId>)
    requires t.Consistent() && Lists(ids, nodes) && nodes <= t.byNode.Keys
    requires |rows| == |ids| && forall j :: 0 <= j < |ids| ==> rows[j] == t.byNode[ids[j]]
    ensures Lists(rows, t.Rows(nodes))
  {
    forall i, j | 0 <= i < j < |rows| ensures rows[i] != rows[j] {
      assert rows[i].nodeId == ids[i] && rows[j].nodeId == ids[j];
    }
    forall l | l in t.Rows(nodes) ensures l in rows {
      var n :| n in nodes && n in t.byNode && l == t.byNode[n];
      var i :| 0 <= i < |ids| && ids[i] == n;
      assert rows[i] == l;
    }
    DistinctLists(rows, t.Rows(nodes));
  }
}
