/** Node-id keyed tunnel-IP assignment (src/assign.rs): the lease table and its four indexes. */
module LeaseTable {
  import opened Bytes
  import opened Ring
  import opened Prefix
  import opened Messages

  datatype Lease =
    Lease(nodeId: NodeId, ip4: Ip4, ip6: Option<Ip6>, lastSeen: Time, lastPeer: Option<SocketAddr>)

  /** The server's IPv6 address and prefix length. */
  datatype Ip6Net = Ip6Net(ip: Ip6, plen: nat)

  /** `hash` is the head of the SHA-256 digest of a node id, an arbitrary function here. */
  datatype Config = Config(serverIp: Ip4, netmask: Ip4, serverIp6: Option<Ip6Net>, start: U32, end: U32,
                           reserved: set<Ip4>, ttl: nat, hash: NodeId -> U32)
  {
    /** The size of the range fits 32 bits, in which the source computes it; a prefix length fits its address. */
    predicate Valid() {
      && Span(start, end) <= U32_MAX
      && (serverIp6.Some? ==> serverIp6.value.plen <= W6)
    }

    function Assignable(): set<Ip4> {
      AddrRange(start, end) - {serverIp} - reserved
    }

    /** Whether a request can be given an IPv6 address at all. */
    predicate V6Active(want6: bool) {
      want6 && serverIp6.Some? && serverIp6.value.plen <= 96
    }

    /** `embed_ip4`: the address in the last 32 bits of the server's network. */
    function Embed(ip: Ip4): Ip6
      requires Valid() && serverIp6.Some?
    {
      var network := Base(serverIp6.value.ip, W6 - serverIp6.value.plen);
      network - network % 0x1_0000_0000 + ip
    }

    /** The addresses a request can be satisfied with: with IPv6, not the one the server's own embeds. */
    function Usable(want6: bool): set<Ip4>
      requires Valid()
    {
      if V6Active(want6) then set ip | ip in Assignable() && Embed(ip) != serverIp6.value.ip else Assignable()
    }
  }

  datatype Table = Table(byNode: map<NodeId, Lease>, byIp4: map<Ip4, NodeId>, byIp6: map<Ip6, NodeId>,
                         byPeer: map<SocketAddr, NodeId>)
  {
    ghost predicate NodesOk() {
      forall n :: n in byNode ==>
        && byNode[n].nodeId == n
        && byNode[n].ip4 in byIp4 && byIp4[byNode[n].ip4] == n
        && (byNode[n].ip6.Some? ==> byNode[n].ip6.value in byIp6 && byIp6[byNode[n].ip6.value] == n)
    }

    ghost predicate Ip4Ok() {
      forall ip :: ip in byIp4 ==> byIp4[ip] in byNode && byNode[byIp4[ip]].ip4 == ip
    }

    ghost predicate Ip6Ok() {
      forall ip :: ip in byIp6 ==> byIp6[ip] in byNode && byNode[byIp6[ip]].ip6 == Some(ip)
    }

    ghost predicate PeersOk() {
      forall p :: p in byPeer ==> byPeer[p] in byNode && byNode[byPeer[p]].lastPeer == Some(p)
    }

    /** The address indexes are inverse to the leases; a bound endpoint is its node's last one. */
    ghost predicate Consistent() {
      NodesOk() && Ip4Ok() && Ip6Ok() && PeersOk()
    }

    function Expired(now: Time, ttl: nat): set<NodeId> {
      set n | n in byNode && Idle(now, byNode[n].lastSeen) > ttl
    }

    /** The table after the leases of `gone` disappear from every index. */
    function Without(gone: set<NodeId>): Table {
      Table(byNode - gone,
            map ip | ip in byIp4 && byIp4[ip] !in gone :: byIp4[ip],
            map ip | ip in byIp6 && byIp6[ip] !in gone :: byIp6[ip],
            map p | p in byPeer && byPeer[p] !in gone :: byPeer[p])
    }

    /** `drop_lease` as the source performs it, index by index. */
    function Drop(n: NodeId): Table {
      if n !in byNode then this
      else
        var l := byNode[n];
        Table(byNode - {n},
              byIp4 - {l.ip4},
              if l.ip6.Some? then byIp6 - {l.ip6.value} else byIp6,
              if l.lastPeer.Some? && l.lastPeer.value in byPeer && byPeer[l.lastPeer.value] == n
              then byPeer - {l.lastPeer.value} else byPeer)
    }

    /** `refresh_existing`: the lease's time and endpoint move, an endpoint still its own is unbound. */
    function Refreshed(n: NodeId, peer: SocketAddr, now: Time): Table
      requires n in byNode
    {
      var l := byNode[n];
      var bound := if l.lastPeer.Some? && l.lastPeer != Some(peer)
                      && l.lastPeer.value in byPeer && byPeer[l.lastPeer.value] == n
                   then byPeer - {l.lastPeer.value} else byPeer;
      this.(byNode := byNode[n := l.(lastSeen := now, lastPeer := Some(peer))], byPeer := bound[peer := n])
    }

    function Unbound(peer: SocketAddr): Table {
      this.(byPeer := byPeer - {peer})
    }

    /** `bind_new`, for a node without a lease. */
    function Bound(n: NodeId, peer: SocketAddr, ip4: Ip4, ip6: Option<Ip6>, now: Time): Table {
      Table(byNode[n := Lease(n, ip4, ip6, now, Some(peer))],
            byIp4[ip4 := n],
            if ip6.Some? then byIp6[ip6.value := n] else byIp6,
            byPeer[peer := n])
    }

    ghost predicate Oldest(n: NodeId) {
      n in byNode && forall m :: m in byNode ==> byNode[n].lastSeen <= byNode[m].lastSeen
    }

    /** The leases of the given nodes. */
    ghost function Rows(ids: set<NodeId>): set<Lease> {
      set n | n in ids && n in byNode :: byNode[n]
    }
  }

  const EMPTY := Table(map[], map[], map[], map[])

  // ---- Choosing addresses ----

  datatype Ip6Pick = NoIp6 | Pick6(ip6: Ip6) | SkipV4

  datatype Chooser = Chooser(c: Config, t: Table, node: NodeId, want6: bool)
  {
    predicate UsableIp4(ip: Ip4) {
      && InRange(c.start, c.end, ip)
      && ip != c.serverIp && ip !in c.reserved
      && (ip in t.byIp4 ==> t.byIp4[ip] == node)
    }

    function Ip6For(ip: Ip4): Ip6Pick
      requires c.Valid()
    {
      if !c.V6Active(want6) then NoIp6
      else
        var ip6 := c.Embed(ip);
        if ip6 == c.serverIp6.value.ip || (ip6 in t.byIp6 && t.byIp6[ip6] != node) then SkipV4 else Pick6(ip6)
    }

    predicate Accepts(ip: Ip4) {
      c.Valid() && UsableIp4(ip) && !Ip6For(ip).SkipV4?
    }

    /** The pair `try_ip4` answers for an accepted address. */
    function Pair(ip: Ip4): (Ip4, Option<Ip6>)
      requires c.Valid()
    {
      (ip, match Ip6For(ip) case Pick6(ip6) => Some(ip6) case _ => None)
    }

    function Offset(): nat
      requires c.start <= c.end
    {
      c.hash(node) % Span(c.start, c.end)
    }

    /** `pick_addrs`: the hint, else the first acceptable candidate from the hashed offset on. */
    function Pick(hint: Ip4): Option<(Ip4, Option<Ip6>)>
      requires c.Valid()
    {
      if Accepts(hint) then Some(Pair(hint))
      else if c.end < c.start then None
      else match FirstFrom(c.start, c.end, c.start + Offset(), 0, Accepts)
           case None => None
           case Some(ip) => Some(Pair(ip))
    }
  }

  /** A choice fails exactly when no address is acceptable, and otherwise is acceptable. */
  lemma PickExact(ch: Chooser, hint: Ip4)
    requires ch.c.Valid()
    ensures ch.Pick(hint).None? <==> forall ip: Ip4 :: !ch.Accepts(ip)
    ensures ch.Pick(hint).Some? ==> ch.Accepts(ch.Pick(hint).value.0) && ch.Pick(hint).value == ch.Pair(ch.Pick(hint).value.0)
  {
    if ch.c.start <= ch.c.end {
      ProbeComplete(ch.c.start, ch.c.end, ch.c.start + ch.Offset(), ch.Accepts);
    }
  }

  // ---- Allocating ----

  const U32_MAX: U32 := 0xFFFF_FFFF
  const NANOS: nat := 1_000_000_000

  function OkReply(c: Config, ip4: Ip4, ip6: Option<Ip6>): Assign
    requires c.Valid()
  {
    var v6 := ip6.Some? && c.serverIp6.Some?;
    Assign(Ok, ip4, c.netmask, c.serverIp, if v6 then ip6 else None, if v6 then c.serverIp6.value.plen else 0, 0,
           if c.ttl / NANOS > U32_MAX then U32_MAX else c.ttl / NANOS)
  }

  const EXHAUSTED := Assign(Exhausted, 0, 0, 0, None, 0, 0, 0)

  predicate Want6(req: AssignReq) {
    req.flags % 2 == 1
  }

  /** The table after expired leases are reaped. */
  function Reaped(c: Config, t: Table, now: Time): Table {
    t.Without(t.Expired(now, c.ttl))
  }

  /** Binding a fresh choice, if there is one. */
  ghost predicate Granted(c: Config, t: Table, req: AssignReq, peer: SocketAddr, now: Time, t': Table, reply: Assign)
    requires c.Valid()
  {
    match Chooser(c, t, req.nodeId, Want6(req)).Pick(req.hintIp4)
    case None => t' == t && reply == EXHAUSTED
    case Some(pair) => t' == t.Bound(req.nodeId, peer, pair.0, pair.1, now) && reply == OkReply(c, pair.0, pair.1)
  }

  /**
   * One `allocate`: reap, then refresh the node's lease or choose addresses for it, reclaiming a
   * lease with the oldest `last_seen` when nothing is acceptable.
   */
  ghost predicate Allocates(c: Config, t: Table, req: AssignReq, peer: SocketAddr, now: Time,
                            t': Table, reply: Assign, reclaimed: Option<NodeId>)
    requires c.Valid()
  {
    var live := Reaped(c, t, now);
    if req.nodeId in live.byNode then
      && t' == live.Refreshed(req.nodeId, peer, now)
      && reply == OkReply(c, live.byNode[req.nodeId].ip4, live.byNode[req.nodeId].ip6)
      && reclaimed == None
    else
      var t2 := live.Unbound(peer);
      if Chooser(c, t2, req.nodeId, Want6(req)).Pick(req.hintIp4).Some? || t2.byNode == map[] then
        Granted(c, t2, req, peer, now, t', reply) && reclaimed == None
      else
        && reclaimed.Some? && t2.Oldest(reclaimed.value)
        && Granted(c, t2.Without({reclaimed.value}), req, peer, now, t', reply)
  }

  /** The nodes whose leases a call removes. */
  function Removed(c: Config, t: Table, now: Time, reclaimed: Option<NodeId>): set<NodeId> {
    var expired := t.Expired(now, c.ttl);
    if reclaimed.Some? then expired + {reclaimed.value} else expired
  }

  // ---- Persistence ----

  /** A row of the lease file; a node id or time that does not parse is `None`. */
  datatype Row = Row(nodeId: Option<NodeId>, ip4: Ip4, ip6: Option<Ip6>, lastSeen: Option<Time>,
                     lastPeer: Option<SocketAddr>)

  predicate Skipped(t: Table, row: Row, now: Time, ttl: nat) {
    || row.nodeId.None? || row.lastSeen.None?
    || Idle(now, row.lastSeen.value) > ttl
    || row.nodeId.value in t.byNode || row.ip4 in t.byIp4
    || (row.ip6.Some? && row.ip6.value in t.byIp6)
  }

  /** `load` of one row: `by_peer` is not restored. */
  function LoadRow(t: Table, row: Row, now: Time, ttl: nat): Table {
    if Skipped(t, row, now, ttl) then t
    else
      var n := row.nodeId.value;
      Table(t.byNode[n := Lease(n, row.ip4, row.ip6, row.lastSeen.value, row.lastPeer)],
            t.byIp4[row.ip4 := n],
            if row.ip6.Some? then t.byIp6[row.ip6.value := n] else t.byIp6,
            t.byPeer)
  }

  function Load(t: Table, rows: seq<Row>, now: Time, ttl: nat): Table {
    if rows == [] then t
    else LoadRow(Load(t, rows[..|rows| - 1], now, ttl), rows[|rows| - 1], now, ttl)
  }

  /** The row `write_leases` stores for a lease: whole seconds only. */
  function Stored(l: Lease): Row {
    Row(Some(l.nodeId), l.ip4, l.ip6, Some(l.lastSeen / NANOS * NANOS), l.lastPeer)
  }
}
