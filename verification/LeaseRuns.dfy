/** Whole runs of the assigner: invariants, sticky addresses, and reloading the lease file. */
module LeaseRuns {
  import opened Bytes
  import opened Ring
  import opened Messages
  import opened LeaseTable
  import opened LeaseLaws

  datatype Event =
    | Request(req: AssignReq, peer: SocketAddr, now: Time, reply: Assign, reclaimed: Option<NodeId>)
    | Sweep(now: Time)
    | Restore(rows: seq<Row>, now: Time)

  ghost predicate Step(c: Config, t: Table, e: Event, t': Table)
    requires c.Valid()
  {
    match e
    case Request(req, peer, now, reply, reclaimed) => Allocates(c, t, req, peer, now, t', reply, reclaimed)
    case Sweep(now) => t' == Reaped(c, t, now)
    case Restore(rows, now) => t' == Load(t, rows, now, c.ttl)
  }

  ghost predicate Run(c: Config, states: seq<Table>, events: seq<Event>) {
    && c.Valid()
    && |states| == |events| + 1 && states[0] == EMPTY
    && forall i :: 0 <= i < |events| ==> Step(c, states[i], events[i], states[i + 1])
  }

  /** In every run, whatever is loaded, the indexes agree with the leases. */
  lemma {:induction false} RunConsistent(c: Config, states: seq<Table>, events: seq<Event>, i: nat)
    requires Run(c, states, events) && i < |states|
    ensures states[i].Consistent()
  {
    hide Allocates;
    if i > 0 {
      RunConsistent(c, states, events, i - 1);
      assert Step(c, states[i - 1], events[i - 1], states[i]);
      match events[i - 1] {
        case Request(req, peer, now, reply, reclaimed) =>
          AllocateConsistent(c, states[i - 1], req, peer, now, states[i], reply, reclaimed);
        case Sweep(now) => WithoutConsistent(states[i - 1], states[i - 1].Expired(now, c.ttl));
        case Restore(rows, now) => LoadConsistent(states[i - 1], rows, now, c.ttl);
      }
    }
  }

  lemma EmptyFits(c: Config)
    requires c.Valid()
    ensures Fits(c, EMPTY)
  {
  }

  /** In every run that loads nothing, leases are assignable and never outnumber the capacity. */
  lemma {:induction false} RunWithinCapacity(c: Config, states: seq<Table>, events: seq<Event>, i: nat)
    requires Run(c, states, events) && i < |states|
    requires forall k :: 0 <= k < |events| ==> !events[k].Restore?
    ensures Fits(c, states[i])
    ensures |states[i].byNode| <= |c.Assignable()|
  {
    hide Allocates, Fits, Table.Consistent, Config.Assignable;
    RunConsistent(c, states, events, i);
    assert i == 0 ==> Fits(c, states[0]) by {
      EmptyFits(c);
    }
    if i > 0 {
      RunWithinCapacity(c, states, events, i - 1);
      assert Step(c, states[i - 1], events[i - 1], states[i]);
      if events[i - 1].Request? {
        var e := events[i - 1];
        AllocateFits(c, states[i - 1], e.req, e.peer, e.now, states[i], e.reply, e.reclaimed);
      } else {
        RunConsistent(c, states, events, i - 1);
        ShrinkKeeps(c, states[i - 1], states[i - 1].Expired(events[i - 1].now, c.ttl), SocketAddr(V4(0), 0));
      }
    }
    LeasedWithinCapacity(c, states[i]);
  }

  // ---- Sticky addresses ----

  predicate Asks(e: Event, n: NodeId) {
    e.Request? && e.req.nodeId == n
  }

  /** A step that is not the node's own request leaves an unexpired, unreclaimed lease alone. */
  lemma OtherStepKeepsLease(c: Config, t: Table, e: Event, t': Table, n: NodeId)
    requires c.Valid() && Step(c, t, e, t') && n in t.byNode && !Asks(e, n)
    requires Idle(e.now, t.byNode[n].lastSeen) <= c.ttl
    requires e.Request? ==> e.reclaimed != Some(n)
    ensures n in t'.byNode && t'.byNode[n] == t.byNode[n]
  {
    hide Chooser.Pick;
    if e.Restore? {
      LoadKeepsLease(t, e.rows, e.now, c.ttl, n);
    }
  }

  lemma {:induction false} LoadKeepsLease(t: Table, rows: seq<Row>, now: Time, ttl: nat, n: NodeId)
    requires n in t.byNode
    ensures n in Load(t, rows, now, ttl).byNode && Load(t, rows, now, ttl).byNode[n] == t.byNode[n]
  {
    if rows != [] {
      LoadKeepsLease(t, rows[..|rows| - 1], now, ttl, n);
    }
  }

  /** A node with an unexpired lease is answered with that lease, restamped. */
  lemma OwnRequestRefreshes(c: Config, t: Table, e: Event, t': Table)
    requires c.Valid() && e.Request? && Step(c, t, e, t') && e.req.nodeId in t.byNode
    requires Idle(e.now, t.byNode[e.req.nodeId].lastSeen) <= c.ttl
    ensures var l := t.byNode[e.req.nodeId];
            && e.reply == OkReply(c, l.ip4, l.ip6)
            && e.req.nodeId in t'.byNode
            && t'.byNode[e.req.nodeId] == l.(lastSeen := e.now, lastPeer := Some(e.peer))
  {
  }

  /** Any granted request leaves the node with exactly the addresses of the reply, stamped now. */
  lemma GrantLeavesLease(c: Config, t: Table, e: Event, t': Table)
    requires c.Valid() && e.Request? && Step(c, t, e, t') && e.reply.status == Ok
    ensures var n := e.req.nodeId;
            && n in t'.byNode && t'.byNode[n].lastSeen == e.now && t'.byNode[n].lastPeer == Some(e.peer)
            && e.reply == OkReply(c, t'.byNode[n].ip4, t'.byNode[n].ip6)
  {
    AllocateEffect(c, t, e.req, e.peer, e.now, t', e.reply, e.reclaimed);
  }

  ghost predicate ClockForward(events: seq<Event>) {
    forall i, j :: 0 <= i <= j < |events| ==> events[i].now <= events[j].now
  }

  /** The latest request of the node before step `j`, not before step `i`. */
  function Previous(events: seq<Event>, n: NodeId, i: nat, j: nat): (k: nat)
    requires i < j <= |events| && Asks(events[i], n)
    ensures i <= k < j && Asks(events[k], n)
    ensures forall m :: k < m < j ==> !Asks(events[m], n)
  {
    if Asks(events[j - 1], n) then j - 1 else Previous(events, n, i, j - 1)
  }

  /** Between two requests at most `ttl` apart, nothing but a reclaim touches the lease. */
  lemma {:induction false} LeaseStands(c: Config, states: seq<Table>, events: seq<Event>, n: NodeId, a: nat, k: nat, b: nat)
    requires Run(c, states, events) && ClockForward(events)
    requires a < k <= b < |events| && Asks(events[a], n) && events[a].reply.status == Ok
    requires forall m :: a < m < b ==> !Asks(events[m], n)
    requires forall m :: a < m < b && events[m].Request? ==> events[m].reclaimed != Some(n)
    requires Idle(events[b].now, events[a].now) <= c.ttl
    ensures n in states[a + 1].byNode && n in states[k].byNode && states[k].byNode[n] == states[a + 1].byNode[n]
    ensures states[k].byNode[n].lastSeen == events[a].now
    decreases k
  {
    hide Step;
    GrantLeavesLease(c, states[a], events[a], states[a + 1]);
    if k > a + 1 {
      LeaseStands(c, states, events, n, a, k - 1, b);
      OtherStepKeepsLease(c, states[k - 1], events[k - 1], states[k], n);
    }
  }

  /**
   * In every run with a forward clock, a node whose consecutive requests are at most `ttl` apart is
   * given the same addresses in every reply, until some step reclaims its lease.
   */
  lemma {:induction false} StickyAddresses(c: Config, states: seq<Table>, events: seq<Event>, n: NodeId, i: nat, j: nat)
    requires Run(c, states, events) && ClockForward(events)
    requires i < j < |events| && Asks(events[i], n) && Asks(events[j], n) && events[i].reply.status == Ok
    requires forall b | i < b <= j && Asks(events[b], n) ::
               Idle(events[b].now, events[Previous(events, n, i, b)].now) <= c.ttl
    requires forall m :: i < m < j && events[m].Request? ==> events[m].reclaimed != Some(n)
    ensures events[j].reply == events[i].reply
  {
    hide Step;
    var a := Previous(events, n, i, j);
    if a > i {
      StickyAddresses(c, states, events, n, i, a);
    }
    GrantLeavesLease(c, states[a], events[a], states[a + 1]);
    LeaseStands(c, states, events, n, a, j, j);
    OwnRequestRefreshes(c, states[j], events[j], states[j + 1]);
  }

  // ---- Reloading ----

  /** `rows` are the stored leases of `t`, in the order of `ids`. */
  ghost predicate StoredRows(t: Table, ids: seq<NodeId>, rows: seq<Row>) {
    && Lists(ids, t.byNode.Keys) && |rows| == |ids|
    && forall i :: 0 <= i < |ids| ==> ids[i] in t.byNode && rows[i] == Stored(t.byNode[ids[i]])
  }

  /** A lease as it comes back from the file: its time in whole seconds. */
  function Truncated(l: Lease): Lease {
    l.(lastSeen := l.lastSeen / NANOS * NANOS)
  }

  predicate Survives(l: Lease, now: Time, ttl: nat) {
    Idle(now, Truncated(l).lastSeen) <= ttl
  }

  /** `r` holds exactly the surviving leases of the nodes in `some`. */
  ghost predicate Restored(t: Table, some: seq<NodeId>, r: Table, now: Time, ttl: nat) {
    && (forall n :: n in r.byNode ==> n in some && n in t.byNode && Survives(t.byNode[n], now, ttl))
    && (forall n :: n in some && n in t.byNode && Survives(t.byNode[n], now, ttl) ==> n in r.byNode)
    && (forall n :: n in r.byNode && n in t.byNode ==> r.byNode[n] == Truncated(t.byNode[n]))
  }

  /** An unexpired row of a consistent table is never taken for a duplicate. */
  lemma ReloadRow(t: Table, ids: seq<NodeId>, rows: seq<Row>, k: nat, r: Table, now: Time, ttl: nat)
    requires t.Consistent() && StoredRows(t, ids, rows) && k < |rows| && r.Consistent()
    requires Restored(t, ids[..k], r, now, ttl)
    ensures Skipped(r, rows[k], now, ttl) <==> !Survives(t.byNode[ids[k]], now, ttl)
  {
    assert rows[k] == Stored(t.byNode[ids[k]]);
  }

  lemma RestoredGrows(t: Table, some: seq<NodeId>, n: NodeId, r: Table, r': Table, now: Time, ttl: nat)
    requires Restored(t, some, r, now, ttl) && n in t.byNode
    requires r'.byNode == if Survives(t.byNode[n], now, ttl) then r.byNode[n := Truncated(t.byNode[n])] else r.byNode
    ensures Restored(t, some + [n], r', now, ttl)
  {
    hide Survives, Truncated;
  }

  lemma ReloadStep(t: Table, ids: seq<NodeId>, rows: seq<Row>, k: nat, r: Table, now: Time, ttl: nat)
    requires t.Consistent() && StoredRows(t, ids, rows) && k < |rows| && r.Consistent()
    requires Restored(t, ids[..k], r, now, ttl)
    ensures Restored(t, ids[..k + 1], LoadRow(r, rows[k], now, ttl), now, ttl)
  {
    hide Skipped, Table.Consistent, Survives, Restored;
    ReloadRow(t, ids, rows, k, r, now, ttl);
    StoredNode(t, ids, rows, k);
    hide StoredRows;
    RestoredGrows(t, ids[..k], ids[k], r, LoadRow(r, rows[k], now, ttl), now, ttl);
    assert ids[..k + 1] == ids[..k] + [ids[k]];
  }

  lemma StoredNode(t: Table, ids: seq<NodeId>, rows: seq<Row>, k: nat)
    requires t.Consistent() && StoredRows(t, ids, rows) && k < |rows|
    ensures ids[k] in t.byNode && rows[k] == Stored(t.byNode[ids[k]]) && t.byNode[ids[k]].nodeId == ids[k]
  {
  }

  /** Loading the first `k` rows restores exactly the surviving leases among them. */
  lemma {:induction false} ReloadPrefix(t: Table, ids: seq<NodeId>, rows: seq<Row>, k: nat, now: Time, ttl: nat)
    requires t.Consistent() && StoredRows(t, ids, rows) && k <= |rows|
    ensures Restored(t, ids[..k], Load(EMPTY, rows[..k], now, ttl), now, ttl)
  {
    hide Table.Consistent, LoadRow, Lists;
    if k == 0 {
      assert rows[..k] == [];
    } else {
      hide Restored, StoredRows;
      ReloadPrefix(t, ids, rows, k - 1, now, ttl);
      EmptyConsistent();
      LoadConsistent(EMPTY, rows[..k - 1], now, ttl);
      assert rows[..k][..k - 1] == rows[..k - 1];
      ReloadStep(t, ids, rows, k - 1, Load(EMPTY, rows[..k - 1], now, ttl), now, ttl);
    }
  }

  lemma EmptyConsistent()
    ensures EMPTY.Consistent()
  {
  }

  /**
   * Reloading the stored rows of a consistent table, in any order, restores every surviving lease
   * and nothing else, with all address indexes and no endpoint bound.
   */
  lemma ReloadRestores(t: Table, ids: seq<NodeId>, rows: seq<Row>, now: Time, ttl: nat)
    requires t.Consistent() && StoredRows(t, ids, rows)
    ensures var r := Load(EMPTY, rows, now, ttl);
            && r.Consistent() && r.byPeer == map[]
            && r.byNode == map n | n in t.byNode && Survives(t.byNode[n], now, ttl) :: Truncated(t.byNode[n])
  {
    hide Table.Consistent, Load, Survives, Truncated;
    ReloadPrefix(t, ids, rows, |rows|, now, ttl);
    EmptyConsistent();
    LoadConsistent(EMPTY, rows, now, ttl);
    assert rows[..|rows|] == rows && ids[..|ids|] == ids;
  }
}
