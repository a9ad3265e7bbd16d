/** The route table object: a vector scanned and changed in place (src/mesh.rs, `SubnetTable`). */
module SubnetTableObject {
  import opened Bytes
  import opened Ring
  import opened Messages
  import opened Subnets

  ghost predicate Unique(routes: seq<Route>) {
    forall i, j :: 0 <= i < j < |routes| ==> routes[i].net != routes[j].net
  }

  /** The routes by network. */
  ghost function Index(routes: seq<Route>): Routes {
    if routes == [] then map[]
    else
      var last := routes[|routes| - 1];
      Index(routes[..|routes| - 1])[last.net := last]
  }

  lemma {:induction false} IndexHolds(routes: seq<Route>)
    ensures forall n :: n in Index(routes) ==> exists i :: 0 <= i < |routes| && routes[i] == Index(routes)[n] && routes[i].net == n
    ensures forall i :: 0 <= i < |routes| ==> routes[i].net in Index(routes)
    ensures Unique(routes) ==> forall i :: 0 <= i < |routes| ==> Index(routes)[routes[i].net] == routes[i]
  {
    if routes != [] {
      IndexHolds(routes[..|routes| - 1]);
    }
  }

  lemma IndexAppend(routes: seq<Route>, r: Route)
    ensures Index(routes + [r]) == Index(routes)[r.net := r]
    ensures Unique(routes) && r.net !in Index(routes) ==> Unique(routes + [r])
  {
    assert (routes + [r])[..|routes|] == routes;
    IndexHolds(routes);
  }

  lemma IndexPrefix(routes: seq<Route>, i: nat)
    requires Unique(routes) && i < |routes|
    ensures Unique(routes[..i]) && routes[i].net !in Index(routes[..i])
    ensures Index(routes[..i + 1]) == Index(routes[..i])[routes[i].net := routes[i]]
  {
    assert routes[..i + 1] == routes[..i] + [routes[i]];
    IndexAppend(routes[..i], routes[i]);
    IndexHolds(routes[..i]);
  }

  lemma {:induction false} IndexUpdate(routes: seq<Route>, i: nat, r: Route)
    requires Unique(routes) && i < |routes| && r.net == routes[i].net
    ensures Unique(routes[i := r]) && Index(routes[i := r]) == Index(routes)[r.net := r]
  {
    var front := routes[..|routes| - 1];
    if i < |front| {
      IndexUpdate(front, i, r);
      assert routes[i := r][..|front|] == front[i := r];
    } else {
      assert routes[i := r][..|front|] == front;
    }
  }

  /** What is left of, and what is taken from, the routes of `peer` when only `nets` stay. */
  ghost function Kept(m: Routes, peer: SocketAddr, nets: set<Network>): Routes {
    map n | n in m && (m[n].peer != peer || n in nets) :: m[n]
  }

  ghost function Gone(m: Routes, peer: SocketAddr, nets: set<Network>): set<Network> {
    set n | n in m && m[n].peer == peer && n !in nets
  }

  lemma RetainStep(m: Routes, r: Route, peer: SocketAddr, nets: set<Network>)
    requires r.net !in m
    ensures var m', stays := m[r.net := r], r.peer != peer || r.net in nets;
            && Kept(m', peer, nets) == (if stays then Kept(m, peer, nets)[r.net := r] else Kept(m, peer, nets))
            && Gone(m', peer, nets) == (if stays then Gone(m, peer, nets) else Gone(m, peer, nets) + {r.net})
            && r.net !in Kept(m, peer, nets) && r.net !in Gone(m, peer, nets)
  {
  }

  class SubnetTable {
    var routes: seq<Route>

    ghost function View(): Routes
      reads this
    {
      Index(routes)
    }

    constructor ()
      ensures routes == []
    {
      routes := [];
    }

    /** Drop the routes of `peer` that are not among `nets`. */
    method Retain(peer: SocketAddr, nets: seq<Network>) returns (withdrawn: seq<Network>)
      requires Unique(routes)
      modifies this
      ensures Unique(routes) && View() == Kept(old(View()), peer, Elems(nets))
      ensures Lists(withdrawn, Gone(old(View()), peer, Elems(nets)))
    {
      hide Kept, Gone, Unique, Index;
      var kept: seq<Route> := [];
      withdrawn := [];
      RetainNothing(peer, Elems(nets));
      for i := 0 to |routes|
        invariant routes == old(routes)
        invariant Unique(kept)
        invariant Index(kept) == Kept(Index(routes[..i]), peer, Elems(nets))
        invariant Lists(withdrawn, Gone(Index(routes[..i]), peer, Elems(nets)))
      {
        var r := routes[i];
        IndexPrefix(routes, i);
        RetainStep(Index(routes[..i]), r, peer, Elems(nets));
        if r.peer != peer || r.net in nets {
          IndexAppend(kept, r);
          kept := kept + [r];
        } else {
          ListsGrow(withdrawn, Gone(Index(routes[..i]), peer, Elems(nets)), r.net);
          withdrawn := withdrawn + [r.net];
        }
      }
      assert routes[..|routes|] == routes;
      routes := kept;
    }

    /** The position of the route for `net`, or the length of the table. */
    method Find(net: Network) returns (i: nat)
      ensures i <= |routes| && (i < |routes| <==> net in View())
      ensures i < |routes| ==> routes[i].net == net
    {
      IndexHolds(routes);
      i := 0;
      while i < |routes| && routes[i].net != net
        invariant i <= |routes| && forall k :: 0 <= k < i ==> routes[k].net != net
      {
        i := i + 1;
      }
    }

    /** Take over or add one canonical network, reporting what changed. */
    method Apply(net: Network, peer: SocketAddr, policy: Approval, now: Time, was: Outcome) returns (o: Outcome)
      requires Unique(routes) && policy.Valid() && net.Valid()
      modifies this
      ensures Unique(routes) && View() == old(View())[net := Route(net, peer, policy.Approves(net), now)]
      ensures o == Noted(was, old(View()), net, peer, policy)
    {
      hide Unique, Index, Approval.Approves;
      o := was;
      var i := Find(net);
      var r := Route(net, peer, policy.Approves(net), now);
      if i < |routes| {
        IndexAt(routes, i);
        if routes[i].peer != peer {
          o := o.(moved := o.moved + [net]);
        }
        IndexUpdate(routes, i, r);
        routes := routes[i := r];
      } else {
        IndexAppend(routes, r);
        routes := routes + [r];
        if r.approved {
          o := o.(approved := o.approved + [net]);
        } else {
          o := o.(awaiting := o.awaiting + [net]);
        }
      }
    }

    method Advertise(peer: SocketAddr, nets: seq<Network>, policy: Approval, now: Time) returns (o: Outcome)
      requires Unique(routes) && policy.Valid()
      requires forall i :: 0 <= i < |nets| ==> nets[i].Valid()
      modifies this
      ensures Unique(routes) && CanonicalValid(nets)
      ensures View() == Advertised(old(View()), peer, CanonicalSet(nets), policy, now)
      ensures Reports(o, old(View()), peer, CanonicalSet(nets), policy)
    {
      hide Kept, Gone, Unique, Index, Progress, Approval.Approves, Noted;
      var canon := seq(|nets|, i requires 0 <= i < |nets| => Canonical(nets[i]));
      ghost var m, all := View(), Elems(canon);
      CanonicalElems(nets, canon);
      var withdrawn := Retain(peer, canon);
      o := Outcome([], [], [], withdrawn);
      ProgressStart(m, peer, all, policy, now, o);
      assert canon[..0] == [];
      for k := 0 to |canon|
        invariant Unique(routes)
        invariant Progress(m, peer, all, Elems(canon[..k]), policy, now, View(), o)
      {
        ElemsGrow(canon, k);
        assert canon[k] in all;
        ProgressStep(m, peer, all, Elems(canon[..k]), canon[k], policy, now, View(), o);
        o := Apply(canon[k], peer, policy, now, o);
      }
      assert canon[..|canon|] == canon;
      ProgressDone(m, peer, all, policy, now, View(), o);
    }

    /** The linear scan; among equally long matches it would keep the last. */
    method Lookup(dst: IpAddr, ghost policy: Approval) returns (peer: Option<SocketAddr>)
      requires Unique(routes) && policy.Valid() && RoutesOk(View(), policy)
      ensures peer == Subnets.Lookup(View(), dst)
    {
      hide Subnets.Lookup, Network.Contains, Index, Unique, RoutesOk, Approval.Valid;
      ScanStart(routes, policy, dst);
      var best: Option<Route> := None;
      for i := 0 to |routes|
        invariant best.Some? ==> best.value in routes && Matches(View(), dst, best.value.net)
        invariant forall k :: 0 <= k < i && Matches(View(), dst, routes[k].net) ==>
                    best.Some? && routes[k].net.plen <= best.value.net.plen
      {
        var r := routes[i];
        if r.approved && r.net.Contains(dst) && (best.None? || r.net.plen >= best.value.net.plen) {
          best := Some(r);
        }
      }
      ScanEnd(routes, dst, best);
      peer := if best.Some? then Some(best.value.peer) else None;
    }

    method RoutesFor(peer: SocketAddr) returns (nets: seq<Network>)
      requires Unique(routes)
      ensures Lists(nets, Subnets.RoutesFor(View(), peer))
    {
      hide Index, Unique;
      nets := [];
      RetainNothing(peer, {});
      for i := 0 to |routes|
        invariant Lists(nets, Subnets.RoutesFor(Index(routes[..i]), peer))
      {
        IndexPrefix(routes, i);
        HorizonStep(Index(routes[..i]), routes[i], peer);
        if routes[i].approved && routes[i].peer != peer {
          ListsGrow(nets, Subnets.RoutesFor(Index(routes[..i]), peer), routes[i].net);
          nets := nets + [routes[i].net];
        }
      }
      assert routes[..|routes|] == routes;
    }

    method Expire(ttl: nat, now: Time) returns (expired: seq<Network>)
      requires Unique(routes)
      modifies this
      ensures Unique(routes) && View() == Expired(old(View()), ttl, now)
      ensures Lists(expired, old(View()).Keys - View().Keys)
    {
      hide Index, Unique, Expired;
      var live: seq<Route> := [];
      expired := [];
      ExpireNothing(ttl, now);
      for i := 0 to |routes|
        invariant routes == old(routes) && Unique(live)
        invariant Index(live) == Expired(Index(routes[..i]), ttl, now)
        invariant Lists(expired, Index(routes[..i]).Keys - Index(live).Keys)
      {
        var r := routes[i];
        IndexPrefix(routes, i);
        ExpireStep(Index(routes[..i]), r, ttl, now);
        if Idle(now, r.lastSeen) <= ttl {
          IndexAppend(live, r);
          live := live + [r];
        } else {
          ListsGrow(expired, Index(routes[..i]).Keys - Index(live).Keys, r.net);
          expired := expired + [r.net];
        }
      }
      assert routes[..|routes|] == routes;
      routes := live;
    }
  }

  lemma HorizonStep(m: Routes, r: Route, peer: SocketAddr)
    requires r.net !in m
    ensures Subnets.RoutesFor(m[r.net := r], peer)
         == if r.approved && r.peer != peer then Subnets.RoutesFor(m, peer) + {r.net} else Subnets.RoutesFor(m, peer)
    ensures r.net !in Subnets.RoutesFor(m, peer)
  {
  }

  lemma ExpireNothing(ttl: nat, now: Time)
    ensures Unique([]) && Index([]) == map[] && Expired(map[], ttl, now) == map[]
  {
  }

  lemma ExpireStep(m: Routes, r: Route, ttl: nat, now: Time)
    requires r.net !in m
    ensures var m', live := m[r.net := r], Expired(m, ttl, now);
            && r.net !in live
            && (Idle(now, r.lastSeen) <= ttl ==>
                  Expired(m', ttl, now) == live[r.net := r] && m'.Keys - live[r.net := r].Keys == m.Keys - live.Keys)
            && (Idle(now, r.lastSeen) > ttl ==>
                  Expired(m', ttl, now) == live && m'.Keys - live.Keys == m.Keys - live.Keys + {r.net})
  {
  }

  lemma RetainNothing(peer: SocketAddr, nets: set<Network>)
    ensures Unique([]) && Index([]) == map[]
    ensures Kept(map[], peer, nets) == map[] && Gone(map[], peer, nets) == {}
  {
  }

  lemma IndexAt(routes: seq<Route>, i: nat)
    requires Unique(routes) && i < |routes|
    ensures routes[i].net in Index(routes) && Index(routes)[routes[i].net] == routes[i]
  {
    IndexHolds(routes);
  }

  ghost predicate CanonicalValid(nets: seq<Network>)
    requires forall i :: 0 <= i < |nets| ==> nets[i].Valid()
  {
    forall n :: n in CanonicalSet(nets) ==> n.Valid()
  }

  lemma CanonicalElems(nets: seq<Network>, canon: seq<Network>)
    requires forall i :: 0 <= i < |nets| ==> nets[i].Valid()
    requires |canon| == |nets| && forall i :: 0 <= i < |nets| ==> canon[i] == Canonical(nets[i])
    ensures Elems(canon) == CanonicalSet(nets) && CanonicalValid(nets)
  {
    forall n | n in CanonicalSet(nets) ensures n in canon {
      var i :| 0 <= i < |nets| && n == Canonical(nets[i]);
      assert canon[i] == n;
    }
  }

  /** What one applied network adds to the report. */
  function Noted(o: Outcome, at: Routes, net: Network, peer: SocketAddr, policy: Approval): Outcome
    requires policy.Valid() && net.Valid()
  {
    if net !in at then
      if policy.Approves(net) then o.(approved := o.approved + [net]) else o.(awaiting := o.awaiting + [net])
    else if at[net].peer != peer then o.(moved := o.moved + [net]) else o
  }

  ghost function Fresh(m: Routes, done: set<Network>, policy: Approval, approved: bool): set<Network>
    requires policy.Valid() && forall n :: n in done ==> n.Valid()
  {
    set n | n in done && n !in m && policy.Approves(n) == approved
  }

  ghost function Moved(m: Routes, done: set<Network>, peer: SocketAddr): set<Network> {
    set n | n in done && n in m && m[n].peer != peer
  }

  /** The table `at` and report `o` once the networks in `done` are the peer's. */
  ghost predicate Progress(m: Routes, peer: SocketAddr, all: set<Network>, done: set<Network>,
                           policy: Approval, now: Time, at: Routes, o: Outcome)
    requires policy.Valid()
  {
    && done <= all && (forall n :: n in all ==> n.Valid())
    && at == Kept(m, peer, all) + (map n | n in done :: Route(n, peer, policy.Approves(n), now))
    && Lists(o.approved, Fresh(m, done, policy, true))
    && Lists(o.awaiting, Fresh(m, done, policy, false))
    && Lists(o.moved, Moved(m, done, peer))
    && Lists(o.withdrawn, Gone(m, peer, all))
  }

  lemma ProgressStart(m: Routes, peer: SocketAddr, all: set<Network>, policy: Approval, now: Time, o: Outcome)
    requires policy.Valid() && (forall n :: n in all ==> n.Valid())
    requires o.approved == o.awaiting == o.moved == [] && Lists(o.withdrawn, Gone(m, peer, all))
    ensures Progress(m, peer, all, Elems([]), policy, now, Kept(m, peer, all), o)
  {
    assert Fresh(m, {}, policy, true) == {} == Fresh(m, {}, policy, false) && Moved(m, {}, peer) == {};
    assert Elems<Network>([]) == {};
  }

  lemma FreshStep(m: Routes, done: set<Network>, net: Network, policy: Approval, approved: bool)
    requires policy.Valid() && net.Valid() && forall n :: n in done ==> n.Valid()
    ensures Fresh(m, done + {net}, policy, approved)
         == Fresh(m, done, policy, approved) + if net !in m && policy.Approves(net) == approved then {net} else {}
    ensures net in Fresh(m, done, policy, approved) ==> net in done
  {
  }

  lemma MovedStep(m: Routes, done: set<Network>, net: Network, peer: SocketAddr)
    ensures Moved(m, done + {net}, peer)
         == Moved(m, done, peer) + if net in m && m[net].peer != peer then {net} else {}
    ensures net in Moved(m, done, peer) <==> net in done && net in m && m[net].peer != peer
  {
  }

  /** Adding an element to a listed set: a no-op, or a listed one more. */
  lemma ListsAdd<T>(r: seq<T>, s: set<T>, x: T)
    requires Lists(r, s)
    ensures x in s ==> Lists(r, s + {x})
    ensures x !in s ==> Lists(r + [x], s + {x})
    ensures Lists(r, s + {})
  {
    if x in s {
      assert s + {x} == s;
    }
    assert s + {} == s;
  }

  lemma TableStep(base: Routes, peer: SocketAddr, done: set<Network>, net: Network, policy: Approval, now: Time)
    requires policy.Valid() && net.Valid() && forall n :: n in done ==> n.Valid()
    ensures base + (map n | n in done + {net} :: Route(n, peer, policy.Approves(n), now))
         == (base + (map n | n in done :: Route(n, peer, policy.Approves(n), now)))[net := Route(net, peer, policy.Approves(net), now)]
  {
    hide Approval.Approves;
  }

  /** A network is held during the advert when it was held before or is done, and owned accordingly. */
  lemma HeldDuring(m: Routes, peer: SocketAddr, all: set<Network>, done: set<Network>, net: Network,
                   policy: Approval, now: Time, at: Routes, o: Outcome)
    requires policy.Valid() && net in all && Progress(m, peer, all, done, policy, now, at, o)
    ensures net in at <==> net in m || net in done
    ensures net in at ==> at[net].peer == if net in done then peer else m[net].peer
  {
    hide Approval.Approves, Lists, Fresh, Moved, Gone;
  }

  lemma ProgressStep(m: Routes, peer: SocketAddr, all: set<Network>, done: set<Network>, net: Network,
                     policy: Approval, now: Time, at: Routes, o: Outcome)
    requires policy.Valid() && net in all && Progress(m, peer, all, done, policy, now, at, o)
    ensures Progress(m, peer, all, done + {net}, policy, now,
                     at[net := Route(net, peer, policy.Approves(net), now)], Noted(o, at, net, peer, policy))
  {
    hide Approval.Approves, Lists, Fresh, Moved, Kept, Gone;
    HeldDuring(m, peer, all, done, net, policy, now, at, o);
    TableStep(Kept(m, peer, all), peer, done, net, policy, now);
    FreshStep(m, done, net, policy, true);
    FreshStep(m, done, net, policy, false);
    MovedStep(m, done, net, peer);
    ListsAdd(o.approved, Fresh(m, done, policy, true), net);
    ListsAdd(o.awaiting, Fresh(m, done, policy, false), net);
    ListsAdd(o.moved, Moved(m, done, peer), net);
    FreshDone(m, done, net, policy);
  }

  lemma FreshDone(m: Routes, done: set<Network>, net: Network, policy: Approval)
    requires policy.Valid() && net.Valid() && forall n :: n in done ==> n.Valid()
    ensures net in done && net !in m ==> net in Fresh(m, done, policy, policy.Approves(net))
  {
  }

  lemma ProgressDone(m: Routes, peer: SocketAddr, all: set<Network>, policy: Approval, now: Time, at: Routes, o: Outcome)
    requires policy.Valid() && Progress(m, peer, all, all, policy, now, at, o)
    ensures at == Advertised(m, peer, all, policy, now) && Reports(o, m, peer, all, policy)
  {
    hide Approval.Approves, Lists;
    assert (set n | n in all && n !in m && policy.Approves(n)) == Fresh(m, all, policy, true);
    assert (set n | n in all && n !in m && !policy.Approves(n)) == Fresh(m, all, policy, false);
  }

  /** What a scan of the vector sees of each route, and what the longest match decides. */
  lemma ScanStart(routes: seq<Route>, policy: Approval, dst: IpAddr)
    requires Unique(routes) && policy.Valid() && RoutesOk(Index(routes), policy)
    ensures forall r :: r in routes ==> r.net.Valid() && r.net in Index(routes) && Index(routes)[r.net] == r
    ensures Subnets.Lookup(Index(routes), dst).None? <==> forall n :: !Matches(Index(routes), dst, n)
    ensures forall n :: Best(Index(routes), dst, n) ==> Subnets.Lookup(Index(routes), dst) == Some(Index(routes)[n].peer)
  {
    hide Subnets.Lookup, Network.Contains, Network.Valid, Index, Best, Matches;
    LookupExact(Index(routes), policy, dst);
    IndexHolds(routes);
  }

  /** A match no shorter than any other in the vector is the best one. */
  lemma ScanEnd(routes: seq<Route>, dst: IpAddr, best: Option<Route>)
    requires best.Some? ==> best.value in routes && Matches(Index(routes), dst, best.value.net)
    requires forall k :: 0 <= k < |routes| && Matches(Index(routes), dst, routes[k].net) ==>
               best.Some? && routes[k].net.plen <= best.value.net.plen
    ensures best.Some? ==> Best(Index(routes), dst, best.value.net)
    ensures best.None? ==> forall n :: !Matches(Index(routes), dst, n)
  {
    hide Network.Contains, Network.Valid, Index;
    IndexHolds(routes);
  }
}
