/** Advertised subnet routes, their approval and longest-prefix matching (src/mesh.rs, `SubnetTable`). */
module Subnets {
  import opened Bytes
  import opened Prefix
  import opened Ring
  import opened Messages

  /** `canonical`: host bits masked off. */
  function Canonical(net: Network): (r: Network)
    requires net.Valid()
    ensures r.Valid() && r.plen == net.plen && r.Net4? == net.Net4? && r.Addr() == net.First()
  {
    match net
    case Net4(a, p) => Net4(Base(a, W4 - p), p)
    case Net6(a, p) => Net6(Base(a, W6 - p), p)
  }

  predicate IsCanonical(net: Network) {
    net.Valid() && net.Addr() == net.First()
  }

  lemma CanonicalIsCanonical(net: Network)
    requires net.Valid()
    ensures IsCanonical(Canonical(net)) && Canonical(Canonical(net)) == Canonical(net)
  {
    BaseNested(net.Addr(), net.HostBits(), net.HostBits());
  }

  /** The address of a network is within its bounds, and it contains exactly the addresses there. */
  lemma ContainsExactly(net: Network, ip: IpAddr)
    requires net.Valid()
    ensures net.First() <= net.Addr() <= net.Last()
    ensures net.Contains(ip) <==> match ip
                                  case V4(a) => net.Net4? && net.First() <= a <= net.Last()
                                  case V6(a) => net.Net6? && net.First() <= a <= net.Last()
  {
    BaseExact(net.Addr(), net.Addr(), net.HostBits());
    match ip
    case V4(a) => BaseExact(net.Addr(), a, net.HostBits());
    case V6(a) => BaseExact(net.Addr(), a, net.HostBits());
  }

  /** How the network library decides `is_supernet_of`: by the stored address and the last one. */
  predicate IsSupernetOf(a: Network, n: Network)
    requires a.Valid() && n.Valid()
  {
    a.Net4? == n.Net4? && a.Addr() <= n.Addr() && n.Last() <= a.Last()
  }

  /** Allowlist entries are networks, so their prefix lengths fit. */
  datatype Approval = Approval(auto: bool, allowlist: seq<Network>)
  {
    predicate Valid() {
      forall i :: 0 <= i < |allowlist| ==> allowlist[i].Valid()
    }

    predicate Approves(net: Network)
      requires Valid() && net.Valid()
    {
      auto || exists i :: 0 <= i < |allowlist| && IsSupernetOf(allowlist[i], net)
    }
  }

  datatype Route = Route(net: Network, peer: SocketAddr, approved: bool, lastSeen: Time)

  /** The route table without its order: each held network with its route. */
  type Routes = map<Network, Route>

  ghost predicate RoutesOk(m: Routes, policy: Approval)
    requires policy.Valid()
  {
    forall n :: n in m ==> IsCanonical(n) && m[n].net == n && m[n].approved == policy.Approves(n)
  }

  function CanonicalSet(nets: seq<Network>): set<Network>
    requires forall i :: 0 <= i < |nets| ==> nets[i].Valid()
  {
    set i | 0 <= i < |nets| :: Canonical(nets[i])
  }

  /** The table after `peer` advertises `nets`: exactly those become its own, last advertiser wins. */
  ghost function Advertised(m: Routes, peer: SocketAddr, nets: set<Network>, policy: Approval, now: Time): Routes
    requires policy.Valid() && forall n :: n in nets ==> n.Valid()
  {
    (map n | n in m && m[n].peer != peer :: m[n]) + (map n | n in nets :: Route(n, peer, policy.Approves(n), now))
  }

  ghost function Expired(m: Routes, ttl: nat, now: Time): Routes {
    map n | n in m && Idle(now, m[n].lastSeen) <= ttl :: m[n]
  }

  /** `n` is a held, approved network that contains `dst`. */
  predicate Matches(m: Routes, dst: IpAddr, n: Network) {
    n in m && m[n].approved && n.Valid() && n.Contains(dst)
  }

  /** A longest match for `dst`. */
  ghost predicate Best(m: Routes, dst: IpAddr, n: Network) {
    Matches(m, dst, n) && forall k :: Matches(m, dst, k) ==> k.plen <= n.plen
  }

  ghost function Lookup(m: Routes, dst: IpAddr): Option<SocketAddr> {
    if n :| Best(m, dst, n) then Some(m[n].peer) else None
  }

  ghost function RoutesFor(m: Routes, peer: SocketAddr): set<Network> {
    set n | n in m && m[n].approved && m[n].peer != peer
  }

  /** At most one held network of each prefix length contains a destination. */
  lemma OneMatchPerLength(m: Routes, policy: Approval, dst: IpAddr, a: Network, b: Network)
    requires policy.Valid() && RoutesOk(m, policy)
    requires Matches(m, dst, a) && Matches(m, dst, b) && a.plen == b.plen
    ensures a == b
  {
  }

  lemma {:induction false} LongestExists(nets: set<Network>)
    requires nets != {}
    ensures exists n :: n in nets && forall k :: k in nets ==> k.plen <= n.plen
    decreases |nets|
  {
    var n :| n in nets;
    if nets != {n} {
      assert nets - {n} != {};
      LongestExists(nets - {n});
      var b :| b in nets - {n} && forall k :: k in nets - {n} ==> k.plen <= b.plen;
      var best := if n.plen > b.plen then n else b;
      assert forall k :: k in nets ==> k.plen <= best.plen;
    }
  }

  /**
   * In a table that is in order the answer is the peer of the only longest approved match, whatever
   * the order of the routes; there is none exactly when no approved route contains the destination.
   */
  lemma LookupExact(m: Routes, policy: Approval, dst: IpAddr)
    requires policy.Valid() && RoutesOk(m, policy)
    ensures Lookup(m, dst).None? <==> forall n :: !Matches(m, dst, n)
    ensures forall n :: Best(m, dst, n) ==> Lookup(m, dst) == Some(m[n].peer)
  {
    hide Network.Contains, Network.Valid, RoutesOk;
    if n :| Matches(m, dst, n) {
      var all := set k | k in m && Matches(m, dst, k);
      assert n in all;
      LongestExists(all);
      var b :| b in all && forall k :: k in all ==> k.plen <= b.plen;
      assert Best(m, dst, b);
    }
    forall a, b | Best(m, dst, a) && Best(m, dst, b) ensures a == b {
      OneMatchPerLength(m, policy, dst, a, b);
    }
  }

  /** Every address of `n` is one of `a`. */
  ghost predicate Within(n: Network, a: Network)
    requires n.Valid() && a.Valid()
  {
    forall ip: IpAddr :: n.Contains(ip) ==> a.Contains(ip)
  }

  function AddrOf(net: Network, a: nat): IpAddr
    requires a < Pow2(net.Width())
  {
    Pow2Values();
    if net.Net4? then V4(a) else V6(a)
  }

  lemma EndsContained(net: Network)
    requires net.Valid()
    ensures net.Last() < Pow2(net.Width())
    ensures net.First() <= net.Last() && net.Contains(AddrOf(net, net.First())) && net.Contains(AddrOf(net, net.Last()))
  {
    hide Network.Contains;
    Pow2Values();
    BaseFits(net.Addr(), net.HostBits(), net.Width());
    ContainsExactly(net, AddrOf(net, net.First()));
    ContainsExactly(net, AddrOf(net, net.Last()));
  }

  /** The library's test is containment of all addresses, none of them before the entry's stored address. */
  lemma SupernetExactly(a: Network, n: Network)
    requires a.Valid() && IsCanonical(n)
    ensures n.Valid() && (IsSupernetOf(a, n) <==> Within(n, a) && a.Addr() <= n.First())
    ensures IsCanonical(a) ==> (IsSupernetOf(a, n) <==> Within(n, a))
  {
    hide Network.Contains, Base, Pow2;
    EndsContained(n);
    ContainsExactly(a, V4(0));
    if IsSupernetOf(a, n) {
      forall ip: IpAddr | n.Contains(ip) ensures a.Contains(ip) {
        ContainsExactly(n, ip);
        ContainsExactly(a, ip);
      }
    }
    if Within(n, a) {
      ContainsExactly(a, AddrOf(n, n.First()));
      ContainsExactly(a, AddrOf(n, n.Last()));
    }
  }

  /** An allowlist entry with all addresses of the network; for a canonical entry the second half says nothing. */
  ghost predicate Allows(a: Network, n: Network)
    requires a.Valid() && n.Valid()
  {
    Within(n, a) && (IsCanonical(a) || a.Addr() <= n.First())
  }

  /** Which held routes are approved, by addresses: all of them with auto approval, else those an entry allows. */
  lemma ApprovedExactly(m: Routes, policy: Approval, n: Network)
    requires policy.Valid() && RoutesOk(m, policy) && n in m
    ensures n.Valid()
    ensures policy.auto ==> m[n].approved
    ensures !policy.auto ==>
              (m[n].approved <==> exists i :: 0 <= i < |policy.allowlist| && Allows(policy.allowlist[i], n))
  {
    hide Within, IsSupernetOf, IsCanonical, Allows;
    assert IsCanonical(n);
    assert n.Valid() by {
      CanonicalIsValid(n);
    }
    forall i | 0 <= i < |policy.allowlist|
      ensures IsSupernetOf(policy.allowlist[i], n) <==> Allows(policy.allowlist[i], n)
    {
      AllowsIsSupernet(policy.allowlist[i], n);
    }
  }

  lemma CanonicalIsValid(n: Network)
    requires IsCanonical(n)
    ensures n.Valid()
  {
  }

  lemma AllowsIsSupernet(a: Network, n: Network)
    requires a.Valid() && IsCanonical(n)
    ensures n.Valid() && (IsSupernetOf(a, n) <==> Allows(a, n))
  {
    hide Within, IsSupernetOf;
    SupernetExactly(a, n);
  }

  /** With auto approval lookup answers exactly when a held network contains the destination. */
  lemma LookupUnderAuto(m: Routes, policy: Approval, dst: IpAddr)
    requires policy.Valid() && RoutesOk(m, policy) && policy.auto
    ensures Lookup(m, dst).Some? <==> exists n :: n in m && n.Valid() && n.Contains(dst)
  {
    hide Network.Contains, Lookup;
    LookupExact(m, policy, dst);
    if n :| n in m && n.Valid() && n.Contains(dst) {
      ApprovedExactly(m, policy, n);
      assert Matches(m, dst, n);
    }
  }

  /** Without auto approval only destinations inside some allowlist entry are ever routed. */
  lemma LookupWithinAllowlist(m: Routes, policy: Approval, dst: IpAddr)
    requires policy.Valid() && RoutesOk(m, policy) && !policy.auto && Lookup(m, dst).Some?
    ensures exists i :: 0 <= i < |policy.allowlist| && policy.allowlist[i].Contains(dst)
  {
    var n :| Best(m, dst, n);
    var i :| 0 <= i < |policy.allowlist| && IsSupernetOf(policy.allowlist[i], n);
    ContainsExactly(policy.allowlist[i], dst);
    ContainsExactly(n, dst);
  }

  lemma AdvertiseKeepsOk(m: Routes, peer: SocketAddr, nets: set<Network>, policy: Approval, now: Time)
    requires policy.Valid() && RoutesOk(m, policy)
    requires forall n :: n in nets ==> n.Valid() && IsCanonical(n)
    ensures RoutesOk(Advertised(m, peer, nets, policy, now), policy)
  {
  }

  /** Afterwards the peer owns exactly what it advertised, and its split-horizon set has none of it. */
  lemma AdvertiserOwnsExactly(m: Routes, peer: SocketAddr, nets: set<Network>, policy: Approval, now: Time)
    requires policy.Valid() && forall n :: n in nets ==> n.Valid()
    ensures var m' := Advertised(m, peer, nets, policy, now);
            && (set n | n in m' && m'[n].peer == peer) == nets
            && RoutesFor(m', peer) !! nets
            && (forall n :: n in nets ==> n in m' && m'[n].lastSeen == now)
            && forall n :: n in m && m[n].peer != peer && n !in nets ==> n in m' && m'[n] == m[n]
  {
  }

  /** The changes an advert reports. */
  datatype Outcome = Outcome(approved: seq<Network>, awaiting: seq<Network>, moved: seq<Network>, withdrawn: seq<Network>)
  {
    predicate Quiet() {
      approved == [] && awaiting == [] && moved == [] && withdrawn == []
    }
  }

  ghost predicate Reports(o: Outcome, m: Routes, peer: SocketAddr, nets: set<Network>, policy: Approval)
    requires policy.Valid() && forall n :: n in nets ==> n.Valid()
  {
    && Lists(o.approved, set n | n in nets && n !in m && policy.Approves(n))
    && Lists(o.awaiting, set n | n in nets && n !in m && !policy.Approves(n))
    && Lists(o.moved, set n | n in nets && n in m && m[n].peer != peer)
    && Lists(o.withdrawn, set n | n in m && m[n].peer == peer && n !in nets)
  }

  /** What an outcome says, told from the tables before and after. */
  lemma OutcomeMeans(o: Outcome, m: Routes, peer: SocketAddr, nets: set<Network>, policy: Approval, now: Time, n: Network)
    requires policy.Valid() && (forall k :: k in nets ==> k.Valid()) && Reports(o, m, peer, nets, policy)
    ensures var m' := Advertised(m, peer, nets, policy, now);
            && (n in o.approved <==> n !in m && n in m' && m'[n].approved)
            && (n in o.awaiting <==> n !in m && n in m' && !m'[n].approved)
            && (n in o.moved <==> n in m && m[n].peer != peer && n in m' && m'[n].peer == peer)
            && (n in o.withdrawn <==> n in m && m[n].peer == peer && n !in m')
  {
    hide Approval.Approves;
  }

  /** The owner and the approval of every held network. */
  ghost function Ownership(m: Routes): map<Network, (SocketAddr, bool)> {
    map n | n in m :: (m[n].peer, m[n].approved)
  }

  /** Under a fixed policy an advert is quiet exactly when no owner and no approval changed. */
  lemma QuietExactly(o: Outcome, m: Routes, peer: SocketAddr, nets: set<Network>, policy: Approval, now: Time)
    requires policy.Valid() && RoutesOk(m, policy) && (forall n :: n in nets ==> n.Valid())
    requires Reports(o, m, peer, nets, policy)
    ensures o.Quiet() <==> Ownership(Advertised(m, peer, nets, policy, now)) == Ownership(m)
  {
    if o.Quiet() {
      QuietKeepsOwnership(o, m, peer, nets, policy, now);
    } else {
      LoudChangesOwnership(o, m, peer, nets, policy, now);
    }
  }

  lemma QuietKeepsOwnership(o: Outcome, m: Routes, peer: SocketAddr, nets: set<Network>, policy: Approval, now: Time)
    requires policy.Valid() && RoutesOk(m, policy) && (forall n :: n in nets ==> n.Valid())
    requires Reports(o, m, peer, nets, policy) && o.Quiet()
    ensures Ownership(Advertised(m, peer, nets, policy, now)) == Ownership(m)
  {
    hide Approval.Approves;
    forall n | n in nets ensures n in m && m[n].peer == peer {
      assert n !in o.approved && n !in o.awaiting && n !in o.moved;
    }
    forall n | n in m && m[n].peer == peer ensures n in nets {
      assert n !in o.withdrawn;
    }
  }

  lemma LoudChangesOwnership(o: Outcome, m: Routes, peer: SocketAddr, nets: set<Network>, policy: Approval, now: Time)
    requires policy.Valid() && RoutesOk(m, policy) && (forall n :: n in nets ==> n.Valid())
    requires Reports(o, m, peer, nets, policy) && !o.Quiet()
    ensures Ownership(Advertised(m, peer, nets, policy, now)) != Ownership(m)
  {
    hide Approval.Approves;
    var before, after := Ownership(m), Ownership(Advertised(m, peer, nets, policy, now));
    if o.approved != [] {
      assert o.approved[0] in o.approved;
      assert o.approved[0] !in before && o.approved[0] in after;
    } else if o.awaiting != [] {
      assert o.awaiting[0] in o.awaiting;
      assert o.awaiting[0] !in before && o.awaiting[0] in after;
    } else if o.moved != [] {
      assert o.moved[0] in o.moved;
      assert before[o.moved[0]] != after[o.moved[0]];
    } else {
      assert o.withdrawn[0] in o.withdrawn;
      assert o.withdrawn[0] in before && o.withdrawn[0] !in after;
    }
  }
}
