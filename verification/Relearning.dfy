/** Exactly which leased addresses stay in agreement with what the server has learned. */
module Relearning {
  import opened Bytes
  import opened Ring
  import opened Messages
  import opened Codec
  import opened CodecLaws
  import opened Subnets
  import opened Server
  import opened ServerLaws
  import L = LeaseTable
  import opened LeaseLaws
  import Names

  ghost predicate RunFrom(c: Config, t: L.Table, states: seq<State>, events: seq<Event>) {
    Run(c, states, events) && states[0].leases == t
  }

  ghost predicate AgreesThroughout(states: seq<State>, ip: IpAddr) {
    forall i :: 0 <= i < |states| ==> AgreesAt(states[i].clients, states[i].leases, ip)
  }

  /** In every run that starts on the table, the address agrees in every state. */
  ghost predicate AlwaysAgrees(c: Config, t: L.Table, ip: IpAddr) {
    forall states: seq<State>, events: seq<Event> :: RunFrom(c, t, states, events) ==> AgreesThroughout(states, ip)
  }

  // ---- Without IPv6 no IPv6 address is ever leased ----

  lemma AllocateAddsNoIp6(c: L.Config, t: L.Table, req: AssignReq, peer: SocketAddr, now: Time,
                          t': L.Table, reply: Assign, reclaimed: Option<NodeId>)
    requires c.Valid() && c.serverIp6.None? && L.Allocates(c, t, req, peer, now, t', reply, reclaimed)
    ensures t'.byIp6.Keys <= t.byIp6.Keys
  {
    hide L.Chooser.UsableIp4, L.Chooser.Accepts;
  }

  lemma StepAddsNoIp6(c: Config, s: State, e: Event, s': State)
    requires c.Valid() && c.assign.serverIp6.None? && Step(c, s, e, s')
    ensures s'.leases.byIp6.Keys <= s.leases.byIp6.Keys
  {
    hide L.Allocates, Parsed, MayLearn, Advertised, AdvertReply, NameReply, Names.Table.Advertise, UnlearnAll, Lists;
    match e {
      case Sweep(k) =>
        var dropped :| Lists(dropped, s.leases.Rows(s.leases.Expired(k.wall, c.assign.ttl)))
          && s' == UnlearnAll(Swept(c, s, k), dropped, k.now, c.leaseTtl);
        UnlearnAllShrinks(Swept(c, s, k), dropped, k.now, c.leaseTtl);
      case Datagram(peer, p, k, act) =>
        if p != [] && p[0] == 0 && Parsed(p).Some? {
          var m := Parsed(p).value;
          var reply :| ControlStep(c, s, peer, m, k, s', reply) && act == AnswerOrDone(reply);
          if m.Request? {
            var reclaimed, dropped :| RequestStep(c, s, m.req, peer, k, s', reply.value.assign, reclaimed, dropped);
            AllocateAddsNoIp6(c.assign, s.leases, m.req, peer, k.wall, s'.leases, reply.value.assign, reclaimed);
          }
        }
    }
  }

  lemma {:induction false} RunAddsNoIp6(c: Config, states: seq<State>, events: seq<Event>, i: nat)
    requires Run(c, states, events) && c.assign.serverIp6.None? && i < |states|
    ensures states[i].leases.byIp6.Keys <= states[0].leases.byIp6.Keys
  {
    hide Step, L.Table.Consistent, Names.Table.Ok;
    if i > 0 {
      RunAddsNoIp6(c, states, events, i - 1);
      StepAddsNoIp6(c, states[i - 1], events[i - 1], states[i]);
    }
  }

  /** An address that replies relearn, or that nobody held at the start, agrees in every run. */
  lemma AgreesWhenRelearned(c: Config, t: L.Table, ip: IpAddr)
    requires Relearned(c.assign, ip) || Holder(t, ip).None?
    ensures AlwaysAgrees(c, t, ip)
  {
    hide L.Table.Consistent, RoutesOk, Step, Names.Table.Ok;
    forall states: seq<State>, events: seq<Event> | RunFrom(c, t, states, events) ensures AgreesThroughout(states, ip) {
      forall i | 0 <= i < |states| ensures AgreesAt(states[i].clients, states[i].leases, ip) {
        RunOk(c, states, events, i);
        if !Relearned(c.assign, ip) {
          RunAddsNoIp6(c, states, events, i);
        }
      }
    }
  }

  // ---- A run that loses the agreement ----

  const FIRST: SocketAddr := SocketAddr(V4(0), 1)
  const SECOND: SocketAddr := SocketAddr(V4(0), 2)
  const START: Clock := Clock(0, 0, 0)

  function Ask(n: NodeId): seq<Byte> {
    Encoded(Request(AssignReq(0, n, 0, None)))
  }

  /** The answer to a node whose lease is live, and the state it leaves. */
  function AnswerTo(c: Config, s: State, n: NodeId): Assign
    requires c.Valid() && n in s.leases.byNode
  {
    L.OkReply(c.assign, s.leases.byNode[n].ip4, s.leases.byNode[n].ip6)
  }

  function Asked(c: Config, s: State, n: NodeId, peer: SocketAddr): State
    requires c.Valid() && n in s.leases.byNode
  {
    s.(leases := s.leases.Refreshed(n, peer, 0), clients := LearnGrant(s.clients, AnswerTo(c, s, n), peer, 0))
  }

  /** At wall clock 0 no lease is expired, so a node that holds one is answered from it. */
  lemma AskIsAnswered(c: Config, s: State, n: NodeId, peer: SocketAddr)
    requires c.Valid() && n in s.leases.byNode
    ensures Step(c, s, Datagram(peer, Ask(n), START, Answer(Reply(AnswerTo(c, s, n)))), Asked(c, s, n, peer))
  {
    hide L.Table.Refreshed, L.Table.Without, L.OkReply, Parsed, LearnGrant;
    var req := AssignReq(0, n, 0, None);
    var s', reply := Asked(c, s, n, peer), AnswerTo(c, s, n);
    assert s.leases.Expired(0, c.assign.ttl) == {};
    WithoutNobody(s.leases);
    assert L.Allocates(c.assign, s.leases, req, peer, 0, s'.leases, reply, None);
    assert Lists([], s.leases.Rows(L.Removed(c.assign, s.leases, 0, None)));
    assert RequestStep(c, s, req, peer, START, s', reply, None, []);
    assert ControlStep(c, s, peer, Request(req), START, s', Some(Reply(reply)));
    RequestBack(req);
  }

  /** An IPv6 packet from `x`. */
  function PacketFrom(x: Ip6): seq<Byte> {
    [0x60, 0, 0, 0, 0, 0, 0, 0] + BigEndian(x, 16) + BigEndian(0, 16) + []
  }

  lemma PacketIsLearned(c: Config, s: State, x: Ip6, peer: SocketAddr, n: NodeId)
    requires c.Valid() && Holder(s.leases, V6(x)) == Some(n) && NodeForPeer(s.leases, peer) == Some(n)
    ensures var s' := s.(clients := Learn(s.clients, V6(x), peer, 0));
            Step(c, s, Datagram(peer, PacketFrom(x), START, Decide(s', peer, PacketFrom(x), 0, c.leaseTtl)), s')
  {
    hide Parsed, ControlStep, Decide, IpSrc, BigEndian;
    PacketAddresses6([0x60, 0, 0, 0, 0, 0, 0, 0], x, 0, []);
    assert PacketFrom(x)[0] == 0x60;
  }

  /**
   * On a server without IPv6, for any consistent table with an IPv6 lease: its node asks from one
   * endpoint, sends an IPv6 packet from the leased address, and asks again from another endpoint.
   * The lease then follows the second endpoint and the learned entry stays with the first.
   */
  lemma AgreementLost(c: Config, t: L.Table, x: Ip6) returns (states: seq<State>, events: seq<Event>)
    requires c.Valid() && t.Consistent() && c.assign.serverIp6.None? && Holder(t, V6(x)).Some?
    ensures RunFrom(c, t, states, events) && |states| == 4
    ensures var n := Holder(t, V6(x)).value;
            && Holder(states[3].leases, V6(x)) == Some(n) && n in states[3].leases.byNode
            && states[3].leases.byNode[n].lastPeer == Some(SECOND)
            && V6(x) in states[3].clients && states[3].clients[V6(x)].peer == FIRST
    ensures !AgreesAt(states[3].clients, states[3].leases, V6(x))
  {
    hide Step, Parsed, Encoded, BigEndian, L.Table.Consistent, Decide;
    var n := Holder(t, V6(x)).value;
    HolderHasRow(t, V6(x));
    var s0 := State(map[], map[], t, Names.Table(None, map[], map[]));
    var s1 := Asked(c, s0, n, FIRST);
    var s2 := s1.(clients := Learn(s1.clients, V6(x), FIRST, 0));
    var s3 := Asked(c, s2, n, SECOND);
    AskIsAnswered(c, s0, n, FIRST);
    PacketIsLearned(c, s1, x, FIRST, n);
    AskIsAnswered(c, s2, n, SECOND);
    states := [s0, s1, s2, s3];
    events := [Datagram(FIRST, Ask(n), START, Answer(Reply(AnswerTo(c, s0, n)))),
               Datagram(FIRST, PacketFrom(x), START, Decide(s2, FIRST, PacketFrom(x), 0, c.leaseTtl)),
               Datagram(SECOND, Ask(n), START, Answer(Reply(AnswerTo(c, s2, n))))];
  }

  // ---- Exactly when ----

  /** An address agrees in every run from a table exactly when replies relearn it or nobody holds it there. */
  lemma AgreesExactly(c: Config, t: L.Table, ip: IpAddr)
    requires c.Valid() && t.Consistent()
    ensures AlwaysAgrees(c, t, ip) <==> Relearned(c.assign, ip) || Holder(t, ip).None?
  {
    if Relearned(c.assign, ip) || Holder(t, ip).None? {
      AgreesWhenRelearned(c, t, ip);
    } else {
      var states, events := AgreementLost(c, t, ip.ip6);
      assert !AgreesThroughout(states, ip);
    }
  }

  /** Every IPv6 lease, if there is any, is of a server that has IPv6. */
  predicate Served(c: L.Config, t: L.Table) {
    forall n :: n in t.byNode && t.byNode[n].ip6.Some? ==> c.serverIp6.Some?
  }

  /** So all addresses agree in every run from a table exactly when the server has IPv6 or the table no IPv6 lease. */
  lemma AgreementExactly(c: Config, t: L.Table)
    requires c.Valid() && t.Consistent()
    ensures (forall ip :: AlwaysAgrees(c, t, ip)) <==> Served(c.assign, t)
  {
    hide AlwaysAgrees;
    if Served(c.assign, t) {
      forall ip ensures AlwaysAgrees(c, t, ip) {
        AgreesExactly(c, t, ip);
        if Holder(t, ip).Some? {
          HolderHasRow(t, ip);
        }
      }
    } else {
      var n :| n in t.byNode && t.byNode[n].ip6.Some? && c.assign.serverIp6.None?;
      AgreesExactly(c, t, V6(t.byNode[n].ip6.value));
      HolderOfRow(t, n, V6(t.byNode[n].ip6.value));
    }
  }
}
