/** Names over whole runs of the server: they stay unique, and what is pushed resolves. */
module ServerNames {
  import opened Bytes
  import opened Ring
  import opened Messages
  import opened Codec
  import opened Subnets
  import opened Server
  import L = LeaseTable
  import Names
  import MagicDns
  import NameTableObject

  lemma {:induction false} UnlearnAllKeepsNames(s: State, dropped: seq<L.Lease>, now: Time, ttl: nat)
    requires s.names.Ok()
    ensures UnlearnAll(s, dropped, now, ttl).names.Ok()
  {
    hide Names.Table.Ok;
    if dropped != [] {
      UnlearnAllKeepsNames(s, dropped[..|dropped| - 1], now, ttl);
      var l := dropped[|dropped| - 1];
      if l.lastPeer.Some? {
        Names.WithdrawKeepsOk(UnlearnAll(s, dropped[..|dropped| - 1], now, ttl).names, l.lastPeer.value);
      }
    }
  }

  lemma ControlKeepsNames(c: Config, s: State, peer: SocketAddr, m: Control, k: Clock, s': State, reply: Option<Control>)
    requires c.Valid() && WellFormed(m) && ControlStep(c, s, peer, m, k, s', reply)
    requires s.names.Ok() && |s.names.byPeer| < 253
    ensures s'.names.Ok()
  {
    hide Names.Table.Ok, Names.Table.Advertise, Advertised, AdvertReply, NameReply, MayLearn, L.Allocates;
    match m {
      case Request(req) =>
        var reclaimed, dropped :| RequestStep(c, s, req, peer, k, s', reply.value.assign, reclaimed, dropped);
        UnlearnAllKeepsNames(s.(leases := s'.leases), dropped, k.now, c.leaseTtl);
      case Name(n) =>
        Names.AdvertiseKeepsOk(s.names, peer, n.name, n.tunnelIp, n.tunnelIp6, NodeForPeer(s.leases, peer), k.now);
      case _ =>
    }
  }

  lemma StepKeepsNames(c: Config, s: State, e: Event, s': State)
    requires c.Valid() && Step(c, s, e, s') && s.names.Ok() && |s.names.byPeer| < 253
    ensures s'.names.Ok()
  {
    hide Names.Table.Ok, ControlStep, Parsed, MayLearn;
    match e {
      case Sweep(k) =>
        var dropped :| Lists(dropped, s.leases.Rows(s.leases.Expired(k.wall, c.assign.ttl)))
          && s' == UnlearnAll(Swept(c, s, k), dropped, k.now, c.leaseTtl);
        Names.WithoutKeepsOk(s.names, s.names.Idlers(c.leaseTtl, k.now));
        UnlearnAllKeepsNames(Swept(c, s, k), dropped, k.now, c.leaseTtl);
      case Datagram(peer, p, k, act) =>
        if p != [] && p[0] == 0 && Parsed(p).Some? {
          var reply :| ControlStep(c, s, peer, Parsed(p).value, k, s', reply) && act == AnswerOrDone(reply);
          ControlKeepsNames(c, s, peer, Parsed(p).value, k, s', reply);
        }
    }
  }

  /** While fewer than 254 names are held, server included, names stay unique in every run. */
  lemma {:induction false} RunNamesUnique(c: Config, states: seq<State>, events: seq<Event>, i: nat)
    requires Run(c, states, events) && i < |states|
    requires forall j :: 0 <= j < i ==> |states[j].names.byPeer| < 253
    ensures states[i].names.Ok()
  {
    hide Step, Names.Table.Ok, L.Table.Consistent;
    if i > 0 {
      RunNamesUnique(c, states, events, i - 1);
      StepKeepsNames(c, states[i - 1], events[i - 1], states[i]);
    }
  }

  /** A name advert that asks for the peers. */
  ghost predicate WantsPeers(p: seq<Byte>) {
    p != [] && p[0] == 0 && Parsed(p).Some? && Parsed(p).value.Name? && Parsed(p).value.nameAdvert.wantPeers
  }

  /** What a client that receives the answer resolves is exactly the table. */
  ghost predicate Delivers(act: Action, t: Names.Table, suffix: string) {
    && act.Answer? && act.reply.PeerPush?
    && var got := Parsed(Encoded(act.reply));
       && got.Some? && got.value.PeerPush?
       && MagicDns.ResolvesExactly(MagicDns.Replaced(got.value.peers, suffix), t, suffix)
  }

  /** A want-peers advert, and nothing else, is answered with a snapshot of the names. */
  lemma PushAnswersWant(c: Config, s: State, peer: SocketAddr, p: seq<Byte>, k: Clock, s': State, act: Action)
    requires c.Valid() && DatagramStep(c, s, peer, p, k, s', act)
    ensures WantsPeers(p) <==> act.Answer? && act.reply.PeerPush?
    ensures WantsPeers(p) ==> NameReply(s', true, Some(act.reply))
  {
    hide Parsed, RequestStep, AdvertReply, AfterName, Advertised, MaybeLearn;
    if p != [] && p[0] == 0 && Parsed(p).Some? {
      var reply :| ControlStep(c, s, peer, Parsed(p).value, k, s', reply) && act == AnswerOrDone(reply);
      if Parsed(p).value.Advert? {
        ReplyToAdvert(s', peer, Parsed(p).value.advert.acceptRoutes, reply);
      }
    }
  }

  lemma ReplyToAdvert(s: State, peer: SocketAddr, wanted: bool, reply: Option<Control>)
    requires AdvertReply(s, peer, wanted, reply)
    ensures reply.Some? ==> reply.value.RoutePush?
  {
  }

  /**
   * In every run in which fewer than 254 names are held, a want-peers advert is answered with a push
   * that, as long as all names fit in it, makes its receiver resolve exactly the names then held.
   */
  lemma RunNamesResolve(c: Config, states: seq<State>, events: seq<Event>, i: nat, suffix: string)
    requires Run(c, states, events) && i < |events| && events[i].Datagram?
    requires forall j :: 0 <= j <= i ==> |states[j].names.byPeer| < 253
    requires |states[i + 1].names.byPeer| < MAX_PEERS
    ensures WantsPeers(events[i].payload) <==> Delivers(events[i].act, states[i + 1].names, suffix)
  {
    hide Parsed, Encoded, Names.Table.Ok, L.Table.Consistent, DatagramStep, WantsPeers, MagicDns.ResolvesExactly, MagicDns.Replaced;
    RunNamesUnique(c, states, events, i + 1);
    assert Step(c, states[i], events[i], states[i + 1]);
    var e, t := events[i], states[i + 1].names;
    PushAnswersWant(c, states[i], e.peer, e.payload, e.clock, states[i + 1], e.act);
    if WantsPeers(e.payload) {
      var peers :| Lists(peers, t.byPeer.Keys) && (forall i :: 0 <= i < |peers| ==> peers[i] in t.byPeer)
        && Some(e.act.reply) == Some(PeerPush(NameTableObject.Snapshot(t, peers)));
      MagicDns.NamesResolve(t, peers, suffix);
    }
  }
}
