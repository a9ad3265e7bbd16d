/** Every control message comes back from the wire in its normal form, and nothing else does. */
module CodecLaws {
  import opened Bytes
  import opened Prefix
  import opened Messages
  import opened Subnets
  import opened Text
  import opened Codec

  function Normal6(ip: Option<Ip6>): Option<Ip6> {
    if ip == Some(0) then None else ip
  }

  function CanonicalAll(nets: seq<Network>): (r: seq<Network>)
    requires AllValid(nets)
    ensures |r| == |nets| && forall i :: 0 <= i < |nets| ==> r[i] == Canonical(nets[i])
  {
    if nets == [] then [] else [Canonical(nets[0])] + CanonicalAll(nets[1..])
  }

  function NormalEntry(p: PeerEntry): PeerEntry {
    p.(ip6 := Normal6(p.ip6))
  }

  function NormalEntries(ps: seq<PeerEntry>): (r: seq<PeerEntry>)
    ensures |r| == |ps| && forall i :: 0 <= i < |ps| ==> r[i] == NormalEntry(ps[i])
  {
    if ps == [] then [] else [NormalEntry(ps[0])] + NormalEntries(ps[1..])
  }

  /** The message as the wire carries it: host bits masked, lists cut, `::` absent. */
  function Normal(m: Control): Control
    requires WellFormed(m)
  {
    match m
    case Keepalive(_) => m
    case Advert(a) => Advert(a.(tunnelIp6 := Normal6(a.tunnelIp6), routes := CanonicalAll(Cut(a.routes, MAX_ROUTES))))
    case RoutePush(r) => RoutePush(CanonicalAll(Cut(r, MAX_ROUTES)))
    case Request(q) => Request(q.(hintIp6 := Normal6(q.hintIp6)))
    case Reply(a) =>
      Reply(a.(tunIp6 := if a.plen6 == 0 then None else Some(if a.tunIp6.Some? then a.tunIp6.value else 0)))
    case Name(n) => Name(n.(tunnelIp6 := Normal6(n.tunnelIp6)))
    case PeerPush(ps) => PeerPush(NormalEntries(Cut(ps, MAX_PEERS)))
  }

  predicate AllSurvive(ps: seq<PeerEntry>) {
    forall i :: 0 <= i < |ps| ==> NameSurvives(ps[i].name)
  }

  predicate NamesSurvive(m: Control) {
    match m
    case Name(n) => NameSurvives(n.name)
    case PeerPush(ps) => AllSurvive(Cut(ps, MAX_PEERS))
    case _ => true
  }

  lemma Ip6BytesBack(ip: Option<Ip6>)
    ensures SomeIp6(FromOctets6(Ip6Bytes(ip))) == Normal6(ip)
    ensures FromOctets6(Ip6Bytes(ip)) == if ip.Some? then ip.value else 0
  {
    hide BigEndian, FromOctets6;
    OctetsRoundTrip(0, if ip.Some? then ip.value else 0);
  }

  lemma HeadFields(kind: Byte, flag: bool, ip4: Ip4, ip6: Option<Ip6>, n: Byte, rest: seq<Byte>)
    ensures var p := Head(kind, flag, ip4, ip6, n) + rest;
            && p[0] == 0 && p[1] == kind && (p[2] % 2 == 1 <==> flag) && p[23] == n
            && FromOctets4(p[3..7]) == ip4 && SomeIp6(FromOctets6(p[7..23])) == Normal6(ip6)
            && p[24..] == rest
  {
    hide BigEndian, FromOctets4, FromOctets6, Ip6Bytes, Normal6;
    var p := Head(kind, flag, ip4, ip6, n) + rest;
    assert p[3..7] == BigEndian(ip4, 4);
    assert p[7..23] == Ip6Bytes(ip6);
    assert p[24..] == rest;
    OctetsRoundTrip(ip4, 0);
    Ip6BytesBack(ip6);
  }

  // ---- Routes ----

  lemma RouteBack(net: Network, rest: seq<Byte>)
    requires net.Valid()
    ensures ParseRoute(RouteBytes(net) + rest) == Some((Canonical(net), rest))
  {
    hide BigEndian, FromOctets4, FromOctets6, Canonical;
    CanonicalIsCanonical(net);
    var b := RouteBytes(net) + rest;
    match Canonical(net)
    case Net4(a, p) =>
      assert b[2..6] == BigEndian(a, 4) && b[6..] == rest;
      OctetsRoundTrip(a, 0);
    case Net6(a, p) =>
      assert b[2..18] == BigEndian(a, 16) && b[18..] == rest;
      OctetsRoundTrip(0, a);
  }

  lemma {:induction false} RoutesBack(nets: seq<Network>)
    requires AllValid(nets)
    ensures ParseRoutes(RoutesBytes(nets), |nets|) == Some(CanonicalAll(nets))
  {
    hide ParseRoute, RouteBytes, Canonical;
    if nets != [] {
      RouteBack(nets[0], RoutesBytes(nets[1..]));
      RoutesBack(nets[1..]);
    }
  }

  // ---- Peers ----

  lemma PeerBack(p: PeerEntry, rest: seq<Byte>)
    ensures ParsePeer(PeerBytes(p) + rest)
         == match FromUtf8(NameBytes(p.name))
            case None => None
            case Some(name) => Some((NormalEntry(p).(name := name), rest))
  {
    hide BigEndian, FromOctets4, FromOctets6, Ip6Bytes, FromUtf8, NameBytes, Normal6;
    var name := NameBytes(p.name);
    var b := PeerBytes(p) + rest;
    assert b[1..5] == BigEndian(p.ip4, 4);
    assert b[5..21] == Ip6Bytes(p.ip6);
    assert b[22..22 + |name|] == name && b[22 + |name|..] == rest;
    OctetsRoundTrip(p.ip4, 0);
    Ip6BytesBack(p.ip6);
    assert p.ip6.None? ==> Normal6(p.ip6) == None by {
      AbsentIsNormal(p.ip6);
    }
  }

  lemma AbsentIsNormal(ip: Option<Ip6>)
    ensures ip.None? ==> Normal6(ip) == None
  {
  }

  lemma {:induction false} PeersBack(ps: seq<PeerEntry>)
    ensures ParsePeers(PeersBytes(ps), |ps|) == Some(NormalEntries(ps)) <==> AllSurvive(ps)
  {
    hide ParsePeer, PeerBytes, NameSurvives, NormalEntry;
    if ps != [] {
      PeerBack(ps[0], PeersBytes(ps[1..]));
      PeersBack(ps[1..]);
      NameRoundTrip(ps[0].name);
      KeepsName(ps[0]);
      assert NormalEntries(ps)[1..] == NormalEntries(ps[1..]);
      assert AllSurvive(ps) <==> NameSurvives(ps[0].name) && AllSurvive(ps[1..]);
    }
  }

  lemma KeepsName(p: PeerEntry)
    ensures NormalEntry(p).name == p.name
  {
  }

  // ---- Messages ----

  lemma RequestBack(q: AssignReq)
    ensures Parsed(Encoded(Request(q))) == Some(Normal(Request(q)))
  {
    hide BigEndian, FromOctets4, FromOctets6, Ip6Bytes, Normal6;
    var p := Encoded(Request(q));
    assert p[3..19] == q.nodeId && p[19..23] == BigEndian(q.hintIp4, 4) && p[23..39] == Ip6Bytes(q.hintIp6);
    OctetsRoundTrip(q.hintIp4, 0);
    Ip6BytesBack(q.hintIp6);
  }

  lemma ReplyBack(a: Assign)
    ensures Parsed(Encoded(Reply(a))) == Some(Normal(Reply(a)))
  {
    hide BigEndian, FromOctets4, FromOctets6, Ip6Bytes;
    var p := Encoded(Reply(a));
    assert p[3..7] == BigEndian(a.tunIp, 4) && p[7..11] == BigEndian(a.netmask, 4) && p[11..15] == BigEndian(a.peerIp, 4);
    assert p[15..31] == Ip6Bytes(a.tunIp6) && p[33..37] == BigEndian(a.ttlSecs, 4);
    OctetsRoundTrip(a.tunIp, 0);
    OctetsRoundTrip(a.netmask, 0);
    OctetsRoundTrip(a.peerIp, 0);
    OctetsRoundTrip(a.ttlSecs, 0);
    Ip6BytesBack(a.tunIp6);
  }

  lemma AdvertBack(a: RouteAdvert)
    requires AllValid(a.routes)
    ensures Parsed(Encoded(Advert(a))) == Some(Normal(Advert(a)))
  {
    hide Head, RoutesBytes, FromOctets4, FromOctets6, Normal6, ParseRoutes;
    var routes := Cut(a.routes, MAX_ROUTES);
    HeadFields(TYPE_ROUTE_ADVERT, a.acceptRoutes, a.tunnelIp, a.tunnelIp6, |routes|, RoutesBytes(routes));
    RoutesBack(routes);
  }

  lemma RoutePushBack(r: seq<Network>)
    requires AllValid(r)
    ensures Parsed(Encoded(RoutePush(r))) == Some(Normal(RoutePush(r)))
  {
    hide RoutesBytes, ParseRoutes;
    var routes := Cut(r, MAX_ROUTES);
    assert Encoded(RoutePush(r))[4..] == RoutesBytes(routes);
    RoutesBack(routes);
  }

  lemma NameBack(n: NameAdvert)
    ensures Parsed(Encoded(Name(n))) == Some(Normal(Name(n))) <==> NameSurvives(n.name)
  {
    hide Head, FromOctets4, FromOctets6, Normal6, FromUtf8, NameSurvives, NameBytes;
    HeadFields(TYPE_NAME_ADVERT, n.wantPeers, n.tunnelIp, n.tunnelIp6, |NameBytes(n.name)|, NameBytes(n.name));
    NameRoundTrip(n.name);
  }

  lemma PeerPushBack(ps: seq<PeerEntry>)
    ensures Parsed(Encoded(PeerPush(ps))) == Some(Normal(PeerPush(ps))) <==> AllSurvive(Cut(ps, MAX_PEERS))
  {
    hide PeersBytes, ParsePeers, AllSurvive;
    var peers := Cut(ps, MAX_PEERS);
    assert Encoded(PeerPush(ps))[4..] == PeersBytes(peers);
    PeersBack(peers);
  }

  /** Encoding and parsing gives the normal form, exactly when every name in it survives the cut. */
  lemma MessageRoundTrip(m: Control)
    requires WellFormed(m)
    ensures Parsed(Encoded(m)) == Some(Normal(m)) <==> NamesSurvive(m)
  {
    hide Parsed, Encoded, Normal;
    match m
    case Keepalive(ip) => KeepaliveBack(ip);
    case Advert(a) => AdvertBack(a);
    case RoutePush(r) => RoutePushBack(r);
    case Request(q) => RequestBack(q);
    case Reply(a) => ReplyBack(a);
    case Name(n) => NameBack(n);
    case PeerPush(ps) => PeerPushBack(ps);
  }

  lemma KeepaliveBack(ip: Option<Ip4>)
    ensures Parsed(Encoded(Keepalive(ip))) == Some(Normal(Keepalive(ip)))
  {
    hide BigEndian, FromOctets4;
    if ip.Some? {
      assert Encoded(Keepalive(ip))[1..5] == BigEndian(ip.value, 4);
      OctetsRoundTrip(ip.value, 0);
    }
  }

  // ---- Lost names ----

  /** The last byte within the limit is not ASCII: the cut leaves the front of a character. */
  predicate NameLost(name: string) {
    var raw := Utf8(name);
    var end := if |raw| <= MAX_NAME_LEN then |raw| else MAX_NAME_LEN;
    end > 0 && raw[end - 1] >= 0x80
  }

  /** Walking back from a byte that is not ASCII stops just behind the first byte of its character. */
  lemma {:induction false} WalkBackStops(name: string, end: nat)
    requires 0 < end <= |Utf8(name)| && Utf8(name)[end - 1] >= 0x80
    ensures WalkBack(Utf8(name), end) > 0 && Utf8(name)[WalkBack(Utf8(name), end) - 1] >= 0xC0
  {
    if Continues(Utf8(name)[end - 1]) {
      BeforeContinuation(name, end - 1);
      WalkBackStops(name, end - 1);
    }
  }

  /** The bytes of a name do not decode exactly when the last byte within the limit is not ASCII. */
  lemma NameLostExactly(name: string)
    ensures FromUtf8(NameBytes(name)) == None <==> NameLost(name)
  {
    hide FromUtf8, Text.Utf8;
    var raw := Utf8(name);
    var end := if |raw| <= MAX_NAME_LEN then |raw| else MAX_NAME_LEN;
    if NameLost(name) {
      WalkBackStops(name, end);
      CutLeadFails(NameBytes(name));
    } else {
      CutAtAscii(name, end);
    }
  }

  /** A name advert is not parsed by its receiver exactly when its name is lost. */
  lemma AdvertLostExactly(n: NameAdvert)
    ensures Parsed(Encoded(Name(n))) == None <==> NameLost(n.name)
  {
    hide Head, FromOctets4, FromOctets6, Normal6, FromUtf8, NameBytes, NameLost;
    HeadFields(TYPE_NAME_ADVERT, n.wantPeers, n.tunnelIp, n.tunnelIp6, |NameBytes(n.name)|, NameBytes(n.name));
    NameLostExactly(n.name);
  }

  lemma {:induction false} PeersLostExactly(ps: seq<PeerEntry>)
    ensures ParsePeers(PeersBytes(ps), |ps|) == None <==> exists i :: 0 <= i < |ps| && NameLost(ps[i].name)
  {
    hide ParsePeer, PeerBytes, NameLost, NormalEntry, FromUtf8, NameBytes;
    if ps != [] {
      PeerBack(ps[0], PeersBytes(ps[1..]));
      PeersLostExactly(ps[1..]);
      NameLostExactly(ps[0].name);
      if i :| 0 <= i < |ps| && NameLost(ps[i].name) {
        assert i > 0 ==> NameLost(ps[1..][i - 1].name);
      }
      if i :| 0 <= i < |ps[1..]| && NameLost(ps[1..][i].name) {
        assert NameLost(ps[i + 1].name);
      }
    }
  }

  /** One lost name among the peers pushed, and the whole push is not parsed. */
  lemma PushLostExactly(ps: seq<PeerEntry>)
    ensures Parsed(Encoded(PeerPush(ps))) == None <==>
            exists i :: 0 <= i < |Cut(ps, MAX_PEERS)| && NameLost(Cut(ps, MAX_PEERS)[i].name)
  {
    hide PeersBytes, ParsePeers, NameLost;
    var peers := Cut(ps, MAX_PEERS);
    assert Encoded(PeerPush(ps))[4..] == PeersBytes(peers);
    PeersLostExactly(peers);
  }

  /** Such names exist: one accented letter. */
  lemma LostNameExample()
    ensures NameLost("\U{E9}")
  {
    assert Utf8("\U{E9}") == EncodeChar('\U{E9}') + Utf8("");
  }

  // ---- What can be parsed is in normal form ----

  lemma ParsedRouteIsCanonical(b: seq<Byte>)
    ensures ParseRoute(b).Some? ==> IsCanonical(ParseRoute(b).value.0)
  {
    hide FromOctets4, FromOctets6, Canonical;
    if |b| >= 6 && b[0] == 4 && b[1] as nat <= W4 {
      CanonicalIsCanonical(Net4(FromOctets4(b[2..6]), b[1]));
    } else if |b| >= 18 && b[0] == 6 && b[1] as nat <= W6 {
      CanonicalIsCanonical(Net6(FromOctets6(b[2..18]), b[1]));
    }
  }

  lemma CanonicalStays(net: Network)
    requires IsCanonical(net)
    ensures Canonical(net) == net
  {
  }

  lemma {:induction false} ParsedRoutesAreNormal(b: seq<Byte>, count: nat)
    requires ParseRoutes(b, count).Some?
    ensures |ParseRoutes(b, count).value| == count
    ensures forall i :: 0 <= i < count ==> IsCanonical(ParseRoutes(b, count).value[i])
    ensures CanonicalAll(ParseRoutes(b, count).value) == ParseRoutes(b, count).value
    decreases count
  {
    hide ParseRoute, Canonical, IsCanonical;
    if count > 0 {
      var (net, rest) := ParseRoute(b).value;
      ParsedRouteIsCanonical(b);
      CanonicalStays(net);
      ParsedRoutesAreNormal(rest, count - 1);
      assert ParseRoutes(b, count).value[1..] == ParseRoutes(rest, count - 1).value;
    }
  }

  lemma {:induction false} ParsedPeersAreNormal(b: seq<Byte>, count: nat)
    requires ParsePeers(b, count).Some?
    ensures |ParsePeers(b, count).value| == count
    ensures NormalEntries(ParsePeers(b, count).value) == ParsePeers(b, count).value
    decreases count
  {
    if count > 0 {
      var (p, rest) := ParsePeer(b).value;
      assert NormalEntry(p) == p by {
        hide FromOctets4, FromOctets6, FromUtf8;
      }
      hide ParsePeer, NormalEntry;
      ParsedPeersAreNormal(rest, count - 1);
      assert ParsePeers(b, count).value[1..] == ParsePeers(rest, count - 1).value;
    }
  }

  /** Whatever parses is well formed and already in normal form, so re-encoding loses nothing more. */
  lemma ParsedIsNormal(b: seq<Byte>)
    requires Parsed(b).Some?
    ensures WellFormed(Parsed(b).value) && Normal(Parsed(b).value) == Parsed(b).value
    ensures NamesSurvive(Parsed(b).value) ==> Parsed(Encoded(Parsed(b).value)) == Parsed(b)
  {
    hide FromOctets4, FromOctets6, FromUtf8, ParseRoutes, ParsePeers, CanonicalAll, NormalEntries, NamesSurvive, Encoded;
    var m := Parsed(b).value;
    match m {
      case Advert(_) => ParsedRoutesAreNormal(b[24..], b[23]);
      case RoutePush(_) => ParsedRoutesAreNormal(b[4..], b[3]);
      case PeerPush(_) => ParsedPeersAreNormal(b[4..], b[3]);
      case _ =>
    }
    MessageRoundTrip(m);
  }
}
