/** The grammar of control messages, byte by byte, and that the parser recognizes exactly it (src/mesh.rs). */
module Wire {
  import opened Bytes
  import opened Prefix
  import opened Messages
  import opened Subnets
  import opened Text
  import opened Codec
  import opened CodecLaws

  /** The bytes hold the IPv6 address; all zeros stand for none. */
  predicate Holds6(b: seq<Byte>, ip: Option<Ip6>) {
    FromBigEndian(b) == (if ip.Some? then ip.value else 0) && ip != Some(0)
  }

  /** Text and its length byte, at most 32, up to the end. */
  predicate HoldsName(b: seq<Byte>, n: Byte, name: string) {
    n as int <= 32 && |b| == n as int && b == Utf8(name)
  }

  // ---- Routes and peers ----

  function RouteSize(net: Network): nat {
    if net.Net4? then 6 else 18
  }

  /** A route at the front: family, prefix length and address, whose host bits do not count. */
  predicate RouteAt(b: seq<Byte>, net: Network) {
    && |b| >= RouteSize(net) && b[1] as int == net.plen && net.plen <= net.Width()
    && match net {
         case Net4(a, plen) => b[0] == 4 && a == Base(FromBigEndian(b[2..6]), 32 - plen)
         case Net6(a, plen) => b[0] == 6 && a == Base(FromBigEndian(b[2..18]), 128 - plen)
       }
  }

  predicate RoutesAt(b: seq<Byte>, nets: seq<Network>) {
    if nets == [] then b == []
    else RouteAt(b, nets[0]) && RoutesAt(b[RouteSize(nets[0])..], nets[1..])
  }

  /** A peer at the front: flags, both addresses, the second only if flagged, and the name. */
  predicate PeerAt(b: seq<Byte>, p: PeerEntry) {
    && |b| >= 22 && b[21] as int <= 32 && |b| >= 22 + b[21] as int
    && FromBigEndian(b[1..5]) == p.ip4
    && (if b[0] % 2 == 1 then Holds6(b[5..21], p.ip6) else p.ip6 == None)
    && HoldsName(b[22..22 + b[21] as int], b[21], p.name)
  }

  predicate PeersAt(b: seq<Byte>, ps: seq<PeerEntry>) {
    if ps == [] then b == []
    else PeerAt(b, ps[0]) && PeersAt(b[22 + b[21] as int..], ps[1..])
  }

  // ---- Messages ----

  /** The common head of a route advert and a name advert: flags, both addresses, a count. */
  predicate HeadAt(b: seq<Byte>, flag: bool, ip4: Ip4, ip6: Option<Ip6>) {
    |b| >= 24 && (b[2] % 2 == 1 <==> flag) && FromBigEndian(b[3..7]) == ip4 && Holds6(b[7..23], ip6)
  }

  predicate RequestAt(b: seq<Byte>, q: AssignReq) {
    && |b| == 39 && b[2] == q.flags && b[3..19] == q.nodeId
    && FromBigEndian(b[19..23]) == q.hintIp4 && Holds6(b[23..39], q.hintIp6)
  }

  /** In a reply a zero prefix length, not a zero address, says that there is no IPv6 address. */
  predicate ReplyAt(b: seq<Byte>, a: Assign) {
    && |b| == 37 && b[2] == (match a.status case Ok => 0 case Exhausted => 1 case NatMode => 2)
    && FromBigEndian(b[3..7]) == a.tunIp && FromBigEndian(b[7..11]) == a.netmask && FromBigEndian(b[11..15]) == a.peerIp
    && b[31] == a.plen6 && b[32] == a.flags && FromBigEndian(b[33..37]) == a.ttlSecs
    && (if b[31] == 0 then a.tunIp6 == None else a.tunIp6.Some? && a.tunIp6.value == FromBigEndian(b[15..31]))
  }

  /** The bytes are the message: each type byte with its fields at their positions and nothing behind them. */
  predicate Spells(b: seq<Byte>, m: Control) {
    && b != [] && b[0] == 0
    && match m {
         case Keepalive(None) => |b| == 1
         case Keepalive(Some(ip)) => |b| == 5 && FromBigEndian(b[1..5]) == ip
         case Advert(a) =>
           && HeadAt(b, a.acceptRoutes, a.tunnelIp, a.tunnelIp6) && b[1] == 1
           && b[23] as int == |a.routes| <= 64 && RoutesAt(b[24..], a.routes)
         case RoutePush(r) => |b| >= 4 && b[1] == 2 && b[3] as int == |r| <= 64 && RoutesAt(b[4..], r)
         case Request(q) => RequestAt(b, q) && b[1] == 3
         case Reply(a) => ReplyAt(b, a) && b[1] == 4
         case Name(n) =>
           HeadAt(b, n.wantPeers, n.tunnelIp, n.tunnelIp6) && b[1] == 5 && HoldsName(b[24..], b[23], n.name)
         case PeerPush(ps) => |b| >= 4 && b[1] == 6 && b[3] as int == |ps| <= 24 && PeersAt(b[4..], ps)
       }
  }

  // ---- The parser recognizes it ----

  lemma RouteExactly(b: seq<Byte>, net: Network, rest: seq<Byte>)
    ensures ParseRoute(b) == Some((net, rest)) <==>
            |b| >= RouteSize(net) && RouteAt(b, net) && rest == b[RouteSize(net)..]
  {
    hide FromBigEndian;
  }

  lemma {:induction false} RoutesExactly(b: seq<Byte>, nets: seq<Network>)
    ensures ParseRoutes(b, |nets|) == Some(nets) <==> RoutesAt(b, nets)
  {
    hide ParseRoute, FromBigEndian, Base;
    if nets != [] {
      if RouteAt(b, nets[0]) {
        var rest := b[RouteSize(nets[0])..];
        RouteExactly(b, nets[0], rest);
        RoutesExactly(rest, nets[1..]);
        assert nets == [nets[0]] + nets[1..];
      } else if ParseRoute(b).Some? {
        RouteExactly(b, ParseRoute(b).value.0, ParseRoute(b).value.1);
      }
    }
  }

  lemma NameExactly(b: seq<Byte>, name: string)
    ensures FromUtf8(b) == Some(name) <==> b == Utf8(name)
  {
    hide Text.Utf8, FromUtf8;
    FromUtf8Inverts(name);
    if FromUtf8(b).Some? {
      Utf8Inverts(b);
    }
  }

  lemma PeerExactly(b: seq<Byte>, p: PeerEntry, rest: seq<Byte>)
    ensures ParsePeer(b) == Some((p, rest)) <==>
            |b| >= 22 && |b| >= 22 + b[21] as int && PeerAt(b, p) && rest == b[22 + b[21] as int..]
  {
    hide FromBigEndian, FromUtf8, Text.Utf8;
    if |b| >= 22 && b[21] as int <= 32 && |b| >= 22 + b[21] as int {
      NameExactly(b[22..22 + b[21] as int], p.name);
    }
  }

  lemma {:induction false} PeersExactly(b: seq<Byte>, ps: seq<PeerEntry>)
    ensures ParsePeers(b, |ps|) == Some(ps) <==> PeersAt(b, ps)
  {
    hide ParsePeer, FromBigEndian, HoldsName;
    if ps != [] {
      if PeerAt(b, ps[0]) {
        var rest := b[22 + b[21] as int..];
        PeerExactly(b, ps[0], rest);
        PeersExactly(rest, ps[1..]);
        assert ps == [ps[0]] + ps[1..];
      } else if ParsePeer(b).Some? {
        PeerExactly(b, ParsePeer(b).value.0, ParsePeer(b).value.1);
      }
    }
  }

  lemma AdvertExactly(b: seq<Byte>, m: Control)
    requires |b| > 1 && b[0] == 0 && b[1] == 1 && |b| != 5
    ensures ParseAdvert(b) == Some(m) <==> m.Advert? && Spells(b, m)
  {
    hide FromBigEndian, ParseRoutes, RoutesAt;
    if |b| >= 24 && ParseRoutes(b[24..], b[23]).Some? {
      ParsedRoutesAreNormal(b[24..], b[23]);
      RoutesExactly(b[24..], ParseRoutes(b[24..], b[23]).value);
    }
    if m.Advert? && |b| >= 24 {
      RoutesExactly(b[24..], m.advert.routes);
    }
  }

  lemma RoutePushExactly(b: seq<Byte>, m: Control)
    requires |b| > 1 && b[0] == 0 && b[1] == 2 && |b| != 5
    ensures ParseRoutePush(b) == Some(m) <==> m.RoutePush? && Spells(b, m)
  {
    hide ParseRoutes, RoutesAt;
    if |b| >= 4 && ParseRoutes(b[4..], b[3]).Some? {
      ParsedRoutesAreNormal(b[4..], b[3]);
      RoutesExactly(b[4..], ParseRoutes(b[4..], b[3]).value);
    }
    if m.RoutePush? && |b| >= 4 {
      RoutesExactly(b[4..], m.pushed);
    }
  }

  lemma PeerPushExactly(b: seq<Byte>, m: Control)
    requires |b| > 1 && b[0] == 0 && b[1] == 6 && |b| != 5
    ensures ParsePeerPush(b) == Some(m) <==> m.PeerPush? && Spells(b, m)
  {
    hide ParsePeers, PeersAt;
    if |b| >= 4 && ParsePeers(b[4..], b[3]).Some? {
      ParsedPeersAreNormal(b[4..], b[3]);
      PeersExactly(b[4..], ParsePeers(b[4..], b[3]).value);
    }
    if m.PeerPush? && |b| >= 4 {
      PeersExactly(b[4..], m.peers);
    }
  }

  lemma FixedExactly(b: seq<Byte>, m: Control)
    requires |b| > 1 && b[0] == 0 && |b| != 5
    ensures b[1] == 3 ==> (ParseRequest(b) == Some(m) <==> m.Request? && Spells(b, m))
    ensures b[1] == 4 ==> (ParseReply(b) == Some(m) <==> m.Reply? && Spells(b, m))
  {
    hide FromBigEndian;
  }

  lemma NameAdvertExactly(b: seq<Byte>, m: Control)
    requires |b| > 1 && b[0] == 0 && b[1] == 5 && |b| != 5
    ensures ParseName(b) == Some(m) <==> m.Name? && Spells(b, m)
  {
    hide FromBigEndian, FromUtf8, Text.Utf8;
    if m.Name? && |b| >= 24 {
      NameExactly(b[24..], m.nameAdvert.name);
    }
  }

  /** No other message has the length of a keepalive. */
  lemma KeepaliveLengths(b: seq<Byte>, m: Control)
    requires Spells(b, m)
    ensures |b| == 1 || |b| == 5 <==> m.Keepalive?
  {
    hide FromBigEndian, Text.Utf8;
  }

  /** The parser answers a message exactly when the bytes spell it, so nothing else is ever accepted. */
  lemma ParsedExactly(b: seq<Byte>, m: Control)
    ensures Parsed(b) == Some(m) <==> Spells(b, m)
  {
    hide ParseAdvert, ParseRoutePush, ParseRequest, ParseReply, ParseName, ParsePeerPush,
      FromBigEndian, RoutesAt, PeersAt, HeadAt, RequestAt, ReplyAt, HoldsName;
    if Spells(b, m) {
      KeepaliveLengths(b, m);
    }
    if |b| > 1 && b[0] == 0 && |b| != 5 {
      FixedExactly(b, m);
      if b[1] == 1 {
        AdvertExactly(b, m);
      } else if b[1] == 2 {
        RoutePushExactly(b, m);
      } else if b[1] == 5 {
        NameAdvertExactly(b, m);
      } else if b[1] == 6 {
        PeerPushExactly(b, m);
      }
    }
  }

  /** What a well-formed message is sent as spells its normal form, if every name in it survives. */
  lemma EncodedSpells(m: Control)
    requires WellFormed(m)
    ensures Spells(Encoded(m), Normal(m)) <==> NamesSurvive(m)
  {
    hide Encoded, Normal, Parsed, Spells, NamesSurvive;
    MessageRoundTrip(m);
    ParsedExactly(Encoded(m), Normal(m));
  }
}
