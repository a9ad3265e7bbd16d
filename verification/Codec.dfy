/** The control-message wire format (src/mesh.rs). */
module Codec {
  import opened Bytes
  import opened Prefix
  import opened Messages
  import opened Subnets
  import opened Text

  const MAX_ROUTES: nat := 64

  const TYPE_ROUTE_ADVERT: Byte := 1
  const TYPE_ROUTE_PUSH: Byte := 2
  const TYPE_ASSIGN_REQ: Byte := 3
  const TYPE_ASSIGN: Byte := 4
  const TYPE_NAME_ADVERT: Byte := 5
  const TYPE_PEER_PUSH: Byte := 6

  // ---- Names ----

  /** The cut of `name_bytes`: back over continuation bytes. */
  function WalkBack(raw: seq<Byte>, end: nat): (e: nat)
    requires end <= |raw|
    ensures e <= end
  {
    if end > 0 && Continues(raw[end - 1]) then WalkBack(raw, end - 1) else end
  }

  function NameBytes(name: string): (b: seq<Byte>)
    ensures |b| <= MAX_NAME_LEN
  {
    var raw := Utf8(name);
    raw[..WalkBack(raw, if |raw| <= MAX_NAME_LEN then |raw| else MAX_NAME_LEN)]
  }

  /** The names that survive: at most 32 bytes, and not ending in a multi-byte character. */
  predicate NameSurvives(name: string) {
    |Utf8(name)| <= MAX_NAME_LEN && (name != "" ==> name[|name| - 1] as int < 0x80)
  }

  lemma {:induction false} LastByte(name: string)
    requires name != ""
    ensures Utf8(name) != []
    ensures Continues(Utf8(name)[|Utf8(name)| - 1]) <==> name[|name| - 1] as int >= 0x80
  {
    if |name| == 1 {
      assert Utf8(name) == EncodeChar(name[0]) + Utf8("");
    } else {
      LastByte(name[1..]);
    }
  }

  /** A name comes back from the wire exactly when it survives the cut. */
  lemma NameRoundTrip(name: string)
    ensures FromUtf8(NameBytes(name)) == Some(name) <==> NameSurvives(name)
    ensures NameBytes(name) == Utf8(name) <==> NameSurvives(name)
  {
    hide EncodeChar, FromUtf8, Text.Utf8;
    var raw := Utf8(name);
    FromUtf8Inverts(name);
    if name != "" {
      LastByte(name);
    } else {
      assert raw == [] by {
        EmptyName();
      }
    }
    if FromUtf8(NameBytes(name)) == Some(name) {
      Utf8Inverts(NameBytes(name));
    }
    if NameBytes(name) == raw {
      assert |NameBytes(name)| == |raw|;
    }
  }

  lemma EmptyName()
    ensures Utf8("") == []
  {
  }

  // ---- Encoding ----

  function Ip6Bytes(ip: Option<Ip6>): (b: seq<Byte>)
    ensures |b| == 16
  {
    BigEndian(if ip.Some? then ip.value else 0, 16)
  }

  function Flag(b: bool): Byte {
    if b then 1 else 0
  }

  function RouteBytes(net: Network): (b: seq<Byte>)
    requires net.Valid()
    ensures |b| <= 18 && |b| > 0
  {
    match Canonical(net)
    case Net4(a, p) => [4, p] + BigEndian(a, 4)
    case Net6(a, p) => [6, p] + BigEndian(a, 16)
  }

  ghost predicate AllValid(nets: seq<Network>) {
    forall i :: 0 <= i < |nets| ==> nets[i].Valid()
  }

  function RoutesBytes(nets: seq<Network>): (b: seq<Byte>)
    requires AllValid(nets)
    ensures |b| <= 18 * |nets|
  {
    if nets == [] then [] else RouteBytes(nets[0]) + RoutesBytes(nets[1..])
  }

  function Cut<T>(s: seq<T>, n: nat): (r: seq<T>)
    ensures |r| <= n && r <= s && (|s| <= n ==> r == s)
  {
    if |s| <= n then s else s[..n]
  }

  function PeerBytes(p: PeerEntry): (b: seq<Byte>)
    ensures 22 <= |b| <= 54
  {
    var name := NameBytes(p.name);
    [Flag(p.ip6.Some?)] + BigEndian(p.ip4, 4) + Ip6Bytes(p.ip6) + [|name|] + name
  }

  function PeersBytes(ps: seq<PeerEntry>): (b: seq<Byte>)
    ensures 22 * |ps| <= |b| <= 54 * |ps|
  {
    if ps == [] then [] else PeerBytes(ps[0]) + PeersBytes(ps[1..])
  }

  /** The 24 bytes a route advert and a name advert start with. */
  function Head(kind: Byte, flag: bool, ip4: Ip4, ip6: Option<Ip6>, n: Byte): (b: seq<Byte>)
    ensures |b| == 24
  {
    [0, kind, Flag(flag)] + BigEndian(ip4, 4) + Ip6Bytes(ip6) + [n]
  }

  function StatusByte(s: AssignStatus): Byte {
    match s case Ok => 0 case Exhausted => 1 case NatMode => 2
  }

  /** Networks in a message are networks: their prefix lengths fit. */
  ghost predicate WellFormed(m: Control) {
    match m
    case Advert(a) => AllValid(a.routes)
    case RoutePush(r) => AllValid(r)
    case _ => true
  }

  function Encoded(m: Control): (b: seq<Byte>)
    requires WellFormed(m)
    ensures |b| <= 1400
    ensures |b| == 1 || |b| == 5 <==> m.Keepalive?
  {
    match m
    case Keepalive(ip) => if ip.Some? then [0] + BigEndian(ip.value, 4) else [0]
    case Advert(a) =>
      var routes := Cut(a.routes, MAX_ROUTES);
      Head(TYPE_ROUTE_ADVERT, a.acceptRoutes, a.tunnelIp, a.tunnelIp6, |routes|) + RoutesBytes(routes)
    case RoutePush(r) =>
      var routes := Cut(r, MAX_ROUTES);
      [0, TYPE_ROUTE_PUSH, 0, |routes|] + RoutesBytes(routes)
    case Request(q) =>
      [0, TYPE_ASSIGN_REQ, q.flags] + q.nodeId + BigEndian(q.hintIp4, 4) + Ip6Bytes(q.hintIp6)
    case Reply(a) =>
      [0, TYPE_ASSIGN, StatusByte(a.status)] + BigEndian(a.tunIp, 4) + BigEndian(a.netmask, 4) + BigEndian(a.peerIp, 4)
      + Ip6Bytes(a.tunIp6) + [a.plen6, a.flags] + BigEndian(a.ttlSecs, 4)
    case Name(n) =>
      Head(TYPE_NAME_ADVERT, n.wantPeers, n.tunnelIp, n.tunnelIp6, |NameBytes(n.name)|) + NameBytes(n.name)
    case PeerPush(ps) =>
      var peers := Cut(ps, MAX_PEERS);
      [0, TYPE_PEER_PUSH, 0, |peers|] + PeersBytes(peers)
  }

  // ---- Parsing ----

  function SomeIp6(ip: Ip6): Option<Ip6> {
    if ip == 0 then None else Some(ip)
  }

  function ParseRoute(b: seq<Byte>): (r: Option<(Network, seq<Byte>)>)
    ensures r.Some? ==> r.value.0.Valid() && |r.value.1| < |b|
  {
    if |b| < 2 then None
    else if b[0] == 4 then
      if |b| < 6 || b[1] as nat > W4 then None
      else Some((Canonical(Net4(FromOctets4(b[2..6]), b[1])), b[6..]))
    else if b[0] == 6 then
      if |b| < 18 || b[1] as nat > W6 then None
      else Some((Canonical(Net6(FromOctets6(b[2..18]), b[1])), b[18..]))
    else None
  }

  function ParseRoutes(b: seq<Byte>, count: nat): (r: Option<seq<Network>>)
    ensures r.Some? ==> AllValid(r.value)
    decreases count
  {
    if count == 0 then if b == [] then Some([]) else None
    else match ParseRoute(b)
         case None => None
         case Some((net, rest)) =>
           match ParseRoutes(rest, count - 1)
           case None => None
           case Some(nets) => Some([net] + nets)
  }

  function ParsePeer(b: seq<Byte>): (r: Option<(PeerEntry, seq<Byte>)>)
    ensures r.Some? ==> |r.value.1| < |b|
  {
    if |b| < 22 then None
    else
      var n: nat := b[21];
      if n > MAX_NAME_LEN || |b| < 22 + n then None
      else match FromUtf8(b[22..22 + n])
           case None => None
           case Some(name) =>
             var ip6 := if b[0] % 2 == 1 then SomeIp6(FromOctets6(b[5..21])) else None;
             Some((PeerEntry(name, FromOctets4(b[1..5]), ip6), b[22 + n..]))
  }

  function ParsePeers(b: seq<Byte>, count: nat): Option<seq<PeerEntry>>
    decreases count
  {
    if count == 0 then if b == [] then Some([]) else None
    else match ParsePeer(b)
         case None => None
         case Some((p, rest)) =>
           match ParsePeers(rest, count - 1)
           case None => None
           case Some(ps) => Some([p] + ps)
  }

  function ParseAdvert(p: seq<Byte>): Option<Control> {
    if |p| < 24 || p[23] as nat > MAX_ROUTES then None
    else match ParseRoutes(p[24..], p[23])
         case None => None
         case Some(routes) =>
           Some(Advert(RouteAdvert(FromOctets4(p[3..7]), SomeIp6(FromOctets6(p[7..23])), p[2] % 2 == 1, routes)))
  }

  function ParseRoutePush(p: seq<Byte>): Option<Control> {
    if |p| < 4 || p[3] as nat > MAX_ROUTES then None
    else match ParseRoutes(p[4..], p[3]) case None => None case Some(routes) => Some(RoutePush(routes))
  }

  function ParseRequest(p: seq<Byte>): Option<Control> {
    if |p| != 39 then None
    else Some(Request(AssignReq(p[2], p[3..19], FromOctets4(p[19..23]), SomeIp6(FromOctets6(p[23..39])))))
  }

  function ParseReply(p: seq<Byte>): Option<Control> {
    if |p| != 37 || p[2] > 2 then None
    else
      var status := if p[2] == 0 then Ok else if p[2] == 1 then Exhausted else NatMode;
      Some(Reply(Assign(status, FromOctets4(p[3..7]), FromOctets4(p[7..11]), FromOctets4(p[11..15]),
                        if p[31] != 0 then Some(FromOctets6(p[15..31])) else None, p[31], p[32], FromOctets4(p[33..37]))))
  }

  function ParseName(p: seq<Byte>): Option<Control> {
    if |p| < 24 || p[23] as nat > MAX_NAME_LEN || |p| - 24 != p[23] as nat then None
    else match FromUtf8(p[24..])
         case None => None
         case Some(name) =>
           Some(Name(NameAdvert(p[2] % 2 == 1, FromOctets4(p[3..7]), SomeIp6(FromOctets6(p[7..23])), name)))
  }

  function ParsePeerPush(p: seq<Byte>): Option<Control> {
    if |p| < 4 || p[3] as nat > MAX_PEERS then None
    else match ParsePeers(p[4..], p[3]) case None => None case Some(peers) => Some(PeerPush(peers))
  }

  /** `parse_control`: the two keepalives by length, everything else by its type byte. */
  function Parsed(p: seq<Byte>): Option<Control> {
    if p == [] || p[0] != 0 then None
    else if |p| == 1 then Some(Keepalive(None))
    else if |p| == 5 then Some(Keepalive(Some(FromOctets4(p[1..5]))))
    else if p[1] == TYPE_ROUTE_ADVERT then ParseAdvert(p)
    else if p[1] == TYPE_ROUTE_PUSH then ParseRoutePush(p)
    else if p[1] == TYPE_ASSIGN_REQ then ParseRequest(p)
    else if p[1] == TYPE_ASSIGN then ParseReply(p)
    else if p[1] == TYPE_NAME_ADVERT then ParseName(p)
    else if p[1] == TYPE_PEER_PUSH then ParsePeerPush(p)
    else None
  }
}
