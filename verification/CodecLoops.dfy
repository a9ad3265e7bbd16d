/** The encoders and the parser as the source runs them: a growing buffer, a shrinking slice. */
module CodecLoops {
  import opened Bytes
  import opened Messages
  import opened Text
  import opened Codec

  lemma {:induction false} RoutesBytesAppend(nets: seq<Network>, k: nat)
    requires AllValid(nets) && k < |nets|
    ensures RoutesBytes(nets[..k + 1]) == RoutesBytes(nets[..k]) + RouteBytes(nets[k])
  {
    hide RouteBytes;
    if k == 0 {
      assert RoutesBytes(nets[..1]) == RouteBytes(nets[0]) + RoutesBytes(nets[..1][1..]);
    } else {
      RoutesBytesAppend(nets[1..], k - 1);
      assert nets[..k + 1][1..] == nets[1..][..k] && nets[..k][1..] == nets[1..][..k - 1];
    }
  }

  lemma {:induction false} PeersBytesAppend(ps: seq<PeerEntry>, k: nat)
    requires k < |ps|
    ensures PeersBytes(ps[..k + 1]) == PeersBytes(ps[..k]) + PeerBytes(ps[k])
  {
    hide PeerBytes;
    if k == 0 {
      assert PeersBytes(ps[..1]) == PeerBytes(ps[0]) + PeersBytes(ps[..1][1..]);
    } else {
      PeersBytesAppend(ps[1..], k - 1);
      assert ps[..k + 1][1..] == ps[1..][..k] && ps[..k][1..] == ps[1..][..k - 1];
    }
  }

  method CutName(name: string) returns (b: seq<Byte>)
    ensures b == NameBytes(name)
  {
    var raw := Utf8(name);
    var end := if |raw| <= MAX_NAME_LEN then |raw| else MAX_NAME_LEN;
    ghost var start := end;
    while end > 0 && Continues(raw[end - 1])
      invariant 0 <= end <= start && WalkBack(raw, end) == WalkBack(raw, start)
    {
      end := end - 1;
    }
    b := raw[..end];
  }

  method PushRoutes(head: seq<Byte>, nets: seq<Network>) returns (buf: seq<Byte>)
    requires AllValid(nets)
    ensures buf == head + RoutesBytes(nets)
  {
    hide RouteBytes;
    buf := head;
    for k := 0 to |nets|
      invariant buf == head + RoutesBytes(nets[..k])
    {
      RoutesBytesAppend(nets, k);
      buf := buf + RouteBytes(nets[k]);
    }
    assert nets[..|nets|] == nets;
  }

  lemma NoPeers()
    ensures PeersBytes([]) == []
  {
  }

  method PushPeers(head: seq<Byte>, ps: seq<PeerEntry>) returns (buf: seq<Byte>)
    ensures buf == head + PeersBytes(ps)
  {
    hide BigEndian, Ip6Bytes, PeersBytes, NameBytes;
    buf := head;
    assert ps[..0] == [] && PeersBytes([]) == [] by {
      NoPeers();
    }
    for k := 0 to |ps|
      invariant buf == head + PeersBytes(ps[..k])
    {
      PeersBytesAppend(ps, k);
      var name := CutName(ps[k].name);
      var entry := [Flag(ps[k].ip6.Some?)] + BigEndian(ps[k].ip4, 4) + Ip6Bytes(ps[k].ip6) + [|name|] + name;
      buf := buf + entry;
    }
    assert ps[..|ps|] == ps;
  }

  method Encode(m: Control) returns (buf: seq<Byte>)
    requires WellFormed(m)
    ensures buf == Encoded(m)
  {
    hide BigEndian, RoutesBytes, PeersBytes, NameBytes;
    match m {
      case Keepalive(ip) =>
        buf := if ip.Some? then [0] + BigEndian(ip.value, 4) else [0];
      case Advert(a) =>
        var routes := Cut(a.routes, MAX_ROUTES);
        buf := PushRoutes(Head(TYPE_ROUTE_ADVERT, a.acceptRoutes, a.tunnelIp, a.tunnelIp6, |routes|), routes);
      case RoutePush(r) =>
        var routes := Cut(r, MAX_ROUTES);
        buf := PushRoutes([0, TYPE_ROUTE_PUSH, 0, |routes|], routes);
      case Request(q) =>
        buf := [0, TYPE_ASSIGN_REQ, q.flags] + q.nodeId + BigEndian(q.hintIp4, 4) + Ip6Bytes(q.hintIp6);
      case Reply(a) =>
        buf := [0, TYPE_ASSIGN, StatusByte(a.status)] + BigEndian(a.tunIp, 4) + BigEndian(a.netmask, 4)
        + BigEndian(a.peerIp, 4) + Ip6Bytes(a.tunIp6) + [a.plen6, a.flags] + BigEndian(a.ttlSecs, 4);
      case Name(n) =>
        var name := CutName(n.name);
        buf := Head(TYPE_NAME_ADVERT, n.wantPeers, n.tunnelIp, n.tunnelIp6, |name|) + name;
      case PeerPush(ps) =>
        var peers := Cut(ps, MAX_PEERS);
        buf := PushPeers([0, TYPE_PEER_PUSH, 0, |peers|], peers);
    }
  }

  /** What has been read, in front of what is still to be read. */
  ghost function After<T>(out: seq<T>, rest: Option<seq<T>>): Option<seq<T>> {
    if rest.None? then None else Some(out + rest.value)
  }

  lemma AfterOne<T>(out: seq<T>, x: T, rest: Option<seq<T>>)
    ensures After(out + [x], rest) == After(out, After([x], rest))
    ensures After([], rest) == rest
  {
    if rest.Some? {
      assert out + [x] + rest.value == out + ([x] + rest.value);
      assert [] + rest.value == rest.value;
    }
  }

  method ReadRoutes(payload: seq<Byte>, count: nat) returns (routes: Option<seq<Network>>)
    ensures routes == ParseRoutes(payload, count)
  {
    hide ParseRoute;
    var buf, out := payload, [];
    AfterOne<Network>([], Net4(0, 0), ParseRoutes(payload, count));
    for k := 0 to count
      invariant ParseRoutes(payload, count) == After(out, ParseRoutes(buf, count - k))
    {
      var next := ParseRoute(buf);
      if next.None? {
        return None;
      }
      AfterOne(out, next.value.0, ParseRoutes(next.value.1, count - k - 1));
      out, buf := out + [next.value.0], next.value.1;
    }
    routes := if buf == [] then Some(out) else None;
    assert out + [] == out;
  }

  method ReadPeers(payload: seq<Byte>, count: nat) returns (peers: Option<seq<PeerEntry>>)
    ensures peers == ParsePeers(payload, count)
  {
    hide ParsePeer;
    var rest, out := payload, [];
    AfterOne<PeerEntry>([], PeerEntry("", 0, None), ParsePeers(payload, count));
    for k := 0 to count
      invariant ParsePeers(payload, count) == After(out, ParsePeers(rest, count - k))
    {
      var next := ParsePeer(rest);
      if next.None? {
        return None;
      }
      AfterOne(out, next.value.0, ParsePeers(next.value.1, count - k - 1));
      out, rest := out + [next.value.0], next.value.1;
    }
    peers := if rest == [] then Some(out) else None;
    assert out + [] == out;
  }

  /** The 22 bytes after the type byte that both adverts start with: flags, addresses and a count. */
  method ReadHead(body: seq<Byte>) returns (flag: bool, ip4: Ip4, ip6: Option<Ip6>, n: nat)
    requires |body| >= 22
    ensures flag == (body[0] % 2 == 1) && ip4 == FromOctets4(body[1..5])
    ensures ip6 == SomeIp6(FromOctets6(body[5..21])) && n == body[21]
  {
    hide FromOctets4, FromOctets6;
    flag, ip4, n := body[0] % 2 == 1, FromOctets4(body[1..5]), body[21];
    var a := FromOctets6(body[5..21]);
    ip6 := if a == 0 then None else Some(a);
  }

  method ReadAdvert(p: seq<Byte>) returns (m: Option<Control>)
    requires |p| >= 2
    ensures m == ParseAdvert(p)
  {
    hide ParseRoutes, FromOctets4, FromOctets6;
    var body := p[2..];
    if |body| < 22 {
      return None;
    }
    var accept, ip4, ip6, count := ReadHead(body);
    assert body[1..5] == p[3..7] && body[5..21] == p[7..23] && body[22..] == p[24..];
    if count > MAX_ROUTES {
      return None;
    }
    var routes := ReadRoutes(body[22..], count);
    m := if routes.Some? then Some(Advert(RouteAdvert(ip4, ip6, accept, routes.value))) else None;
  }

  method ReadName(p: seq<Byte>) returns (m: Option<Control>)
    requires |p| >= 2
    ensures m == ParseName(p)
  {
    hide FromUtf8, FromOctets4, FromOctets6;
    var body := p[2..];
    if |body| < 22 {
      return None;
    }
    var want, ip4, ip6, length := ReadHead(body);
    assert body[1..5] == p[3..7] && body[5..21] == p[7..23] && body[22..] == p[24..];
    var bytes := body[22..];
    if length > MAX_NAME_LEN || |bytes| != length {
      return None;
    }
    var name := FromUtf8(bytes);
    m := if name.Some? then Some(Name(NameAdvert(want, ip4, ip6, name.value))) else None;
  }

  method ReadRequest(p: seq<Byte>) returns (m: Option<Control>)
    ensures m == ParseRequest(p)
  {
    hide FromOctets4, FromOctets6;
    if |p| != 39 {
      return None;
    }
    var hint := FromOctets6(p[23..39]);
    m := Some(Request(AssignReq(p[2], p[3..19], FromOctets4(p[19..23]), if hint == 0 then None else Some(hint))));
  }

  method ReadReply(p: seq<Byte>) returns (m: Option<Control>)
    ensures m == ParseReply(p)
  {
    hide FromOctets4, FromOctets6;
    if |p| != 37 {
      return None;
    }
    var status := Ok;
    match p[2] {
      case 0 =>
      case 1 => status := Exhausted;
      case 2 => status := NatMode;
      case _ => return None;
    }
    var plen := p[31];
    var ip6 := if plen != 0 then Some(FromOctets6(p[15..31])) else None;
    m := Some(Reply(Assign(status, FromOctets4(p[3..7]), FromOctets4(p[7..11]), FromOctets4(p[11..15]),
                           ip6, plen, p[32], FromOctets4(p[33..37]))));
  }

  method ParseControl(p: seq<Byte>) returns (m: Option<Control>)
    ensures m == Parsed(p)
  {
    hide ParseRoutes, ParsePeers, FromOctets4, ParseAdvert, ParseName, ParseRequest, ParseReply;
    m := None;
    if p == [] || p[0] != 0 {
      return;
    }
    if |p| == 1 {
      return Some(Keepalive(None));
    }
    if |p| == 5 {
      assert p[1..5] == [p[1], p[2], p[3], p[4]];
      return Some(Keepalive(Some(FromOctets4([p[1], p[2], p[3], p[4]]))));
    }
    if p[1] == TYPE_ROUTE_ADVERT {
      m := ReadAdvert(p);
    } else if p[1] == TYPE_ROUTE_PUSH {
      if |p| >= 4 && p[3] as nat <= MAX_ROUTES {
        var routes := ReadRoutes(p[4..], p[3]);
        m := if routes.Some? then Some(RoutePush(routes.value)) else None;
      }
    } else if p[1] == TYPE_ASSIGN_REQ {
      m := ReadRequest(p);
    } else if p[1] == TYPE_NAME_ADVERT {
      m := ReadName(p);
    } else if p[1] == TYPE_PEER_PUSH {
      if |p| >= 4 && p[3] as nat <= MAX_PEERS {
        var peers := ReadPeers(p[4..], p[3]);
        m := if peers.Some? then Some(PeerPush(peers.value)) else None;
      }
    } else if p[1] == TYPE_ASSIGN {
      m := ReadReply(p);
    }
  }
}
