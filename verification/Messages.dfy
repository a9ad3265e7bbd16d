/** The control messages of the tunnel and the CIDR networks they carry (src/mesh.rs). */
module Messages {
  import opened Bytes
  import opened Prefix

  /** How many peers a push holds, and how many bytes a name. */
  const MAX_PEERS: nat := 24
  const MAX_NAME_LEN: nat := 32

  /** Persisted 16-byte node identity. */
  type NodeId = s: seq<Byte> | |s| == 16 witness seq(16, _ => 0)

  datatype Network = Net4(addr4: Ip4, plen: nat) | Net6(addr6: Ip6, plen: nat)
  {
    /** What the network type's constructor accepts. */
    predicate Valid() {
      plen <= Width()
    }

    function Width(): nat {
      if Net4? then W4 else W6
    }

    function Addr(): nat {
      if Net4? then addr4 else addr6
    }

    function HostBits(): nat
      requires Valid()
    {
      Width() - plen
    }

    /** First and last address of the network. */
    function First(): nat
      requires Valid()
    {
      Base(Addr(), HostBits())
    }

    function Last(): nat
      requires Valid()
    {
      First() + Pow2(HostBits()) - 1
    }

    predicate Contains(ip: IpAddr)
      requires Valid()
    {
      match ip
      case V4(a) => Net4? && Base(a, HostBits()) == First()
      case V6(a) => Net6? && Base(a, HostBits()) == First()
    }
  }

  datatype RouteAdvert =
    RouteAdvert(tunnelIp: Ip4, tunnelIp6: Option<Ip6>, acceptRoutes: bool, routes: seq<Network>)

  datatype AssignReq = AssignReq(flags: Byte, nodeId: NodeId, hintIp4: Ip4, hintIp6: Option<Ip6>)

  datatype AssignStatus = Ok | Exhausted | NatMode

  datatype Assign = Assign(status: AssignStatus, tunIp: Ip4, netmask: Ip4, peerIp: Ip4,
                           tunIp6: Option<Ip6>, plen6: Byte, flags: Byte, ttlSecs: U32)

  datatype NameAdvert = NameAdvert(wantPeers: bool, tunnelIp: Ip4, tunnelIp6: Option<Ip6>, name: string)

  datatype PeerEntry = PeerEntry(name: string, ip4: Ip4, ip6: Option<Ip6>)

  datatype Control =
    | Keepalive(ip: Option<Ip4>)
    | Advert(advert: RouteAdvert)
    | RoutePush(pushed: seq<Network>)
    | Request(req: AssignReq)
    | Reply(assign: Assign)
    | Name(nameAdvert: NameAdvert)
    | PeerPush(peers: seq<PeerEntry>)
}
