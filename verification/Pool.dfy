/** Tunnel-IP allocation pool with TTL leases (src/pool.rs). */
module Pool {
  import opened Bytes
  import opened Ring
  import opened Prefix

  const MAX: U32 := 0xFFFF_FFFF

  /** `host_range`: from after the network address to before the broadcast address, saturating, for any netmask. */
  function HostRange(addr: Ip4, netmask: Ip4): (r: (U32, U32))
    ensures 1 <= r.0 && r.1 < MAX
  {
    MaskedBounds(addr, netmask);
    var network: U32 := And(addr, netmask);
    var broadcast: U32 := Or(network, MAX - netmask);
    (if network == MAX then MAX else network + 1, if broadcast == 0 then 0 else broadcast - 1)
  }

  /** The broadcast address is the network address plus the host part of the mask. */
  lemma MaskedBounds(addr: Ip4, netmask: Ip4)
    ensures And(addr, netmask) <= addr && Or(And(addr, netmask), MAX - netmask) == And(addr, netmask) + (MAX - netmask) <= MAX
  {
    Pow2Values();
    OrOfMasked(addr, netmask, W4);
    AndBelow(addr, netmask);
  }

  /** Whatever the netmask, the range holds every address of the subnet but its network and broadcast addresses. */
  lemma HostRangeHolds(addr: Ip4, netmask: Ip4, ip: Ip4)
    requires And(ip, netmask) == And(addr, netmask)
    requires ip != And(addr, netmask) && ip != Or(And(addr, netmask), MAX - netmask)
    ensures var r := HostRange(addr, netmask); InRange(r.0, r.1, ip)
  {
    MaskedBounds(addr, netmask);
    Pow2Values();
    AndBelow(ip, netmask);
    HostPart(ip, netmask, W4);
  }

  /** The netmask with `h` host bits. */
  function Netmask(h: nat): Ip4
    requires h <= W4
  {
    Pow2Values();
    Pow2Grows(h, W4);
    Pow2(W4) - Pow2(h)
  }

  /** With contiguous ones it holds nothing else: the addresses that share the masked part. */
  lemma HostRangeIsInterior(addr: Ip4, h: nat, ip: Ip4)
    requires h <= W4
    ensures var r := HostRange(addr, Netmask(h));
            InRange(r.0, r.1, ip)
            <==> Base(ip, h) == Base(addr, h) && ip != Base(addr, h) && ip != Base(addr, h) + Pow2(h) - 1
  {
    hide Base, Pow2, And, Or;
    Pow2Values();
    MaskedBounds(addr, Netmask(h));
    AndOfNetmask(addr, h, W4);
    BaseExact(addr, ip, h);
    BaseFits(addr, h, W4);
  }

  datatype State = State(start: U32, end: U32, serverIp: Ip4, ttl: nat, leases: map<Ip4, Time>, cursor: U32)
  {
    /** What `new` and every operation establish. The range comes from `host_range`. */
    ghost predicate Ok() {
      && 1 <= start
      && (start <= end ==> start <= cursor <= end)
      && leases.Keys <= Assignable()
    }

    /** The addresses that may ever be handed out. */
    function Assignable(): set<Ip4> {
      AddrRange(start, end) - {serverIp}
    }

    function Capacity(): nat {
      if end < start then 0
      else if InRange(start, end, serverIp) then Span(start, end) - 1 else Span(start, end)
    }

    predicate Free(ip: Ip4) {
      ip != serverIp && ip !in leases
    }

    function Pick(): Option<Ip4>
      requires Ok()
    {
      if end < start then None else FirstFrom(start, end, cursor, 0, Free)
    }

    function Allocate(now: Time): State
      requires Ok()
    {
      match Pick()
      case None => this
      case Some(ip) => this.(leases := leases[ip := now], cursor := Advance(start, end, PickedInRange(ip)))
    }

    function PickedInRange(ip: Ip4): (r: Ip4)
      requires Ok() && Pick() == Some(ip)
      ensures r == ip && start <= r <= end && Free(r)
    {
      ProbeComplete(start, end, cursor, Free);
      ip
    }

    function Refresh(ip: Ip4, now: Time): State {
      if ip in leases then this.(leases := leases[ip := now]) else this
    }

    function Expired(now: Time): set<Ip4> {
      set ip | ip in leases && Idle(now, leases[ip]) > ttl
    }

    function Reap(now: Time): State {
      this.(leases := leases - Expired(now))
    }
  }

  lemma CapacityCounts(p: State)
    ensures |p.Assignable()| == p.Capacity()
  {
    AddrRangeSize(p.start, p.end);
    if InRange(p.start, p.end, p.serverIp) {
      assert p.serverIp in AddrRange(p.start, p.end);
    } else {
      assert p.Assignable() == AddrRange(p.start, p.end);
    }
  }

  /** Allocation fails exactly when every assignable address is leased, and otherwise takes a free one. */
  lemma AllocateExact(p: State, now: Time)
    requires p.Ok()
    ensures p.Allocate(now).Ok()
    ensures match p.Pick()
            case None => p.leases.Keys == p.Assignable() && |p.leases| == p.Capacity()
            case Some(ip) => && ip in p.Assignable() && ip !in p.leases
                             && |p.leases| < p.Capacity()
                             && p.Allocate(now).leases == p.leases[ip := now]
  {
    CapacityCounts(p);
    SubsetSize(p.leases.Keys, p.Assignable());
    if p.start <= p.end {
      ProbeComplete(p.start, p.end, p.cursor, p.Free);
      if p.Pick().None? {
        forall ip | ip in p.Assignable() ensures ip in p.leases.Keys {
          assert !p.Free(ip);
        }
      }
    }
  }

  /** The address handed out last is the last to be tried again: while another is free it is not reused. */
  lemma JustFreedIsLast(p: State, now: Time, leases: map<Ip4, Time>, ip: Ip4, other: Ip4)
    requires p.Ok() && p.Pick() == Some(ip)
    requires var q := p.Allocate(now).(leases := leases); q.Ok() && other in q.Assignable() && other !in leases && other != ip
    ensures p.Allocate(now).(leases := leases).Pick() != Some(ip)
  {
    AllocateExact(p, now);
    var q := p.Allocate(now).(leases := leases);
    var n := Span(q.start, q.end);
    FirstFromExact(q.start, q.end, q.cursor, 0, q.Free);
    ProbeVisitsEachOnce(q.start, q.end, q.cursor, ip);
    ProbeVisitsEachOnce(q.start, q.end, q.cursor, other);
    assert At(q.start, q.end, q.cursor, n - 1) == ip;
    var k :| 0 <= k < n && At(q.start, q.end, q.cursor, k) == other;
    assert q.Free(other);
  }

  class LeasePool {
    const start: U32
    const end: U32
    const serverIp: Ip4
    const ttl: nat
    var leases: map<Ip4, Time>
    var cursor: U32

    function View(): State
      reads this
    {
      State(start, end, serverIp, ttl, leases, cursor)
    }

    ghost predicate Valid()
      reads this
    {
      View().Ok()
    }

    constructor (addr: Ip4, netmask: Ip4, ttl: nat)
      ensures Valid() && leases == map[] && serverIp == addr && this.ttl == ttl
      ensures (start, end) == HostRange(addr, netmask) && cursor == start
    {
      var range := HostRange(addr, netmask);
      start, end, serverIp := range.0, range.1, addr;
      this.ttl := ttl;
      leases, cursor := map[], range.0;
    }

    method Allocate(now: Time) returns (r: Option<Ip4>)
      requires Valid()
      modifies this
      ensures Valid()
      ensures r == old(View().Pick()) && View() == old(View().Allocate(now))
    {
      hide AddrRange;
      AllocateExact(View(), now);
      if end < start {
        return None;
      }
      ghost var was := View();
      var i := 0;
      while i < Span(start, end)
        invariant i <= Span(start, end) && leases == was.leases
        invariant start <= cursor <= end && cursor == At(start, end, was.cursor, i)
        invariant was.Pick() == FirstFrom(start, end, was.cursor, i, was.Free)
      {
        var cand := cursor;
        AdvanceIsAt(start, end, was.cursor, i);
        cursor := Advance(start, end, cand);
        if cand != serverIp && cand !in leases {
          leases := leases[cand := now];
          return Some(cand);
        }
        i := i + 1;
      }
      AdvanceIsAt(start, end, was.cursor, 0);
      r := None;
    }

    method Refresh(ip: Ip4, now: Time) returns (known: bool)
      requires Valid()
      modifies this
      ensures Valid() && View() == old(View().Refresh(ip, now))
      ensures known == (ip in old(leases))
    {
      known := ip in leases;
      if known {
        leases := leases[ip := now];
      }
    }

    /** The freed addresses come in no particular order. */
    method Reap(now: Time) returns (freed: seq<Ip4>)
      requires Valid()
      modifies this
      ensures Valid() && View() == old(View().Reap(now))
      ensures Lists(freed, old(View().Expired(now)))
    {
      freed := Collect(View().Expired(now));
      for i := 0 to |freed|
        invariant cursor == old(cursor)
        invariant leases.Keys == old(leases).Keys - (set ip | ip in freed[..i])
        invariant forall ip :: ip in leases ==> leases[ip] == old(leases)[ip]
      {
        leases := leases - {freed[i]};
        assert freed[..i + 1] == freed[..i] + [freed[i]];
      }
      assert freed[..|freed|] == freed;
      assert View() == old(View().Reap(now));
    }
  }
}
