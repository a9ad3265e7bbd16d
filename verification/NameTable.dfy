/** The hostname table object (src/magic.rs, `NameTable`), proved against the table it represents. */
module NameTableObject {
  import opened Bytes
  import opened Ring
  import opened Messages
  import opened Labels
  import opened Names

  /** The push entry of a row. */
  function Entry(row: NameRow): PeerEntry {
    PeerEntry(row.granted, row.ip4, row.ip6)
  }

  /** The snapshot that visits the rows in the order of `peers`: the server first, at most 24 in all. */
  function Snapshot(t: Table, peers: seq<SocketAddr>): seq<PeerEntry>
    requires forall i :: 0 <= i < |peers| ==> peers[i] in t.byPeer
  {
    var first := if t.server.Some? then [t.server.value] else [];
    var n := if |peers| <= MAX_PEERS - |first| then |peers| else MAX_PEERS - |first|;
    first + seq(n, i requires 0 <= i < n => Entry(t.byPeer[peers[i]]))
  }

  class NameTable {
    const server: Option<PeerEntry>
    var byPeer: map<SocketAddr, NameRow>
    var byName: map<string, SocketAddr>

    function View(): Table
      reads this
    {
      Table(server, byPeer, byName)
    }

    /** A table with a permanent server row, or with none. */
    constructor (host: Option<PeerEntry>)
      ensures View().Ok() && byPeer == map[]
      ensures server == if host.Some? then Some(host.value.(name := Sanitized(host.value.name))) else None
    {
      if host.Some? {
        SanitizedClean(host.value.name);
        server := Some(host.value.(name := Sanitized(host.value.name)));
      } else {
        server := None;
      }
      byPeer, byName := map[], map[];
    }

    method UniqueName(wanted: string, node: Option<NodeId>, ip4: Ip4) returns (label': string)
      ensures label' == View().UniqueName(wanted, node, ip4)
    {
      hide Fit, Tag;
      if !View().Taken(wanted) {
        return wanted;
      }
      var tag := Tag(node, ip4);
      var tagged := Tagged(wanted, tag);
      if !View().Taken(tagged) {
        return tagged;
      }
      for n := 2 to 256
        invariant View().UniqueName(wanted, node, ip4) == View().FirstFree(wanted, tag, n)
      {
        var candidate := Numbered(wanted, tag, n);
        if !View().Taken(candidate) {
          return candidate;
        }
      }
      label' := tagged;
    }

    method Withdraw(peer: SocketAddr) returns (o: NameOutcome)
      modifies this
      ensures View() == old(View()).Withdraw(peer) && o == old(View()).WithdrawOutcome(peer)
    {
      if peer !in byPeer {
        return Withdrawn(None);
      }
      var row := byPeer[peer];
      byPeer := byPeer - {peer};
      if row.granted in byName && byName[row.granted] == peer {
        byName := byName - {row.granted};
      }
      o := Withdrawn(Some(row.granted));
    }

    method Advertise(peer: SocketAddr, raw: string, ip4: Ip4, ip6: Option<Ip6>, node: Option<NodeId>, now: Time)
      returns (o: NameOutcome)
      modifies this
      ensures View() == old(View()).Advertise(peer, raw, ip4, ip6, node, now)
      ensures o == old(View()).AdvertiseOutcome(peer, raw, ip4, node)
    {
      hide Sanitized, Table.UniqueName;
      if raw == "" {
        o := Withdraw(peer);
        return;
      }
      var requested := SanitizeHostname(raw);
      if peer in byPeer && byPeer[peer].requested == requested {
        byPeer := byPeer[peer := byPeer[peer].(ip4 := ip4, ip6 := ip6, lastSeen := now)];
        return Refreshed(byPeer[peer].granted);
      }
      var _ := Withdraw(peer);
      var granted := UniqueName(requested, node, ip4);
      byName := byName[granted := peer];
      byPeer := byPeer[peer := NameRow(requested, granted, ip4, ip6, now)];
      o := Granted(granted, granted != requested);
    }

    /** The expired labels come in the order, not specified, in which their rows are visited. */
    method Expire(ttl: nat, now: Time) returns (expired: seq<string>, ghost idle: seq<SocketAddr>)
      modifies this
      ensures View() == old(View()).Expire(ttl, now)
      ensures Lists(idle, old(View()).Idlers(ttl, now)) && |expired| == |idle|
      ensures forall j :: 0 <= j < |idle| ==> idle[j] in old(byPeer) && expired[j] == old(byPeer)[idle[j]].granted
    {
      hide Table.Without;
      ghost var was := View();
      var gone := Collect(View().Idlers(ttl, now));
      idle, expired := gone, [];
      assert gone[..0] == [];
      WithoutNone(was);
      for k := 0 to |gone|
        invariant View() == was.Without(Elems(gone[..k]))
        invariant |expired| == k && forall j :: 0 <= j < k ==> gone[j] in was.byPeer && expired[j] == was.byPeer[gone[j]].granted
      {
        assert gone[k] in gone;
        ElemsGrow(gone, k);
        WithdrawIsWithout(was, Elems(gone[..k]), gone[k]);
        expired := expired + [byPeer[gone[k]].granted];
        var _ := Withdraw(gone[k]);
      }
      assert gone[..|gone|] == gone && Elems(gone) == was.Idlers(ttl, now);
    }

    method TakeSnapshot() returns (out: seq<PeerEntry>)
      ensures exists peers :: Lists(peers, byPeer.Keys) && (forall i :: 0 <= i < |peers| ==> peers[i] in byPeer)
                && out == Snapshot(View(), peers)
    {
      hide Entry, Snapshot;
      var peers := Collect(byPeer.Keys);
      forall i | 0 <= i < |peers| ensures peers[i] in byPeer {
        assert peers[i] in peers;
      }
      out := if server.Some? then [server.value] else [];
      ghost var first := out;
      var i := 0;
      while i < |peers| && |out| < MAX_PEERS
        invariant 0 <= i <= |peers| && |out| == |first| + i <= MAX_PEERS
        invariant out[..|first|] == first
        invariant forall k :: 0 <= k < i ==> out[|first| + k] == Entry(byPeer[peers[k]])
      {
        out := out + [Entry(byPeer[peers[i]])];
        i := i + 1;
      }
      SnapshotIs(View(), peers, out);
    }
  }

  lemma SnapshotIs(t: Table, peers: seq<SocketAddr>, out: seq<PeerEntry>)
    requires forall i :: 0 <= i < |peers| ==> peers[i] in t.byPeer
    requires var first := if t.server.Some? then [t.server.value] else [];
             && |first| <= |out| <= |first| + |peers| && out[..|first|] == first
             && (|out| == |first| + |peers| <= MAX_PEERS || |out| == MAX_PEERS)
             && forall k :: 0 <= k < |out| - |first| ==> out[|first| + k] == Entry(t.byPeer[peers[k]])
    ensures out == Snapshot(t, peers)
  {
    hide Entry;
    var first := if t.server.Some? then [t.server.value] else [];
    forall j | 0 <= j < |out| ensures out[j] == Snapshot(t, peers)[j] {
      if j < |first| {
        assert out[j] == out[..|first|][j];
      } else {
        assert out[|first| + (j - |first|)] == Entry(t.byPeer[peers[j - |first|]]);
      }
    }
  }

  lemma WithoutNone(t: Table)
    ensures t.Without(Elems([])) == t
  {
    assert t.Without(Elems([])).byName == t.byName && t.Without(Elems([])).byPeer == t.byPeer;
  }

  /** Withdrawing one more peer is being without one more. */
  lemma WithdrawIsWithout(t: Table, gone: set<SocketAddr>, peer: SocketAddr)
    requires peer in t.byPeer && peer !in gone
    ensures t.Without(gone).Withdraw(peer) == t.Without(gone + {peer})
    ensures peer in t.Without(gone).byPeer && t.Without(gone).byPeer[peer] == t.byPeer[peer]
  {
    var a, b := t.Without(gone).Withdraw(peer), t.Without(gone + {peer});
    assert a.byPeer == b.byPeer;
    assert a.byName == b.byName;
  }
}
