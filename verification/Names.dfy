/** The server's hostname table (src/magic.rs, `NameTable`). */
module Names {
  import opened Bytes
  import opened Ring
  import opened Messages
  import opened Labels

  datatype NameRow = NameRow(requested: string, granted: string, ip4: Ip4, ip6: Option<Ip6>, lastSeen: Time)

  datatype NameOutcome = Granted(name: string, renamed: bool) | Refreshed(name: string) | Withdrawn(gone: Option<string>)

  /** The labels `unique_name` tries, in no order: as wanted, tagged, and 254 numbered ones. */
  function Candidates(wanted: string, tag: string): set<string> {
    {wanted, Tagged(wanted, tag)} + NumberedUpTo(wanted, tag, 256)
  }

  function NumberedUpTo(wanted: string, tag: string, n: nat): set<string>
    requires n <= 1000
  {
    set k | 2 <= k < n :: Numbered(wanted, tag, k)
  }

  lemma {:induction false} NumberedCount(wanted: string, tag: string, n: nat)
    requires ValidLabel(wanted) && IsTag(tag) && 2 <= n <= 1000
    ensures |NumberedUpTo(wanted, tag, n)| == n - 2
  {
    hide Numbered, ValidLabel, IsTag;
    if n == 2 {
      assert NumberedUpTo(wanted, tag, n) == {};
    } else {
      NumberedCount(wanted, tag, n - 1);
      var last := Numbered(wanted, tag, n - 1);
      assert NumberedUpTo(wanted, tag, n) == NumberedUpTo(wanted, tag, n - 1) + {last};
      forall k | 2 <= k < n - 1 ensures Numbered(wanted, tag, k) != last {
        if Numbered(wanted, tag, k) == last {
          NumberedInjective(wanted, tag, k, n - 1);
        }
      }
    }
  }

  datatype Table = Table(server: Option<PeerEntry>, byPeer: map<SocketAddr, NameRow>, byName: map<string, SocketAddr>)
  {
    /** Rows and names are inverse, no client has the server's name, every label is valid. */
    ghost predicate Ok() {
      && (forall p :: p in byPeer ==> byPeer[p].granted in byName && byName[byPeer[p].granted] == p)
      && (forall n :: n in byName ==> byName[n] in byPeer && byPeer[byName[n]].granted == n)
      && (forall n :: n in byName ==> ValidLabel(n))
      && (server.Some? ==> server.value.name !in byName && ValidLabel(server.value.name))
    }

    predicate Taken(n: string) {
      (server.Some? && server.value.name == n) || n in byName
    }

    ghost function TakenNames(): set<string> {
      byName.Keys + if server.Some? then {server.value.name} else {}
    }

    function FirstFree(wanted: string, tag: string, n: nat): string
      requires n <= 256
      decreases 256 - n
    {
      if n == 256 then Tagged(wanted, tag)
      else if !Taken(Numbered(wanted, tag, n)) then Numbered(wanted, tag, n)
      else FirstFree(wanted, tag, n + 1)
    }

    function UniqueName(wanted: string, node: Option<NodeId>, ip4: Ip4): string {
      var tag := Tag(node, ip4);
      if !Taken(wanted) then wanted
      else if !Taken(Tagged(wanted, tag)) then Tagged(wanted, tag)
      else FirstFree(wanted, tag, 2)
    }

    function Withdraw(peer: SocketAddr): Table {
      if peer !in byPeer then this
      else
        var g := byPeer[peer].granted;
        Table(server, byPeer - {peer}, if g in byName && byName[g] == peer then byName - {g} else byName)
    }

    function WithdrawOutcome(peer: SocketAddr): NameOutcome {
      Withdrawn(if peer in byPeer then Some(byPeer[peer].granted) else None)
    }

    /** Whether an advert only refreshes the peer's row. */
    predicate Refreshes(peer: SocketAddr, raw: string) {
      raw != "" && peer in byPeer && byPeer[peer].requested == Sanitized(raw)
    }

    function Label(peer: SocketAddr, raw: string, ip4: Ip4, node: Option<NodeId>): string {
      Withdraw(peer).UniqueName(Sanitized(raw), node, ip4)
    }

    function Advertise(peer: SocketAddr, raw: string, ip4: Ip4, ip6: Option<Ip6>, node: Option<NodeId>, now: Time): Table {
      if raw == "" then Withdraw(peer)
      else if Refreshes(peer, raw) then
        this.(byPeer := byPeer[peer := byPeer[peer].(ip4 := ip4, ip6 := ip6, lastSeen := now)])
      else
        var t, g := Withdraw(peer), Label(peer, raw, ip4, node);
        Table(server, t.byPeer[peer := NameRow(Sanitized(raw), g, ip4, ip6, now)], t.byName[g := peer])
    }

    function AdvertiseOutcome(peer: SocketAddr, raw: string, ip4: Ip4, node: Option<NodeId>): NameOutcome {
      if raw == "" then WithdrawOutcome(peer)
      else if Refreshes(peer, raw) then Refreshed(byPeer[peer].granted)
      else Granted(Label(peer, raw, ip4, node), Label(peer, raw, ip4, node) != Sanitized(raw))
    }

    function Idlers(ttl: nat, now: Time): set<SocketAddr> {
      set p | p in byPeer && Idle(now, byPeer[p].lastSeen) > ttl
    }

    function Without(gone: set<SocketAddr>): Table {
      Table(server, byPeer - gone,
            map n | n in byName && !(byName[n] in gone && byName[n] in byPeer && byPeer[byName[n]].granted == n) :: byName[n])
    }

    function Expire(ttl: nat, now: Time): Table {
      Without(Idlers(ttl, now))
    }
  }

  /** The label chosen is one of the candidates; it is free exactly when some candidate is. */
  lemma {:induction false} FirstFreeExact(t: Table, wanted: string, tag: string, n: nat)
    requires 2 <= n <= 256
    ensures var r := t.FirstFree(wanted, tag, n);
            || (r == Tagged(wanted, tag) && forall k :: n <= k < 256 ==> t.Taken(Numbered(wanted, tag, k)))
            || (r in NumberedUpTo(wanted, tag, 256) && !t.Taken(r))
    decreases 256 - n
  {
    hide Numbered, Tagged, NumberedUpTo, Table.Taken;
    if n < 256 {
      NumberedIsListed(wanted, tag, n);
      if t.Taken(Numbered(wanted, tag, n)) {
        FirstFreeExact(t, wanted, tag, n + 1);
      }
    }
  }

  lemma NumberedIsListed(wanted: string, tag: string, n: nat)
    requires 2 <= n < 256
    ensures Numbered(wanted, tag, n) in NumberedUpTo(wanted, tag, 256)
  {
    hide Numbered;
  }

  lemma UniqueNameExact(t: Table, wanted: string, node: Option<NodeId>, ip4: Ip4)
    ensures var r, all := t.UniqueName(wanted, node, ip4), Candidates(wanted, Tag(node, ip4));
            r in all && (!t.Taken(r) <==> exists c :: c in all && !t.Taken(c))
  {
    hide Table.FirstFree, Fit;
    var tag := Tag(node, ip4);
    FirstFreeExact(t, wanted, tag, 2);
    var r, all := t.UniqueName(wanted, node, ip4), Candidates(wanted, tag);
    if !t.Taken(r) {
      assert r in all;
    } else {
      forall c | c in all ensures t.Taken(c) {
        if c in NumberedUpTo(wanted, tag, 256) {
          var k :| 2 <= k < 256 && c == Numbered(wanted, tag, k);
        }
      }
    }
  }

  /** The order of preference: the label as wanted, then tagged, then the first free numbered one. */
  lemma UniqueNameOrder(t: Table, wanted: string, node: Option<NodeId>, ip4: Ip4)
    ensures var r, tag, taken := t.UniqueName(wanted, node, ip4), Tag(node, ip4), t.TakenNames();
            && (wanted !in taken ==> r == wanted)
            && (wanted in taken && Tagged(wanted, tag) !in taken ==> r == Tagged(wanted, tag))
            && (wanted in taken && Tagged(wanted, tag) in taken ==>
                  forall k :: FirstNumbered(wanted, tag, taken, k) ==> r == Numbered(wanted, tag, k))
  {
    hide Table.FirstFree, Fit, Numbered, Tagged, Tag;
    var tag, taken := Tag(node, ip4), t.TakenNames();
    forall k | FirstNumbered(wanted, tag, taken, k) ensures t.FirstFree(wanted, tag, 2) == Numbered(wanted, tag, k) {
      FirstFreeIsFirst(t, wanted, tag, 2, k);
    }
  }

  /** `k` is the least number from 2 to 255 whose label is free. */
  ghost predicate FirstNumbered(wanted: string, tag: string, taken: set<string>, k: nat) {
    2 <= k < 256 && Numbered(wanted, tag, k) !in taken && forall j :: 2 <= j < k ==> Numbered(wanted, tag, j) in taken
  }

  lemma {:induction false} FirstFreeIsFirst(t: Table, wanted: string, tag: string, n: nat, k: nat)
    requires n <= k < 256 && Numbered(wanted, tag, k) !in t.TakenNames()
    requires forall j :: n <= j < k ==> Numbered(wanted, tag, j) in t.TakenNames()
    ensures t.FirstFree(wanted, tag, n) == Numbered(wanted, tag, k)
    decreases k - n
  {
    hide Numbered;
    if n < k {
      FirstFreeIsFirst(t, wanted, tag, n + 1, k);
    }
  }

  lemma CandidatesAreLabels(wanted: string, tag: string, c: string)
    requires ValidLabel(wanted) && IsTag(tag) && c in Candidates(wanted, tag)
    ensures ValidLabel(c)
  {
    if c in NumberedUpTo(wanted, tag, 256) {
      var k :| 2 <= k < 256 && c == Numbered(wanted, tag, k);
      CandidatesValid(wanted, tag, k);
    } else {
      CandidatesValid(wanted, tag, 2);
    }
  }

  /** While fewer than 254 names are held, server included, some candidate is free. */
  lemma FewNamesLeaveOneFree(t: Table, wanted: string, tag: string)
    requires ValidLabel(wanted) && IsTag(tag) && |t.TakenNames()| < 254
    ensures exists c :: c in Candidates(wanted, tag) && !t.Taken(c)
  {
    NumberedCount(wanted, tag, 256);
    var numbered := NumberedUpTo(wanted, tag, 256);
    if numbered <= t.TakenNames() {
      SubsetSize(numbered, t.TakenNames());
    }
    var c :| c in numbered && c !in t.TakenNames();
    assert c in Candidates(wanted, tag);
  }

  lemma WithdrawKeepsOk(t: Table, peer: SocketAddr)
    requires t.Ok()
    ensures t.Withdraw(peer).Ok() && peer !in t.Withdraw(peer).byPeer
    ensures t.Withdraw(peer).byPeer == t.byPeer - {peer}
  {
    hide ValidLabel;
  }

  lemma WithoutKeepsOk(t: Table, gone: set<SocketAddr>)
    requires t.Ok()
    ensures t.Without(gone).Ok()
  {
    hide ValidLabel;
  }

  /** Binding a free, valid label to a peer without a row keeps the table in order; a taken one breaks it. */
  lemma BindKeepsOkExactly(t: Table, peer: SocketAddr, row: NameRow)
    requires t.Ok() && peer !in t.byPeer && ValidLabel(row.granted)
    ensures Table(t.server, t.byPeer[peer := row], t.byName[row.granted := peer]).Ok() <==> !t.Taken(row.granted)
  {
    hide ValidLabel;
    var after := Table(t.server, t.byPeer[peer := row], t.byName[row.granted := peer]);
    if row.granted in t.byName {
      var other := t.byName[row.granted];
      assert after.byPeer[other].granted == row.granted && after.byName[row.granted] == peer != other;
    } else if t.Taken(row.granted) {
      assert t.server.value.name in after.byName;
    }
  }

  /**
   * An advert keeps the table in order exactly when it needs no new label or some candidate is free.
   * The label granted is always a valid one.
   */
  lemma AdvertiseKeepsOkExactly(t: Table, peer: SocketAddr, raw: string, ip4: Ip4, ip6: Option<Ip6>,
                                node: Option<NodeId>, now: Time)
    requires t.Ok()
    ensures t.Advertise(peer, raw, ip4, ip6, node, now).Ok()
       <==> raw == "" || t.Refreshes(peer, raw)
            || exists c :: c in Candidates(Sanitized(raw), Tag(node, ip4)) && !t.Withdraw(peer).Taken(c)
    ensures raw != "" && !t.Refreshes(peer, raw) ==> ValidLabel(t.Label(peer, raw, ip4, node))
  {
    hide ValidLabel, Candidates, Table.UniqueName, Table.Taken, Sanitized, Tag;
    WithdrawKeepsOk(t, peer);
    SanitizedClean(raw);
    var f, wanted := t.Withdraw(peer), Sanitized(raw);
    UniqueNameExact(f, wanted, node, ip4);
    CandidatesAreLabels(wanted, Tag(node, ip4), f.UniqueName(wanted, node, ip4));
    BindKeepsOkExactly(f, peer, NameRow(wanted, f.UniqueName(wanted, node, ip4), ip4, ip6, now));
  }

  /** So it does whenever fewer than 254 names are held by others, server included. */
  lemma AdvertiseKeepsOk(t: Table, peer: SocketAddr, raw: string, ip4: Ip4, ip6: Option<Ip6>,
                         node: Option<NodeId>, now: Time)
    requires t.Ok() && |t.byPeer| < 253
    ensures t.Advertise(peer, raw, ip4, ip6, node, now).Ok()
  {
    hide ValidLabel, Candidates, Table.UniqueName, Sanitized, Table.Advertise;
    AdvertiseKeepsOkExactly(t, peer, raw, ip4, ip6, node, now);
    SanitizedClean(raw);
    WithdrawKeepsOk(t, peer);
    var f := t.Withdraw(peer);
    NamesCounted(f);
    SubsetSize(f.byPeer.Keys, t.byPeer.Keys);
    FewNamesLeaveOneFree(f, Sanitized(raw), Tag(node, ip4));
  }

  /** As many names as rows, and one more with the server's. */
  lemma NamesCounted(t: Table)
    requires t.Ok()
    ensures |t.byName| == |t.byPeer|
    ensures |t.TakenNames()| == |t.byPeer| + if t.server.Some? then 1 else 0
  {
    hide ValidLabel;
    var f := map p | p in t.byPeer :: t.byPeer[p].granted;
    assert f.Keys == t.byPeer.Keys;
    InverseSameSize(f, t.byName);
    if t.server.None? {
      assert t.TakenNames() == t.byName.Keys;
    }
  }

  /**
   * What an advert leaves: no row for an empty name, else the peer's row with the sanitized name and the
   * addresses and time of this advert. All other rows stay. A repeated name keeps its label.
   */
  lemma AdvertiseStores(t: Table, peer: SocketAddr, raw: string, ip4: Ip4, ip6: Option<Ip6>, node: Option<NodeId>, now: Time)
    ensures var t' := t.Advertise(peer, raw, ip4, ip6, node, now);
            && t'.server == t.server
            && (peer in t'.byPeer <==> raw != "")
            && (forall p :: p != peer ==> (p in t'.byPeer <==> p in t.byPeer) && (p in t.byPeer ==> t'.byPeer[p] == t.byPeer[p]))
            && (raw != "" ==> t'.byPeer[peer] == NameRow(Sanitized(raw), t'.byPeer[peer].granted, ip4, ip6, now))
            && (raw != "" && peer in t.byPeer && t.byPeer[peer].requested == Sanitized(raw) ==>
                  t'.byPeer[peer].granted == t.byPeer[peer].granted && t'.byName == t.byName)
  {
    hide Sanitized, Table.UniqueName;
  }

  /** A new name that nobody else holds is granted as it is, and leads to the peer. */
  lemma FreeNameIsGranted(t: Table, peer: SocketAddr, raw: string, ip4: Ip4, ip6: Option<Ip6>, node: Option<NodeId>, now: Time)
    requires t.Ok() && raw != "" && !(peer in t.byPeer && t.byPeer[peer].requested == Sanitized(raw))
    requires !HeldByOthers(t, peer, Sanitized(raw))
    ensures var t' := t.Advertise(peer, raw, ip4, ip6, node, now);
            && peer in t'.byPeer && t'.byPeer[peer].granted == Sanitized(raw)
            && Sanitized(raw) in t'.byName && t'.byName[Sanitized(raw)] == peer
  {
    hide Sanitized, ValidLabel, Table.UniqueName;
    WithdrawKeepsOk(t, peer);
    var f := t.Withdraw(peer);
    UniqueNameOrder(f, Sanitized(raw), node, ip4);
    assert forall n :: n in f.byName ==> f.byName[n] in t.byPeer && f.byName[n] != peer && t.byPeer[f.byName[n]].granted == n;
  }

  /** What an advert answers: the label the row now has, and whether it is new, other than asked for, or gone. */
  lemma AdvertiseReports(t: Table, peer: SocketAddr, raw: string, ip4: Ip4, ip6: Option<Ip6>, node: Option<NodeId>, now: Time)
    ensures var t', o := t.Advertise(peer, raw, ip4, ip6, node, now), t.AdvertiseOutcome(peer, raw, ip4, node);
            match o {
              case Withdrawn(gone) =>
                && raw == "" && peer !in t'.byPeer
                && gone == if peer in t.byPeer then Some(t.byPeer[peer].granted) else None
              case Refreshed(name) =>
                && peer in t.byPeer && peer in t'.byPeer
                && name == t.byPeer[peer].granted == t'.byPeer[peer].granted
                && t'.byPeer[peer].requested == t.byPeer[peer].requested
              case Granted(name, renamed) =>
                && peer in t'.byPeer && name == t'.byPeer[peer].granted
                && (renamed <==> name != t'.byPeer[peer].requested)
                && (peer in t.byPeer ==> t'.byPeer[peer].requested != t.byPeer[peer].requested)
            }
  {
    hide Sanitized, Table.UniqueName;
  }

  /** The name is the server's, or the label of some other row. */
  ghost predicate HeldByOthers(t: Table, peer: SocketAddr, name: string) {
    || (t.server.Some? && t.server.value.name == name)
    || exists p :: p in t.byPeer && p != peer && t.byPeer[p].granted == name
  }

  // ---- Uniqueness can be lost ----

  function CrowdPeer(k: nat): SocketAddr
    requires k < 0x1_0000
  {
    SocketAddr(V4(0), k)
  }

  /** The permanent row of a server whose host name is the label everybody asks for. */
  const HOST := PeerEntry("node", 1, None)

  /** The table after `n` endpoints, one after the other, ask for the server's label. */
  function Crowd(n: nat): Table
    requires n < 0x1_0000
  {
    if n == 0 then Table(Some(HOST), map[], map[])
    else Crowd(n - 1).Advertise(CrowdPeer(n - 1), "node", 0, None, None, 0)
  }

  /** The candidates for that label that the server leaves. */
  const CROWDED := Candidates("node", "00") - {"node"}

  lemma CrowdWants()
    ensures Sanitized("node") == "node" && Tag(None, 0) == "00" && IsTag("00") && ValidLabel("node")
  {
    hide Sanitized;
    CleanFixed("node");
  }

  /** Each of the first endpoints takes one more of the candidates. */
  lemma {:induction false} CrowdGrows(n: nat)
    requires n <= |CROWDED| && n < 0x1_0000
    ensures Crowd(n).Ok() && Crowd(n).server == Some(HOST) && |Crowd(n).byName| == n && Crowd(n).byName.Keys <= CROWDED
    ensures forall p :: p in Crowd(n).byPeer ==> p.ip == V4(0) && p.port < n
  {
    if n == 0 {
      hide Candidates, Sanitized, Tag;
      CrowdWants();
    } else {
      hide Table.Advertise, Table.Ok, Candidates, Sanitized, Tag, ValidLabel, IsTag;
      CrowdWants();
      CrowdGrows(n - 1);
      var t, peer := Crowd(n - 1), CrowdPeer(n - 1);
      assert peer !in t.byPeer;
      SubsetSize(t.byName.Keys, CROWDED);
      var c :| c in CROWDED && c !in t.byName.Keys;
      TakesCandidate(t, peer, "node", 0, None, None, 0, c);
    }
  }

  /** A new endpoint takes a free candidate while one is left. */
  lemma TakesCandidate(t: Table, peer: SocketAddr, raw: string, ip4: Ip4, ip6: Option<Ip6>, node: Option<NodeId>,
                       now: Time, c: string)
    requires t.Ok() && peer !in t.byPeer && raw != "" && c in Candidates(Sanitized(raw), Tag(node, ip4)) && !t.Taken(c)
    ensures var t', g := t.Advertise(peer, raw, ip4, ip6, node, now), t.UniqueName(Sanitized(raw), node, ip4);
            && t'.Ok() && t'.server == t.server && t'.byPeer.Keys == t.byPeer.Keys + {peer}
            && g in Candidates(Sanitized(raw), Tag(node, ip4)) && !t.Taken(g)
            && t'.byName.Keys == t.byName.Keys + {g} && |t'.byName| == |t.byName| + 1
  {
    hide Sanitized, Tag, ValidLabel, Candidates, Table.UniqueName, Table.Ok, Table.Advertise;
    UniqueNameExact(t, Sanitized(raw), node, ip4);
    AdvertiseKeepsOkExactly(t, peer, raw, ip4, ip6, node, now);
    NewcomerEffect(t, peer, raw, ip4, ip6, node, now);
  }

  lemma KeysGrow<K, V>(m: map<K, V>, k: K, v: V)
    ensures m[k := v].Keys == m.Keys + {k}
    ensures |m[k := v]| == |m| + if k in m then 0 else 1
  {
    assert |m[k := v]| == |m[k := v].Keys| && |m| == |m.Keys|;
  }

  lemma NewcomerEffect(t: Table, peer: SocketAddr, raw: string, ip4: Ip4, ip6: Option<Ip6>, node: Option<NodeId>, now: Time)
    requires peer !in t.byPeer && raw != ""
    ensures t.Withdraw(peer) == t
    ensures var t', g := t.Advertise(peer, raw, ip4, ip6, node, now), t.UniqueName(Sanitized(raw), node, ip4);
            && t'.server == t.server && t'.byPeer.Keys == t.byPeer.Keys + {peer}
            && t'.byName.Keys == t.byName.Keys + {g}
            && |t'.byName| == |t.byName| + if g in t.byName then 0 else 1
  {
    hide Sanitized, Table.UniqueName;
    assert t.Withdraw(peer) == t;
    KeysGrow(t.byName, t.UniqueName(Sanitized(raw), node, ip4), peer);
    KeysGrow(t.byPeer, peer, NameRow(Sanitized(raw), t.UniqueName(Sanitized(raw), node, ip4), ip4, ip6, now));
  }

  lemma CrowdIsSmall()
    ensures 253 <= |CROWDED| <= 255
  {
    CrowdWants();
    NumberedCount("node", "00", 256);
    var numbered, two := NumberedUpTo("node", "00", 256), {"node", Tagged("node", "00")};
    var all := Candidates("node", "00");
    SubsetSize(numbered, all);
    assert all == numbered + (two - numbered);
    SubsetSize(two - numbered, two);
    assert all == CROWDED + {"node"};
  }

  /** Once all candidates are gone the next endpoint is given a label that is taken. */
  lemma CrowdCollides()
    ensures 253 <= |CROWDED| <= 255
    ensures var t, peer := Crowd(|CROWDED|), CrowdPeer(|CROWDED|);
            && t.Ok() && t.server == Some(HOST) && peer !in t.byPeer
            && t.Taken(t.Label(peer, "node", 0, None)) && !Crowd(|CROWDED| + 1).Ok()
  {
    CrowdIsSmall();
    CrowdGrows(|CROWDED|);
    CrowdWants();
    hide Sanitized, Tag, ValidLabel, Candidates, Table.UniqueName, Table.Ok;
    var t, peer := Crowd(|CROWDED|), CrowdPeer(|CROWDED|);
    SubsetSize(t.byName.Keys, CROWDED);
    UniqueNameExact(t, "node", None, 0);
    AdvertiseKeepsOkExactly(t, peer, "node", 0, None, None, 0);
  }
}
