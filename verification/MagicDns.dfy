/** From the server's names to the client's answers (src/magic.rs, `PeerTable`). */
module MagicDns {
  import opened Bytes
  import opened Ring
  import opened Messages
  import opened Labels
  import opened Text
  import opened Codec
  import opened CodecLaws
  import Names
  import opened NameTableObject

  datatype PeerAddrs = PeerAddrs(ip4: Ip4, ip6: Option<Ip6>)

  type Answers = map<string, PeerAddrs>

  function Lowered(s: string): (r: string)
    ensures |r| == |s| && forall i :: 0 <= i < |s| ==> r[i] == Lower(s[i])
  {
    if s == "" then "" else [Lower(s[0])] + Lowered(s[1..])
  }

  /** The name within the zone, as `replace` builds it. */
  function Suffixed(name: string, suffix: string): string {
    name + "." + suffix
  }

  function Answer(m: Answers, p: PeerEntry, suffix: string): Answers {
    var name, addrs := Lowered(p.name), PeerAddrs(p.ip4, p.ip6);
    if name == "" then m
    else (if suffix == "" then m else m[Suffixed(name, suffix) := addrs])[name := addrs]
  }

  function Replaced(peers: seq<PeerEntry>, suffix: string): Answers {
    if peers == [] then map[] else Answer(Replaced(peers[..|peers| - 1], suffix), peers[|peers| - 1], suffix)
  }

  /** `k` is the entry's lower-cased name, bare or in the zone; an entry without a name has no key. */
  predicate IsKeyOf(k: string, p: PeerEntry, suffix: string) {
    p.name != "" && (k == Lowered(p.name) || (suffix != "" && k == Suffixed(Lowered(p.name), suffix)))
  }

  ghost predicate HasKey(ps: seq<PeerEntry>, suffix: string, k: string) {
    exists i :: 0 <= i < |ps| && IsKeyOf(k, ps[i], suffix)
  }

  /** The last entry with the key. */
  ghost predicate AnsweredBy(ps: seq<PeerEntry>, suffix: string, k: string, j: nat) {
    j < |ps| && IsKeyOf(k, ps[j], suffix) && forall i :: j < i < |ps| ==> !IsKeyOf(k, ps[i], suffix)
  }

  lemma AnswerAt(m: Answers, p: PeerEntry, suffix: string, k: string)
    ensures k in Answer(m, p, suffix) <==> k in m || IsKeyOf(k, p, suffix)
    ensures k in Answer(m, p, suffix) ==>
              Answer(m, p, suffix)[k] == if IsKeyOf(k, p, suffix) then PeerAddrs(p.ip4, p.ip6) else m[k]
  {
    hide Suffixed, Lowered;
    assert |Lowered(p.name)| == |p.name|;
  }

  /** A replaced table answers exactly the keys of its entries, each with the addresses of the last such entry. */
  lemma {:induction false} ReplacedExactly(ps: seq<PeerEntry>, suffix: string, k: string)
    ensures k in Replaced(ps, suffix) <==> HasKey(ps, suffix, k)
    ensures forall j: nat :: AnsweredBy(ps, suffix, k, j) ==>
              k in Replaced(ps, suffix) && Replaced(ps, suffix)[k] == PeerAddrs(ps[j].ip4, ps[j].ip6)
  {
    hide IsKeyOf, Answer;
    if ps != [] {
      var n := |ps| - 1;
      var front := ps[..n];
      ReplacedExactly(front, suffix, k);
      AnswerAt(Replaced(front, suffix), ps[n], suffix, k);
      KeyInFront(ps, suffix, k);
      hide Replaced;
      assert Replaced(ps, suffix) == Answer(Replaced(front, suffix), ps[n], suffix) by {
        LastAnswer(ps, suffix);
      }
      forall j: nat | AnsweredBy(ps, suffix, k, j)
        ensures k in Replaced(ps, suffix) && Replaced(ps, suffix)[k] == PeerAddrs(ps[j].ip4, ps[j].ip6)
      {
        if j < n {
          assert AnsweredBy(front, suffix, k, j) && front[j] == ps[j];
        }
      }
    }
  }

  lemma LastAnswer(ps: seq<PeerEntry>, suffix: string)
    requires ps != []
    ensures Replaced(ps, suffix) == Answer(Replaced(ps[..|ps| - 1], suffix), ps[|ps| - 1], suffix)
  {
  }

  lemma KeyInFront(ps: seq<PeerEntry>, suffix: string, k: string)
    requires ps != []
    ensures HasKey(ps, suffix, k) <==> IsKeyOf(k, ps[|ps| - 1], suffix) || HasKey(ps[..|ps| - 1], suffix, k)
  {
    hide IsKeyOf;
    var front := ps[..|ps| - 1];
    if i :| 0 <= i < |ps| && IsKeyOf(k, ps[i], suffix) {
      assert i < |ps| - 1 ==> IsKeyOf(k, front[i], suffix);
    }
    if i :| 0 <= i < |ps| - 1 && IsKeyOf(k, front[i], suffix) {
      assert IsKeyOf(k, ps[i], suffix);
    }
  }

  class PeerTable {
    var inner: Answers
    ghost var pushed: seq<PeerEntry>
    ghost var zone: string

    /** The map is the one the latest push gives. */
    ghost predicate Valid()
      reads this
    {
      inner == Replaced(pushed, zone)
    }

    constructor ()
      ensures Valid() && pushed == []
    {
      inner, pushed, zone := map[], [], "";
    }

    method Replace(peers: seq<PeerEntry>, suffix: string)
      modifies this
      ensures Valid() && pushed == peers && zone == suffix
    {
      var m: Answers := map[];
      for i := 0 to |peers|
        invariant m == Replaced(peers[..i], suffix)
      {
        assert peers[..i + 1][..i] == peers[..i];
        var name, addrs := Lowered(peers[i].name), PeerAddrs(peers[i].ip4, peers[i].ip6);
        if name == "" {
          continue;
        }
        if suffix != "" {
          m := m[Suffixed(name, suffix) := addrs];
        }
        m := m[name := addrs];
      }
      assert peers[..|peers|] == peers;
      inner, pushed, zone := m, peers, suffix;
    }

    /** Nothing for a name nobody pushed, and otherwise the addresses of the last entry pushed under it. */
    method Lookup(name: string) returns (r: Option<PeerAddrs>)
      requires Valid()
      ensures r.Some? <==> HasKey(pushed, zone, name)
      ensures forall j: nat :: AnsweredBy(pushed, zone, name, j) ==> r == Some(PeerAddrs(pushed[j].ip4, pushed[j].ip6))
    {
      hide Replaced, IsKeyOf;
      ReplacedExactly(pushed, zone, name);
      r := if name in inner then Some(inner[name]) else None;
    }
  }

  /** Entries with pairwise different valid labels: what a table in order pushes. */
  ghost predicate DistinctLabels(ps: seq<PeerEntry>) {
    && (forall i :: 0 <= i < |ps| ==> ValidLabel(ps[i].name))
    && (forall i, j :: 0 <= i < j < |ps| ==> ps[i].name != ps[j].name)
  }

  predicate DotFree(s: string) {
    forall i :: 0 <= i < |s| ==> s[i] != '.'
  }

  lemma LabelFacts(s: string)
    requires ValidLabel(s)
    ensures Lowered(s) == s && DotFree(s) && s != ""
  {
  }

  /** A dot-free name and a zone name never coincide, and zone names differ as their labels do. */
  lemma SuffixedApart(a: string, b: string, suffix: string)
    requires DotFree(a) && DotFree(b)
    ensures Suffixed(a, suffix) != b
    ensures Suffixed(a, suffix) == Suffixed(b, suffix) ==> a == b
  {
    assert Suffixed(a, suffix)[|a|] == '.';
    assert Suffixed(b, suffix)[|b|] == '.';
    if Suffixed(a, suffix) == Suffixed(b, suffix) {
      assert |a| == |b|;
      assert a == Suffixed(a, suffix)[..|a|] && b == Suffixed(b, suffix)[..|b|];
    }
  }

  /** A lookup of the entry's label, and of its name in the zone, gives its addresses. */
  ghost predicate Resolves(m: Answers, p: PeerEntry, suffix: string) {
    var addrs := PeerAddrs(p.ip4, p.ip6);
    && p.name in m && m[p.name] == addrs
    && (suffix != "" ==> Suffixed(p.name, suffix) in m && m[Suffixed(p.name, suffix)] == addrs)
  }

  /** Every entry resolves, and nothing else does. */
  ghost predicate AnswersFor(m: Answers, ps: seq<PeerEntry>, suffix: string) {
    && (forall i :: 0 <= i < |ps| ==> Resolves(m, ps[i], suffix))
    && (forall k :: k in m ==> exists i :: 0 <= i < |ps| && IsKeyOf(k, ps[i], suffix))
  }

  lemma AnswerKeeps(m: Answers, p: PeerEntry, last: PeerEntry, suffix: string)
    requires ValidLabel(p.name) && ValidLabel(last.name) && p.name != last.name && Resolves(m, p, suffix)
    ensures Resolves(Answer(m, last, suffix), p, suffix)
  {
    hide Suffixed, Lowered;
    LabelFacts(p.name);
    LabelFacts(last.name);
    SuffixedApart(p.name, last.name, suffix);
    SuffixedApart(last.name, p.name, suffix);
  }

  lemma AnswerAdds(m: Answers, last: PeerEntry, suffix: string)
    requires ValidLabel(last.name)
    ensures Resolves(Answer(m, last, suffix), last, suffix)
    ensures forall k :: k in Answer(m, last, suffix) ==> k in m || IsKeyOf(k, last, suffix)
  {
    hide Suffixed, Lowered;
    LabelFacts(last.name);
    SuffixedApart(last.name, last.name, suffix);
  }

  lemma {:induction false} ReplacedAnswers(ps: seq<PeerEntry>, suffix: string)
    requires DistinctLabels(ps)
    ensures AnswersFor(Replaced(ps, suffix), ps, suffix)
  {
    hide ValidLabel, Resolves, IsKeyOf, Answer;
    if ps != [] {
      var n := |ps| - 1;
      ReplacedAnswers(ps[..n], suffix);
      var before, after := Replaced(ps[..n], suffix), Replaced(ps, suffix);
      AnswerAdds(before, ps[n], suffix);
      forall i | 0 <= i < n ensures Resolves(after, ps[i], suffix) {
        assert Resolves(before, ps[..n][i], suffix);
        AnswerKeeps(before, ps[i], ps[n], suffix);
      }
      forall k | k in after ensures exists i :: 0 <= i < |ps| && IsKeyOf(k, ps[i], suffix) {
        if k in before {
          var i :| 0 <= i < n && IsKeyOf(k, ps[..n][i], suffix);
          assert IsKeyOf(k, ps[i], suffix);
        }
      }
    }
  }

  // ---- End to end ----

  lemma {:induction false} AsciiLength(s: string)
    requires forall i :: 0 <= i < |s| ==> s[i] as int < 0x80
    ensures |Utf8(s)| == |s|
  {
    if s != "" {
      AsciiLength(s[1..]);
    }
  }

  lemma LabelSurvives(s: string)
    requires ValidLabel(s)
    ensures NameSurvives(s)
  {
    forall i | 0 <= i < |s| ensures s[i] as int < 0x80 {
    }
    AsciiLength(s);
  }

  /** A table in order pushes pairwise different valid labels. */
  lemma SnapshotDistinct(t: Names.Table, peers: seq<SocketAddr>)
    requires t.Ok() && Ordered(t, peers)
    ensures DistinctLabels(Snapshot(t, peers))
  {
    hide ValidLabel;
    var ps, off := Snapshot(t, peers), if t.server.Some? then 1 else 0;
    forall i | off <= i < |ps|
      ensures ps[i].name in t.byName && t.byName[ps[i].name] == peers[i - off]
    {
      assert ps[i] == Entry(t.byPeer[peers[i - off]]);
    }
  }

  /** Exactly the names of the table resolve, each to its row's addresses. */
  ghost predicate ResolvesExactly(m: Answers, t: Names.Table, suffix: string) {
    && (forall p :: p in t.byPeer ==> Resolves(m, NormalEntry(Entry(t.byPeer[p])), suffix))
    && (t.server.Some? ==> Resolves(m, NormalEntry(t.server.value), suffix))
    && (forall k :: k in m ==> exists n :: t.Taken(n) && (k == n || (suffix != "" && k == Suffixed(n, suffix))))
  }

  ghost predicate Ordered(t: Names.Table, peers: seq<SocketAddr>) {
    Lists(peers, t.byPeer.Keys) && forall i :: 0 <= i < |peers| ==> peers[i] in t.byPeer
  }

  /** Whatever the size of the table: the client resolves exactly the rows that the snapshot, cut at 24, holds. */
  lemma PushResolves(t: Names.Table, peers: seq<SocketAddr>, suffix: string)
    requires t.Ok() && Ordered(t, peers)
    ensures var got, qs := Parsed(Encoded(PeerPush(Snapshot(t, peers)))), NormalEntries(Snapshot(t, peers));
            got == Some(PeerPush(qs)) && AnswersFor(Replaced(qs, suffix), qs, suffix)
  {
    hide ValidLabel, Normal6, Parsed, Encoded, NameSurvives, Names.Table.Ok, Replaced, AnswersFor;
    var ps := Snapshot(t, peers);
    SnapshotDistinct(t, peers);
    forall i | 0 <= i < |ps| ensures NameSurvives(ps[i].name) {
      LabelSurvives(ps[i].name);
    }
    MessageRoundTrip(PeerPush(ps));
    assert DistinctLabels(NormalEntries(ps));
    ReplacedAnswers(NormalEntries(ps), suffix);
  }

  /**
   * With at most 24 names in all, pushing the server's snapshot, taken in any order, and replacing
   * the client's table makes every held name, bare or in the zone, answer with that row's
   * addresses, and no other name answer.
   */
  lemma NamesResolve(t: Names.Table, peers: seq<SocketAddr>, suffix: string)
    requires t.Ok() && Ordered(t, peers)
    requires |t.byPeer| + (if t.server.Some? then 1 else 0) <= MAX_PEERS
    ensures var got := Parsed(Encoded(PeerPush(Snapshot(t, peers))));
            got.Some? && got.value.PeerPush? && ResolvesExactly(Replaced(got.value.peers, suffix), t, suffix)
  {
    hide Parsed, Encoded, Names.Table.Ok, Replaced, AnswersFor, ResolvesExactly;
    PushResolves(t, peers, suffix);
    var qs := NormalEntries(Snapshot(t, peers));
    SnapshotAnswers(t, peers, qs, Replaced(qs, suffix), suffix);
  }

  lemma SnapshotAnswers(t: Names.Table, peers: seq<SocketAddr>, qs: seq<PeerEntry>, m: Answers, suffix: string)
    requires t.Ok() && Ordered(t, peers)
    requires |t.byPeer| + (if t.server.Some? then 1 else 0) <= MAX_PEERS
    requires qs == NormalEntries(Snapshot(t, peers)) && AnswersFor(m, qs, suffix)
    ensures ResolvesExactly(m, t, suffix)
  {
    hide ValidLabel, Normal6, Suffixed, Resolves, Names.Table.Ok, Names.Table.Taken, Snapshot, NormalEntry, IsKeyOf;
    forall p | p in t.byPeer ensures Resolves(m, NormalEntry(Entry(t.byPeer[p])), suffix) {
      var i := SnapshotHolds(t, peers, p);
      assert Resolves(m, qs[i], suffix);
    }
    if t.server.Some? {
      SnapshotStarts(t, peers);
      assert Resolves(m, qs[0], suffix);
    }
    forall k | k in m ensures exists n :: t.Taken(n) && (k == n || (suffix != "" && k == Suffixed(n, suffix))) {
      var i :| 0 <= i < |qs| && IsKeyOf(k, qs[i], suffix);
      SnapshotTaken(t, peers, i);
      SnapshotDistinct(t, peers);
      KeyOfName(k, Snapshot(t, peers)[i], suffix);
    }
  }

  lemma KeyOfName(k: string, p: PeerEntry, suffix: string)
    requires IsKeyOf(k, NormalEntry(p), suffix) && ValidLabel(p.name)
    ensures k == p.name || (suffix != "" && k == Suffixed(p.name, suffix))
  {
    hide Suffixed, Lowered;
    LabelFacts(p.name);
  }

  /** Every row is in a snapshot that is not cut. */
  lemma SnapshotHolds(t: Names.Table, peers: seq<SocketAddr>, p: SocketAddr) returns (i: nat)
    requires Ordered(t, peers) && p in t.byPeer
    requires |t.byPeer| + (if t.server.Some? then 1 else 0) <= MAX_PEERS
    ensures i < |Snapshot(t, peers)| && Snapshot(t, peers)[i] == Entry(t.byPeer[p])
  {
    assert p in peers;
    var k :| 0 <= k < |peers| && peers[k] == p;
    i := (if t.server.Some? then 1 else 0) + k;
  }

  lemma SnapshotStarts(t: Names.Table, peers: seq<SocketAddr>)
    requires Ordered(t, peers) && t.server.Some?
    ensures Snapshot(t, peers) != [] && Snapshot(t, peers)[0] == t.server.value
  {
  }

  lemma SnapshotTaken(t: Names.Table, peers: seq<SocketAddr>, i: nat)
    requires t.Ok() && Ordered(t, peers) && i < |Snapshot(t, peers)|
    ensures t.Taken(Snapshot(t, peers)[i].name)
  {
    hide ValidLabel;
    var off := if t.server.Some? then 1 else 0;
    if i >= off {
      assert Snapshot(t, peers)[i] == Entry(t.byPeer[peers[i - off]]);
    }
  }
}
