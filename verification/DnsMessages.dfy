/** DNS questions, synthesized replies and answer sections (src/policy/dns.rs). */
module DnsMessages {
  import opened Bytes
  import opened Dns

  const HEADER_LEN: nat := 12
  const TYPE_A: U16 := 1
  const TYPE_AAAA: U16 := 28
  const CLASS_IN: U16 := 1

  datatype Question = Question(name: Name, qtype: U16, qclass: U16)

  function QuestionOf(msg: seq<Byte>): Option<Question> {
    if |msg| < HEADER_LEN || Word(msg, 4) == 0 then None
    else match NameAt(msg, HEADER_LEN)
         case None => None
         case Some(r) =>
           if r.1 + 4 > |msg| then None
           else Some(Question(r.0, Word(msg, r.1), Word(msg, r.1 + 2)))
  }

  // ---- Queries ----

  /** The pieces of `name` between its dots. */
  function Split(name: Name): (r: seq<Name>)
    ensures r != []
  {
    if name == [] then [[]]
    else
      var rest := Split(name[1..]);
      if name[0] == 46 then [[]] + rest else [[name[0]] + rest[0]] + rest[1..]
  }

  predicate Keeps(text: Name) {
    0 < |text| <= 63
  }

  function Kept(labels: seq<Name>): (r: seq<Name>)
    ensures forall l :: l in r ==> Keeps(l)
  {
    if labels == [] then []
    else (if Keeps(labels[0]) then [labels[0]] else []) + Kept(labels[1..])
  }

  /** A length byte, then the text. */
  function Prefixed(text: Name): (r: seq<Byte>)
    requires Keeps(text)
    ensures |r| == 1 + |text|
  {
    var length: Byte := |text|;
    [length] + text
  }

  function LabelBytes(labels: seq<Name>): (r: seq<Byte>)
    requires forall l :: l in labels ==> Keeps(l)
    ensures |r| >= |labels|
  {
    if labels == [] then [] else Prefixed(labels[0]) + LabelBytes(labels[1..])
  }

  function QueryHead(id: U16): (r: seq<Byte>)
    ensures |r| == HEADER_LEN && Word(r, 4) == 1
  {
    [id / 256, id % 256, 1, 0, 0, 1, 0, 0, 0, 0, 0, 0]
  }

  function Query(id: U16, name: Name): seq<Byte> {
    QueryHead(id) + LabelBytes(Kept(Split(name))) + [0, 0, 1, 0, 1]
  }

  // ---- Replies ----

  function IsFor(qtype: U16, a: IpAddr): bool {
    (qtype == TYPE_A && a.V4?) || (qtype == TYPE_AAAA && a.V6?)
  }

  function Matching(qtype: U16, addrs: seq<IpAddr>): (r: seq<IpAddr>)
    ensures forall a :: a in r ==> IsFor(qtype, a)
  {
    if addrs == [] then []
    else (if IsFor(qtype, addrs[0]) then [addrs[0]] else []) + Matching(qtype, addrs[1..])
  }

  function Octets(a: IpAddr): (r: seq<Byte>)
    ensures |r| == if a.V4? then 4 else 16
  {
    match a
    case V4(ip) => BigEndian(ip, 4)
    case V6(ip) => BigEndian(ip, 16)
  }

  /** The address `Octets` was taken from. */
  function ToAddress(octets: seq<Byte>, v6: bool): IpAddr
    requires |octets| == SizeOf(v6)
  {
    if v6 then V6(FromOctets6(octets)) else V4(FromOctets4(octets))
  }

  function TypeOf(v6: bool): U16 {
    if v6 then TYPE_AAAA else TYPE_A
  }

  function SizeOf(v6: bool): U16 {
    if v6 then 16 else 4
  }

  /** One answer record: a pointer to the question's name, then the fixed fields and the address. */
  function RecordBytes(a: IpAddr, ttl: U32): (r: seq<Byte>)
    ensures |r| == 12 + SizeOf(a.V6?)
  {
    [0xC0, 0x0C] + [0, TypeOf(a.V6?), 0, CLASS_IN] + BigEndian(ttl, 4) + [0, SizeOf(a.V6?)] + Octets(a)
  }

  function RecordsBytes(addrs: seq<IpAddr>, ttl: U32): seq<Byte> {
    if addrs == [] then [] else RecordBytes(addrs[0], ttl) + RecordsBytes(addrs[1..], ttl)
  }

  /** The query's id and question under a reply header. */
  function ReplyHead(query: seq<Byte>, qend: nat, flags: Byte, count: U16): (r: seq<Byte>)
    requires HEADER_LEN <= qend <= |query|
    ensures |r| == qend && r[..2] == query[..2] && r[HEADER_LEN..] == query[HEADER_LEN..qend]
    ensures Word(r, 4) == 1 && Word(r, 6) == count && Word(r, 8) == Word(r, 10) == 0
  {
    query[..2] + [0x81, flags, 0, 1, count / 256, count % 256, 0, 0, 0, 0] + query[HEADER_LEN..qend]
  }

  /** The offset after the first question, if the message holds all of it. */
  function QuestionEnd(msg: seq<Byte>): (r: Option<nat>)
    ensures r.Some? ==> HEADER_LEN < r.value <= |msg|
  {
    match SkipName(msg, HEADER_LEN)
    case None => None
    case Some(p) =>
      SkipInside(msg, HEADER_LEN);
      if p + 4 > |msg| then None else Some(p + 4)
  }

  function Response(query: seq<Byte>, addrs: seq<IpAddr>, ttl: U32): Option<seq<Byte>> {
    match QuestionOf(query)
    case None => None
    case Some(q) =>
      match QuestionEnd(query)
      case None => None
      case Some(qend) =>
        if q.qclass != CLASS_IN then Some(ReplyHead(query, qend, 0x80, 0))
        else
          var records := Matching(q.qtype, addrs);
          Some(ReplyHead(query, qend, 0x80, |records| % 0x1_0000) + RecordsBytes(records, ttl))
  }

  function NxDomain(query: seq<Byte>): Option<seq<Byte>> {
    match QuestionEnd(query)
    case None => None
    case Some(qend) => Some(ReplyHead(query, qend, 0x83, 0))
  }

  // ---- Reading answers ----

  function SkipQuestions(msg: seq<Byte>, pos: nat, count: nat): Option<nat>
    decreases count
  {
    if count == 0 then Some(pos)
    else match SkipName(msg, pos)
         case None => None
         case Some(p) => if p + 4 > |msg| then None else SkipQuestions(msg, p + 4, count - 1)
  }

  /** The record at `pos`: the offset after it, and its address when it is an Internet record of this family. */
  function RecordAt(msg: seq<Byte>, pos: nat, v6: bool): Option<(nat, seq<IpAddr>)> {
    match SkipName(msg, pos)
    case None => None
    case Some(p) =>
      if p + 10 > |msg| || p + 10 + Word(msg, p + 8) > |msg| then None
      else
        var end := p + 10 + Word(msg, p + 8);
        if Word(msg, p) == TypeOf(v6) && Word(msg, p + 2) == CLASS_IN && Word(msg, p + 8) == SizeOf(v6)
        then Some((end, [ToAddress(msg[p + 10..end], v6)]))
        else Some((end, []))
  }

  /** The addresses of one family in the next `count` records, up to the first malformed one. */
  function Answers(msg: seq<Byte>, pos: nat, count: nat, v6: bool): seq<IpAddr>
    decreases count
  {
    if count == 0 then []
    else match RecordAt(msg, pos, v6)
         case None => []
         case Some(r) => r.1 + Answers(msg, r.0, count - 1, v6)
  }

  /** `a_records` and `aaaa_records`. */
  function AddressesIn(msg: seq<Byte>, v6: bool): seq<IpAddr> {
    if |msg| < HEADER_LEN then []
    else match SkipQuestions(msg, HEADER_LEN, Word(msg, 4))
         case None => []
         case Some(pos) => Answers(msg, pos, Word(msg, 6), v6)
  }

  function Sooner(best: Option<nat>, ttl: nat): Option<nat> {
    match best
    case None => Some(ttl)
    case Some(b) => Some(if ttl < b then ttl else b)
  }

  function LeastTtl(msg: seq<Byte>, pos: nat, count: nat, best: Option<nat>): Option<nat>
    decreases count
  {
    if count == 0 then best
    else match SkipName(msg, pos)
         case None => None
         case Some(p) =>
           if p + 10 > |msg| then best
           else LeastTtl(msg, p + 10 + Word(msg, p + 8), count - 1, Sooner(best, FromBigEndian(msg[p + 4..p + 8])))
  }

  function MinTtl(msg: seq<Byte>): Option<nat> {
    if |msg| < HEADER_LEN then None
    else match SkipQuestions(msg, HEADER_LEN, Word(msg, 4))
         case None => None
         case Some(pos) => LeastTtl(msg, pos, Word(msg, 6), None)
  }

  /** The TTLs of the next `count` records, up to the end of the message; nothing if a name is malformed. */
  ghost function TtlsFrom(msg: seq<Byte>, pos: nat, count: nat): Option<seq<nat>>
    decreases count
  {
    if count == 0 then Some([])
    else match SkipName(msg, pos)
         case None => None
         case Some(p) =>
           if p + 10 > |msg| then Some([])
           else match TtlsFrom(msg, p + 10 + Word(msg, p + 8), count - 1)
                case None => None
                case Some(rest) => Some([FromBigEndian(msg[p + 4..p + 8])] + rest)
  }

  predicate IsLeast(ttls: seq<nat>, least: Option<nat>) {
    match least
    case None => ttls == []
    case Some(t) => t in ttls && forall u :: u in ttls ==> t <= u
  }

  lemma {:induction false} LeastOfRest(msg: seq<Byte>, pos: nat, count: nat, seen: seq<nat>, best: Option<nat>)
    requires IsLeast(seen, best)
    ensures match TtlsFrom(msg, pos, count)
            case None => LeastTtl(msg, pos, count, best) == None
            case Some(ttls) => IsLeast(seen + ttls, LeastTtl(msg, pos, count, best))
    decreases count
  {
    hide SkipName, FromBigEndian;
    assert seen + [] == seen;
    if count > 0 && SkipName(msg, pos).Some? {
      var p := SkipName(msg, pos).value;
      if p + 10 <= |msg| {
        var ttl := FromBigEndian(msg[p + 4..p + 8]);
        LeastOfRest(msg, p + 10 + Word(msg, p + 8), count - 1, seen + [ttl], Sooner(best, ttl));
        var ttls := TtlsFrom(msg, p + 10 + Word(msg, p + 8), count - 1);
        if ttls.Some? {
          assert seen + ([ttl] + ttls.value) == seen + [ttl] + ttls.value;
        }
      }
    }
  }

  /** For every message the answer is the least TTL of the answer section, or nothing when there is none to read. */
  lemma MinTtlIsLeast(msg: seq<Byte>)
    requires |msg| >= HEADER_LEN
    ensures match SkipQuestions(msg, HEADER_LEN, Word(msg, 4))
            case None => MinTtl(msg) == None
            case Some(pos) =>
              match TtlsFrom(msg, pos, Word(msg, 6))
              case None => MinTtl(msg) == None
              case Some(ttls) => IsLeast(ttls, MinTtl(msg))
  {
    var after := SkipQuestions(msg, HEADER_LEN, Word(msg, 4));
    if after.Some? {
      LeastOfRest(msg, after.value, Word(msg, 6), [], None);
      var ttls := TtlsFrom(msg, after.value, Word(msg, 6));
      assert ttls.Some? ==> [] + ttls.value == ttls.value;
    }
  }

  // ---- A query asks what it was built for ----

  lemma LabelHop(msg: seq<Byte>, pos: nat, text: Name, rest: seq<Byte>)
    requires Keeps(text) && pos <= |msg| && msg[pos..] == Prefixed(text) + rest
    ensures HopAt(msg, pos) == Label(pos + 1 + |text|, text)
    ensures msg[pos + 1 + |text|..] == rest
  {
    var next := pos + 1 + |text|;
    assert msg[pos] == msg[pos..][0];
    assert msg[pos + 1..next] == msg[pos..][1..1 + |text|] == text;
    assert msg[next..] == msg[pos..][1 + |text|..];
  }

  lemma {:induction false} LabelsRead(msg: seq<Byte>, pos: nat, labels: seq<Name>, tail: seq<Byte>, budget: nat)
    requires forall l :: l in labels ==> Keeps(l)
    requires pos <= |msg| && msg[pos..] == LabelBytes(labels) + [0] + tail
    requires budget > |labels|
    ensures Read(msg, pos, budget) == Some((LowerEach(labels), pos + |LabelBytes(labels)| + 1))
    decreases |labels|
  {
    hide Prefixed, LowerAll, HopAt, Read;
    if labels == [] {
      assert msg[pos..] == [0] + tail;
      ReadRoot(msg, pos, tail, budget);
    } else {
      LabelBytesSplit(labels, tail);
      var rest := LabelBytes(labels[1..]) + [0] + tail;
      LabelHop(msg, pos, labels[0], rest);
      LabelsRead(msg, pos + 1 + |labels[0]|, labels[1..], tail, budget - 1);
      ReadLabel(msg, pos, budget);
    }
  }

  lemma LabelBytesSplit(labels: seq<Name>, tail: seq<Byte>)
    requires labels != [] && forall l :: l in labels ==> Keeps(l)
    ensures LabelBytes(labels) + [0] + tail == Prefixed(labels[0]) + (LabelBytes(labels[1..]) + [0] + tail)
    ensures |LabelBytes(labels)| == 1 + |labels[0]| + |LabelBytes(labels[1..])|
  {
    hide Prefixed;
  }

  lemma ReadRoot(msg: seq<Byte>, pos: nat, tail: seq<Byte>, budget: nat)
    requires pos <= |msg| && msg[pos..] == [0] + tail && budget > 0
    ensures Read(msg, pos, budget) == Some(([], pos + 1))
  {
    assert msg[pos] == msg[pos..][0];
  }

  /** Reading past a label adds it, lower-cased, to what follows. */
  lemma ReadLabel(msg: seq<Byte>, pos: nat, budget: nat)
    requires budget > 0 && HopAt(msg, pos).Label? && Read(msg, HopAt(msg, pos).next, budget - 1).Some?
    ensures var h := HopAt(msg, pos);
            var r := Read(msg, h.next, budget - 1).value;
            Read(msg, pos, budget) == Some(([LowerAll(h.text)] + r.0, r.1))
  {
    hide HopAt, LowerAll;
  }

  lemma LowerConcat(a: Name, b: Name)
    ensures LowerAll(a + b) == LowerAll(a) + LowerAll(b)
  {
  }

  lemma {:induction false} LowerJoin(labels: seq<Name>)
    ensures Join(LowerEach(labels)) == LowerAll(Join(labels))
  {
    if |labels| == 1 {
      assert LowerEach(labels) == [LowerAll(labels[0])];
    } else if |labels| > 1 {
      LowerJoin(labels[1..]);
      LowerConcat(labels[0] + [46], Join(labels[1..]));
      LowerConcat(labels[0], [46]);
      assert LowerEach(labels)[1..] == LowerEach(labels[1..]);
    }
  }

  /** The question read back from a built query is the lower-cased name without its empty or over-long labels. */
  lemma QueryRoundTrip(id: U16, name: Name)
    ensures QuestionOf(Query(id, name)) == Some(Question(LowerAll(Join(Kept(Split(name)))), TYPE_A, CLASS_IN))
  {
    hide Read, LabelBytes, Split, Kept, LowerAll, Join;
    var labels := Kept(Split(name));
    var msg := Query(id, name);
    var tail := [0, 1, 0, 1];
    var end := HEADER_LEN + |LabelBytes(labels)| + 1;
    QueryLayout(id, labels);
    LabelsRead(msg, HEADER_LEN, labels, tail, |msg|);
    LowerJoin(labels);
  }

  lemma QueryLayout(id: U16, labels: seq<Name>)
    requires forall l :: l in labels ==> Keeps(l)
    ensures var msg := QueryHead(id) + LabelBytes(labels) + [0, 0, 1, 0, 1];
            var end := HEADER_LEN + |LabelBytes(labels)| + 1;
            && msg[HEADER_LEN..] == LabelBytes(labels) + [0] + [0, 1, 0, 1]
            && Word(msg, 4) == 1 && |msg| == end + 4
            && Word(msg, end) == TYPE_A && Word(msg, end + 2) == CLASS_IN
  {
    hide LabelBytes;
    var head, body := QueryHead(id), LabelBytes(labels);
    var msg := head + body + [0, 0, 1, 0, 1];
    assert msg[4] == head[4] && msg[5] == head[5];
  }

  lemma {:induction false} JoinSplit(name: Name)
    ensures Join(Split(name)) == name
  {
    if name != [] {
      JoinSplit(name[1..]);
      var rest := Split(name[1..]);
      if name[0] == 46 {
        assert Split(name)[1..] == rest;
      } else if |rest| > 1 {
        assert Split(name)[1..] == rest[1..];
      }
      assert name == [name[0]] + name[1..];
    }
  }

  lemma {:induction false} AllKept(labels: seq<Name>)
    requires forall l :: l in labels ==> Keeps(l)
    ensures Kept(labels) == labels
  {
    if labels != [] {
      AllKept(labels[1..]);
    }
  }

  /** A name of well-sized labels is asked for as it stands, up to case. */
  lemma QueryAsksName(id: U16, name: Name)
    requires forall l :: l in Split(name) ==> Keeps(l)
    ensures QuestionOf(Query(id, name)) == Some(Question(LowerAll(name), TYPE_A, CLASS_IN))
  {
    AllKept(Split(name));
    JoinSplit(name);
    QueryRoundTrip(id, name);
  }

  // ---- A reply answers what was asked ----

  /** A reply is built exactly when the query has a readable question. */
  lemma ResponseExact(query: seq<Byte>, addrs: seq<IpAddr>, ttl: U32)
    ensures Response(query, addrs, ttl).Some? <==> QuestionOf(query).Some?
  {
    if QuestionOf(query).Some? {
      SkipAgrees(query, HEADER_LEN, |query|);
    }
  }

  /** The addresses of one family, in order. */
  function Family(addrs: seq<IpAddr>, v6: bool): seq<IpAddr> {
    if addrs == [] then []
    else (if addrs[0].V6? == v6 then [addrs[0]] else []) + Family(addrs[1..], v6)
  }

  lemma {:induction false} FamilyOfMatching(qtype: U16, addrs: seq<IpAddr>, v6: bool)
    requires forall a :: a in addrs ==> IsFor(qtype, a)
    ensures Family(addrs, v6) == if qtype == TypeOf(v6) then addrs else []
  {
    if addrs != [] {
      assert IsFor(qtype, addrs[0]);
      FamilyOfMatching(qtype, addrs[1..], v6);
    }
  }

  /** The fields of an answer record, where it stands in a message. */
  lemma RecordFields(msg: seq<Byte>, pos: nat, a: IpAddr, ttl: U32)
    requires pos + |RecordBytes(a, ttl)| <= |msg|
    requires msg[pos..pos + |RecordBytes(a, ttl)|] == RecordBytes(a, ttl)
    ensures SkipName(msg, pos) == Some(pos + 2)
    ensures Word(msg, pos + 2) == TypeOf(a.V6?) && Word(msg, pos + 4) == CLASS_IN
    ensures FromBigEndian(msg[pos + 6..pos + 10]) == ttl
    ensures Word(msg, pos + 10) == |Octets(a)| && msg[pos + 12..pos + 12 + |Octets(a)|] == Octets(a)
  {
    hide BigEndian, Octets;
    var r := RecordBytes(a, ttl);
    forall j | pos <= j < pos + |r| ensures msg[j] == r[j - pos] {
      assert msg[j] == msg[pos..pos + |r|][j - pos];
    }
    assert msg[pos + 6..pos + 10] == r[6..10] == BigEndian(ttl, 4);
    assert msg[pos + 12..pos + |r|] == r[12..] == Octets(a);
    Pow256Values();
    BigEndianRoundTrip(ttl, 4);
    assert msg[pos] == 0xC0;
    assert msg[pos + 2] == 0 && msg[pos + 3] == TypeOf(a.V6?) && msg[pos + 4] == 0 && msg[pos + 5] == CLASS_IN;
    assert msg[pos + 10] == 0 && msg[pos + 11] == SizeOf(a.V6?);
  }

  lemma AddressBack(a: IpAddr)
    ensures ToAddress(Octets(a), a.V6?) == a
  {
    hide FromOctets4, FromOctets6, BigEndian;
    match a
    case V4(ip) => OctetsRoundTrip(ip, 0);
    case V6(ip) => OctetsRoundTrip(0, ip);
  }

  lemma {:induction false} AnswersBack(msg: seq<Byte>, pos: nat, addrs: seq<IpAddr>, ttl: U32, count: nat, v6: bool)
    requires pos <= |msg| && msg[pos..] == RecordsBytes(addrs, ttl) && count <= |addrs|
    ensures Answers(msg, pos, count, v6) == Family(addrs[..count], v6)
    decreases count
  {
    hide RecordBytes, Octets, SkipName, RecordsBytes, FromBigEndian, ToAddress;
    if count > 0 {
      var r := RecordBytes(addrs[0], ttl);
      NextRecord(msg, pos, addrs, ttl);
      AddressBack(addrs[0]);
      AnswersBack(msg, pos + |r|, addrs[1..], ttl, count - 1, v6);
      assert addrs[..count][1..] == addrs[1..][..count - 1];
    }
  }

  lemma NextRecord(msg: seq<Byte>, pos: nat, addrs: seq<IpAddr>, ttl: U32)
    requires pos <= |msg| && addrs != [] && msg[pos..] == RecordsBytes(addrs, ttl)
    ensures var r := RecordBytes(addrs[0], ttl);
            && pos + |r| <= |msg| && msg[pos + |r|..] == RecordsBytes(addrs[1..], ttl)
            && SkipName(msg, pos) == Some(pos + 2)
            && Word(msg, pos + 2) == TypeOf(addrs[0].V6?) && Word(msg, pos + 4) == CLASS_IN
            && FromBigEndian(msg[pos + 6..pos + 10]) == ttl
            && Word(msg, pos + 10) == |Octets(addrs[0])|
            && msg[pos + 12..pos + 12 + |Octets(addrs[0])|] == Octets(addrs[0])
  {
    hide RecordBytes, Octets, SkipName;
    var r := RecordBytes(addrs[0], ttl);
    assert msg[pos..] == r + RecordsBytes(addrs[1..], ttl);
    assert msg[pos..pos + |r|] == msg[pos..][..|r|] == r;
    assert msg[pos + |r|..] == msg[pos..][|r|..];
    RecordFields(msg, pos, addrs[0], ttl);
  }

  lemma {:induction false} TtlsBack(msg: seq<Byte>, pos: nat, addrs: seq<IpAddr>, ttl: U32, count: nat, best: Option<nat>)
    requires pos <= |msg| && msg[pos..] == RecordsBytes(addrs, ttl) && count <= |addrs|
    requires best == None || best == Some(ttl)
    ensures LeastTtl(msg, pos, count, best) == if count == 0 then best else Some(ttl)
    decreases count
  {
    hide RecordBytes, Octets, SkipName, RecordsBytes, FromBigEndian;
    if count > 0 {
      NextRecord(msg, pos, addrs, ttl);
      TtlsBack(msg, pos + |RecordBytes(addrs[0], ttl)|, addrs[1..], ttl, count - 1, Some(ttl));
    }
  }

  /** A reply header followed by anything leads its reader to the end of the question. */
  lemma ReplyLayout(query: seq<Byte>, qend: nat, flags: Byte, count: U16, body: seq<Byte>)
    requires QuestionEnd(query) == Some(qend)
    ensures var m := ReplyHead(query, qend, flags, count) + body;
            && m[qend..] == body && Word(m, 6) == count
            && SkipQuestions(m, HEADER_LEN, Word(m, 4)) == Some(qend)
  {
    hide Read, FromBigEndian;
    var head := ReplyHead(query, qend, flags, count);
    var m := head + body;
    assert m[4] == head[4] && m[5] == head[5] && m[6] == head[6] && m[7] == head[7];
    forall i | HEADER_LEN <= i < qend ensures m[i] == query[i] {
      assert m[i] == head[HEADER_LEN..][i - HEADER_LEN];
    }
    SkipLocal(query, m, HEADER_LEN);
    assert SkipQuestions(m, qend, 0) == Some(qend);
    assert SkipQuestions(m, HEADER_LEN, 1) == Some(qend);
  }

  /** The addresses a query of this type and class may be answered with. */
  function Asked(q: Question, addrs: seq<IpAddr>): seq<IpAddr> {
    if q.qclass == CLASS_IN then Matching(q.qtype, addrs) else []
  }

  /**
    * Reading a reply back gives exactly the asked family's addresses, in order, as far as the 16-bit answer
    * count reaches, none of the other family, and the given TTL.
    */
  lemma ResponseAnswers(query: seq<Byte>, addrs: seq<IpAddr>, ttl: U32, v6: bool)
    requires QuestionOf(query).Some?
    ensures var q := QuestionOf(query).value;
            var told := Asked(q, addrs)[..|Asked(q, addrs)| % 0x1_0000];
            && Response(query, addrs, ttl).Some?
            && var m := Response(query, addrs, ttl).value;
               && AddressesIn(m, v6) == (if q.qtype == TypeOf(v6) then told else [])
               && MinTtl(m) == (if told == [] then None else Some(ttl))
  {
    hide SkipQuestions, ReplyHead, Read, Answers, LeastTtl, RecordsBytes, Matching, QuestionOf;
    ResponseExact(query, addrs, ttl);
    var q := QuestionOf(query).value;
    var qend := QuestionEnd(query).value;
    var records := Asked(q, addrs);
    var count := |records| % 0x1_0000;
    var m := Response(query, addrs, ttl).value;
    var body := m[qend..];
    ReplyBody(query, addrs, ttl);
    ReplyLayout(query, qend, 0x80, count, body);
    AnswersBack(m, qend, records, ttl, count, v6);
    FamilyOfMatching(q.qtype, records[..count], v6);
    TtlsBack(m, qend, records, ttl, count, None);
  }

  lemma ReplyBody(query: seq<Byte>, addrs: seq<IpAddr>, ttl: U32)
    requires QuestionOf(query).Some? && QuestionEnd(query).Some?
    ensures var qend := QuestionEnd(query).value;
            var records := Asked(QuestionOf(query).value, addrs);
            && Response(query, addrs, ttl).Some?
            && var m := Response(query, addrs, ttl).value;
               && qend <= |m| && m[qend..] == RecordsBytes(records, ttl)
               && m == ReplyHead(query, qend, 0x80, |records| % 0x1_0000) + m[qend..]
  {
    hide QuestionOf;
    var qend := QuestionEnd(query).value;
    var records := Asked(QuestionOf(query).value, addrs);
    var head := ReplyHead(query, qend, 0x80, |records| % 0x1_0000);
    var m := Response(query, addrs, ttl).value;
    assert m == head + RecordsBytes(records, ttl);
    assert m[qend..] == RecordsBytes(records, ttl);
  }

  lemma SameWord(a: seq<Byte>, b: seq<Byte>, i: nat)
    requires i + 1 < |a| && a <= b
    ensures Word(b, i) == Word(a, i)
  {
    assert b[i] == a[i] && b[i + 1] == a[i + 1];
  }

  /** Bit `b` of a header byte. */
  predicate Bit(x: Byte, b: nat)
    requires b < 8
  {
    x / [1, 2, 4, 8, 16, 32, 64, 128][b] % 2 == 1
  }

  /** A reply by its header: a response (QR), recursion desired and available, no referral sections. */
  predicate IsReply(query: seq<Byte>, m: seq<Byte>, rcode: nat) {
    && |m| >= HEADER_LEN && |query| >= HEADER_LEN && m[..2] == query[..2]
    && Bit(m[2], 7) && Bit(m[2], 0) && Bit(m[3], 7) && m[3] % 16 == rcode
    && Word(m, 4) == 1 && Word(m, 8) == 0 && Word(m, 10) == 0
  }

  /** An answer is a reply without error, a refusal one with NXDOMAIN (code 3). */
  lemma RepliesToQuery(query: seq<Byte>, addrs: seq<IpAddr>, ttl: U32)
    ensures Response(query, addrs, ttl).Some? ==> IsReply(query, Response(query, addrs, ttl).value, 0)
    ensures NxDomain(query).Some? ==> IsReply(query, NxDomain(query).value, 3)
  {
    hide QuestionOf, RecordsBytes, SkipName;
    if QuestionEnd(query).Some? {
      var qend := QuestionEnd(query).value;
      ReplyHeader(query, qend, 0x83, 0, [], 3);
      assert NxDomain(query).value == NxDomain(query).value + [];
      if QuestionOf(query).Some? {
        ReplyBody(query, addrs, ttl);
        var m := Response(query, addrs, ttl).value;
        ReplyHeader(query, qend, 0x80, |Asked(QuestionOf(query).value, addrs)| % 0x1_0000, m[qend..], 0);
      }
    }
  }

  lemma ReplyHeader(query: seq<Byte>, qend: nat, flags: Byte, count: U16, body: seq<Byte>, rcode: nat)
    requires HEADER_LEN <= qend <= |query| && Bit(flags, 7) && flags % 16 == rcode
    ensures IsReply(query, ReplyHead(query, qend, flags, count) + body, rcode)
  {
    var head := ReplyHead(query, qend, flags, count);
    var m := head + body;
    assert m[..2] == head[..2] && m[2] == head[2] && m[3] == head[3];
    SameWord(head, m, 4);
    SameWord(head, m, 8);
    SameWord(head, m, 10);
  }

  /** An NXDOMAIN reply carries no address. */
  lemma NxDomainIsEmpty(query: seq<Byte>, v6: bool)
    requires NxDomain(query).Some?
    ensures AddressesIn(NxDomain(query).value, v6) == [] && MinTtl(NxDomain(query).value) == None
  {
    hide SkipQuestions;
    var qend := QuestionEnd(query).value;
    var m := NxDomain(query).value;
    ReplyLayout(query, qend, 0x83, 0, []);
    assert m + [] == m;
  }

  // ---- The loops ----

  lemma {:induction false} LabelBytesGrow(labels: seq<Name>, text: Name)
    requires Keeps(text) && forall l :: l in labels ==> Keeps(l)
    ensures LabelBytes(labels + [text]) == LabelBytes(labels) + Prefixed(text)
  {
    hide Prefixed;
    if labels == [] {
      assert labels + [text] == [text];
      assert LabelBytes([]) == [];
      assert LabelBytes([text]) == Prefixed(text) + [] == Prefixed(text);
    } else {
      LabelBytesGrow(labels[1..], text);
      assert (labels + [text])[1..] == labels[1..] + [text];
    }
  }

  lemma {:induction false} KeptGrow(labels: seq<Name>, text: Name)
    ensures Kept(labels + [text]) == Kept(labels) + if Keeps(text) then [text] else []
  {
    hide Keeps;
    if labels == [] {
      assert labels + [text] == [text];
    } else {
      KeptGrow(labels[1..], text);
      assert (labels + [text])[0] == labels[0] && (labels + [text])[1..] == labels[1..] + [text];
      var head := if Keeps(labels[0]) then [labels[0]] else [];
      var last := if Keeps(text) then [text] else [];
      assert head + (Kept(labels[1..]) + last) == head + Kept(labels[1..]) + last;
    }
  }

  lemma EmptyBody()
    ensures LabelBytes(Kept([])) == []
  {
    assert Kept([]) == [];
  }

  method BuildQuery(id: U16, name: Name) returns (m: seq<Byte>)
    ensures m == Query(id, name)
  {
    hide Split, Kept, LabelBytes, Prefixed, QueryHead;
    var labels := Split(name);
    m := QueryHead(id);
    assert labels[..0] == [] && LabelBytes(Kept([])) == [] by {
      EmptyBody();
    }
    for i := 0 to |labels|
      invariant m == QueryHead(id) + LabelBytes(Kept(labels[..i]))
    {
      assert labels[..i + 1] == labels[..i] + [labels[i]];
      KeptGrow(labels[..i], labels[i]);
      if labels[i] == [] || |labels[i]| > 63 {
        assert Kept(labels[..i]) + [] == Kept(labels[..i]);
        continue;
      }
      LabelBytesGrow(Kept(labels[..i]), labels[i]);
      m := m + Prefixed(labels[i]);
    }
    assert labels[..|labels|] == labels;
    m := m + [0] + [0, TYPE_A] + [0, CLASS_IN];
  }

  lemma {:induction false} RecordsGrow(addrs: seq<IpAddr>, a: IpAddr, ttl: U32)
    ensures RecordsBytes(addrs + [a], ttl) == RecordsBytes(addrs, ttl) + RecordBytes(a, ttl)
  {
    hide RecordBytes;
    if addrs == [] {
      assert addrs + [a] == [a];
      assert RecordsBytes([a], ttl) == RecordBytes(a, ttl) + [] == RecordBytes(a, ttl);
    } else {
      RecordsGrow(addrs[1..], a, ttl);
      assert (addrs + [a])[1..] == addrs[1..] + [a];
    }
  }

  method BuildResponse(query: seq<Byte>, addrs: seq<IpAddr>, ttl: U32) returns (r: Option<seq<Byte>>)
    ensures r == Response(query, addrs, ttl)
  {
    hide RecordBytes, Matching, ReplyHead, QuestionOf, QuestionEnd;
    var question := QuestionOf(query);
    var end := QuestionEnd(query);
    if question == None || end == None {
      return None;
    }
    if question.value.qclass != CLASS_IN {
      return Some(ReplyHead(query, end.value, 0x80, 0));
    }
    var records := Matching(question.value.qtype, addrs);
    var head := ReplyHead(query, end.value, 0x80, |records| % 0x1_0000);
    var m := head;
    for i := 0 to |records|
      invariant m == head + RecordsBytes(records[..i], ttl)
    {
      assert records[..i + 1] == records[..i] + [records[i]];
      RecordsGrow(records[..i], records[i], ttl);
      m := m + RecordBytes(records[i], ttl);
    }
    assert records[..|records|] == records;
    r := Some(m);
  }

  method PassQuestions(msg: seq<Byte>, count: nat) returns (r: Option<nat>)
    ensures r == SkipQuestions(msg, HEADER_LEN, count)
  {
    var pos: nat := HEADER_LEN;
    for i := 0 to count
      invariant SkipQuestions(msg, HEADER_LEN, count) == SkipQuestions(msg, pos, count - i)
    {
      var p := Skip(msg, pos);
      if p == None {
        return None;
      }
      pos := p.value + 4;
      if pos > |msg| {
        return None;
      }
    }
    r := Some(pos);
  }

  method ReadRecord(msg: seq<Byte>, start: nat, v6: bool) returns (r: Option<(nat, seq<IpAddr>)>)
    ensures r == RecordAt(msg, start, v6)
  {
    hide ToAddress, SkipName;
    var p := Skip(msg, start);
    if p == None || p.value + 10 > |msg| {
      return None;
    }
    var pos := p.value;
    var rtype, rclass, length := Word(msg, pos), Word(msg, pos + 2), Word(msg, pos + 8);
    pos := pos + 10;
    if pos + length > |msg| {
      return None;
    }
    var found := [];
    if rtype == TypeOf(v6) && rclass == CLASS_IN && length == SizeOf(v6) {
      found := [ToAddress(msg[pos..pos + length], v6)];
    }
    r := Some((pos + length, found));
  }

  method ReadAddresses(msg: seq<Byte>, v6: bool) returns (out: seq<IpAddr>)
    ensures out == AddressesIn(msg, v6)
  {
    hide RecordAt, SkipQuestions;
    out := [];
    if |msg| < HEADER_LEN {
      return;
    }
    var count := Word(msg, 6);
    var after := PassQuestions(msg, Word(msg, 4));
    if after == None {
      return;
    }
    var pos: nat := after.value;
    for i := 0 to count
      invariant AddressesIn(msg, v6) == out + Answers(msg, pos, count - i, v6)
    {
      var r := ReadRecord(msg, pos, v6);
      if r == None {
        return;
      }
      out := out + r.value.1;
      pos := r.value.0;
    }
  }

  method ReadMinTtl(msg: seq<Byte>) returns (least: Option<nat>)
    ensures least == MinTtl(msg)
  {
    hide SkipName, FromBigEndian;
    least := None;
    if |msg| < HEADER_LEN {
      return;
    }
    var count := Word(msg, 6);
    var after := PassQuestions(msg, Word(msg, 4));
    if after == None {
      return;
    }
    var pos: nat := after.value;
    for i := 0 to count
      invariant MinTtl(msg) == LeastTtl(msg, pos, count - i, least)
    {
      var p := Skip(msg, pos);
      if p == None {
        return None;
      }
      pos := p.value;
      if pos + 10 > |msg| {
        return;
      }
      var ttl := FromBigEndian(msg[pos + 4..pos + 8]);
      pos := pos + 10 + Word(msg, pos + 8);
      least := Sooner(least, ttl);
    }
  }
}
