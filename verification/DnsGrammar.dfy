/** The reader against the message format of section 4.1 of RFC 1035, for every question and record (src/policy/dns.rs). */
module DnsGrammar {
  import opened Bytes
  import opened Dns
  import opened DnsMessages

  // ---- The format ----

  predicate IsLabel(text: Name) {
    1 <= |text| <= 63
  }

  /** A name: labels, then the root or a pointer to an earlier name. */
  datatype WireName = WireName(labels: seq<Name>, pointer: Option<nat>)
  {
    predicate Valid() {
      (forall i :: 0 <= i < |labels| ==> IsLabel(labels[i])) && (pointer.Some? ==> pointer.value < 16384)
    }

    /** Without its first label. */
    function Rest(): WireName
      requires labels != []
    {
      WireName(labels[1..], pointer)
    }

    function Bytes(): (r: seq<Byte>)
      requires Valid()
      ensures r != []
      decreases |labels|
    {
      if labels != [] then
        var length: Byte := |labels[0]|;
        [length] + labels[0] + Rest().Bytes()
      else if pointer.Some? then [192 + pointer.value / 256, pointer.value % 256]
      else [0]
    }
  }

  datatype WireQuestion = WireQuestion(name: WireName, qtype: U16, qclass: U16)
  {
    function Bytes(): seq<Byte>
      requires name.Valid()
    {
      name.Bytes() + BigEndian(qtype, 2) + BigEndian(qclass, 2)
    }
  }

  datatype WireRecord = WireRecord(name: WireName, rtype: U16, rclass: U16, ttl: U32, data: seq<Byte>)
  {
    predicate Valid() {
      name.Valid() && |data| < 0x1_0000
    }

    function Fields(): (r: seq<Byte>)
      requires Valid()
      ensures |r| == 10 + |data|
    {
      BigEndian(rtype, 2) + BigEndian(rclass, 2) + BigEndian(ttl, 4) + BigEndian(|data|, 2) + data
    }

    function Bytes(): seq<Byte>
      requires Valid()
    {
      name.Bytes() + Fields()
    }

    /** The address of an Internet record of type A (1) or AAAA (28) and of the right size. */
    function Address(v6: bool): seq<IpAddr> {
      if v6 then if rtype == 28 && rclass == 1 && |data| == 16 then [V6(FromOctets6(data))] else []
      else if rtype == 1 && rclass == 1 && |data| == 4 then [V4(FromOctets4(data))] else []
    }
  }

  predicate AllQuestions(qs: seq<WireQuestion>) {
    forall i :: 0 <= i < |qs| ==> qs[i].name.Valid()
  }

  predicate AllRecords(rs: seq<WireRecord>) {
    forall i :: 0 <= i < |rs| ==> rs[i].Valid()
  }

  function QuestionsBytes(qs: seq<WireQuestion>): seq<Byte>
    requires AllQuestions(qs)
  {
    if qs == [] then [] else qs[0].Bytes() + QuestionsBytes(qs[1..])
  }

  function RecordsWire(rs: seq<WireRecord>): seq<Byte>
    requires AllRecords(rs)
  {
    if rs == [] then [] else rs[0].Bytes() + RecordsWire(rs[1..])
  }

  /** The addresses of one family among the records, in order, and the times to live of all of them. */
  function Addresses(rs: seq<WireRecord>, v6: bool): seq<IpAddr> {
    if rs == [] then [] else rs[0].Address(v6) + Addresses(rs[1..], v6)
  }

  function Ttls(rs: seq<WireRecord>): seq<nat> {
    if rs == [] then [] else [rs[0].ttl] + Ttls(rs[1..])
  }

  /** A message: a header with these counts, its questions and answers, and anything behind them. */
  ghost predicate Message(msg: seq<Byte>, qs: seq<WireQuestion>, rs: seq<WireRecord>) {
    && AllQuestions(qs) && AllRecords(rs) && |msg| >= 12 && Word(msg, 4) == |qs| && Word(msg, 6) == |rs|
    && QuestionsBytes(qs) + RecordsWire(rs) <= msg[12..]
  }

  // ---- Bytes in place ----

  /** The bytes `b` stand at `pos`. */
  predicate Stands(msg: seq<Byte>, pos: nat, b: seq<Byte>) {
    pos + |b| <= |msg| && msg[pos..pos + |b|] == b
  }

  lemma StandsSplit(msg: seq<Byte>, pos: nat, a: seq<Byte>, b: seq<Byte>)
    ensures Stands(msg, pos, a + b) <==> Stands(msg, pos, a) && Stands(msg, pos + |a|, b)
  {
    if pos + |a + b| <= |msg| {
      var s := msg[pos..pos + |a + b|];
      assert s[..|a|] == msg[pos..pos + |a|] && s[|a|..] == msg[pos + |a|..pos + |a| + |b|];
      assert s == s[..|a|] + s[|a|..];
      assert (a + b)[..|a|] == a && (a + b)[|a|..] == b;
    }
  }

  lemma StandsAt(msg: seq<Byte>, pos: nat, b: seq<Byte>, i: nat)
    requires Stands(msg, pos, b) && i < |b|
    ensures msg[pos + i] == b[i]
  {
    assert msg[pos..pos + |b|][i] == msg[pos + i];
  }

  lemma StandsWord(msg: seq<Byte>, pos: nat, w: U16)
    requires Stands(msg, pos, BigEndian(w, 2))
    ensures pos + 2 <= |msg| && Word(msg, pos) == w
  {
    assert BigEndian(w, 2) == [w / 256, w % 256] by {
      assert BigEndian(w / 256, 1) == BigEndian(w / 256 / 256, 0) + [w / 256 % 256];
    }
    StandsAt(msg, pos, BigEndian(w, 2), 0);
    StandsAt(msg, pos, BigEndian(w, 2), 1);
  }

  // ---- Names ----

  lemma FirstHop(msg: seq<Byte>, pos: nat, w: WireName)
    requires w.Valid() && Stands(msg, pos, w.Bytes())
    ensures if w.labels != [] then
              var next := pos + 1 + |w.labels[0]|;
              && HopAt(msg, pos) == Label(next, w.labels[0]) && Stands(msg, next, w.Rest().Bytes())
              && SkipName(msg, pos) == SkipName(msg, next)
            else if w.pointer.Some? then
              && SkipName(msg, pos) == Some(pos + 2)
              && HopAt(msg, pos) == if w.pointer.value < |msg| then Jump(w.pointer.value) else Malformed
            else HopAt(msg, pos) == Root && SkipName(msg, pos) == Some(pos + 1)
  {
    StandsAt(msg, pos, w.Bytes(), 0);
    if w.labels != [] {
      var text, rest := w.labels[0], w.Rest().Bytes();
      assert IsLabel(text);
      var length: Byte := |text|;
      StandsSplit(msg, pos, [length] + text, rest);
      StandsSplit(msg, pos, [length], text);
    } else if w.pointer.Some? {
      StandsAt(msg, pos, w.Bytes(), 1);
    }
  }

  /** Skipping a name ends behind it. */
  lemma {:induction false} NameSkipped(msg: seq<Byte>, pos: nat, w: WireName)
    requires w.Valid() && Stands(msg, pos, w.Bytes())
    ensures SkipName(msg, pos) == Some(pos + |w.Bytes()|)
    decreases |w.labels|
  {
    hide SkipName;
    FirstHop(msg, pos, w);
    if w.labels != [] {
      NameSkipped(msg, pos + 1 + |w.labels[0]|, w.Rest());
    }
  }

  /** The labels of a name: its own, then those of the name it points to. */
  lemma {:induction false} LabelsOfName(msg: seq<Byte>, pos: nat, w: WireName)
    requires w.Valid() && Stands(msg, pos, w.Bytes())
    ensures Labels(msg, pos) == Before(w.labels, if w.pointer.Some? then Labels(msg, w.pointer.value) else Some([]))
    decreases |w.labels|
  {
    hide Labels, HopAt, SkipName, Before, WireName.Bytes, Stands;
    FirstHop(msg, pos, w);
    LabelsByHop(msg, pos);
    var end := if w.pointer.Some? then Labels(msg, w.pointer.value) else Some([]);
    if w.labels != [] {
      LabelsOfName(msg, pos + 1 + |w.labels[0]|, w.Rest());
      BeforeStep(w.labels, end);
    } else {
      BeforeNothing(end);
      if w.pointer.Some? && w.pointer.value >= |msg| {
        Beyond(msg, w.pointer.value);
      }
    }
  }

  lemma BeforeStep(labels: seq<Name>, end: Option<seq<Name>>)
    requires labels != []
    ensures Before([labels[0]], Before(labels[1..], end)) == Before(labels, end)
  {
    if end.Some? {
      assert [labels[0]] + (labels[1..] + end.value) == labels + end.value;
    }
  }

  lemma BeforeNothing(end: Option<seq<Name>>)
    ensures Before([], end) == end
  {
    if end.Some? {
      assert [] + end.value == end.value;
    }
  }

  lemma Beyond(msg: seq<Byte>, pos: nat)
    requires pos >= |msg|
    ensures Labels(msg, pos) == None
  {
    LabelsByHop(msg, pos);
  }

  /** The reader on a name: its labels and those it points to, lower-cased and dotted, and the offset behind it. */
  lemma NameIsRead(msg: seq<Byte>, pos: nat, w: WireName)
    requires w.Valid() && Stands(msg, pos, w.Bytes())
    ensures match Before(w.labels, if w.pointer.Some? then Labels(msg, w.pointer.value) else Some([]))
            case None => NameAt(msg, pos) == None
            case Some(labels) => NameAt(msg, pos) == Some((Join(LowerEach(labels)), pos + |w.Bytes()|))
  {
    hide Labels, NameAt, Join, LowerEach;
    LabelsOfName(msg, pos, w);
    NameIsLabels(msg, pos);
    NameSkipped(msg, pos, w);
    ReaderExact(msg, pos);
  }

  /** Lengths from 64 to 191 are neither labels nor pointers, and are refused. */
  lemma ReservedRefused(msg: seq<Byte>, pos: nat)
    requires pos < |msg| && 64 <= msg[pos] < 192
    ensures NameAt(msg, pos) == None && SkipName(msg, pos) == None
  {
  }

  // ---- Questions and records ----

  lemma {:induction false} QuestionsSkipped(msg: seq<Byte>, pos: nat, qs: seq<WireQuestion>)
    requires AllQuestions(qs) && Stands(msg, pos, QuestionsBytes(qs))
    ensures SkipQuestions(msg, pos, |qs|) == Some(pos + |QuestionsBytes(qs)|)
    decreases |qs|
  {
    hide SkipName, BigEndian, Stands;
    if qs != [] {
      var q := qs[0];
      StandsSplit(msg, pos, q.Bytes(), QuestionsBytes(qs[1..]));
      QuestionFields(msg, pos, q);
      QuestionsSkipped(msg, pos + |q.Bytes()|, qs[1..]);
    }
  }

  lemma QuestionFields(msg: seq<Byte>, pos: nat, q: WireQuestion)
    requires q.name.Valid() && Stands(msg, pos, q.Bytes())
    ensures var p := pos + |q.name.Bytes()|;
            && Stands(msg, pos, q.name.Bytes()) && SkipName(msg, pos) == Some(p)
            && |q.Bytes()| == |q.name.Bytes()| + 4 && p + 4 <= |msg| && Word(msg, p) == q.qtype && Word(msg, p + 2) == q.qclass
  {
    hide SkipName, BigEndian, Stands;
    var name, t, k := q.name.Bytes(), BigEndian(q.qtype, 2), BigEndian(q.qclass, 2);
    StandsSplit(msg, pos, name + t, k);
    StandsSplit(msg, pos, name, t);
    NameSkipped(msg, pos, q.name);
    StandsWord(msg, pos + |name|, q.qtype);
    StandsWord(msg, pos + |name| + 2, q.qclass);
  }

  /** The fixed fields of a record where it stands. */
  lemma RecordIsRead(msg: seq<Byte>, pos: nat, r: WireRecord, v6: bool)
    requires r.Valid() && Stands(msg, pos, r.Bytes())
    ensures var p := pos + |r.name.Bytes()|;
            && SkipName(msg, pos) == Some(p) && p + 10 + |r.data| <= |msg| && Word(msg, p + 8) == |r.data|
            && FromBigEndian(msg[p + 4..p + 8]) == r.ttl
            && RecordAt(msg, pos, v6) == Some((pos + |r.Bytes()|, r.Address(v6)))
  {
    hide SkipName, BigEndian, FromBigEndian, FromOctets4, FromOctets6, Stands;
    var name := r.name.Bytes();
    var p := pos + |name|;
    var t, k, l, n := BigEndian(r.rtype, 2), BigEndian(r.rclass, 2), BigEndian(r.ttl, 4), BigEndian(|r.data|, 2);
    StandsSplit(msg, pos, name, r.Fields());
    StandsSplit(msg, p, t + k + l + n, r.data);
    StandsSplit(msg, p, t + k + l, n);
    StandsSplit(msg, p, t + k, l);
    StandsSplit(msg, p, t, k);
    NameSkipped(msg, pos, r.name);
    StandsWord(msg, p, r.rtype);
    StandsWord(msg, p + 2, r.rclass);
    StandsWord(msg, p + 8, |r.data|);
    StandsIs(msg, p + 4, l);
    StandsIs(msg, p + 10, r.data);
    Pow256Values();
    BigEndianRoundTrip(r.ttl, 4);
  }

  lemma StandsIs(msg: seq<Byte>, pos: nat, b: seq<Byte>)
    requires Stands(msg, pos, b)
    ensures pos + |b| <= |msg| && msg[pos..pos + |b|] == b
  {
  }

  lemma {:induction false} RecordsAreRead(msg: seq<Byte>, pos: nat, rs: seq<WireRecord>, v6: bool)
    requires AllRecords(rs) && Stands(msg, pos, RecordsWire(rs))
    ensures Answers(msg, pos, |rs|, v6) == Addresses(rs, v6)
    decreases |rs|
  {
    hide SkipName, RecordAt, Stands, FromBigEndian, WireRecord.Bytes, WireRecord.Address, WireName.Bytes;
    if rs != [] {
      StandsSplit(msg, pos, rs[0].Bytes(), RecordsWire(rs[1..]));
      RecordIsRead(msg, pos, rs[0], v6);
      RecordsAreRead(msg, pos + |rs[0].Bytes()|, rs[1..], v6);
    }
  }

  lemma {:induction false} TtlsAreRead(msg: seq<Byte>, pos: nat, rs: seq<WireRecord>)
    requires AllRecords(rs) && Stands(msg, pos, RecordsWire(rs))
    ensures TtlsFrom(msg, pos, |rs|) == Some(Ttls(rs))
    decreases |rs|
  {
    hide SkipName, RecordAt, Stands, FromBigEndian, WireRecord.Fields, WireRecord.Address, WireName.Bytes;
    if rs != [] {
      StandsSplit(msg, pos, rs[0].Bytes(), RecordsWire(rs[1..]));
      RecordIsRead(msg, pos, rs[0], false);
      TtlsAreRead(msg, pos + |rs[0].Bytes()|, rs[1..]);
    }
  }

  /**
   * From every message in this format, whatever its names, types and classes, the reader takes exactly the
   * Internet addresses of the family, in order, and the least time to live of all answers.
   */
  lemma MessageIsRead(msg: seq<Byte>, qs: seq<WireQuestion>, rs: seq<WireRecord>, v6: bool)
    requires Message(msg, qs, rs)
    ensures AddressesIn(msg, v6) == Addresses(rs, v6)
    ensures IsLeast(Ttls(rs), MinTtl(msg))
  {
    hide SkipQuestions, Answers, QuestionsBytes, RecordsWire, TtlsFrom, Addresses, Ttls, MinTtl;
    var a, b := QuestionsBytes(qs), RecordsWire(rs);
    assert Stands(msg, 12, a + b) by {
      assert msg[12..][..|a + b|] == msg[12..12 + |a + b|];
    }
    StandsSplit(msg, 12, a, b);
    QuestionsSkipped(msg, 12, qs);
    RecordsAreRead(msg, 12 + |a|, rs, v6);
    TtlsAreRead(msg, 12 + |a|, rs);
    MinTtlIsLeast(msg);
  }

  /** The question read from such a message is its first one, if its name ends; there is none without questions. */
  lemma QuestionIsRead(msg: seq<Byte>, qs: seq<WireQuestion>, rs: seq<WireRecord>)
    requires Message(msg, qs, rs)
    ensures qs == [] ==> QuestionOf(msg) == None
    ensures qs != [] ==>
              match Labels(msg, 12) {
                case None => QuestionOf(msg) == None
                case Some(labels) => QuestionOf(msg) == Some(Question(Join(LowerEach(labels)), qs[0].qtype, qs[0].qclass))
              }
  {
    hide NameAt, Labels, RecordsWire, Join, LowerEach, SkipName;
    if qs != [] {
      var q, rest := qs[0].Bytes(), QuestionsBytes(qs[1..]) + RecordsWire(rs);
      assert QuestionsBytes(qs) + RecordsWire(rs) == q + rest;
      assert Stands(msg, 12, q + rest) by {
        assert msg[12..][..|q + rest|] == msg[12..12 + |q + rest|];
      }
      StandsSplit(msg, 12, q, rest);
      QuestionFields(msg, 12, qs[0]);
      NameIsLabels(msg, 12);
      ReaderExact(msg, 12);
    }
  }

  // ---- Replies ----

  /** The record of one address: it belongs to the name at offset 12, that of the question. */
  function AddressRecord(a: IpAddr, ttl: U32): (r: WireRecord)
    ensures r.Valid()
  {
    match a
    case V4(ip) => WireRecord(WireName([], Some(12)), 1, 1, ttl, BigEndian(ip, 4))
    case V6(ip) => WireRecord(WireName([], Some(12)), 28, 1, ttl, BigEndian(ip, 16))
  }

  function AddressRecords(addrs: seq<IpAddr>, ttl: U32): (rs: seq<WireRecord>)
    ensures AllRecords(rs) && |rs| == |addrs|
    ensures forall i :: 0 <= i < |addrs| ==> rs[i] == AddressRecord(addrs[i], ttl)
  {
    if addrs == [] then [] else [AddressRecord(addrs[0], ttl)] + AddressRecords(addrs[1..], ttl)
  }

  /** The addresses of the family an Internet question asks for; none for any other question. */
  function Wanted(q: Question, addrs: seq<IpAddr>): seq<IpAddr> {
    if q.qclass != 1 then []
    else if q.qtype == 1 then Family(addrs, false)
    else if q.qtype == 28 then Family(addrs, true)
    else []
  }

  lemma {:induction false} MatchingIsFamily(qtype: U16, addrs: seq<IpAddr>)
    ensures Matching(qtype, addrs) == Wanted(Question([], qtype, 1), addrs)
  {
    if addrs != [] {
      MatchingIsFamily(qtype, addrs[1..]);
    }
  }

  lemma Two(w: U16)
    requires w < 256
    ensures BigEndian(w, 2) == [0, w]
  {
    assert BigEndian(w / 256, 1) == BigEndian(w / 256 / 256, 0) + [w / 256 % 256];
  }

  lemma RecordIsWire(a: IpAddr, ttl: U32)
    ensures RecordBytes(a, ttl) == AddressRecord(a, ttl).Bytes()
  {
    hide BigEndian;
    Two(1);
    Two(4);
    Two(16);
    Two(28);
  }

  lemma {:induction false} RecordsAreWire(addrs: seq<IpAddr>, ttl: U32)
    ensures RecordsBytes(addrs, ttl) == RecordsWire(AddressRecords(addrs, ttl))
  {
    hide RecordBytes, AddressRecord, WireRecord.Bytes;
    if addrs != [] {
      RecordIsWire(addrs[0], ttl);
      RecordsAreWire(addrs[1..], ttl);
      assert AddressRecords(addrs, ttl)[1..] == AddressRecords(addrs[1..], ttl);
    }
  }

  /** A response is the copied question and one record for each address of the family asked for, in order. */
  lemma ResponseIsWire(query: seq<Byte>, addrs: seq<IpAddr>, ttl: U32)
    requires QuestionOf(query).Some?
    ensures Response(query, addrs, ttl).Some? && QuestionEnd(query).Some?
    ensures var m, qend := Response(query, addrs, ttl).value, QuestionEnd(query).value;
            var rs := AddressRecords(Wanted(QuestionOf(query).value, addrs), ttl);
            && qend <= |m| && m[12..qend] == query[12..qend] && m[qend..] == RecordsWire(rs)
            && Word(m, 6) == |rs| % 0x1_0000
  {
    hide QuestionOf, QuestionEnd, Matching, RecordsBytes, RecordsWire, AddressRecords, Response;
    assert QuestionEnd(query).Some? by {
      QuestionHasEnd(query);
    }
    var q, qend := QuestionOf(query).value, QuestionEnd(query).value;
    MatchingIsFamily(q.qtype, addrs);
    RecordsAreWire(Wanted(q, addrs), ttl);
    ReplyBody(query, addrs, ttl);
    var m := Response(query, addrs, ttl).value;
    var head := ReplyHead(query, qend, 0x80, |Asked(q, addrs)| % 0x1_0000);
    assert m[12..qend] == head[12..];
    assert m[6] == head[6] && m[7] == head[7];
  }

  lemma QuestionHasEnd(query: seq<Byte>)
    requires QuestionOf(query).Some?
    ensures QuestionEnd(query).Some?
  {
    SkipAgrees(query, HEADER_LEN, |query|);
  }

  /** Each of its records belongs to the name of the question. */
  lemma AnswerBelongs(m: seq<Byte>, pos: nat, a: IpAddr, ttl: U32)
    requires Stands(m, pos, AddressRecord(a, ttl).Bytes())
    ensures Labels(m, pos) == Labels(m, 12)
    ensures NameAt(m, pos).Some? <==> NameAt(m, 12).Some?
    ensures NameAt(m, 12).Some? ==> NameAt(m, pos).value.0 == NameAt(m, 12).value.0
  {
    hide Labels, NameAt, Stands, BigEndian;
    var r := AddressRecord(a, ttl);
    StandsSplit(m, pos, r.name.Bytes(), r.Fields());
    LabelsOfName(m, pos, r.name);
    BeforeNothing(Labels(m, 12));
    NameIsLabels(m, pos);
    NameIsLabels(m, 12);
  }

  // ---- Queries ----

  /** A query by its header: an id, a standard query with recursion desired, one question and nothing else. */
  lemma QueryHeader(id: U16, name: Name)
    ensures var m := Query(id, name);
            && |m| >= 17 && Word(m, 0) == id && m[2] == 1 && m[3] == 0
            && Word(m, 4) == 1 && Word(m, 6) == 0 && Word(m, 8) == 0 && Word(m, 10) == 0
  {
    hide LabelBytes, Split, Kept;
    var head, rest := QueryHead(id), LabelBytes(Kept(Split(name))) + [0, 0, 1, 0, 1];
    var m := Query(id, name);
    assert m == head + rest;
    assert forall i :: 0 <= i < 12 ==> m[i] == head[i];
  }
}
