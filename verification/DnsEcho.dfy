/** Exactly when a synthesized reply asks the question of its query (src/policy/dns.rs). */
module DnsEcho {
  import opened Bytes
  import opened Dns
  import opened DnsMessages

  /** A reply copies the id and everything from the end of the header to the end of the question. */
  predicate Copied(i: int, qend: nat) {
    0 <= i < 2 || HEADER_LEN <= i < qend
  }

  /** The hop reads copied bytes only. */
  predicate HopCopied(msg: seq<Byte>, pos: nat, qend: nat) {
    match HopAt(msg, pos)
    case Label(next, _) => forall i :: pos <= i < next ==> Copied(i, qend)
    case Jump(_) => Copied(pos, qend) && Copied(pos + 1, qend)
    case _ => Copied(pos, qend)
  }

  /** Where the walk first reads a byte that is not copied. */
  ghost function LeavesAt(msg: seq<Byte>, pos: nat, n: nat, qend: nat): Option<nat>
    requires Reaches(msg, pos, n)
    decreases n
  {
    if !HopCopied(msg, pos, qend) then Some(pos)
    else if HopAt(msg, pos).Root? then None
    else LeavesAt(msg, HopAt(msg, pos).next, n - 1, qend)
  }

  /** The same for the question of a query. */
  ghost function Leaves(query: seq<Byte>): Option<nat>
    requires QuestionOf(query).Some?
  {
    ReaderExact(query, HEADER_LEN);
    ResponseExact(query, [], 0);
    var n: nat :| Reaches(query, HEADER_LEN, n);
    LeavesAt(query, HEADER_LEN, n, QuestionEnd(query).value)
  }

  /** The two messages agree on the copied bytes. */
  ghost predicate Copies(query: seq<Byte>, m: seq<Byte>, qend: nat) {
    && HEADER_LEN <= qend <= |query| && qend <= |m|
    && forall i :: Copied(i, qend) ==> m[i] == query[i]
  }

  lemma SameHop(query: seq<Byte>, m: seq<Byte>, pos: nat, qend: nat)
    requires Copies(query, m, qend) && HopCopied(query, pos, qend)
    ensures match HopAt(query, pos)
            case Root => HopAt(m, pos) == Root
            case Label(next, text) => HopAt(m, pos) == Label(next, text)
            case Jump(next) => HopAt(m, pos) == if next < |m| then Jump(next) else Malformed
            case Malformed => true
  {
    match HopAt(query, pos) {
      case Label(next, text) =>
        assert Copied(pos, qend) && Copied(next - 1, qend);
        assert m[pos + 1..next] == query[pos + 1..next];
      case _ =>
    }
  }

  /** Up to where the walk leaves the copied bytes, query and reply give the same labels. */
  lemma {:induction false} SameLabels(query: seq<Byte>, m: seq<Byte>, pos: nat, n: nat, qend: nat) returns (front: seq<Name>)
    requires Reaches(query, pos, n) && Copies(query, m, qend)
    ensures match LeavesAt(query, pos, n, qend)
            case None => Labels(m, pos) == Labels(query, pos)
            case Some(e) => && Labels(query, e).Some? && Labels(query, pos) == Before(front, Labels(query, e))
                            && Labels(m, pos) == Before(front, Labels(m, e))
    decreases n
  {
    hide Labels, HopCopied;
    front := [];
    LabelsAre(query, pos, n);
    if !HopCopied(query, pos, qend) {
      NoFront(Labels(query, pos));
      NoFront(Labels(m, pos));
    } else {
      SameHop(query, m, pos, qend);
      LabelsByHop(query, pos);
      LabelsByHop(m, pos);
      var h := HopAt(query, pos);
      if h.Label? {
        front := SameLabels(query, m, h.next, n - 1, qend);
        MoreFront(h.text, front);
        front := [h.text] + front;
      } else if h.Jump? {
        front := SameLabels(query, m, h.next, n - 1, qend);
        LabelsByHop(m, h.next);
      }
    }
  }

  lemma NoFront(rest: Option<seq<Name>>)
    ensures Before([], rest) == rest
  {
    if rest.Some? {
      assert [] + rest.value == rest.value;
    }
  }

  lemma MoreFront(text: Name, front: seq<Name>)
    ensures forall rest :: Before([text], Before(front, rest)) == Before([text] + front, rest)
  {
    forall rest ensures Before([text], Before(front, rest)) == Before([text] + front, rest) {
      if rest.Some? {
        assert [text] + (front + rest.value) == [text] + front + rest.value;
      }
    }
  }

  // ---- Names with a common front ----

  predicate NonEmpty(labels: seq<Name>) {
    forall l :: l in labels ==> l != []
  }

  lemma {:induction false} SpelledNonEmpty(msg: seq<Byte>, pos: nat, n: nat)
    requires Reaches(msg, pos, n)
    ensures NonEmpty(Spelled(msg, pos, n))
    decreases n
  {
    var h := HopAt(msg, pos);
    if h.Label? || h.Jump? {
      SpelledNonEmpty(msg, h.next, n - 1);
    }
  }

  lemma LabelsNonEmpty(msg: seq<Byte>, pos: nat)
    ensures Labels(msg, pos).Some? ==> NonEmpty(Labels(msg, pos).value)
  {
    if Ends(msg, pos) {
      var n: nat :| Reaches(msg, pos, n);
      LabelsAre(msg, pos, n);
      SpelledNonEmpty(msg, pos, n);
    }
  }

  function NameOf(labels: seq<Name>): Name {
    Join(LowerEach(labels))
  }

  lemma NameOfEmpty(labels: seq<Name>)
    requires NonEmpty(labels)
    ensures NameOf(labels) == [] <==> labels == []
  {
    if labels != [] {
      assert |LowerAll(labels[0])| == |labels[0]| && labels[0] in labels;
      assert LowerEach(labels)[0] == LowerAll(labels[0]);
    }
  }

  lemma {:induction false} NameAfter(front: seq<Name>, rest: seq<Name>)
    requires front != []
    ensures NameOf(front + rest) == if rest == [] then NameOf(front) else NameOf(front) + [46] + NameOf(rest)
  {
    if rest == [] {
      assert front + rest == front;
    } else {
      var all := front + rest;
      assert all[1..] == front[1..] + rest && all[0] == front[0];
      if |front| > 1 {
        NameAfter(front[1..], rest);
        assert LowerEach(all)[1..] == LowerEach(all[1..]) && LowerEach(front)[1..] == LowerEach(front[1..]);
      } else {
        assert front[1..] + rest == rest;
        assert LowerEach(all)[1..] == LowerEach(rest) && LowerEach(front) == [LowerAll(front[0])];
      }
    }
  }

  /** After a common front, names are equal exactly when what follows is. */
  lemma SameFront(front: seq<Name>, a: seq<Name>, b: seq<Name>)
    requires NonEmpty(a) && NonEmpty(b)
    ensures NameOf(front + a) == NameOf(front + b) <==> NameOf(a) == NameOf(b)
  {
    hide NameOf;
    NameOfEmpty(a);
    NameOfEmpty(b);
    if front == [] {
      assert front + a == a && front + b == b;
    } else {
      NameAfter(front, a);
      NameAfter(front, b);
      var x := NameOf(front);
      if a != [] && b != [] && x + [46] + NameOf(a) == x + [46] + NameOf(b) {
        assert NameOf(a) == (x + [46] + NameOf(a))[|x| + 1..] == NameOf(b);
      }
    }
  }

  // ---- Replies ----

  /** The name read at `e` is the same in both messages. */
  predicate SameNameAt(query: seq<Byte>, m: seq<Byte>, e: nat) {
    NameAt(query, e).Some? && NameAt(m, e).Some? && NameAt(m, e).value.0 == NameAt(query, e).value.0
  }

  /** A reply asks the query's question exactly when the name's walk keeps to copied bytes or reads on the same. */
  lemma EchoExactly(query: seq<Byte>, flags: Byte, count: U16, body: seq<Byte>)
    requires QuestionOf(query).Some?
    ensures QuestionEnd(query).Some?
    ensures var m := ReplyHead(query, QuestionEnd(query).value, flags, count) + body;
            QuestionOf(m) == QuestionOf(query) <==> Leaves(query).None? || SameNameAt(query, m, Leaves(query).value)
  {
    hide ReplyHead, LeavesAt, Read, Join, Word;
    ResponseExact(query, [], 0);
    ReaderExact(query, HEADER_LEN);
    var qend := QuestionEnd(query).value;
    var m := ReplyHead(query, qend, flags, count) + body;
    ReplyCopies(query, flags, count, body);
    var n: nat :| Reaches(query, HEADER_LEN, n) && Leaves(query) == LeavesAt(query, HEADER_LEN, n, qend);
    EchoName(query, m, n, qend);
    EchoIsName(query, m, qend);
  }

  lemma ReplyCopies(query: seq<Byte>, flags: Byte, count: U16, body: seq<Byte>)
    requires QuestionEnd(query).Some?
    ensures var qend := QuestionEnd(query).value;
            var m := ReplyHead(query, qend, flags, count) + body;
            Copies(query, m, qend) && Word(m, 4) == 1
  {
    var qend := QuestionEnd(query).value;
    var head := ReplyHead(query, qend, flags, count);
    var m := head + body;
    SameWord(head, m, 4);
    forall i | Copied(i, qend) ensures m[i] == query[i] {
      if i < 2 {
        assert m[i] == head[..2][i];
      } else {
        assert m[i] == head[HEADER_LEN..][i - HEADER_LEN];
      }
    }
  }

  /** The names at the question agree exactly when the walk stays or reads on the same. */
  lemma EchoName(query: seq<Byte>, m: seq<Byte>, n: nat, qend: nat)
    requires Reaches(query, HEADER_LEN, n) && Copies(query, m, qend)
    ensures var e := LeavesAt(query, HEADER_LEN, n, qend);
            SameNameAt(query, m, HEADER_LEN) <==> e.None? || SameNameAt(query, m, e.value)
  {
    hide Labels, LeavesAt, Reaches, Read, Join, LowerEach;
    var front := SameLabels(query, m, HEADER_LEN, n, qend);
    LabelsAre(query, HEADER_LEN, n);
    NameIsLabels(query, HEADER_LEN);
    NameIsLabels(m, HEADER_LEN);
    var out := LeavesAt(query, HEADER_LEN, n, qend);
    if out.Some? {
      NameIsLabels(query, out.value);
      NameIsLabels(m, out.value);
      LabelsNonEmpty(query, out.value);
      LabelsNonEmpty(m, out.value);
      if Labels(m, out.value).Some? {
        SameFront(front, Labels(m, out.value).value, Labels(query, out.value).value);
      }
    }
  }

  /** Type and class are copied, so the question is the same exactly when the name is. */
  lemma EchoIsName(query: seq<Byte>, m: seq<Byte>, qend: nat)
    requires QuestionOf(query).Some? && QuestionEnd(query) == Some(qend) && Copies(query, m, qend) && Word(m, 4) == 1
    ensures QuestionOf(m) == QuestionOf(query) <==> SameNameAt(query, m, HEADER_LEN)
  {
    hide Read, Join;
    ReaderExact(query, HEADER_LEN);
    ReaderExact(m, HEADER_LEN);
    SkipInside(query, HEADER_LEN);
    forall i | HEADER_LEN <= i < qend ensures m[i] == query[i] {
      assert Copied(i, qend);
    }
    SkipLocal(query, m, HEADER_LEN);
    assert Word(m, qend - 4) == Word(query, qend - 4) && Word(m, qend - 2) == Word(query, qend - 2);
  }

  /** Both replies, for every query with a readable question. */
  lemma RepliesEchoExactly(query: seq<Byte>, addrs: seq<IpAddr>, ttl: U32)
    requires QuestionOf(query).Some?
    ensures Response(query, addrs, ttl).Some? && NxDomain(query).Some?
    ensures var m := Response(query, addrs, ttl).value;
            QuestionOf(m) == QuestionOf(query) <==> Leaves(query).None? || SameNameAt(query, m, Leaves(query).value)
    ensures var m := NxDomain(query).value;
            QuestionOf(m) == QuestionOf(query) <==> Leaves(query).None? || SameNameAt(query, m, Leaves(query).value)
  {
    hide QuestionOf, ReplyHead, Leaves, SameNameAt, RecordsBytes;
    ResponseExact(query, addrs, ttl);
    var qend := QuestionEnd(query).value;
    ReplyBody(query, addrs, ttl);
    var m := Response(query, addrs, ttl).value;
    EchoExactly(query, 0x80, |Asked(QuestionOf(query).value, addrs)| % 0x1_0000, m[qend..]);
    EchoExactly(query, 0x83, 0, []);
    var head := ReplyHead(query, qend, 0x83, 0);
    assert head + [] == head;
  }

  // ---- What a reply holds where a walk can leave to ----

  /** The names a reply holds in its header, at and after the flags. */
  lemma HeaderNames(query: seq<Byte>, flags: Byte, count: U16, body: seq<Byte>, e: nat)
    requires QuestionEnd(query).Some? && 0x80 <= flags < 0xC0 && 2 <= e < HEADER_LEN
    ensures var m := ReplyHead(query, QuestionEnd(query).value, flags, count) + body;
            && (e < 4 ==> NameAt(m, e) == None)
            && (e == 4 || e >= 8 ==> NameAt(m, e) == Some(([], e + 1)))
            && (count == 0 && e >= 6 ==> NameAt(m, e) == Some(([], e + 1)))
            && (count == 0 && e == 5 ==> NameAt(m, e) == Some(([0], 8)))
  {
    var qend := QuestionEnd(query).value;
    var head := ReplyHead(query, qend, flags, count);
    var m := head + body;
    assert forall i :: 0 <= i < qend ==> m[i] == head[i];
    assert head[2] == 0x81 && head[3] == flags && head[4] == 0 && head[5] == 1;
    assert head[6] == count / 256 && head[7] == count % 256 && head[8] == head[9] == head[10] == head[11] == 0;
    if count == 0 && e == 5 {
      assert m[6..7] == [0];
      assert Read(m, 7, |m| - 1) == Some(([], 8));
      assert LowerAll([0]) == [0];
    }
  }

  /** So for NXDOMAIN a caller sees from the query alone whether a walk that leaves at or after the flags is echoed. */
  lemma NxDomainEchoByQuery(query: seq<Byte>)
    requires QuestionOf(query).Some? && Leaves(query).Some? && Leaves(query).value >= 2
    ensures NxDomain(query).Some?
    ensures var e := Leaves(query).value;
            NameAt(query, e).Some?
            && (QuestionOf(NxDomain(query).value) == QuestionOf(query) <==>
                  && 4 <= e < HEADER_LEN
                  && NameAt(query, e).value.0 == if e == 5 then [0] else [])
  {
    hide QuestionOf, ReplyHead, Leaves, Read;
    RepliesEchoExactly(query, [], 0);
    var e := Leaves(query).value;
    var m := NxDomain(query).value;
    assert m + [] == m;
    LeavesSomewhere(query);
    if e < HEADER_LEN {
      HeaderNames(query, 0x83, 0, [], e);
    }
  }

  /** Where a walk leaves it can still be read; and a walk that leaves past the header runs out of the question. */
  lemma LeavesSomewhere(query: seq<Byte>)
    requires QuestionOf(query).Some? && Leaves(query).Some?
    ensures NameAt(query, Leaves(query).value).Some?
    ensures Leaves(query).value >= HEADER_LEN ==> NxDomain(query).Some? && NameAt(NxDomain(query).value, Leaves(query).value) == None
  {
    hide LeavesAt, Read, ReplyHead, Copies;
    ReaderExact(query, HEADER_LEN);
    ResponseExact(query, [], 0);
    var qend := QuestionEnd(query).value;
    var n: nat :| Reaches(query, HEADER_LEN, n) && Leaves(query) == LeavesAt(query, HEADER_LEN, n, qend);
    var m := NxDomain(query).value;
    ReplyCopies(query, 0x83, 0, []);
    assert m + [] == m && |m| == qend;
    LeavesOutside(query, m, HEADER_LEN, n, qend);
    ReaderExact(query, Leaves(query).value);
    ReaderExact(m, Leaves(query).value);
    LabelsByHop(m, Leaves(query).value);
  }

  lemma {:induction false} LeavesOutside(query: seq<Byte>, m: seq<Byte>, pos: nat, n: nat, qend: nat)
    requires Reaches(query, pos, n) && Copies(query, m, qend) && |m| == qend
    ensures match LeavesAt(query, pos, n, qend)
            case None => true
            case Some(e) => Ends(query, e) && (e >= HEADER_LEN ==> HopAt(m, e) == Malformed)
    decreases n
  {
    if !HopCopied(query, pos, qend) {
      assert Ends(query, pos);
      if HEADER_LEN <= pos < qend {
        assert Copied(pos, qend);
      }
    } else if !HopAt(query, pos).Root? {
      LeavesOutside(query, m, HopAt(query, pos).next, n - 1, qend);
    }
  }

  // ---- Spelled-out names ----

  /** The name at `pos` is spelled out, without a pointer. */
  predicate Plain(msg: seq<Byte>, pos: nat)
    decreases |msg| - pos
  {
    pos < |msg| && msg[pos] < 64 && (msg[pos] == 0 || Plain(msg, pos + 1 + msg[pos]))
  }

  lemma {:induction false} PlainStays(msg: seq<Byte>, pos: nat, n: nat, qend: nat)
    requires Plain(msg, pos) && Reaches(msg, pos, n) && pos >= HEADER_LEN
    requires SkipName(msg, pos).Some? && SkipName(msg, pos).value <= qend
    ensures LeavesAt(msg, pos, n, qend) == None
    decreases n
  {
    SkipInside(msg, pos);
    if msg[pos] != 0 {
      SkipInside(msg, pos + 1 + msg[pos]);
      PlainStays(msg, pos + 1 + msg[pos], n - 1, qend);
    }
  }

  /** A question that is spelled out is always echoed. */
  lemma PlainIsEchoed(query: seq<Byte>, addrs: seq<IpAddr>, ttl: U32)
    requires QuestionOf(query).Some? && Plain(query, HEADER_LEN)
    ensures Response(query, addrs, ttl).Some? && QuestionOf(Response(query, addrs, ttl).value) == QuestionOf(query)
    ensures NxDomain(query).Some? && QuestionOf(NxDomain(query).value) == QuestionOf(query)
  {
    hide QuestionOf, LeavesAt, Read;
    RepliesEchoExactly(query, addrs, ttl);
    ReaderExact(query, HEADER_LEN);
    var n: nat :| Reaches(query, HEADER_LEN, n) && Leaves(query) == LeavesAt(query, HEADER_LEN, n, QuestionEnd(query).value);
    PlainStays(query, HEADER_LEN, n, QuestionEnd(query).value);
  }

  // ---- Examples ----

  /** A query for A and IN whose name is a pointer to `to`. */
  function PointerQuery(to: Byte): seq<Byte> {
    [0, 7, 0, 0, 0, 1, 0, 0, 0, 0, 0, 0, 0xC0, to, 0, 1, 0, 1]
  }

  /** A name that points at the flags is read from the query but not from the reply. */
  lemma EchoLost()
    ensures QuestionOf(PointerQuery(2)) == Some(Question([], TYPE_A, CLASS_IN))
    ensures NxDomain(PointerQuery(2)).Some? && QuestionOf(NxDomain(PointerQuery(2)).value) == None
  {
    var q := PointerQuery(2);
    assert HopAt(q, 12) == Jump(2) && HopAt(q, 2) == Root;
    assert Read(q, 2, 17) == Some(([], 3));
    assert Read(q, 12, 18) == Some(([], 14));
    assert SkipName(q, 12) == Some(14);
    var m := NxDomain(q).value;
    assert m[2] == 0x81 && m[12] == 0xC0 && m[13] == 2;
    assert HopAt(m, 12) == Jump(2) && HopAt(m, 2) == Malformed;
    assert Read(m, 2, 17) == None;
    assert Read(m, 12, 18) == None;
  }

  /** A name that points into the question is not spelled out and is echoed. */
  lemma PointerEchoed()
    ensures !Plain(PointerQuery(14), HEADER_LEN)
    ensures QuestionOf(PointerQuery(14)) == Some(Question([], TYPE_A, CLASS_IN))
    ensures NxDomain(PointerQuery(14)).Some? && QuestionOf(NxDomain(PointerQuery(14)).value) == QuestionOf(PointerQuery(14))
  {
    var q := PointerQuery(14);
    assert HopAt(q, 12) == Jump(14) && HopAt(q, 14) == Root;
    assert Read(q, 14, 17) == Some(([], 15));
    assert Read(q, 12, 18) == Some(([], 14));
    assert SkipName(q, 12) == Some(14);
    var m := NxDomain(q).value;
    assert HopAt(m, 12) == Jump(14) && HopAt(m, 14) == Root;
    assert Read(m, 14, 17) == Some(([], 15));
    assert Read(m, 12, 18) == Some(([], 14));
  }
}
