/** DNS queries taken from the TUN and the replies written back to it (src/policy/intercept.rs). */
module Intercept {
  import opened Bytes
  import opened Checksum
  import opened Rewrite

  const DNS_PORT: U16 := 53
  const REPLY_TTL: Byte := 64

  /** The largest UDP payload an IPv4 packet holds. */
  const MAX_PAYLOAD: nat := 65507

  datatype DnsQuery = DnsQuery(src: Ip4, dst: Ip4, srcPort: U16, dstPort: U16, payload: seq<Byte>)

  /** A whole UDP datagram to port 53 in an unfragmented IPv4 packet. */
  function Classify(pkt: seq<Byte>): Option<DnsQuery> {
    if !IsIpv4(pkt) || pkt[9] != PROTO_UDP then None
    else
      var ihl, frag, total := HeaderLen(pkt), Word(pkt, 6), Word(pkt, 2);
      if frag % 0x2000 != 0 || frag / 0x2000 % 2 != 0 then None
      else if total < ihl + 8 || total > |pkt| || Word(pkt, ihl + 2) != DNS_PORT then None
      else
        var length := Word(pkt, ihl + 4);
        if length < 8 || length > total - ihl then None
        else Some(DnsQuery(Addr(pkt, SRC_OFFSET), Addr(pkt, DST_OFFSET), Word(pkt, ihl), Word(pkt, ihl + 2),
                           pkt[ihl + 8..ihl + length]))
  }

  /** Exactly the unfragmented IPv4/UDP packets to port 53 whose datagram lies within the packet are taken. */
  lemma ClassifyExactly(pkt: seq<Byte>)
    ensures Classify(pkt).Some? <==>
            && IsIpv4(pkt) && pkt[9] == PROTO_UDP && Word(pkt, 6) % 0x4000 == 0 && HeaderLen(pkt) + 8 <= |pkt|
            && Word(pkt, HeaderLen(pkt) + 2) == DNS_PORT && 8 <= Word(pkt, HeaderLen(pkt) + 4)
            && HeaderLen(pkt) + Word(pkt, HeaderLen(pkt) + 4) <= Word(pkt, 2) <= |pkt|
    ensures Classify(pkt).Some? ==>
              var q, ihl := Classify(pkt).value, HeaderLen(pkt);
              && q.src == Addr(pkt, 12) && q.dst == Addr(pkt, 16) && q.srcPort == Word(pkt, ihl) && q.dstPort == 53
              && q.payload == pkt[ihl + 8..ihl + Word(pkt, ihl + 4)]
  {
    if IsIpv4(pkt) {
      var frag := Word(pkt, 6);
      assert frag % 0x4000 == 0 <==> frag % 0x2000 == 0 && frag / 0x2000 % 2 == 0;
    }
  }

  // ---- Checksums ----

  /** The checksum that completes a word sum. */
  function Complement(sum: nat): U16 {
    0xFFFF - Folded(sum)
  }

  /** A sum and its checksum pass the receiver's test, also when a zero is sent as 0xFFFF. */
  lemma ComplementCompletes(sum: nat)
    ensures SumOk(sum + Complement(sum))
    ensures Complement(sum) == 0 ==> SumOk(sum + 0xFFFF)
  {
    var k := sum / 0xFFFF;
    assert sum == 0xFFFF * k + sum % 0xFFFF;
    SameResidue(sum + Complement(sum), 0, if sum == 0 || sum % 0xFFFF != 0 then k + 1 else k);
    if Complement(sum) == 0 {
      SameResidue(sum + 0xFFFF, 0, k + 1);
    }
  }

  lemma {:induction false} WordSumBound(s: seq<Byte>)
    ensures WordSum(s) <= (|s| + 1) / 2 * 0xFFFF
  {
    if |s| > 1 {
      WordSumBound(s[2..]);
    }
  }

  /** Add the words of `s` from `i` on, an odd last byte as a high half. */
  method AddWords(start: U32, s: seq<Byte>) returns (sum: U32)
    requires start + (|s| + 1) / 2 * 0xFFFF < 0x1_0000_0000
    ensures sum == start + WordSum(s)
  {
    hide Word;
    WordSumBound(s);
    sum := start;
    var i := 0;
    assert s[0..] == s;
    while i + 1 < |s|
      invariant 0 <= i <= |s| && sum + WordSum(s[i..]) == start + WordSum(s)
    {
      assert s[i..][2..] == s[i + 2..];
      SameWord(s, i);
      sum := sum + Word(s, i);
      i := i + 2;
    }
    if i < |s| {
      sum := sum + s[i] as int * 256;
    }
  }

  lemma SameWord(s: seq<Byte>, i: nat)
    requires i + 1 < |s|
    ensures Word(s[i..], 0) == Word(s, i)
  {
  }

  method HeaderChecksum(bytes: seq<Byte>) returns (r: U16)
    requires |bytes| <= 0xFFFF
    ensures r == Complement(WordSum(bytes))
  {
    var sum := AddWords(0, bytes);
    var folded := Fold(sum);
    r := 0xFFFF - folded;
  }

  /** The pseudo-header and segment sum of a packet with a 20-byte header. */
  function DatagramSum(pkt: seq<Byte>): nat
    requires |pkt| >= 20
  {
    WordSum(pkt[12..20]) + PROTO_UDP + (|pkt| - 20) + WordSum(pkt[20..])
  }

  method UdpChecksum(pkt: seq<Byte>) returns (r: U16)
    requires 20 <= |pkt| <= 0xFFFF
    ensures r == Complement(DatagramSum(pkt))
  {
    WordSumBound(pkt[12..20]);
    var sum := AddWords(0, pkt[12..20]);
    sum := sum + PROTO_UDP;
    sum := sum + (|pkt| - 20);
    sum := AddWords(sum, pkt[20..]);
    var folded := Fold(sum);
    r := 0xFFFF - folded;
  }

  // ---- The reply ----

  /** A zeroed packet with the header fields of a reply but no checksum. */
  function WithHeader(p: seq<Byte>, q: DnsQuery): (r: seq<Byte>)
    requires 28 <= |p| <= 0xFFFF
    ensures |r| == |p| && r[0] == 0x45 && r[8] == REPLY_TTL && r[9] == PROTO_UDP && Word(r, 2) == |p|
    ensures Addr(r, SRC_OFFSET) == q.dst && Addr(r, DST_OFFSET) == q.src
    ensures forall k :: 0 <= k < |p| && k !in {0, 2, 3, 8, 9} && !(12 <= k < 20) ==> r[k] == p[k]
  {
    var r := SetWord(p[0 := 0x45], 2, |p|)[8 := REPLY_TTL][9 := PROTO_UDP];
    SetAddr(SetAddr(r, SRC_OFFSET, q.dst), DST_OFFSET, q.src)
  }

  /** The ports, the length and the payload. */
  function WithSegment(p: seq<Byte>, q: DnsQuery, response: seq<Byte>): (r: seq<Byte>)
    requires |p| == 28 + |response| <= 0xFFFF
    ensures |r| == |p| && r[..20] == p[..20] && r[28..] == response
    ensures Word(r, 20) == q.dstPort && Word(r, 22) == q.srcPort && Word(r, 24) == 8 + |response|
    ensures Word(r, 26) == Word(p, 26)
  {
    SetWord(SetWord(SetWord(p, 20, q.dstPort), 22, q.srcPort), 24, 8 + |response|)[..28] + response
  }

  function Zeroes(n: nat): (r: seq<Byte>)
    ensures |r| == n && forall i :: 0 <= i < n ==> r[i] == 0
  {
    seq(n, _ => 0)
  }

  /** A zero checksum goes out as 0xFFFF. */
  function Sent(check: U16): U16 {
    if check == 0 then 0xFFFF else check
  }

  /** The packet `build_reply` returns. */
  function Reply(q: DnsQuery, response: seq<Byte>): (r: seq<Byte>)
    requires |response| <= MAX_PAYLOAD
    ensures |r| == 28 + |response|
  {
    var p := WithHeader(Zeroes(28 + |response|), q);
    var p := SetWord(p, 10, Complement(WordSum(p[..20])));
    var p := WithSegment(p, q, response);
    SetWord(p, 26, Sent(Complement(DatagramSum(p))))
  }

  /** What stands where in a reply. */
  lemma ReplyFields(q: DnsQuery, response: seq<Byte>)
    requires |response| <= MAX_PAYLOAD
    ensures var r := Reply(q, response);
            && IsIpv4(r) && HeaderLen(r) == 20 && r[8] == REPLY_TTL && r[9] == PROTO_UDP && Word(r, 2) == |r| && Word(r, 6) == 0
            && Addr(r, SRC_OFFSET) == q.dst && Addr(r, DST_OFFSET) == q.src
            && Word(r, 20) == q.dstPort && Word(r, 22) == q.srcPort && Word(r, 24) == |r| - 20
            && Word(r, 26) != 0 && r[28..] == response
  {
    hide WithHeader, WithSegment, WordSum, SetWord, Complement;
    var a := WithHeader(Zeroes(28 + |response|), q);
    var b := SetWord(a, 10, Complement(WordSum(a[..20])));
    var c := WithSegment(b, q, response);
    var r := Reply(q, response);
    assert r == SetWord(c, 26, Sent(Complement(DatagramSum(c))));
    forall k | 0 <= k < 20 && k != 10 && k != 11 ensures r[k] == a[k] {
      assert r[k] == c[k] == c[..20][k] == b[..20][k] == b[k];
    }
    assert r[28..] == c[28..];
  }

  /** The header sum of a reply passes the receiver's test. */
  lemma ReplyHeaderValid(q: DnsQuery, response: seq<Byte>)
    requires |response| <= MAX_PAYLOAD
    ensures IsIpv4(Reply(q, response)) && SumOk(HeaderSum(Reply(q, response)))
  {
    hide WithHeader, WithSegment, WordSum, SetWord, Complement, DatagramSum, SumOk;
    ReplyFields(q, response);
    var a := WithHeader(Zeroes(28 + |response|), q);
    var h := a[..20];
    var check := Complement(WordSum(h));
    var b := SetWord(a, 10, check);
    var c := WithSegment(b, q, response);
    var r := Reply(q, response);
    assert r[..20] == c[..20];
    assert b[..20] == SetWord(h, 10, check) by {
      SameBytesSameWord(b[..20], SetWord(h, 10, check), 10);
    }
    WordSumSetWord(h, 10, check);
    assert a[10] == 0 && a[11] == 0;
    ComplementCompletes(WordSum(h));
  }

  /** The UDP checksum of a reply passes the receiver's test and is never the "no checksum" zero. */
  lemma ReplyUdpValid(q: DnsQuery, response: seq<Byte>)
    requires |response| <= MAX_PAYLOAD
    ensures var r := Reply(q, response);
            IsIpv4(r) && TransportPos(r) == Some(26) && SumOk(TransportSum(r, |r|))
  {
    hide WithHeader, WithSegment, WordSum, SetWord, Complement, SumOk;
    ReplyFields(q, response);
    var a := WithHeader(Zeroes(28 + |response|), q);
    var b := SetWord(a, 10, Complement(WordSum(a[..20])));
    var c := WithSegment(b, q, response);
    var check := Complement(DatagramSum(c));
    var r := Reply(q, response);
    assert r == SetWord(c, 26, Sent(check));
    assert r[12..20] == c[12..20];
    var seg := c[20..];
    assert r[20..] == SetWord(seg, 6, Sent(check)) by {
      SameBytesSameWord(r[20..], SetWord(seg, 6, Sent(check)), 6);
    }
    WordSumSetWord(seg, 6, Sent(check));
    assert Word(seg, 6) == 0 by {
      assert a[26] == 0 && a[27] == 0 && Word(c, 26) == Word(b, 26);
    }
    ComplementCompletes(DatagramSum(c));
    assert r[20..|r|] == r[20..];
  }

  /** A reply reads back as the query with its endpoints swapped, exactly when it goes to port 53 itself. */
  lemma ReplyReadsBack(q: DnsQuery, response: seq<Byte>)
    requires |response| <= MAX_PAYLOAD
    ensures Classify(Reply(q, response)) ==
            if q.srcPort == DNS_PORT then Some(DnsQuery(q.dst, q.src, q.dstPort, q.srcPort, response)) else None
  {
    hide Reply;
    ReplyFields(q, response);
    var r := Reply(q, response);
    assert r[28..20 + (|r| - 20)] == r[28..];
  }

  /** Answering a classified packet returns to its sender: addresses and ports change places. */
  lemma ReplyReturnsToSender(pkt: seq<Byte>, response: seq<Byte>)
    requires Classify(pkt).Some? && |response| <= MAX_PAYLOAD
    ensures var r, ihl := Reply(Classify(pkt).value, response), HeaderLen(pkt);
            && AddrAt(r, SRC_OFFSET) == AddrAt(pkt, DST_OFFSET)
            && AddrAt(r, DST_OFFSET) == AddrAt(pkt, SRC_OFFSET)
            && Word(r, 20) == DNS_PORT == Word(pkt, ihl + 2) && Word(r, 22) == Word(pkt, ihl)
  {
    hide Reply;
    ReplyFields(Classify(pkt).value, response);
  }

  /** The NAT may rewrite either address of a reply: both checksums stay valid. */
  lemma ReplySurvivesRewrite(q: DnsQuery, response: seq<Byte>, off: nat, ip: Ip4)
    requires |response| <= MAX_PAYLOAD && IsOffset(off)
    ensures var r := Reply(q, response);
            && IsIpv4(r)
            && var w := Rewritten(r, off, ip);
               IsIpv4(w) && HeaderLen(w) == 20 && SumOk(HeaderSum(w)) && SumOk(TransportSum(w, |w|))
  {
    hide Reply, Rewritten, WordSum, SumOk;
    var r := Reply(q, response);
    ReplyFields(q, response);
    ReplyHeaderValid(q, response);
    ReplyUdpValid(q, response);
    HeaderChecksumKept(r, off, ip);
    TransportChecksumKept(r, off, ip, |r|);
  }

  /** Fills the packet in place, field by field. */
  method BuildReply(q: DnsQuery, response: seq<Byte>) returns (p: array<Byte>)
    requires |response| <= MAX_PAYLOAD
    ensures fresh(p) && p[..] == Reply(q, response)
  {
    hide WordSum, Complement, WithHeader, WithSegment, SetWord, DatagramSum;
    var total := 28 + |response|;
    p := new Byte[total](_ => 0);
    assert p[..] == Zeroes(total);
    FillHeader(p, q);
    ghost var a := p[..];
    var check := HeaderChecksum(p[..20]);
    assert p[..20] == a[..20];
    WriteWord(p, 10, check);
    FillSegment(p, q, response);
    var udp := UdpChecksum(p[..]);
    WriteWord(p, 26, Sent(udp));
  }

  method FillHeader(p: array<Byte>, q: DnsQuery)
    requires 28 <= p.Length <= 0xFFFF
    modifies p
    ensures p[..] == WithHeader(old(p[..]), q)
  {
    hide SetWord, Word;
    p[0] := 0x45;
    WriteWord(p, 2, p.Length);
    p[8] := REPLY_TTL;
    p[9] := PROTO_UDP;
    WriteWord(p, 12, q.dst / 0x1_0000);
    WriteWord(p, 14, q.dst % 0x1_0000);
    WriteWord(p, 16, q.src / 0x1_0000);
    WriteWord(p, 18, q.src % 0x1_0000);
  }

  method FillSegment(p: array<Byte>, q: DnsQuery, response: seq<Byte>)
    requires p.Length == 28 + |response| <= 0xFFFF
    modifies p
    ensures p[..] == WithSegment(old(p[..]), q, response)
  {
    hide SetWord, Word;
    WriteWord(p, 20, q.dstPort);
    WriteWord(p, 22, q.srcPort);
    WriteWord(p, 24, 8 + |response|);
    ghost var was := p[..];
    forall i | 28 <= i < p.Length {
      p[i] := response[i - 28];
    }
    assert p[..] == was[..28] + response;
  }
}
