/** In-place IPv4 address rewriting with checksum repair (src/nat.rs, below `Nat`). */
module Rewrite {
  import opened Bytes
  import opened Checksum

  const SRC_OFFSET: nat := 12
  const DST_OFFSET: nat := 16
  const PROTO_TCP: Byte := 6
  const PROTO_UDP: Byte := 17

  function HeaderLen(pkt: seq<Byte>): nat
    requires |pkt| > 0
  {
    pkt[0] % 16 * 4
  }

  /** Version 4 and an IHL of 5..=15 words that fits in the buffer. */
  predicate IsIpv4(pkt: seq<Byte>) {
    |pkt| >= 20 && pkt[0] / 16 == 4 && 20 <= HeaderLen(pkt) <= |pkt|
  }

  predicate IsOffset(off: nat) {
    off == SRC_OFFSET || off == DST_OFFSET
  }

  function AddrAt(pkt: seq<Byte>, off: nat): Option<Ip4>
    requires IsOffset(off)
  {
    if IsIpv4(pkt) then Some(Addr(pkt, off)) else None
  }

  /** Where the transport checksum that a rewrite repairs is, if there is one to repair. */
  function TransportPos(pkt: seq<Byte>): (r: Option<nat>)
    requires IsIpv4(pkt)
    ensures r.Some? ==> HeaderLen(pkt) <= r.value && r.value + 1 < |pkt| && r.value % 2 == 0
  {
    var ihl := HeaderLen(pkt);
    if Word(pkt, 6) % 0x2000 != 0 then None
    else if pkt[9] == PROTO_TCP && |pkt| >= ihl + 18 then Some(ihl + 16)
    else if pkt[9] == PROTO_UDP && |pkt| >= ihl + 8 && Word(pkt, ihl + 6) != 0 then Some(ihl + 6)
    else None
  }

  /** The checksum at `pos` after the address at `off` becomes `ip`. */
  function Repaired(pkt: seq<Byte>, pos: nat, off: nat, ip: Ip4): U16
    requires pos + 1 < |pkt| && off + 3 < |pkt|
  {
    Adjusted(Word(pkt, pos), Word(pkt, off), Word(pkt, off + 2), ip / 0x1_0000, ip % 0x1_0000)
  }

  /** The packet `rewrite_addr` leaves behind. */
  function Rewritten(pkt: seq<Byte>, off: nat, ip: Ip4): (r: seq<Byte>)
    requires IsIpv4(pkt) && IsOffset(off)
    ensures |r| == |pkt|
  {
    var r := SetWord(pkt, 10, Repaired(pkt, 10, off, ip));
    var r := match TransportPos(pkt)
             case None => r
             case Some(pos) => SetWord(r, pos, Repaired(pkt, pos, off, ip));
    SetAddr(r, off, ip)
  }

  method WriteWord(pkt: array<Byte>, i: nat, w: U16)
    requires i + 1 < pkt.Length
    modifies pkt
    ensures pkt[..] == SetWord(old(pkt[..]), i, w)
  {
    pkt[i], pkt[i + 1] := w / 256, w % 256;
  }

  method AdjustChecksum(check: U16, old0: U16, old1: U16, new0: U16, new1: U16) returns (r: U16)
    ensures r == Adjusted(check, old0, old1, new0, new1)
  {
    var folded := Fold(AdjustSum(check, old0, old1, new0, new1));
    r := 0xFFFF - folded;
  }

  /** Repair the transport checksum: only in a first fragment, and only when the buffer holds it. */
  method RepairTransport(pkt: array<Byte>, old0: U16, old1: U16, new0: U16, new1: U16)
    requires IsIpv4(pkt[..])
    modifies pkt
    ensures var was := old(pkt[..]);
            pkt[..] == match TransportPos(was)
                       case None => was
                       case Some(pos) => SetWord(was, pos, Adjusted(Word(was, pos), old0, old1, new0, new1))
  {
    hide Adjusted, SetWord;
    var ihl := HeaderLen(pkt[..]);
    if Word(pkt[..], 6) % 0x2000 == 0 {
      if pkt[9] == PROTO_TCP && pkt.Length >= ihl + 18 {
        var check := AdjustChecksum(Word(pkt[..], ihl + 16), old0, old1, new0, new1);
        WriteWord(pkt, ihl + 16, check);
      } else if pkt[9] == PROTO_UDP && pkt.Length >= ihl + 8 {
        if Word(pkt[..], ihl + 6) != 0 {
          var check := AdjustChecksum(Word(pkt[..], ihl + 6), old0, old1, new0, new1);
          WriteWord(pkt, ihl + 6, check);
        }
      }
    }
  }

  lemma TransportPosAfterHeaderRepair(pkt: seq<Byte>, check: U16)
    requires IsIpv4(pkt)
    ensures var r := SetWord(pkt, 10, check);
            && IsIpv4(r) && TransportPos(r) == TransportPos(pkt)
            && (TransportPos(pkt).Some? ==> Word(r, TransportPos(pkt).value) == Word(pkt, TransportPos(pkt).value))
  {
    hide SetWord;
  }

  method RewriteAddr(pkt: array<Byte>, off: nat, ip: Ip4)
    requires IsIpv4(pkt[..]) && IsOffset(off)
    modifies pkt
    ensures pkt[..] == Rewritten(old(pkt[..]), off, ip)
  {
    assert pkt.Length >= 20;
    hide Adjusted, SetWord, Word, TransportPos, IsIpv4;
    var old0, old1 := Word(pkt[..], off), Word(pkt[..], off + 2);
    var new0, new1 := ip / 0x1_0000, ip % 0x1_0000;
    var check := AdjustChecksum(Word(pkt[..], 10), old0, old1, new0, new1);
    TransportPosAfterHeaderRepair(pkt[..], check);
    WriteWord(pkt, 10, check);
    RepairTransport(pkt, old0, old1, new0, new1);
    WriteWord(pkt, off, new0);
    WriteWord(pkt, off + 2, new1);
  }

  /** What a rewrite touches, and that the packet stays one `addr_at` accepts. */
  lemma RewriteFrame(pkt: seq<Byte>, off: nat, ip: Ip4)
    requires IsIpv4(pkt) && IsOffset(off)
    ensures var r := Rewritten(pkt, off, ip);
            && IsIpv4(r) && HeaderLen(r) == HeaderLen(pkt)
            && AddrAt(r, off) == Some(ip)
            && Word(r, 10) == Repaired(pkt, 10, off, ip)
            && (TransportPos(pkt).Some? ==> var pos := TransportPos(pkt).value;
                 Word(r, pos) == Repaired(pkt, pos, off, ip))
            && forall k :: 0 <= k < |pkt| && !(10 <= k < 12) && !(off <= k < off + 4)
                 && !(TransportPos(pkt).Some? && TransportPos(pkt).value <= k < TransportPos(pkt).value + 2)
                 ==> r[k] == pkt[k]
  {
  }

  /** The word sum a receiver of the IPv4 header checks. */
  function HeaderSum(pkt: seq<Byte>): nat
    requires IsIpv4(pkt)
  {
    WordSum(pkt[..HeaderLen(pkt)])
  }

  /** The word sum over the pseudo-header and the segment that ends at `end`. */
  function TransportSum(pkt: seq<Byte>, end: nat): nat
    requires IsIpv4(pkt) && HeaderLen(pkt) <= end <= |pkt|
  {
    WordSum(pkt[12..20]) + pkt[9] + (end - HeaderLen(pkt)) + WordSum(pkt[HeaderLen(pkt)..end])
  }

  lemma WordSumSetAddr(s: seq<Byte>, i: nat, ip: Ip4)
    requires i + 3 < |s| && i % 2 == 0
    ensures WordSum(SetAddr(s, i, ip)) + Word(s, i) + Word(s, i + 2) == WordSum(s) + ip / 0x1_0000 + ip % 0x1_0000
  {
    hide WordSum, SetWord;
    var mid := SetWord(s, i, ip / 0x1_0000);
    WordSumSetWord(s, i, ip / 0x1_0000);
    WordSumSetWord(mid, i + 2, ip % 0x1_0000);
  }

  lemma RepairedCompensates(before: nat, after: nat, pkt: seq<Byte>, pos: nat, off: nat, ip: Ip4)
    requires pos + 1 < |pkt| && off + 3 < |pkt|
    requires after + Word(pkt, pos) + Word(pkt, off) + Word(pkt, off + 2)
          == before + Repaired(pkt, pos, off, ip) + ip / 0x1_0000 + ip % 0x1_0000
    ensures after % 0xFFFF == before % 0xFFFF
  {
    hide Adjusted, Word;
    var n0: int, n1: int := ip / 0x1_0000, ip % 0x1_0000;
    AdjustedCompensates(Word(pkt, pos), Word(pkt, off), Word(pkt, off + 2), n0, n1);
    var x := Repaired(pkt, pos, off, ip) as int + n0 + n1;
    var y := Word(pkt, pos) as int + Word(pkt, off) + Word(pkt, off + 2);
    SameResidue(after, before, x / 0xFFFF - y / 0xFFFF);
  }

  lemma HeaderSumPositive(pkt: seq<Byte>)
    requires IsIpv4(pkt)
    ensures HeaderSum(pkt) > 0
  {
    assert Word(pkt[..HeaderLen(pkt)], 0) > 0;
  }

  /** A rewrite changes the header sum by the change of its checksum and of the address. */
  lemma HeaderSumDelta(pkt: seq<Byte>, off: nat, ip: Ip4)
    requires IsIpv4(pkt) && IsOffset(off)
    ensures var r := Rewritten(pkt, off, ip);
            && IsIpv4(r)
            && HeaderSum(r) + Word(pkt, 10) + Word(pkt, off) + Word(pkt, off + 2)
               == HeaderSum(pkt) + Repaired(pkt, 10, off, ip) + ip / 0x1_0000 + ip % 0x1_0000
  {
    hide WordSum, Repaired, Rewritten, SetWord, TransportPos;
    RewriteFrame(pkt, off, ip);
    var r, ihl := Rewritten(pkt, off, ip), HeaderLen(pkt);
    var h := pkt[..ihl];
    var h1 := SetWord(h, 10, Repaired(pkt, 10, off, ip));
    assert r[..ihl] == SetAddr(h1, off, ip) by {
      AddrHalves(r, off);
      SameBytesSameWord(r[..ihl], h1, 10);
      SameBytesSameWord(r[..ihl], SetAddr(h1, off, ip), off);
      SameBytesSameWord(r[..ihl], SetAddr(h1, off, ip), off + 2);
    }
    WordSumSetWord(h, 10, Repaired(pkt, 10, off, ip));
    WordSumSetAddr(h1, off, ip);
  }

  /** A rewrite keeps a valid header checksum valid and an invalid one invalid. */
  lemma HeaderChecksumKept(pkt: seq<Byte>, off: nat, ip: Ip4)
    requires IsIpv4(pkt) && IsOffset(off)
    ensures var r := Rewritten(pkt, off, ip);
            IsIpv4(r) && (SumOk(HeaderSum(r)) <==> SumOk(HeaderSum(pkt)))
  {
    hide WordSum, Repaired, Rewritten, SetWord;
    RewriteFrame(pkt, off, ip);
    var r, ihl := Rewritten(pkt, off, ip), HeaderLen(pkt);
    HeaderSumDelta(pkt, off, ip);
    RepairedCompensates(HeaderSum(pkt), HeaderSum(r), pkt, 10, off, ip);
    HeaderSumPositive(pkt);
    HeaderSumPositive(r);
  }

  lemma SegmentAfter(pkt: seq<Byte>, off: nat, ip: Ip4, end: nat)
    requires IsIpv4(pkt) && IsOffset(off)
    requires TransportPos(pkt).Some? && TransportPos(pkt).value + 2 <= end <= |pkt|
    ensures var r, ihl, pos := Rewritten(pkt, off, ip), HeaderLen(pkt), TransportPos(pkt).value;
            r[ihl..end] == SetWord(pkt[ihl..end], pos - ihl, Repaired(pkt, pos, off, ip))
  {
    hide Repaired, Rewritten, SetWord;
    RewriteFrame(pkt, off, ip);
    var r, ihl, pos := Rewritten(pkt, off, ip), HeaderLen(pkt), TransportPos(pkt).value;
    SameBytesSameWord(r[ihl..end], SetWord(pkt[ihl..end], pos - ihl, Repaired(pkt, pos, off, ip)), pos - ihl);
  }

  lemma AddressesAfter(pkt: seq<Byte>, off: nat, ip: Ip4)
    requires IsIpv4(pkt) && IsOffset(off)
    ensures Rewritten(pkt, off, ip)[12..20] == SetAddr(pkt[12..20], off - 12, ip)
  {
    hide Repaired, Rewritten, SetWord;
    RewriteFrame(pkt, off, ip);
    var r := Rewritten(pkt, off, ip);
    AddrHalves(r, off);
    SameBytesSameWord(r[12..20], SetAddr(pkt[12..20], off - 12, ip), off - 12);
    SameBytesSameWord(r[12..20], SetAddr(pkt[12..20], off - 12, ip), off - 10);
  }

  /** A rewrite changes the transport sum by the change of its checksum and of the address. */
  lemma TransportSumDelta(pkt: seq<Byte>, off: nat, ip: Ip4, end: nat)
    requires IsIpv4(pkt) && IsOffset(off)
    requires TransportPos(pkt).Some? && TransportPos(pkt).value + 2 <= end <= |pkt|
    ensures var r, pos := Rewritten(pkt, off, ip), TransportPos(pkt).value;
            && IsIpv4(r) && HeaderLen(r) == HeaderLen(pkt)
            && TransportSum(r, end) + Word(pkt, pos) + Word(pkt, off) + Word(pkt, off + 2)
               == TransportSum(pkt, end) + Repaired(pkt, pos, off, ip) + ip / 0x1_0000 + ip % 0x1_0000
  {
    hide WordSum, Repaired, Rewritten, SetWord;
    RewriteFrame(pkt, off, ip);
    var ihl, pos := HeaderLen(pkt), TransportPos(pkt).value;
    SegmentAfter(pkt, off, ip, end);
    WordSumSetWord(pkt[ihl..end], pos - ihl, Repaired(pkt, pos, off, ip));
    AddressesAfter(pkt, off, ip);
    WordSumSetAddr(pkt[12..20], off - 12, ip);
  }

  /**
   * A rewrite keeps the transport sum's residue over any extent of the segment that covers the
   * checksum, so a valid TCP or UDP checksum stays valid (and an invalid one invalid), also when
   * the rest of the segment is in other fragments and only adds to the sum.
   */
  lemma TransportChecksumKept(pkt: seq<Byte>, off: nat, ip: Ip4, end: nat)
    requires IsIpv4(pkt) && IsOffset(off)
    requires TransportPos(pkt).Some? && TransportPos(pkt).value + 2 <= end <= |pkt|
    ensures var r := Rewritten(pkt, off, ip);
            && IsIpv4(r) && HeaderLen(r) == HeaderLen(pkt)
            && TransportSum(r, end) % 0xFFFF == TransportSum(pkt, end) % 0xFFFF
            && (SumOk(TransportSum(r, end)) <==> SumOk(TransportSum(pkt, end)))
  {
    hide WordSum, Repaired, Rewritten, Word;
    RewriteFrame(pkt, off, ip);
    TransportSumDelta(pkt, off, ip, end);
    var r := Rewritten(pkt, off, ip);
    RepairedCompensates(TransportSum(pkt, end), TransportSum(r, end), pkt, TransportPos(pkt).value, off, ip);
    assert r[9] == pkt[9] && pkt[9] > 0;
  }

  // ---- The same by protocol ----

  /** A first fragment that holds a whole TCP checksum field. */
  predicate IsTcp(pkt: seq<Byte>) {
    IsIpv4(pkt) && pkt[9] == 6 && Word(pkt, 6) % 0x2000 == 0 && |pkt| >= HeaderLen(pkt) + 18
  }

  /** A first fragment that holds a UDP checksum other than "no checksum". */
  predicate IsUdp(pkt: seq<Byte>) {
    && IsIpv4(pkt) && pkt[9] == 17 && Word(pkt, 6) % 0x2000 == 0 && |pkt| >= HeaderLen(pkt) + 8
    && Word(pkt, HeaderLen(pkt) + 6) != 0
  }

  /** Byte `k` is in the header checksum, the address at `off`, or the checksum of a TCP or UDP segment. */
  predicate Touched(pkt: seq<Byte>, off: nat, k: int) {
    || 10 <= k < 12 || off <= k < off + 4
    || (IsTcp(pkt) && HeaderLen(pkt) + 16 <= k < HeaderLen(pkt) + 18)
    || (IsUdp(pkt) && HeaderLen(pkt) + 6 <= k < HeaderLen(pkt) + 8)
  }

  /** The address at `off` is replaced, and only checksums change besides. */
  ghost predicate Replaces(pkt: seq<Byte>, out: seq<Byte>, off: nat, ip: Ip4) {
    && |out| == |pkt| && IsIpv4(out) && HeaderLen(out) == HeaderLen(pkt)
    && off + 4 <= |out| && Addr(out, off) == ip
    && forall k :: 0 <= k < |pkt| && !Touched(pkt, off, k) ==> out[k] == pkt[k]
  }

  /** A rewrite replaces the address and touches, beyond the header, nothing but a TCP or a present UDP checksum. */
  lemma RewriteReplaces(pkt: seq<Byte>, off: nat, ip: Ip4)
    requires IsIpv4(pkt) && IsOffset(off)
    ensures Replaces(pkt, Rewritten(pkt, off, ip), off, ip)
    ensures !IsTcp(pkt) && !IsUdp(pkt) ==> Rewritten(pkt, off, ip)[HeaderLen(pkt)..] == pkt[HeaderLen(pkt)..]
  {
    hide Rewritten, Repaired, Word;
    RewriteFrame(pkt, off, ip);
  }

  /** In every TCP packet the checksum is repaired: the segment's sum is valid after a rewrite exactly when it was. */
  lemma TcpChecksumKept(pkt: seq<Byte>, off: nat, ip: Ip4, end: nat)
    requires IsTcp(pkt) && IsOffset(off) && HeaderLen(pkt) + 18 <= end <= |pkt|
    ensures var r := Rewritten(pkt, off, ip);
            && IsIpv4(r) && HeaderLen(r) == HeaderLen(pkt)
            && TransportSum(r, end) % 0xFFFF == TransportSum(pkt, end) % 0xFFFF
            && (SumOk(TransportSum(r, end)) <==> SumOk(TransportSum(pkt, end)))
  {
    hide Rewritten, TransportSum, SumOk, Word;
    assert TransportPos(pkt) == Some(HeaderLen(pkt) + 16);
    TransportChecksumKept(pkt, off, ip, end);
  }

  /** Likewise in every UDP packet with a checksum. */
  lemma UdpChecksumKept(pkt: seq<Byte>, off: nat, ip: Ip4, end: nat)
    requires IsUdp(pkt) && IsOffset(off) && HeaderLen(pkt) + 8 <= end <= |pkt|
    ensures var r := Rewritten(pkt, off, ip);
            && IsIpv4(r) && HeaderLen(r) == HeaderLen(pkt)
            && TransportSum(r, end) % 0xFFFF == TransportSum(pkt, end) % 0xFFFF
            && (SumOk(TransportSum(r, end)) <==> SumOk(TransportSum(pkt, end)))
  {
    hide Rewritten, TransportSum, SumOk, Word;
    assert TransportPos(pkt) == Some(HeaderLen(pkt) + 6);
    TransportChecksumKept(pkt, off, ip, end);
  }

  /** The transport checksum is UDP's and the repair turns it into 0, which means "no checksum". */
  predicate UdpChecksumLost(pkt: seq<Byte>, off: nat, ip: Ip4)
    requires IsIpv4(pkt) && IsOffset(off)
  {
    && TransportPos(pkt).Some? && pkt[9] == PROTO_UDP
    && var check, old0, old1 := Word(pkt, TransportPos(pkt).value), Word(pkt, off), Word(pkt, off + 2);
    && (check + old0 + old1) % 0xFFFF == (ip / 0x1_0000 + ip % 0x1_0000) % 0xFFFF
    && !(check == old0 == old1 == 0xFFFF && ip == 0)
  }

  lemma AdjustedIsZero(check: U16, old0: U16, old1: U16, new0: U16, new1: U16)
    ensures Adjusted(check, old0, old1, new0, new1) == 0
       <==> (check + old0 + old1) % 0xFFFF == (new0 + new1) % 0xFFFF
            && !(check == old0 == old1 == 0xFFFF && new0 == new1 == 0)
  {
    AdjustedIsAllOnes(check, old0, old1, new0, new1);
    AdjustedCompensates(check, old0, old1, new0, new1);
    var r := Adjusted(check, old0, old1, new0, new1);
    if (check + old0 + old1) % 0xFFFF == (new0 + new1) % 0xFFFF {
      CancelResidue(r, 0, new0 + new1);
    }
  }

  /** Exactly when a rewrite turns a UDP checksum that was present into "no checksum". */
  lemma UdpChecksumLostExactly(pkt: seq<Byte>, off: nat, ip: Ip4)
    requires IsIpv4(pkt) && IsOffset(off)
    requires TransportPos(pkt).Some? && pkt[9] == PROTO_UDP
    ensures Word(Rewritten(pkt, off, ip), TransportPos(pkt).value) == 0 <==> UdpChecksumLost(pkt, off, ip)
  {
    RewriteFrame(pkt, off, ip);
    AdjustedIsZero(Word(pkt, TransportPos(pkt).value), Word(pkt, off), Word(pkt, off + 2), ip / 0x1_0000, ip % 0x1_0000);
  }

  /** An empty datagram from 10.9.0.2:58731 to 8.8.8.8:53 with a valid UDP checksum of 0x0023. */
  const UDP_EXAMPLE: seq<Byte> :=
    [0x45, 0, 0, 28, 0, 0, 0, 0, 64, 17, 0x60, 0xC5, 10, 9, 0, 2, 8, 8, 8, 8, 0xE5, 0x6B, 0, 53, 0, 8, 0, 0x23]

  /** Such packets exist: 10.9.0.2 becomes 10.9.0.37 and a valid checksum becomes "no checksum". */
  lemma UdpChecksumLostExample()
    ensures IsIpv4(UDP_EXAMPLE) && SumOk(TransportSum(UDP_EXAMPLE, 28))
    ensures TransportPos(UDP_EXAMPLE) == Some(26) && Word(UDP_EXAMPLE, 26) == 0x23
    ensures Word(Rewritten(UDP_EXAMPLE, SRC_OFFSET, 0x0A09_0025), 26) == 0
  {
    hide Rewritten, TransportSum, TransportPos, IsIpv4;
    var p := UDP_EXAMPLE;
    assert p[0] == 0x45 && p[9] == 17;
    assert Word(p, 6) == 0 && Word(p, 12) == 0x0A09 && Word(p, 14) == 2 && Word(p, 16) == Word(p, 18) == 0x0808;
    assert Word(p, 20) == 0xE56B && Word(p, 22) == 53 && Word(p, 24) == 8 && Word(p, 26) == 0x23;
    UdpExampleSum(p);
    assert UdpChecksumLost(p, SRC_OFFSET, 0x0A09_0025);
    UdpChecksumLostExactly(p, SRC_OFFSET, 0x0A09_0025);
  }

  lemma UdpExampleSum(p: seq<Byte>)
    requires |p| == 28 && p[0] == 0x45 && p[9] == 17 && Word(p, 6) == 0
    requires Word(p, 12) == 0x0A09 && Word(p, 14) == 2 && Word(p, 16) == Word(p, 18) == 0x0808
    requires Word(p, 20) == 0xE56B && Word(p, 22) == 53 && Word(p, 24) == 8 && Word(p, 26) == 0x23
    ensures IsIpv4(p) && HeaderLen(p) == 20 && TransportPos(p) == Some(26) && SumOk(TransportSum(p, 28))
  {
    hide WordSum;
    EightByteSum(p[12..20]);
    EightByteSum(p[20..28]);
  }

  lemma EightByteSum(s: seq<Byte>)
    requires |s| == 8
    ensures WordSum(s) == Word(s, 0) as int + Word(s, 2) + Word(s, 4) + Word(s, 6)
  {
    assert WordSum(s) == Word(s, 0) + WordSum(s[2..]);
    assert s[2..][2..] == s[4..] && s[4..][2..] == s[6..] && s[6..][2..] == [];
    assert WordSum(s[4..]) == Word(s, 4) + WordSum(s[6..]);
    assert WordSum(s[6..]) == Word(s, 6) + WordSum([]);
  }

  /** Whether rewriting to `ip` and back gives the original bytes. */
  predicate Reversible(pkt: seq<Byte>, off: nat, ip: Ip4)
    requires IsIpv4(pkt) && IsOffset(off)
  {
    && Word(pkt, 10) != 0xFFFF
    && (TransportPos(pkt).Some? ==> Word(pkt, TransportPos(pkt).value) != 0xFFFF)
    && !UdpChecksumLost(pkt, off, ip)
  }

  lemma AddrWords(pkt: seq<Byte>, off: nat)
    requires off + 3 < |pkt|
    ensures Addr(pkt, off) / 0x1_0000 == Word(pkt, off) && Addr(pkt, off) % 0x1_0000 == Word(pkt, off + 2)
  {
  }

  /** The header checksum survives a rewrite there and back unless it was 0xFFFF. */
  lemma HeaderChecksumRestored(pkt: seq<Byte>, off: nat, ip: Ip4)
    requires IsIpv4(pkt) && IsOffset(off)
    ensures var r := Rewritten(pkt, off, ip);
            && IsIpv4(r)
            && (Word(Rewritten(r, off, Addr(pkt, off)), 10) == Word(pkt, 10) <==> Word(pkt, 10) != 0xFFFF)
  {
    hide Rewritten, Adjusted, SetWord, IsIpv4, TransportPos, Word, Addr, HeaderLen;
    RewriteFrame(pkt, off, ip);
    var r := Rewritten(pkt, off, ip);
    RewriteFrame(r, off, Addr(pkt, off));
    AddrWords(pkt, off);
    AddrWords(r, off);
    AdjustedBack(Word(pkt, 10), Word(pkt, off), Word(pkt, off + 2), ip / 0x1_0000, ip % 0x1_0000);
  }

  /** A rewritten packet has its transport checksum where it was, unless UDP's was lost. */
  lemma TransportPosKept(pkt: seq<Byte>, off: nat, ip: Ip4)
    requires IsIpv4(pkt) && IsOffset(off)
    ensures var r := Rewritten(pkt, off, ip);
            && IsIpv4(r)
            && TransportPos(r) == (if UdpChecksumLost(pkt, off, ip) then None else TransportPos(pkt))
  {
    hide Rewritten, UdpChecksumLost, Adjusted;
    RewriteFrame(pkt, off, ip);
    var r := Rewritten(pkt, off, ip);
    assert Word(r, 6) == Word(pkt, 6) && r[9] == pkt[9];
    if TransportPos(pkt).Some? && pkt[9] == PROTO_UDP {
      UdpChecksumLostExactly(pkt, off, ip);
    } else {
      assert !UdpChecksumLost(pkt, off, ip) by {
        UdpChecksumLostNeedsUdp(pkt, off, ip);
      }
    }
  }

  lemma UdpChecksumLostNeedsUdp(pkt: seq<Byte>, off: nat, ip: Ip4)
    requires IsIpv4(pkt) && IsOffset(off)
    ensures UdpChecksumLost(pkt, off, ip) ==> TransportPos(pkt).Some? && pkt[9] == PROTO_UDP
  {
  }

  lemma TransportChecksumRestored(pkt: seq<Byte>, off: nat, ip: Ip4)
    requires IsIpv4(pkt) && IsOffset(off) && TransportPos(pkt).Some?
    ensures var r, pos := Rewritten(pkt, off, ip), TransportPos(pkt).value;
            && IsIpv4(r)
            && (Word(Rewritten(r, off, Addr(pkt, off)), pos) == Word(pkt, pos)
                <==> Word(pkt, pos) != 0xFFFF && !UdpChecksumLost(pkt, off, ip))
  {
    hide Rewritten, UdpChecksumLost, Adjusted;
    RewriteFrame(pkt, off, ip);
    TransportPosKept(pkt, off, ip);
    var r, pos := Rewritten(pkt, off, ip), TransportPos(pkt).value;
    RewriteFrame(r, off, Addr(pkt, off));
    if UdpChecksumLost(pkt, off, ip) {
      UdpChecksumLostNeedsUdp(pkt, off, ip);
      UdpChecksumLostExactly(pkt, off, ip);
      SameBytesSameWord(Rewritten(r, off, Addr(pkt, off)), r, pos);
    } else {
      AdjustedBack(Word(pkt, pos), Word(pkt, off), Word(pkt, off + 2), ip / 0x1_0000, ip % 0x1_0000);
      AddrHalves(r, off);
      AddrHalves(pkt, off);
    }
  }

  lemma AddrHalves(pkt: seq<Byte>, i: nat)
    requires i + 3 < |pkt|
    ensures Addr(pkt, i) / 0x1_0000 == Word(pkt, i)
    ensures Addr(pkt, i) % 0x1_0000 == Word(pkt, i + 2)
  {
  }

  lemma SameBytesSameWord(a: seq<Byte>, b: seq<Byte>, i: nat)
    requires i + 1 < |a| && i + 1 < |b|
    ensures Word(a, i) == Word(b, i) <==> a[i] == b[i] && a[i + 1] == b[i + 1]
  {
  }

  /** Rewriting there and back is the identity exactly on the reversible packets. */
  lemma RewriteRoundTrip(pkt: seq<Byte>, off: nat, ip: Ip4)
    requires IsIpv4(pkt) && IsOffset(off)
    ensures var r := Rewritten(pkt, off, ip);
            IsIpv4(r) && (Rewritten(r, off, Addr(pkt, off)) == pkt <==> Reversible(pkt, off, ip))
  {
    hide Rewritten, UdpChecksumLost, Repaired, Word;
    RewriteFrame(pkt, off, ip);
    TransportPosKept(pkt, off, ip);
    var r := Rewritten(pkt, off, ip);
    var back := Rewritten(r, off, Addr(pkt, off));
    RewriteFrame(r, off, Addr(pkt, off));
    HeaderChecksumRestored(pkt, off, ip);
    if TransportPos(pkt).Some? {
      TransportChecksumRestored(pkt, off, ip);
      SameBytesSameWord(back, pkt, TransportPos(pkt).value);
    } else {
      UdpChecksumLostNeedsUdp(pkt, off, ip);
    }
    if Reversible(pkt, off, ip) {
      SameBytesSameWord(back, pkt, 10);
      AddrHalves(back, off);
      AddrHalves(pkt, off);
      SameBytesSameWord(back, pkt, off);
      SameBytesSameWord(back, pkt, off + 2);
      assert back == pkt;
    }
  }
}
