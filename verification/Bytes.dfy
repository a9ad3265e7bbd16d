/** Machine integers, addresses and the big-endian byte encoding shared by every module. */
module Bytes {

  datatype Option<+T> = None | Some(value: T)

  type Byte = x: int | 0 <= x < 0x100
  type U16 = x: int | 0 <= x < 0x1_0000
  type U32 = x: int | 0 <= x < 0x1_0000_0000
  type U128 = x: int | 0 <= x < 0x1_0000_0000_0000_0000_0000_0000_0000_0000

  /** An IPv4 or IPv6 address, as its host-order integer. */
  type Ip4 = U32
  type Ip6 = U128

  datatype IpAddr = V4(ip4: Ip4) | V6(ip6: Ip6)

  /** A UDP endpoint. */
  datatype SocketAddr = SocketAddr(ip: IpAddr, port: U16)

  /** A point in time, and the length of an interval, in nanoseconds. */
  type Time = nat

  /** How long ago `seen` was; a `seen` in the future counts as zero. */
  function Idle(now: Time, seen: Time): nat {
    if now < seen then 0 else now - seen
  }

  function Pow256(n: nat): (p: nat)
    ensures p > 0
  {
    if n == 0 then 1 else 256 * Pow256(n - 1)
  }

  /** The low `n` bytes of `v`, most significant first. */
  function BigEndian(v: nat, n: nat): (s: seq<Byte>)
    ensures |s| == n
  {
    if n == 0 then [] else BigEndian(v / 256, n - 1) + [v % 256]
  }

  function FromBigEndian(s: seq<Byte>): nat {
    if s == [] then 0 else FromBigEndian(s[..|s| - 1]) * 256 + s[|s| - 1]
  }

  lemma {:induction false} BigEndianRoundTrip(v: nat, n: nat)
    requires v < Pow256(n)
    ensures FromBigEndian(BigEndian(v, n)) == v
  {
    if n > 0 {
      BigEndianRoundTrip(v / 256, n - 1);
      var s := BigEndian(v, n);
      assert s[..n - 1] == BigEndian(v / 256, n - 1);
    }
  }

  lemma {:induction false} FromBigEndianRoundTrip(s: seq<Byte>)
    ensures FromBigEndian(s) < Pow256(|s|)
    ensures BigEndian(FromBigEndian(s), |s|) == s
  {
    if s != [] {
      FromBigEndianRoundTrip(s[..|s| - 1]);
      assert FromBigEndian(s) / 256 == FromBigEndian(s[..|s| - 1]);
      assert s == s[..|s| - 1] + [s[|s| - 1]];
    }
  }

  /** `u16::from_be_bytes([s[i], s[i + 1]])`. */
  function Word(s: seq<Byte>, i: nat): U16
    requires i + 1 < |s|
  {
    s[i] as int * 256 + s[i + 1]
  }

  /** `s` with the two bytes at `i` overwritten by `w` in network order. */
  function SetWord(s: seq<Byte>, i: nat, w: U16): (r: seq<Byte>)
    requires i + 1 < |s|
    ensures |r| == |s|
    ensures Word(r, i) == w
    ensures forall k :: 0 <= k < |s| && k != i && k != i + 1 ==> r[k] == s[k]
  {
    s[i := w / 256][i + 1 := w % 256]
  }

  /** The IPv4 address stored at `i`, and the packet with the address at `i` overwritten. */
  function Addr(s: seq<Byte>, i: nat): Ip4
    requires i + 3 < |s|
  {
    Word(s, i) as int * 0x1_0000 + Word(s, i + 2)
  }

  function SetAddr(s: seq<Byte>, i: nat, ip: Ip4): (r: seq<Byte>)
    requires i + 3 < |s|
    ensures |r| == |s|
    ensures Word(r, i) == ip / 0x1_0000 && Word(r, i + 2) == ip % 0x1_0000
    ensures Addr(r, i) == ip
    ensures forall k :: 0 <= k < |s| && !(i <= k < i + 4) ==> r[k] == s[k]
  {
    SetWord(SetWord(s, i, ip / 0x1_0000), i + 2, ip % 0x1_0000)
  }

  lemma Pow256Values()
    ensures Pow256(2) == 0x1_0000
    ensures Pow256(4) == 0x1_0000_0000
    ensures Pow256(16) == 0x1_0000_0000_0000_0000_0000_0000_0000_0000
  {
    assert Pow256(8) == 0x1_0000_0000_0000_0000;
    assert Pow256(12) == 0x1_0000_0000_0000_0000_0000_0000;
  }

  function FromOctets4(s: seq<Byte>): Ip4
    requires |s| == 4
  {
    FromBigEndianRoundTrip(s);
    Pow256Values();
    FromBigEndian(s)
  }

  function FromOctets6(s: seq<Byte>): Ip6
    requires |s| == 16
  {
    FromBigEndianRoundTrip(s);
    Pow256Values();
    FromBigEndian(s)
  }

  lemma OctetsRoundTrip(a: Ip4, b: Ip6)
    ensures FromOctets4(BigEndian(a, 4)) == a
    ensures FromOctets6(BigEndian(b, 16)) == b
  {
    Pow256Values();
    BigEndianRoundTrip(a, 4);
    BigEndianRoundTrip(b, 16);
  }
}
