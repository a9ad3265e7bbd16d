/** Carrier obfuscation: base64 text and QUIC short headers (src/obfs.rs). */
module Obfs {
  import opened Bytes

  const PAD: Byte := 61
  const TWO32: nat := 0x1_0000_0000

  type Sextet = x: int | 0 <= x < 64

  /** The standard alphabet. */
  function Letter(v: Sextet): Byte {
    if v < 26 then 65 + v
    else if v < 52 then 71 + v
    else if v < 62 then v - 4
    else if v == 62 then 43
    else 47
  }

  const UPPER := "ABCDEFGHIJKLMNOPQRSTUVWXYZ"
  const LOWER := "abcdefghijklmnopqrstuvwxyz"
  const OTHER := "0123456789+/"

  lemma Uppers(i: nat)
    requires i < 26
    ensures |UPPER| == 26 && UPPER[i] as int == 65 + i
  {
  }

  lemma Lowers(i: nat)
    requires i < 26
    ensures |LOWER| == 26 && LOWER[i] as int == 97 + i
  {
  }

  /** The letters are those of the table, in its order. */
  lemma LetterIsListed(v: Sextet)
    ensures |UPPER + LOWER + OTHER| == 64 && (UPPER + LOWER + OTHER)[v] as int == Letter(v)
  {
    Uppers(if v < 26 then v else 0);
    Lowers(if 26 <= v < 52 then v - 26 else 0);
  }

  /** The value of a letter, or nothing for a byte outside the alphabet. */
  function Value(c: Byte): (r: Option<Sextet>)
    ensures r.Some? ==> Letter(r.value) == c
    ensures forall v: Sextet :: Letter(v) == c ==> r == Some(v)
  {
    if 65 <= c <= 90 then Some(c - 65)
    else if 97 <= c <= 122 then Some(c - 71)
    else if 48 <= c <= 57 then Some(c + 4)
    else if c == 43 then Some(62)
    else if c == 47 then Some(63)
    else None
  }

  /** The reverse table, built by walking the alphabet; 0xFF marks a byte outside it. */
  method ReverseTable() returns (t: array<Byte>)
    ensures t.Length == 256
    ensures forall c :: 0 <= c < 256 ==> t[c] == (if Value(c).Some? then Value(c).value else 0xFF)
  {
    t := new Byte[256](_ => 0xFF);
    for i := 0 to 64
      invariant forall c :: 0 <= c < 256 ==>
                              t[c] == (if Value(c).Some? && Value(c).value < i then Value(c).value else 0xFF)
    {
      t[Letter(i)] := i;
    }
  }

  // ---- Base64 ----

  /** The 24-bit group of one chunk; missing bytes count as zero. */
  function Group(chunk: seq<Byte>): nat
    requires 0 < |chunk| <= 3
  {
    chunk[0] as int * 0x1_0000
    + (if |chunk| > 1 then chunk[1] as int * 0x100 else 0)
    + (if |chunk| > 2 then chunk[2] else 0)
  }

  function Quad(chunk: seq<Byte>): (r: seq<Byte>)
    requires 0 < |chunk| <= 3
    ensures |r| == 4
  {
    var n := Group(chunk);
    [ Letter(n / 0x4_0000 % 64),
      Letter(n / 0x1000 % 64),
      if |chunk| > 1 then Letter(n / 64 % 64) else PAD,
      if |chunk| > 2 then Letter(n % 64) else PAD ]
  }

  function Chunk(data: seq<Byte>): (r: seq<Byte>)
    requires data != []
    ensures 0 < |r| <= 3 && r <= data
  {
    if |data| < 3 then data else data[..3]
  }

  /** Base64 with padding: four characters for every three bytes begun. */
  function Encoded(data: seq<Byte>): seq<Byte> {
    if data == [] then [] else Quad(Chunk(data)) + Encoded(data[|Chunk(data)|..])
  }

  lemma {:induction false} EncodedLength(data: seq<Byte>)
    ensures |Encoded(data)| == (|data| + 2) / 3 * 4
  {
    if data != [] {
      EncodedLength(data[|Chunk(data)|..]);
    }
  }

  function Push(b: Byte, r: Option<seq<Byte>>): Option<seq<Byte>> {
    match r
    case None => None
    case Some(s) => Some([b] + s)
  }

  function Shift(buf: U32, v: Sextet): U32 {
    (buf as int * 64 + v) % TWO32
  }

  /** The low byte of the register above its `bits` pending bits. */
  function Out(buf: U32, bits: nat): Byte
    requires bits < 6
  {
    var high: int := match bits
                     case 0 => buf
                     case 1 => buf / 2
                     case 2 => buf / 4
                     case 3 => buf / 8
                     case 4 => buf / 16
                     case _ => buf / 32;
    high % 256
  }

  /** The decoder, from a register `buf` holding `bits` pending bits. */
  function Decode(input: seq<Byte>, buf: U32, bits: nat): Option<seq<Byte>>
    requires bits < 8
    decreases |input|
  {
    if input == [] || input[0] == PAD then Some([])
    else match Value(input[0])
         case None => None
         case Some(v) =>
           var next := Shift(buf, v);
           if bits < 2 then Decode(input[1..], next, bits + 6)
           else Push(Out(next, bits - 2), Decode(input[1..], next, bits - 2))
  }

  function Decoded(input: seq<Byte>): Option<seq<Byte>> {
    Decode(input, 0, 0)
  }

  /** Decoding fails exactly when a byte before the first padding is outside the alphabet. */
  lemma {:induction false} DecodeFailsExactly(input: seq<Byte>, buf: U32, bits: nat)
    requires bits < 8
    ensures Decode(input, buf, bits).None? <==>
            exists i :: 0 <= i < |input| && Value(input[i]).None? && PAD !in input[..i + 1]
    decreases |input|
  {
    if input != [] && input[0] != PAD {
      if Value(input[0]).None? {
        assert input[..0 + 1] == [input[0]];
      } else {
        var next := Shift(buf, Value(input[0]).value);
        DecodeFailsExactly(input[1..], next, if bits < 2 then bits + 6 else bits - 2);
        Behind(input);
      }
    }
  }

  lemma Behind(input: seq<Byte>)
    requires input != [] && input[0] != PAD && Value(input[0]).Some?
    ensures (exists i :: 0 <= i < |input| && Value(input[i]).None? && PAD !in input[..i + 1]) <==>
            (exists i :: 0 <= i < |input[1..]| && Value(input[1..][i]).None? && PAD !in input[1..][..i + 1])
  {
    var rest := input[1..];
    if i :| 0 <= i < |input| && Value(input[i]).None? && PAD !in input[..i + 1] {
      assert rest[i - 1] == input[i] && rest[..i - 1 + 1] == input[..i + 1][1..];
    }
    if i :| 0 <= i < |rest| && Value(rest[i]).None? && PAD !in rest[..i + 1] {
      assert input[i + 1] == rest[i] && input[..i + 1 + 1] == [input[0]] + rest[..i + 1];
    }
  }

  // ---- The shift register inverts the encoder ----

  /** Quotient and remainder are the only way to write `x` over `k`. */
  lemma Division(x: int, k: int, q: int, r: int)
    requires 0 <= r < k && x == k * q + r
    ensures x / k == q && x % k == r
  {
    var e := q - x / k;
    assert k * e == x % k - r;
    Scaled(k, e);
  }

  lemma Scaled(k: int, e: int)
    requires k > 0
    ensures e >= 1 ==> k * e >= k
    ensures e <= -1 ==> k * e <= -k
  {
  }

  /** Truncating to 32 bits leaves the low bits alone. */
  lemma LowBits(x: nat)
    ensures x % TWO32 % 64 == x % 64 && x % TWO32 % 0x1000 == x % 0x1000
  {
    var q, r := x / TWO32, x % TWO32;
    var i, j := r / 64, r / 0x1000;
    Division(x, 64, 0x400_0000 * q + i, r % 64);
    Division(x, 0x1000, 0x10_0000 * q + j, r % 0x1000);
  }

  /** Two letters later the low twelve bits hold just those letters, whatever the register held. */
  lemma TwoLetters(buf: U32, a: Sextet, b: Sextet)
    ensures Shift(Shift(buf, a), b) % 0x1000 == a * 64 + b
  {
    var one := Shift(buf, a);
    LowBits(buf as int * 64 + a);
    Division(buf as int * 64 + a, 64, buf, a);
    LowBits(one as int * 64 + b);
    Division(one as int * 64 + b, 0x1000, one / 64, a * 64 + b);
  }

  /** The byte handed out depends on the low twelve bits only. */
  lemma OutLow(buf: U32, bits: nat)
    requires bits in {0, 2, 4}
    ensures Out(buf, bits) == (match bits
                               case 0 => buf % 0x1000 % 256
                               case 2 => buf % 0x1000 / 4 % 256
                               case _ => buf % 0x1000 / 16)
  {
    var q, r := buf / 0x1000, buf % 0x1000;
    match bits {
      case 0 =>
        Division(buf, 256, 16 * q + r / 256, r % 256);
      case 2 =>
        var s := r / 4;
        Division(buf, 4, 0x400 * q + s, r % 4);
        Division(buf / 4, 256, 4 * q + s / 256, s % 256);
      case _ =>
        Division(buf, 16, 0x100 * q + r / 16, r % 16);
        Division(buf / 16, 256, q, r / 16);
    }
  }

  /** Four letters read from an idle register hand out the three bytes they spell. */
  lemma FourLetters(input: seq<Byte>, buf: U32, a: Sextet, b: Sextet, c: Sextet, d: Sextet)
    requires |input| >= 4 && input[..4] == [Letter(a), Letter(b), Letter(c), Letter(d)]
    ensures exists next: U32 ::
              Decode(input, buf, 0) ==
              Push(a * 4 + b / 16, Push(b % 16 * 16 + c / 4, Push(c % 4 * 64 + d, Decode(input[4..], next, 0))))
  {
    hide Shift, Out, Push;
    assert input[0] == input[..4][0] && input[1] == input[..4][1] && input[2] == input[..4][2] && input[3] == input[..4][3];
    var r1 := Shift(buf, a);
    var r2 := Shift(r1, b);
    var r3 := Shift(r2, c);
    var r4 := Shift(r3, d);
    OneLetter(input, buf, 0, a);
    OneLetter(input[1..], r1, 6, b);
    OneLetter(input[2..], r2, 4, c);
    OneLetter(input[3..], r3, 2, d);
    assert input[1..][1..] == input[2..] && input[2..][1..] == input[3..] && input[3..][1..] == input[4..];
    ThreeBytes(buf, a, b, c, d);
  }

  lemma OneLetter(input: seq<Byte>, buf: U32, bits: nat, v: Sextet)
    requires input != [] && input[0] == Letter(v) && bits < 8
    ensures Decode(input, buf, bits) ==
            if bits < 2 then Decode(input[1..], Shift(buf, v), bits + 6)
            else Push(Out(Shift(buf, v), bits - 2), Decode(input[1..], Shift(buf, v), bits - 2))
  {
    hide Shift, Out, Push;
    assert Value(input[0]) == Some(v);
  }

  lemma ThreeBytes(buf: U32, a: Sextet, b: Sextet, c: Sextet, d: Sextet)
    ensures Out(Shift(Shift(buf, a), b), 4) == a * 4 + b / 16
    ensures Out(Shift(Shift(Shift(buf, a), b), c), 2) == b % 16 * 16 + c / 4
    ensures Out(Shift(Shift(Shift(Shift(buf, a), b), c), d), 0) == c % 4 * 64 + d
  {
    hide Shift, Out;
    var r1 := Shift(buf, a);
    var r2 := Shift(r1, b);
    var r3 := Shift(r2, c);
    TwoLetters(buf, a, b);
    OutLow(r2, 4);
    TwoLetters(r1, b, c);
    OutLow(r3, 2);
    TwoLetters(r2, c, d);
    OutLow(Shift(r3, d), 0);
    Division(a * 64 + b, 16, a * 4 + b / 16, b % 16);
    Division(b * 64 + c, 4, b * 16 + c / 4, c % 4);
    Division(b * 16 + c / 4, 256, b / 16, b % 16 * 16 + c / 4);
    Division(c * 64 + d, 256, c / 4, c % 4 * 64 + d);
  }

  lemma Sextets(x: Byte, y: Byte, z: Byte)
    ensures var n := x as int * 0x1_0000 + y as int * 0x100 + z;
            && n / 0x4_0000 % 64 == x / 4
            && n / 0x1000 % 64 == x % 4 * 16 + y / 16
            && n / 64 % 64 == y % 16 * 4 + z / 64
            && n % 64 == z % 64
  {
    var n := x as int * 0x1_0000 + y as int * 0x100 + z;
    var x0: int, x1: int, y0: int, y1: int, z0: int, z1: int := x / 4, x % 4, y / 16, y % 16, z / 64, z % 64;
    Division(n, 0x4_0000, x0, x1 * 0x1_0000 + y as int * 0x100 + z);
    Division(n, 0x1000, x as int * 16 + y0, y1 * 0x100 + z);
    Division(x as int * 16 + y0, 64, x0, x1 * 16 + y0);
    Division(n, 64, x as int * 1024 + y as int * 4 + z0, z1);
    Division(x as int * 1024 + y as int * 4 + z0, 64, x as int * 16 + y0, y1 * 4 + z0);
  }

  /** The sextets of three bytes spell the bytes. */
  lemma SextetsSpell(x: Byte, y: Byte, z: Byte)
    ensures var n := x as int * 0x1_0000 + y as int * 0x100 + z;
            var a, b, c, d := n / 0x4_0000 % 64, n / 0x1000 % 64, n / 64 % 64, n % 64;
            a * 4 + b / 16 == x && b % 16 * 16 + c / 4 == y && c % 4 * 64 + d == z
  {
    Sextets(x, y, z);
    Division(x % 4 * 16 + y / 16, 16, x % 4, y / 16);
    Division(y % 16 * 4 + z / 64, 4, y % 16, z / 64);
  }

  /** A padded quad hands out its one or two bytes and ends the text. */
  lemma LastQuad(chunk: seq<Byte>, buf: U32)
    requires 0 < |chunk| < 3
    ensures Decode(Quad(chunk), buf, 0) == Some(chunk)
  {
    hide Shift, Out, Letter, Value;
    var input := Quad(chunk);
    var n := Group(chunk);
    var y: Byte := if |chunk| > 1 then chunk[1] else 0;
    var a, b, c := n / 0x4_0000 % 64, n / 0x1000 % 64, n / 64 % 64;
    SextetsSpell(chunk[0], y, 0);
    ThreeBytes(buf, a, b, c, 0);
    var r1 := Shift(buf, a);
    var r2 := Shift(r1, b);
    var r3 := Shift(r2, c);
    OneLetter(input, buf, 0, a);
    OneLetter(input[1..], r1, 6, b);
    assert input[1..][1..] == input[2..];
    if |chunk| == 1 {
      assert Decode(input[2..], r2, 4) == Some([]);
      assert chunk == [chunk[0]] + [];
    } else {
      OneLetter(input[2..], r2, 4, c);
      assert input[2..][1..] == input[3..];
      assert Decode(input[3..], r3, 2) == Some([]);
      assert chunk == [chunk[0]] + ([chunk[1]] + []);
    }
  }

  /** The 32-bit shift register inverts the encoder on every byte string. */
  lemma {:induction false} Base64RoundTrip(data: seq<Byte>, buf: U32)
    ensures Decode(Encoded(data), buf, 0) == Some(data)
    decreases |data|
  {
    hide Shift, Out, Letter, Value;
    if data == [] {
    } else if |data| < 3 {
      LastQuad(data, buf);
      assert Encoded(data) == Quad(data) by {
        assert data[|data|..] == [];
      }
    } else {
      FullQuad(data, buf);
    }
  }

  lemma FullQuad(data: seq<Byte>, buf: U32)
    requires |data| >= 3
    ensures Decode(Encoded(data), buf, 0) == Some(data)
    decreases |data|, 0
  {
    hide Decode, Quad;
    var chunk, rest := data[..3], data[3..];
    var next := QuadDecodes(chunk, Encoded(rest), buf);
    Base64RoundTrip(rest, next);
    assert data == [chunk[0]] + ([chunk[1]] + ([chunk[2]] + rest));
  }

  /** A full quad hands out its chunk, whatever the register held. */
  lemma QuadDecodes(chunk: seq<Byte>, tail: seq<Byte>, buf: U32) returns (next: U32)
    requires |chunk| == 3
    ensures Decode(Quad(chunk) + tail, buf, 0) == Push(chunk[0], Push(chunk[1], Push(chunk[2], Decode(tail, next, 0))))
  {
    hide Shift, Out, Letter, Value, Decode, Push;
    var n := Group(chunk);
    var a, b, c, d := n / 0x4_0000 % 64, n / 0x1000 % 64, n / 64 % 64, n % 64;
    SextetsSpell(chunk[0], chunk[1], chunk[2]);
    var input := Quad(chunk) + tail;
    assert input[..4] == Quad(chunk) && input[4..] == tail;
    FourLetters(input, buf, a, b, c, d);
    next :| Decode(input, buf, 0) ==
      Push(a * 4 + b / 16, Push(b % 16 * 16 + c / 4, Push(c % 4 * 64 + d, Decode(input[4..], next, 0))));
  }

  method Base64Encode(data: seq<Byte>) returns (out: seq<Byte>)
    ensures out == Encoded(data)
  {
    hide Quad;
    out := [];
    var i := 0;
    while i < |data|
      invariant 0 <= i <= |data|
      invariant out + Encoded(data[i..]) == Encoded(data)
    {
      var chunk := Chunk(data[i..]);
      ghost var rest := Encoded(data[i + |chunk|..]);
      assert data[i..][|chunk|..] == data[i + |chunk|..];
      assert out + (Quad(chunk) + rest) == out + Quad(chunk) + rest;
      out := out + Quad(chunk);
      i := i + |chunk|;
    }
  }

  method Base64Decode(input: seq<Byte>) returns (r: Option<seq<Byte>>)
    ensures r == Decoded(input)
  {
    hide Shift, Out, Value;
    var reverse := ReverseTable();
    var table := reverse[..];
    assert forall c :: 0 <= c < 256 ==> table[c] == (if Value(c).Some? then Value(c).value else 0xFF);
    var out: seq<Byte> := [];
    var buf: U32, bits: nat := 0, 0;
    assert input[0..] == input;
    assert forall s: seq<Byte> :: out + s == s;
    for i := 0 to |input|
      invariant bits < 8
      invariant Decoded(input) == Appended(out, Decode(input[i..], buf, bits))
    {
      var c := input[i];
      assert input[i..][1..] == input[i + 1..];
      if c == PAD {
        assert out + [] == out;
        return Some(out);
      }
      var v := table[c];
      if v == 0xFF {
        return None;
      }
      buf := Shift(buf, v);
      bits := bits + 6;
      if bits >= 8 {
        bits := bits - 8;
        ghost var rest := Decode(input[i + 1..], buf, bits);
        AppendedPush(out, Out(buf, bits), rest);
        out := out + [Out(buf, bits)];
      }
    }
    assert input[|input|..] == [] && out + [] == out;
    r := Some(out);
  }

  ghost function Appended(out: seq<Byte>, rest: Option<seq<Byte>>): Option<seq<Byte>> {
    match rest
    case None => None
    case Some(s) => Some(out + s)
  }

  lemma AppendedPush(out: seq<Byte>, b: Byte, rest: Option<seq<Byte>>)
    ensures Appended(out, Push(b, rest)) == Appended(out + [b], rest)
  {
    if rest.Some? {
      assert out + ([b] + rest.value) == out + [b] + rest.value;
    }
  }

  // ---- QUIC short headers ----

  const PN_LEN: nat := 2

  /** Form bits 01, four random bits, and the packet-number length minus one. */
  function FirstByte(rnd: Byte): (b: Byte)
    ensures 64 <= b < 128 && b % 4 == PN_LEN - 1
  {
    64 + rnd / 4 % 16 * 4 + (PN_LEN - 1)
  }

  /** The packet: first byte, connection id, low packet-number bytes, datagram. */
  function Shaped(dcid: seq<Byte>, pn: U32, rnd: Byte, datagram: seq<Byte>): seq<Byte> {
    [FirstByte(rnd)] + dcid + [pn / 256 % 256, pn % 256] + datagram
  }

  function Unshaped(dcidLen: nat, pkt: seq<Byte>): Option<seq<Byte>> {
    if pkt == [] || pkt[0] >= 128 || pkt[0] / 64 % 2 == 0 then None
    else
      var header := 1 + dcidLen + (pkt[0] % 4 + 1);
      if |pkt| < header then None else Some(pkt[header..])
  }

  /** An end recovers the datagram exactly when it shares the connection-id length. */
  lemma ShapedRoundTrip(dcid: seq<Byte>, dcidLen: nat, pn: U32, rnd: Byte, datagram: seq<Byte>)
    ensures Unshaped(dcidLen, Shaped(dcid, pn, rnd, datagram)) == Some(datagram) <==> dcidLen == |dcid|
  {
    hide FirstByte;
    var pkt := Shaped(dcid, pn, rnd, datagram);
    assert pkt[0] == FirstByte(rnd);
    if dcidLen == |dcid| {
      assert pkt[1 + dcidLen + PN_LEN..] == datagram;
    }
  }

  /** A short header: form bits 01, a packet number as long as the low two bits say, then the datagram. */
  predicate ShortHeader(pkt: seq<Byte>, dcid: seq<Byte>, number: seq<Byte>, datagram: seq<Byte>) {
    && pkt != [] && 64 <= pkt[0] < 128 && |number| == pkt[0] as int % 4 + 1
    && pkt[1..] == dcid + number + datagram
  }

  /** What is sent is such a packet, with the low 16 bits of the packet number and the four random bits in place. */
  lemma ShapedFields(dcid: seq<Byte>, pn: U32, rnd: Byte, datagram: seq<Byte>)
    ensures var pkt := Shaped(dcid, pn, rnd, datagram);
            && ShortHeader(pkt, dcid, [pn / 256 % 256, pn % 256], datagram)
            && pkt[0] % 4 == 1 && pkt[0] / 4 % 16 == rnd / 4 % 16 && Word(pkt, 1 + |dcid|) == pn % 0x1_0000
  {
    hide FirstByte;
    var pkt := Shaped(dcid, pn, rnd, datagram);
    assert pkt[0] == FirstByte(rnd) == 64 + rnd / 4 % 16 * 4 + 1 by {
      FirstByteBits(rnd);
    }
    assert pkt[1..] == dcid + [pn / 256 % 256, pn % 256] + datagram;
    assert pkt[1 + |dcid|] == pn / 256 % 256 && pkt[2 + |dcid|] == pn % 256;
  }

  lemma FirstByteBits(rnd: Byte)
    ensures FirstByte(rnd) == 64 + rnd / 4 % 16 * 4 + 1
  {
  }

  /** A packet is opened exactly when it has such a header around the datagram, whatever its packet-number length. */
  lemma UnshapedExactly(dcidLen: nat, pkt: seq<Byte>, datagram: seq<Byte>)
    ensures Unshaped(dcidLen, pkt) == Some(datagram) <==>
            exists dcid, number :: |dcid| == dcidLen && ShortHeader(pkt, dcid, number, datagram)
  {
    if Unshaped(dcidLen, pkt) == Some(datagram) {
      var header := 1 + dcidLen + (pkt[0] % 4 + 1);
      var dcid, number := pkt[1..1 + dcidLen], pkt[1 + dcidLen..header];
      assert pkt[1..] == dcid + number + datagram;
      assert ShortHeader(pkt, dcid, number, datagram);
    }
    if dcid, number :| |dcid| == dcidLen && ShortHeader(pkt, dcid, number, datagram) {
      assert pkt[1..][|dcid| + |number|..] == datagram;
    }
  }

  class QuicObfs {
    const dcid: seq<Byte>
    var pn: U32

    constructor (dcid: seq<Byte>, seed: U32)
      ensures this.dcid == dcid && pn == seed
    {
      this.dcid, pn := dcid, seed;
    }

    method Wrap(datagram: seq<Byte>, rnd: Byte) returns (out: seq<Byte>)
      modifies this
      ensures out == Shaped(dcid, old(pn), rnd, datagram)
      ensures Unshaped(|dcid|, out) == Some(datagram)
      ensures pn == (old(pn) + 1) % TWO32
    {
      var number := pn;
      pn := (pn + 1) % TWO32;
      out := [FirstByte(rnd)];
      out := out + dcid;
      out := out + [number / 256 % 256, number % 256];
      out := out + datagram;
      ShapedRoundTrip(dcid, |dcid|, number, rnd, datagram);
    }
  }
}
