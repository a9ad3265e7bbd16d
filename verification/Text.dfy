/** UTF-8: what a string is on the wire, and which bytes are a string. */
module Text {
  import opened Bytes

  function EncodeChar(c: char): (b: seq<Byte>)
    ensures 1 <= |b| <= 4
  {
    var u := c as int;
    if u < 0x80 then [u]
    else if u < 0x800 then [0xC0 + u / 64, 0x80 + u % 64]
    else if u < 0x1_0000 then [0xE0 + u / 4096, 0x80 + u / 64 % 64, 0x80 + u % 64]
    else [0xF0 + u / 262144, 0x80 + u / 4096 % 64, 0x80 + u / 64 % 64, 0x80 + u % 64]
  }

  predicate Continues(b: Byte) {
    0x80 <= b < 0xC0
  }

  /** The code point at the front and its length, if the front is the shortest form of one. */
  function DecodeChar(b: seq<Byte>): (r: Option<(char, nat)>)
    requires b != []
    ensures r.Some? ==> 1 <= r.value.1 <= |b|
  {
    var b0: int := b[0];
    if b0 < 0x80 then Some((b0 as char, 1))
    else if 0xC0 <= b0 < 0xE0 && |b| >= 2 && Continues(b[1]) then
      var u := (b0 - 0xC0) * 64 + (b[1] - 0x80);
      if u < 0x80 then None else Some((u as char, 2))
    else if 0xE0 <= b0 < 0xF0 && |b| >= 3 && Continues(b[1]) && Continues(b[2]) then
      var u := (b0 - 0xE0) * 4096 + (b[1] as int - 0x80) * 64 + (b[2] - 0x80);
      if u < 0x800 || 0xD800 <= u < 0xE000 then None else Some((u as char, 3))
    else if 0xF0 <= b0 < 0xF8 && |b| >= 4 && Continues(b[1]) && Continues(b[2]) && Continues(b[3]) then
      var u := (b0 - 0xF0) * 262144 + (b[1] as int - 0x80) * 4096 + (b[2] as int - 0x80) * 64 + (b[3] - 0x80);
      if u < 0x1_0000 || u >= 0x11_0000 then None else Some((u as char, 4))
    else None
  }

  function Utf8(s: string): seq<Byte> {
    if s == "" then [] else EncodeChar(s[0]) + Utf8(s[1..])
  }

  /** `from_utf8`. */
  function FromUtf8(b: seq<Byte>): Option<string> {
    if b == [] then Some("")
    else match DecodeChar(b)
         case None => None
         case Some((c, n)) =>
           match FromUtf8(b[n..])
           case None => None
           case Some(s) => Some([c] + s)
  }

  /** A number below 2^21 from its base-64 digits, and the digits from the number. */
  lemma Digits64(u: nat)
    ensures u / 64 * 64 + u % 64 == u
    ensures u / 4096 * 4096 + u / 64 % 64 * 64 + u % 64 == u
    ensures u / 262144 * 262144 + u / 4096 % 64 * 4096 + u / 64 % 64 * 64 + u % 64 == u
  {
    assert u / 64 / 64 == u / 4096 && u / 4096 / 64 == u / 262144;
  }

  lemma Digits64Unique(a: nat, b: nat, c: nat, d: nat)
    requires b < 64 && c < 64 && d < 64
    ensures var u := a * 262144 + b * 4096 + c * 64 + d;
            u / 262144 == a && u / 4096 % 64 == b && u / 64 % 64 == c && u % 64 == d
    ensures var u := b * 4096 + c * 64 + d; u / 4096 == b && u / 64 % 64 == c && u % 64 == d
    ensures var u := c * 64 + d; u / 64 == c && u % 64 == d
  {
    var u := a * 262144 + b * 4096 + c * 64 + d;
    assert u / 64 == a * 4096 + b * 64 + c;
    assert u / 4096 == a * 64 + b;
    var v := b * 4096 + c * 64 + d;
    assert v / 64 == b * 64 + c;
  }

  lemma DecodeEncodeChar(c: char, rest: seq<Byte>)
    ensures DecodeChar(EncodeChar(c) + rest) == Some((c, |EncodeChar(c)|))
  {
    var u, e := c as int, EncodeChar(c);
    var b := e + rest;
    Digits64(u);
    assert b[0] == e[0] && (|e| > 1 ==> b[1] == e[1]) && (|e| > 2 ==> b[2] == e[2]) && (|e| > 3 ==> b[3] == e[3]);
    hide EncodeChar;
    if u < 0x80 {
      assert e == [u];
    } else if u < 0x800 {
      assert e == [0xC0 + u / 64, 0x80 + u % 64];
    } else if u < 0x1_0000 {
      assert e == [0xE0 + u / 4096, 0x80 + u / 64 % 64, 0x80 + u % 64];
    } else {
      assert e == [0xF0 + u / 262144, 0x80 + u / 4096 % 64, 0x80 + u / 64 % 64, 0x80 + u % 64];
    }
  }

  lemma EncodeDecodeChar(b: seq<Byte>)
    requires b != [] && DecodeChar(b).Some?
    ensures EncodeChar(DecodeChar(b).value.0) == b[..DecodeChar(b).value.1]
  {
    hide EncodeChar;
    var (c, n) := DecodeChar(b).value;
    if n == 1 {
      EncodeShort(c, 0, b[0]);
    } else if n == 2 {
      EncodeShort(c, b[0] - 0xC0, b[1] - 0x80);
    } else if n == 3 {
      EncodeLong(c, 0, b[0] - 0xE0, b[1] - 0x80, b[2] - 0x80);
    } else {
      EncodeLong(c, b[0] - 0xF0, b[1] - 0x80, b[2] - 0x80, b[3] - 0x80);
    }
  }

  lemma EncodeShort(c: char, x: nat, y: nat)
    requires c as int == x * 64 + y < 0x800 && (if c as int < 0x80 then x == 0 else y < 64)
    ensures EncodeChar(c) == if c as int < 0x80 then [y] else [0xC0 + x, 0x80 + y]
  {
    if c as int >= 0x80 {
      Digits64Unique(0, 0, x, y);
    }
  }

  lemma EncodeLong(c: char, a: nat, x: nat, y: nat, z: nat)
    requires c as int == a * 262144 + x * 4096 + y * 64 + z >= 0x800 && x < 64 && y < 64 && z < 64
    requires a > 0 ==> c as int >= 0x1_0000
    ensures EncodeChar(c) == if c as int < 0x1_0000 then [0xE0 + x, 0x80 + y, 0x80 + z]
                             else [0xF0 + a, 0x80 + x, 0x80 + y, 0x80 + z]
  {
    Digits64Unique(a, x, y, z);
  }

  lemma {:induction false} FromUtf8Inverts(s: string)
    ensures FromUtf8(Utf8(s)) == Some(s)
  {
    hide EncodeChar, DecodeChar;
    if s != "" {
      DecodeEncodeChar(s[0], Utf8(s[1..]));
      FromUtf8Inverts(s[1..]);
      assert Utf8(s)[|EncodeChar(s[0])|..] == Utf8(s[1..]);
      assert s == [s[0]] + s[1..];
    }
  }

  lemma {:induction false} Utf8Inverts(b: seq<Byte>)
    requires FromUtf8(b).Some?
    ensures Utf8(FromUtf8(b).value) == b
  {
    hide EncodeChar, DecodeChar;
    if b != [] {
      var (c, n) := DecodeChar(b).value;
      EncodeDecodeChar(b);
      Utf8Inverts(b[n..]);
      var s := FromUtf8(b).value;
      assert s[0] == c && s[1..] == FromUtf8(b[n..]).value;
      assert b == b[..n] + b[n..];
    }
  }

  /** Text that ends in the first byte of a multi-byte character does not decode. */
  lemma {:induction false} CutLeadFails(b: seq<Byte>)
    requires b != [] && b[|b| - 1] >= 0xC0
    ensures FromUtf8(b) == None
  {
    if DecodeChar(b).Some? {
      var n := DecodeChar(b).value.1;
      if n < |b| {
        assert b[n..][|b| - n - 1] == b[|b| - 1];
        CutLeadFails(b[n..]);
      }
    }
  }

  /** Encoded text decodes when it is cut after an ASCII character. */
  lemma {:induction false} CutAtAscii(s: string, end: nat)
    requires end <= |Utf8(s)| && (end > 0 ==> Utf8(s)[end - 1] < 0x80)
    ensures FromUtf8(Utf8(s)[..end]).Some?
  {
    if end > 0 {
      var e, rest := EncodeChar(s[0]), Utf8(s[1..]);
      assert Utf8(s) == e + rest;
      if end < |e| || (end == |e| && |e| > 1) {
        assert Utf8(s)[end - 1] == e[end - 1];
        MultiByte(s[0], end - 1);
      } else {
        var cut := end - |e|;
        assert cut > 0 ==> rest[cut - 1] == Utf8(s)[end - 1];
        CutAtAscii(s[1..], cut);
        assert Utf8(s)[..end] == e + rest[..cut];
        DecodeEncodeChar(s[0], rest[..cut]);
        hide EncodeChar, DecodeChar;
        assert (e + rest[..cut])[|e|..] == rest[..cut];
      }
    }
  }

  /** A character of several bytes has no ASCII byte. */
  lemma MultiByte(c: char, i: nat)
    requires |EncodeChar(c)| > 1 && i < |EncodeChar(c)|
    ensures EncodeChar(c)[i] >= 0x80
  {
  }

  /** Going back from the end over the later bytes of a character stops at an ASCII or a first byte. */
  lemma {:induction false} BeforeContinuation(s: string, i: nat)
    requires i < |Utf8(s)| && Continues(Utf8(s)[i])
    ensures i > 0 && Utf8(s)[i - 1] >= 0x80
  {
    var e, rest := EncodeChar(s[0]), Utf8(s[1..]);
    assert Utf8(s) == e + rest;
    if i < |e| {
      FirstByte(s[0]);
      assert e[i] == Utf8(s)[i];
      MultiByte(s[0], i - 1);
      assert e[i - 1] == Utf8(s)[i - 1];
    } else {
      assert rest[i - |e|] == Utf8(s)[i];
      BeforeContinuation(s[1..], i - |e|);
      assert rest[i - |e| - 1] == Utf8(s)[i - 1];
    }
  }

  lemma FirstByte(c: char)
    ensures !Continues(EncodeChar(c)[0]) && (|EncodeChar(c)| == 1 ==> EncodeChar(c)[0] < 0x80)
  {
  }
}
