/** Hostname labels: sanitizing, and fitting a collision suffix (src/magic.rs). */
module Labels {
  import opened Bytes
  import opened Messages

  predicate IsAlnum(c: char) {
    'a' <= c <= 'z' || '0' <= c <= '9'
  }

  function Lower(c: char): char {
    if 'A' <= c <= 'Z' then c - 'A' + 'a' else c
  }

  /** The Unicode White_Space property. */
  predicate IsWhitespace(c: char) {
    || '\U{9}' <= c <= '\U{D}' || c == ' ' || c == '\U{85}' || c == '\U{A0}' || c == '\U{1680}'
    || '\U{2000}' <= c <= '\U{200A}' || c == '\U{2028}' || c == '\U{2029}' || c == '\U{202F}'
    || c == '\U{205F}' || c == '\U{3000}'
  }

  /** One DNS label of 1 to 32 bytes. */
  predicate ValidLabel(s: string) {
    && 1 <= |s| <= MAX_NAME_LEN
    && (forall i :: 0 <= i < |s| ==> IsAlnum(s[i]) || s[i] == '-')
    && s[0] != '-' && s[|s| - 1] != '-'
  }

  predicate NoDoubleHyphen(s: string) {
    forall i :: 0 <= i < |s| - 1 ==> s[i] != '-' || s[i + 1] != '-'
  }

  /** What sanitizing produces: a valid label without adjacent hyphens. */
  predicate Clean(s: string) {
    ValidLabel(s) && NoDoubleHyphen(s)
  }

  // ---- sanitize_hostname ----

  function UpToDot(raw: string): string {
    if raw == "" || raw[0] == '.' then "" else [raw[0]] + UpToDot(raw[1..])
  }

  /** The first non-empty piece between dots. */
  function FirstPiece(raw: string): string {
    if raw != "" && raw[0] == '.' then FirstPiece(raw[1..]) else UpToDot(raw)
  }

  predicate EndsInHyphen(s: string) {
    s != "" && s[|s| - 1] == '-'
  }

  /** The output after one more character; a full output takes nothing more. */
  function Scan1(out: string, c: char): string {
    if |out| >= MAX_NAME_LEN then out
    else if IsAlnum(Lower(c)) then out + [Lower(c)]
    else if c == '-' || c == '_' || IsWhitespace(c) then
      if out == "" || EndsInHyphen(out) then out else out + "-"
    else out
  }

  function Scan(s: string): string {
    if s == "" then "" else Scan1(Scan(s[..|s| - 1]), s[|s| - 1])
  }

  function TrimEnd(s: string): string {
    if EndsInHyphen(s) then TrimEnd(s[..|s| - 1]) else s
  }

  function Sanitized(raw: string): string {
    var trimmed := TrimEnd(Scan(FirstPiece(raw)));
    if trimmed == "" then "node" else trimmed
  }

  /** Every prefix of an output: label characters, no hyphen first, none doubled. */
  predicate Partial(out: string) {
    && |out| <= MAX_NAME_LEN
    && (forall i :: 0 <= i < |out| ==> IsAlnum(out[i]) || out[i] == '-')
    && (out != "" ==> out[0] != '-')
    && NoDoubleHyphen(out)
  }

  lemma {:induction false} ScanPartial(s: string)
    ensures Partial(Scan(s))
  {
    if s != "" {
      ScanPartial(s[..|s| - 1]);
    }
  }

  lemma {:induction false} TrimEndPartial(s: string)
    requires Partial(s)
    ensures Partial(TrimEnd(s)) && !EndsInHyphen(TrimEnd(s)) && TrimEnd(s) <= s
  {
    if EndsInHyphen(s) {
      TrimEndPartial(s[..|s| - 1]);
    }
  }

  lemma SanitizedClean(raw: string)
    ensures Clean(Sanitized(raw))
  {
    ScanPartial(FirstPiece(raw));
    TrimEndPartial(Scan(FirstPiece(raw)));
  }

  lemma {:induction false} ScanFixed(s: string, k: nat)
    requires Partial(s) && k <= |s|
    ensures Scan(s[..k]) == s[..k]
  {
    if k > 0 {
      ScanFixed(s, k - 1);
      assert s[..k][..k - 1] == s[..k - 1];
      assert IsAlnum(s[k - 1]) || s[k - 1] == '-';
      assert s[..k] == s[..k - 1] + [s[k - 1]];
      assert k > 1 && s[k - 1] == '-' ==> s[k - 2] != '-';
    }
  }

  lemma {:induction false} UpToDotAll(s: string)
    requires forall i :: 0 <= i < |s| ==> s[i] != '.'
    ensures UpToDot(s) == s
  {
    if s != "" {
      UpToDotAll(s[1..]);
    }
  }

  /** A clean label is left as it is, so sanitizing twice is sanitizing once. */
  lemma SanitizedIdempotent(raw: string)
    ensures Clean(raw) ==> Sanitized(raw) == raw
    ensures Sanitized(Sanitized(raw)) == Sanitized(raw)
  {
    SanitizedClean(raw);
    if Clean(raw) {
      CleanFixed(raw);
    }
    CleanFixed(Sanitized(raw));
  }

  lemma CleanFixed(s: string)
    requires Clean(s)
    ensures Sanitized(s) == s
  {
    hide Scan, UpToDot, NoDoubleHyphen;
    assert Partial(s) && forall i :: 0 <= i < |s| ==> s[i] != '.';
    hide Partial;
    UpToDotAll(s);
    ScanFixed(s, |s|);
    assert s[..|s|] == s;
    assert FirstPiece(s) == s && TrimEnd(s) == s;
  }

  /** The loop, with its flag for a hyphen just written. */
  method SanitizeHostname(raw: string) returns (name: string)
    ensures name == Sanitized(raw) && Clean(name)
  {
    SanitizedClean(raw);
    var first := FirstPiece(raw);
    var out := "";
    var prevHyphen := false;
    var i := 0;
    while i < |first| && |out| < MAX_NAME_LEN
      invariant 0 <= i <= |first| && out == Scan(first[..i])
      invariant prevHyphen == EndsInHyphen(out)
    {
      var c := Lower(first[i]);
      assert first[..i + 1][..i] == first[..i];
      i := i + 1;
      if IsAlnum(c) || c == '-' {
        if c == '-' {
          if prevHyphen || out == "" {
            continue;
          }
          prevHyphen := true;
        } else {
          prevHyphen := false;
        }
        out := out + [c];
      } else if c == '_' || IsWhitespace(c) {
        if prevHyphen || out == "" {
          continue;
        }
        out := out + "-";
        prevHyphen := true;
      }
    }
    ScanStuck(first, i);
    name := TrimEnd(out);
    if name == "" {
      name := "node";
    }
  }

  /** Once the output is full the rest of the input does not matter. */
  lemma {:induction false} ScanStuck(s: string, i: nat)
    requires i <= |s| && (i == |s| || |Scan(s[..i])| >= MAX_NAME_LEN)
    ensures Scan(s) == Scan(s[..i])
    decreases |s| - i
  {
    if i < |s| {
      assert s[..i + 1][..i] == s[..i];
      ScanStuck(s, i + 1);
    } else {
      assert s[..i] == s;
    }
  }

  // ---- Collision suffixes ----

  function HexDigit(d: nat): (c: char)
    requires d < 16
    ensures IsAlnum(c)
  {
    "0123456789abcdef"[d]
  }

  function Hex(b: Byte): (s: string)
    ensures |s| == 2 && IsAlnum(s[0]) && IsAlnum(s[1])
  {
    [HexDigit(b / 16), HexDigit(b % 16)]
  }

  /** `collision_suffix`: from the node id, else from the last octet of the address. */
  function Tag(node: Option<NodeId>, ip4: Ip4): (s: string)
    ensures |s| == 2 || |s| == 4
    ensures forall i :: 0 <= i < |s| ==> IsAlnum(s[i])
  {
    if node.Some? then Hex(node.value[0]) + Hex(node.value[1]) else Hex(ip4 % 256)
  }

  function Digit(d: nat): (c: char)
    requires d < 10
    ensures '0' <= c <= '9'
  {
    '0' + d as char
  }

  function Decimal(n: nat): (s: string)
    ensures |s| >= 1 && (n < 10 ==> |s| == 1) && (n < 100 ==> |s| <= 2) && (n < 1000 ==> |s| <= 3)
    ensures forall i :: 0 <= i < |s| ==> IsAlnum(s[i])
  {
    if n < 10 then [Digit(n)] else Decimal(n / 10) + [Digit(n % 10)]
  }

  /** The number a decimal notation stands for. */
  function DecimalValue(s: string): int {
    if s == "" then 0 else DecimalValue(s[..|s| - 1]) * 10 + (s[|s| - 1] as int - '0' as int)
  }

  lemma {:induction false} DecimalRoundTrip(n: nat)
    ensures DecimalValue(Decimal(n)) == n
  {
    var s := Decimal(n);
    if n >= 10 {
      DecimalRoundTrip(n / 10);
      assert s[..|s| - 1] == Decimal(n / 10);
    } else {
      assert s[..|s| - 1] == "";
    }
  }

  lemma DecimalInjective(m: nat, n: nat)
    requires m < 1000 && n < 1000 && Decimal(m) == Decimal(n)
    ensures m == n
  {
    hide Decimal;
    DecimalRoundTrip(m);
    DecimalRoundTrip(n);
  }

  function TrimStart(s: string): string {
    if s != "" && s[0] == '-' then TrimStart(s[1..]) else s
  }

  /** `fit_label`: cut the base so that the suffix fits, without a hyphen before it. */
  function Fit(base: string, extra: string): string {
    var room := if |extra| < MAX_NAME_LEN then MAX_NAME_LEN - |extra| else 0;
    var head := TrimEnd(if |base| <= room then base else base[..room]);
    if head == "" then TrimStart(extra) else head + extra
  }

  function Tagged(wanted: string, tag: string): string {
    Fit(wanted, "-" + tag)
  }

  function Numbered(wanted: string, tag: string, n: nat): string
    requires n < 1000
  {
    Fit(wanted, "-" + tag + "-" + Decimal(n))
  }

  predicate IsTag(tag: string) {
    1 <= |tag| <= 4 && forall i :: 0 <= i < |tag| ==> IsAlnum(tag[i])
  }

  lemma {:induction false} TrimEndShape(s: string)
    ensures TrimEnd(s) <= s && !EndsInHyphen(TrimEnd(s))
  {
    if EndsInHyphen(s) {
      TrimEndShape(s[..|s| - 1]);
    }
  }

  /** A non-empty hyphen-free first character survives trimming. */
  lemma TrimEndKeepsFirst(s: string)
    requires s != "" && s[0] != '-'
    ensures TrimEnd(s) != "" && TrimEnd(s)[0] == s[0]
  {
    TrimEndShape(s);
    if TrimEnd(s) == "" {
      TrimEndCut(s);
    }
  }

  lemma {:induction false} TrimEndCut(s: string)
    ensures forall i :: |TrimEnd(s)| <= i < |s| ==> s[i] == '-'
  {
    if EndsInHyphen(s) {
      TrimEndCut(s[..|s| - 1]);
    }
  }

  /** A suffixed valid label is a valid label that ends in the suffix. */
  lemma FitValid(wanted: string, extra: string)
    requires ValidLabel(wanted) && 2 <= |extra| <= 9 && extra[0] == '-'
    requires forall i :: 0 <= i < |extra| ==> IsAlnum(extra[i]) || extra[i] == '-'
    requires extra[|extra| - 1] != '-'
    ensures ValidLabel(Fit(wanted, extra))
    ensures exists head: string :: Fit(wanted, extra) == head + extra
  {
    var room := MAX_NAME_LEN - |extra|;
    var cut := if |wanted| <= room then wanted else wanted[..room];
    TrimEndShape(cut);
    TrimEndKeepsFirst(cut);
    var head := TrimEnd(cut);
    assert Fit(wanted, extra) == head + extra;
  }

  lemma CandidatesValid(wanted: string, tag: string, n: nat)
    requires ValidLabel(wanted) && IsTag(tag) && n < 1000
    ensures ValidLabel(Tagged(wanted, tag)) && ValidLabel(Numbered(wanted, tag, n))
    ensures exists head: string :: Numbered(wanted, tag, n) == head + "-" + Decimal(n)
  {
    FitValid(wanted, "-" + tag);
    var extra := "-" + tag + "-" + Decimal(n);
    FitValid(wanted, extra);
    var head: string :| Numbered(wanted, tag, n) == head + extra;
    assert Numbered(wanted, tag, n) == (head + "-" + tag) + "-" + Decimal(n);
  }

  lemma LastHyphen(a: string, x: string)
    requires forall i :: 0 <= i < |x| ==> x[i] != '-'
    ensures var s := a + "-" + x;
            s[|a|] == '-' && forall k :: |a| < k < |s| ==> s[k] != '-'
  {
  }

  /** What follows the last hyphen of a text is determined by the text. */
  lemma LastPieceUnique(a: string, x: string, b: string, y: string)
    requires a + "-" + x == b + "-" + y
    requires (forall i :: 0 <= i < |x| ==> x[i] != '-') && (forall i :: 0 <= i < |y| ==> y[i] != '-')
    ensures x == y
  {
    LastHyphen(a, x);
    LastHyphen(b, y);
    assert |a| == |b|;
    assert x == (a + "-" + x)[|a| + 1..] && y == (b + "-" + y)[|a| + 1..];
  }

  lemma NumberedInjective(wanted: string, tag: string, m: nat, n: nat)
    requires ValidLabel(wanted) && IsTag(tag) && m < 1000 && n < 1000
    requires Numbered(wanted, tag, m) == Numbered(wanted, tag, n)
    ensures m == n
  {
    CandidatesValid(wanted, tag, m);
    CandidatesValid(wanted, tag, n);
    var a: string :| Numbered(wanted, tag, m) == a + "-" + Decimal(m);
    var b: string :| Numbered(wanted, tag, n) == b + "-" + Decimal(n);
    LastPieceUnique(a, Decimal(m), b, Decimal(n));
    DecimalInjective(m, n);
  }

  // ---- What the loops amount to ----

  /** A character that separates words. */
  predicate IsSeparator(c: char) {
    c == '-' || c == '_' || IsWhitespace(c)
  }

  /** The lower-cased words of a text: separators end a word, every other character is dropped. */
  function Words(s: string): (ws: seq<string>)
    ensures |ws| >= 1
  {
    if s == "" then [""]
    else
      var ws, c := Words(s[..|s| - 1]), s[|s| - 1];
      if IsAlnum(Lower(c)) then ws[|ws| - 1 := ws[|ws| - 1] + [Lower(c)]]
      else if IsSeparator(c) then ws + [""]
      else ws
  }

  /** The non-empty words with one hyphen between them. */
  function Joined(ws: seq<string>): string {
    if ws == [] then ""
    else
      var r, w := Joined(ws[..|ws| - 1]), ws[|ws| - 1];
      if w == "" then r else if r == "" then w else r + "-" + w
  }

  function Cut(s: string): string {
    if |s| <= MAX_NAME_LEN then s else s[..MAX_NAME_LEN]
  }

  /** The words so far, and a hyphen if a separator has just ended one. */
  function Pending(ws: seq<string>): string
    requires ws != []
  {
    Joined(ws) + if Joined(ws) != "" && ws[|ws| - 1] == "" then "-" else ""
  }

  predicate Wordy(s: string) {
    forall i :: 0 <= i < |s| ==> IsAlnum(s[i])
  }

  lemma {:induction false} WordsAreWordy(s: string)
    ensures forall i :: 0 <= i < |Words(s)| ==> Wordy(Words(s)[i])
  {
    if s != "" {
      WordsAreWordy(s[..|s| - 1]);
    }
  }

  lemma {:induction false} JoinedEndsInLetter(ws: seq<string>)
    requires forall i :: 0 <= i < |ws| ==> Wordy(ws[i])
    ensures !EndsInHyphen(Joined(ws))
  {
    if ws != [] {
      JoinedEndsInLetter(ws[..|ws| - 1]);
      assert Wordy(ws[|ws| - 1]);
    }
  }

  /** One more letter or separator, seen on the words. */
  lemma PendingLetter(ws: seq<string>, c: char)
    requires ws != []
    ensures Pending(ws[|ws| - 1 := ws[|ws| - 1] + [c]]) == Pending(ws) + [c]
  {
    var next := ws[|ws| - 1 := ws[|ws| - 1] + [c]];
    assert next[..|next| - 1] == ws[..|ws| - 1];
    var r, w := Joined(ws[..|ws| - 1]), ws[|ws| - 1];
    assert Joined(next) == if r == "" then w + [c] else r + "-" + (w + [c]);
    assert r + "-" + (w + [c]) == r + "-" + w + [c];
  }

  lemma PendingSeparator(ws: seq<string>)
    requires ws != [] && !EndsInHyphen(Joined(ws))
    ensures Pending(ws + [""])
         == if Pending(ws) == "" || EndsInHyphen(Pending(ws)) then Pending(ws) else Pending(ws) + "-"
  {
    JoinedSkipsEmpty(ws);
    hide Joined;
    assert EndsInHyphen(Joined(ws) + "-");
    assert Joined(ws) + "" == Joined(ws);
  }

  lemma JoinedSkipsEmpty(ws: seq<string>)
    ensures Joined(ws + [""]) == Joined(ws)
  {
    assert (ws + [""])[..|ws|] == ws;
  }

  lemma {:induction false} ScanIsPending(s: string)
    ensures Scan(s) == Cut(Pending(Words(s)))
  {
    hide IsWhitespace, Pending, Lower, Cut, Scan1, IsAlnum;
    if s == "" {
      assert Words(s) == [""];
      NothingPending();
    } else {
      var before, c := s[..|s| - 1], s[|s| - 1];
      ScanIsPending(before);
      WordsAreWordy(before);
      JoinedEndsInLetter(Words(before));
      PendingSeparator(Words(before));
      PendingLetter(Words(before), Lower(c));
      Scan1OfCut(Pending(Words(before)), c);
    }
  }

  /** One step on a text cut to the limit is the cut of the step without a limit. */
  lemma Scan1OfCut(p: string, c: char)
    ensures Scan1(Cut(p), c)
         == Cut(if IsAlnum(Lower(c)) then p + [Lower(c)]
                else if IsSeparator(c) && p != "" && !EndsInHyphen(p) then p + "-"
                else p)
  {
    hide IsWhitespace, Lower;
  }

  lemma NothingPending()
    ensures Pending([""]) == "" && Cut("") == ""
  {
    assert [""][..0] == [];
  }

  /**
   * What sanitizing keeps, for every input: the words of the first piece between dots, lower-cased,
   * joined by single hyphens, cut to 32 characters and not ending in a hyphen; "node" if none are left.
   */
  lemma SanitizedIsWords(raw: string)
    ensures var kept := TrimEnd(Cut(Joined(Words(FirstPiece(raw)))));
            Sanitized(raw) == if kept == "" then "node" else kept
  {
    hide Scan, Words, Joined, Pending, FirstPiece;
    var ws := Words(FirstPiece(raw));
    ScanIsPending(FirstPiece(raw));
    WordsAreWordy(FirstPiece(raw));
    JoinedEndsInLetter(ws);
    TrimPending(ws);
  }

  /** A pending hyphen does not survive. */
  lemma TrimPending(ws: seq<string>)
    requires ws != [] && !EndsInHyphen(Joined(ws))
    ensures TrimEnd(Cut(Pending(ws))) == TrimEnd(Cut(Joined(ws)))
  {
    hide Joined;
    var j := Joined(ws);
    if Pending(ws) != j + "-" {
      assert Pending(ws) == j;
    } else if |j| < MAX_NAME_LEN {
      assert (j + "-")[..|j|] == j;
    } else {
      assert (j + "-")[..MAX_NAME_LEN] == j[..MAX_NAME_LEN];
      assert |j| == MAX_NAME_LEN ==> j[..MAX_NAME_LEN] == j;
    }
  }

  /** Where the first piece lies: after leading dots, up to the next dot or the end. */
  lemma {:induction false} FirstPieceExactly(raw: string) returns (i: nat, j: nat)
    ensures i <= j <= |raw| && raw[i..j] == FirstPiece(raw)
    ensures (forall k :: 0 <= k < i ==> raw[k] == '.') && (forall k :: i <= k < j ==> raw[k] != '.')
    ensures (j < |raw| ==> raw[j] == '.') && (i == j ==> j == |raw|)
  {
    if raw != "" && raw[0] == '.' {
      i, j := FirstPieceExactly(raw[1..]);
      i, j := i + 1, j + 1;
    } else {
      i := 0;
      j := UpToDotExactly(raw);
    }
  }

  lemma {:induction false} UpToDotExactly(raw: string) returns (j: nat)
    ensures j <= |raw| && raw[..j] == UpToDot(raw) && (forall k :: 0 <= k < j ==> raw[k] != '.')
    ensures j < |raw| ==> raw[j] == '.'
  {
    if raw == "" || raw[0] == '.' {
      j := 0;
    } else {
      j := UpToDotExactly(raw[1..]);
      j := j + 1;
    }
  }

  /** A suffixed label keeps the whole label if both fit in 32 characters, else all of it that fits but hyphens. */
  lemma FitKeepsMost(wanted: string, extra: string) returns (head: string)
    requires ValidLabel(wanted) && 2 <= |extra| <= 9
    ensures head <= wanted && Fit(wanted, extra) == head + extra
    ensures |wanted| + |extra| <= 32 ==> head == wanted
    ensures forall i :: |head| <= i < |wanted| && i < 32 - |extra| ==> wanted[i] == '-'
  {
    var room := MAX_NAME_LEN - |extra|;
    var cut := if |wanted| <= room then wanted else wanted[..room];
    TrimEndShape(cut);
    TrimEndKeepsFirst(cut);
    TrimEndCut(cut);
    head := TrimEnd(cut);
  }

  /** The number a lower-case hexadecimal notation stands for. */
  function HexValue(s: string): int {
    if s == "" then 0
    else
      var c := s[|s| - 1];
      HexValue(s[..|s| - 1]) * 16 + if '0' <= c <= '9' then c as int - '0' as int else c as int - 'a' as int + 10
  }

  lemma HexReads(b: Byte)
    ensures HexValue(Hex(b)) == b
  {
    assert Hex(b)[..1][..0] == "";
    HexDigitReads(b / 16);
    HexDigitReads(b % 16);
  }

  lemma HexDigitReads(d: nat)
    requires d < 16
    ensures var c := HexDigit(d);
            d == if '0' <= c <= '9' then c as int - '0' as int else c as int - 'a' as int + 10
  {
  }

  lemma HexAppend(s: string, b: Byte)
    ensures HexValue(s + Hex(b)) == HexValue(s) * 256 + b
  {
    var h := Hex(b);
    assert (s + h)[..|s| + 1] == s + h[..1] && (s + h[..1])[..|s|] == s;
    HexDigitReads(b / 16);
    HexDigitReads(b % 16);
  }

  /** The tag of a known node is the first two bytes of its id, of any other the last octet of its address. */
  lemma TagReads(node: Option<NodeId>, ip4: Ip4)
    ensures node.Some? ==> |Tag(node, ip4)| == 4 && HexValue(Tag(node, ip4)) == node.value[0] as int * 256 + node.value[1]
    ensures node.None? ==> |Tag(node, ip4)| == 2 && HexValue(Tag(node, ip4)) == ip4 % 256
  {
    hide HexValue, Hex;
    if node.Some? {
      HexReads(node.value[0]);
      HexAppend(Hex(node.value[0]), node.value[1]);
    } else {
      HexReads(ip4 % 256);
    }
  }
}
