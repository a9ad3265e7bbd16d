/** The merged China route table (src/policy/chnroute.rs). */
module ChnRoute {
  import opened Bytes
  import opened Prefix

  /** An inclusive range of IPv4 addresses. */
  datatype Range = Range(lo: U32, hi: U32)

  predicate Has(r: Range, v: U32) {
    r.lo <= v <= r.hi
  }

  predicate Upright(ranges: seq<Range>) {
    forall r :: r in ranges ==> r.lo <= r.hi
  }

  /** Some range of the list holds `v`. */
  predicate Covers(ranges: seq<Range>, v: U32) {
    exists r :: r in ranges && Has(r, v)
  }

  /** In order, with at least one address between neighbours. */
  predicate Apart(ranges: seq<Range>) {
    && Upright(ranges)
    && forall i, j :: 0 <= i < j < |ranges| ==> ranges[i].hi + 1 < ranges[j].lo
  }

  /** The same, but for reversed ranges, which hold nothing: only their starts are in order. */
  predicate Spread(ranges: seq<Range>) {
    forall i, j :: 0 <= i < j < |ranges| ==>
      ranges[i].lo <= ranges[j].lo && (ranges[i].lo <= ranges[i].hi ==> ranges[i].hi + 1 < ranges[j].lo)
  }

  /** A reversed range starts at `v`. */
  predicate Stub(ranges: seq<Range>, v: U32) {
    exists r :: r in ranges && r.hi < r.lo && r.lo == v
  }

  /** The address before `v` is covered. */
  predicate CoversBefore(ranges: seq<Range>, v: U32) {
    v > 0 && Covers(ranges, v - 1)
  }

  /** What a lookup finds: what is covered, and the start of a reversed range unless the address before it is covered. */
  predicate Found(ranges: seq<Range>, v: U32) {
    Covers(ranges, v) || (Stub(ranges, v) && !CoversBefore(ranges, v))
  }

  // ---- The CIDR line ----

  /** The range of `base/len`, when the length is at most 32. */
  function CidrRange(base: U32, len: nat): (r: Option<Range>)
    ensures r.Some? ==> r.value.lo <= r.value.hi
  {
    if len > W4 then None
    else
      Pow2Values();
      BaseFits(base, W4 - len, W4);
      Some(Range(Base(base, W4 - len), Base(base, W4 - len) + Pow2(W4 - len) - 1))
  }

  /** A line gives a range exactly for lengths up to 32, of exactly the addresses that agree with it under the mask. */
  lemma CidrExact(base: U32, len: nat, v: U32)
    ensures CidrRange(base, len).Some? <==> len <= 32
    ensures len <= 32 ==> (Has(CidrRange(base, len).value, v) <==> Base(v, 32 - len) == Base(base, 32 - len))
  {
    if len <= 32 {
      BaseExact(base, v, W4 - len);
    }
  }

  // ---- Sorting ----

  predicate Leq(a: Range, b: Range) {
    a.lo < b.lo || (a.lo == b.lo && a.hi <= b.hi)
  }

  predicate Sorted(s: seq<Range>) {
    forall i, j :: 0 <= i < j < |s| ==> Leq(s[i], s[j])
  }

  /** The ranges in lexicographic order. */
  function Sort(s: seq<Range>): (r: seq<Range>)
    ensures multiset(r) == multiset(s)
  {
    if s == [] then []
    else
      assert s == [s[0]] + s[1..];
      Insert(s[0], Sort(s[1..]))
  }

  function Insert(a: Range, s: seq<Range>): (r: seq<Range>)
    ensures multiset(r) == multiset(s) + multiset{a}
  {
    if s == [] || Leq(a, s[0]) then [a] + s
    else
      assert s == [s[0]] + s[1..];
      [s[0]] + Insert(a, s[1..])
  }

  lemma {:induction false} InsertSorted(a: Range, s: seq<Range>)
    requires Sorted(s)
    ensures Sorted(Insert(a, s))
  {
    if s != [] && !Leq(a, s[0]) {
      var rest := Insert(a, s[1..]);
      InsertSorted(a, s[1..]);
      forall i | 0 <= i < |rest| ensures Leq(s[0], rest[i]) {
        assert rest[i] in multiset(rest);
        assert rest[i] == a || rest[i] in s[1..];
      }
    }
  }

  lemma {:induction false} SortSorted(s: seq<Range>)
    ensures Sorted(Sort(s))
  {
    if s != [] {
      SortSorted(s[1..]);
      InsertSorted(s[0], Sort(s[1..]));
    }
  }

  // ---- Merging ----

  method Merge(ranges: seq<Range>) returns (out: seq<Range>)
    ensures Upright(ranges) ==> Apart(out)
    ensures Spread(out)
    ensures forall v: U32 :: Covers(out, v) <==> Covers(ranges, v)
    ensures forall v: U32 :: Covers(out, v) || Stub(out, v) <==> Found(ranges, v)
  {
    hide Covers, Stub, Sort, Has, Found, CoversBefore, Holds;
    var sorted := Sort(ranges);
    SortSorted(ranges);
    SameElements(sorted, ranges);
    out := [];
    assert sorted[..0] == [];
    NothingHeld();
    for i := 0 to |sorted|
      invariant Upright(ranges) ==> Upright(out)
      invariant Holds(sorted[..i], out, if i == 0 then 0 else sorted[i - 1].lo)
    {
      var r := sorted[i];
      assert i > 0 ==> Leq(sorted[i - 1], r);
      assert sorted[..i + 1] == sorted[..i] + [r];
      HoldsLater(sorted[..i], out, if i == 0 then 0 else sorted[i - 1].lo, r.lo);
      assert Upright(ranges) ==> r.lo <= r.hi by {
        assert r in sorted;
      }
      if out != [] {
        var last := out[|out| - 1];
        if r.lo <= last.hi || (last.hi != 0xFFFF_FFFF && r.lo == last.hi + 1) {
          if r.hi > last.hi {
            MergeWiden(sorted[..i], out, r);
            out := out[|out| - 1 := last.(hi := r.hi)];
          } else {
            MergeDrop(sorted[..i], out, r);
          }
          continue;
        }
      }
      MergePush(sorted[..i], out, r);
      out := out + [r];
    }
    assert sorted[..|sorted|] == sorted;
    HeldIsMerged(sorted, out, if sorted == [] then 0 else sorted[|sorted| - 1].lo);
  }

  /** The merged list so far holds and finds what the ranges so far do; all of them start at or before `lo`. */
  ghost predicate Holds(ranges: seq<Range>, out: seq<Range>, lo: U32) {
    && Spread(out)
    && (out != [] ==> out[|out| - 1].lo <= lo)
    && (forall r :: r in ranges ==> r.lo <= lo)
    && (forall v: U32 :: Covers(out, v) <==> Covers(ranges, v))
    && (forall v: U32 :: Covers(out, v) || Stub(out, v) <==> Found(ranges, v))
  }

  lemma NothingHeld()
    ensures Holds([], [], 0)
  {
  }

  lemma HoldsLater(ranges: seq<Range>, out: seq<Range>, lo: U32, later: U32)
    requires Holds(ranges, out, lo) && lo <= later
    ensures Holds(ranges, out, later)
  {
    hide Covers, Stub, Found;
  }

  lemma HeldIsMerged(ranges: seq<Range>, out: seq<Range>, lo: U32)
    requires Holds(ranges, out, lo)
    ensures Spread(out) && (Upright(out) ==> Apart(out))
    ensures forall v: U32 :: Covers(out, v) <==> Covers(ranges, v)
    ensures forall v: U32 :: Covers(out, v) || Stub(out, v) <==> Found(ranges, v)
  {
    hide Covers, Stub, Found;
  }

  /** One more range, for coverage and for starts. */
  lemma FoundGrow(ranges: seq<Range>, r: Range)
    requires forall x :: x in ranges ==> x.lo <= r.lo
    ensures forall v: U32 :: Covers(ranges + [r], v) <==> Covers(ranges, v) || Has(r, v)
    ensures forall v: U32 :: Stub(ranges + [r], v) <==> Stub(ranges, v) || (r.hi < r.lo && v == r.lo)
    ensures forall v: U32 :: Found(ranges + [r], v) <==>
              Found(ranges, v) || Has(r, v) || (r.hi < r.lo && v == r.lo && !CoversBefore(ranges, v))
  {
    CoversGrow(ranges, r);
    assert forall x :: x in ranges + [r] <==> x in ranges || x == r;
    forall v: U32 | Stub(ranges + [r], v) ensures CoversBefore(ranges + [r], v) <==> CoversBefore(ranges, v) {
      assert v > 0 ==> !Has(r, v - 1);
    }
  }

  /** Coverage and starts, when the last range of `out` becomes `wide`. */
  lemma LastReplaced(out: seq<Range>, wide: Range)
    requires out != []
    ensures var last, front := out[|out| - 1], out[..|out| - 1];
            && out == front + [last] && out[|out| - 1 := wide] == front + [wide]
            && (forall v: U32 :: Covers(out, v) <==> Covers(front, v) || Has(last, v))
            && (forall v: U32 :: Covers(front + [wide], v) <==> Covers(front, v) || Has(wide, v))
            && (forall v: U32 :: Stub(out, v) <==> Stub(front, v) || (last.hi < last.lo && v == last.lo))
            && (forall v: U32 :: Stub(front + [wide], v) <==> Stub(front, v) || (wide.hi < wide.lo && v == wide.lo))
  {
    var last, front := out[|out| - 1], out[..|out| - 1];
    assert out == front + [last] && out[|out| - 1 := wide] == front + [wide];
    CoversGrow(front, last);
    CoversGrow(front, wide);
    assert forall x :: x in front + [last] <==> x in front || x == last;
    assert forall x :: x in front + [wide] <==> x in front || x == wide;
  }

  /** A range that overlaps or follows the last one and ends later widens it. */
  lemma MergeWiden(ranges: seq<Range>, out: seq<Range>, r: Range)
    requires Holds(ranges, out, r.lo) && out != []
    requires r.lo <= out[|out| - 1].hi + 1 && out[|out| - 1].hi < r.hi
    ensures Holds(ranges + [r], out[|out| - 1 := out[|out| - 1].(hi := r.hi)], r.lo)
  {
    hide Covers, Stub, Found, CoversBefore;
    var last := out[|out| - 1];
    LastReplaced(out, last.(hi := r.hi));
    FoundGrow(ranges, r);
    assert r.lo <= r.hi;
  }

  /** One that does not end later is dropped. */
  lemma MergeDrop(ranges: seq<Range>, out: seq<Range>, r: Range)
    requires Holds(ranges, out, r.lo) && out != []
    requires r.lo <= out[|out| - 1].hi + 1 && r.hi <= out[|out| - 1].hi
    ensures Holds(ranges + [r], out, r.lo)
  {
    hide Covers, Stub, Found;
    FoundGrow(ranges, r);
    var last := out[|out| - 1];
    LastReplaced(out, last);
    forall v: U32 | Has(r, v) ensures Covers(out, v) {
      assert Has(last, v);
    }
    assert last.lo <= last.hi ==> Has(last, last.hi) && Covers(ranges, last.hi);
    assert last.hi >= r.lo ==> Has(last, r.lo);
    assert r.hi < r.lo && !CoversBefore(ranges, r.lo) ==> Covers(out, r.lo) || Stub(out, r.lo);
  }

  /** Any other is added behind. */
  lemma MergePush(ranges: seq<Range>, out: seq<Range>, r: Range)
    requires Holds(ranges, out, r.lo)
    requires out != [] ==> r.lo > out[|out| - 1].hi + 1
    ensures Holds(ranges + [r], out + [r], r.lo)
  {
    hide Covers, Stub, Found;
    FoundGrow(ranges, r);
    FoundGrow(out, r);
    if out != [] {
      NotBefore(out, r.lo);
    } else {
      assert !CoversBefore(out, r.lo) by {
        assert forall v: U32 :: !Covers([], v) by {
          NothingCovered();
        }
      }
    }
  }

  lemma NothingCovered()
    ensures forall v: U32 :: !Covers([], v)
  {
  }

  lemma NotBefore(out: seq<Range>, lo: U32)
    requires Spread(out) && out != [] && out[|out| - 1].lo <= lo && out[|out| - 1].hi + 1 < lo
    ensures !CoversBefore(out, lo)
  {
    forall i | 0 <= i < |out| ensures !Has(out[i], lo - 1) {
      if i < |out| - 1 && out[i].lo <= out[i].hi {
        assert out[i].hi + 1 < out[|out| - 1].lo;
      }
    }
  }

  lemma SameElements(a: seq<Range>, b: seq<Range>)
    requires multiset(a) == multiset(b)
    ensures forall v: U32 :: Covers(a, v) <==> Covers(b, v)
    ensures forall v: U32 :: Found(a, v) <==> Found(b, v)
    ensures Upright(b) ==> Upright(a)
  {
    assert forall r :: r in a <==> r in multiset(a);
    assert forall r :: r in b <==> r in multiset(b);
  }

  lemma CoversGrow(s: seq<Range>, r: Range)
    ensures forall v: U32 :: Covers(s + [r], v) <==> Covers(s, v) || Has(r, v)
  {
    assert forall x :: x in s + [r] <==> x in s || x == r;
  }

  // ---- Lookup ----

  /** Binary search for the last range starting at or before `v`: an exact start, or a look at its end. */
  method Contains(ranges: seq<Range>, v: U32) returns (r: bool)
    requires Spread(ranges)
    ensures r <==> Covers(ranges, v) || Stub(ranges, v)
  {
    var from, to := 0, |ranges|;
    while from < to
      invariant 0 <= from <= to <= |ranges|
      invariant forall i :: 0 <= i < from ==> ranges[i].lo <= v
      invariant forall i :: to <= i < |ranges| ==> v < ranges[i].lo
    {
      var mid := (from + to) / 2;
      if ranges[mid].lo <= v {
        from := mid + 1;
      } else {
        to := mid;
      }
    }
    if from > 0 && ranges[from - 1].lo == v {
      assert ranges[from - 1] in ranges;
      assert ranges[from - 1].lo <= ranges[from - 1].hi ==> Has(ranges[from - 1], v);
      r := true;
    } else if from == 0 {
      r := false;
    } else {
      r := v <= ranges[from - 1].hi;
      OnlyLast(ranges, v, from);
    }
  }

  /** Between two starts only the last range started can hold an address, and no range starts there. */
  lemma OnlyLast(ranges: seq<Range>, v: U32, n: nat)
    requires Spread(ranges) && 0 < n <= |ranges| && ranges[n - 1].lo < v
    requires forall i :: n <= i < |ranges| ==> v < ranges[i].lo
    ensures !Stub(ranges, v) && (Covers(ranges, v) <==> v <= ranges[n - 1].hi)
  {
    forall i | 0 <= i < |ranges| ensures ranges[i].lo != v && (i != n - 1 ==> !Has(ranges[i], v)) {
      if i < n - 1 {
        assert ranges[i].lo <= ranges[n - 1].lo;
      }
    }
    if v <= ranges[n - 1].hi {
      assert ranges[n - 1] in ranges && Has(ranges[n - 1], v);
    }
  }

  /** Lookup is coverage for every address exactly when each reversed range starts at or just after a covered address. */
  lemma FoundIsCoveredExactly(ranges: seq<Range>)
    ensures (forall v: U32 :: Found(ranges, v) <==> Covers(ranges, v))
       <==> (forall r :: r in ranges && r.hi < r.lo ==> Covers(ranges, r.lo) || CoversBefore(ranges, r.lo))
  {
    hide Covers, CoversBefore;
    if r :| r in ranges && r.hi < r.lo && !Covers(ranges, r.lo) && !CoversBefore(ranges, r.lo) {
      assert Stub(ranges, r.lo);
      assert Found(ranges, r.lo);
    }
  }

  /** So always when no range is reversed; a lone reversed range is found at its start. */
  lemma FoundWhenUpright(ranges: seq<Range>, v: U32)
    ensures Upright(ranges) ==> (Found(ranges, v) <==> Covers(ranges, v))
    ensures Found([Range(5, 3)], 5) && !Covers([Range(5, 3)], 5)
  {
    assert Range(5, 3) in [Range(5, 3)];
    assert Stub([Range(5, 3)], 5);
  }

  // ---- The merged form is unique ----

  lemma FirstIsLeast(s: seq<Range>, v: U32)
    requires Apart(s) && Covers(s, v)
    ensures s != [] && s[0].lo <= v
    ensures v <= s[0].hi || (|s| > 1 && s[1].lo <= v)
    ensures v <= s[0].hi || s[0].hi + 1 < v
  {
    var r :| r in s && Has(r, v);
    var i :| 0 <= i < |s| && s[i] == r;
    assert s[0].lo <= s[0].hi;
    if i > 0 {
      assert s[0].hi + 1 < s[i].lo;
      assert i > 1 ==> s[1].hi + 1 < s[i].lo;
      assert s[1].lo <= s[1].hi;
    }
  }

  lemma SameFirst(a: seq<Range>, b: seq<Range>)
    requires Apart(a) && Apart(b) && a != [] && b != []
    requires forall v: U32 :: Covers(a, v) <==> Covers(b, v)
    ensures a[0].lo == b[0].lo && a[0].hi <= b[0].hi
  {
    assert Has(a[0], a[0].lo) && Has(b[0], b[0].lo);
    assert Covers(a, a[0].lo) && Covers(b, b[0].lo);
    FirstIsLeast(b, a[0].lo);
    FirstIsLeast(a, b[0].lo);
    if a[0].hi > b[0].hi {
      var v := b[0].hi + 1;
      assert Has(a[0], v);
      assert Covers(a, v);
      FirstIsLeast(b, v);
    }
  }

  lemma RestCovers(s: seq<Range>, v: U32)
    requires Apart(s) && s != []
    ensures Covers(s[1..], v) <==> Covers(s, v) && v > s[0].hi
  {
    if Covers(s[1..], v) {
      var r :| r in s[1..] && Has(r, v);
      var i :| 0 <= i < |s[1..]| && s[1..][i] == r;
      assert s[0].hi + 1 < s[i + 1].lo;
      assert r in s;
    }
    if Covers(s, v) && v > s[0].hi {
      var r :| r in s && Has(r, v);
      assert r in s[1..];
    }
  }

  lemma StartsCovered(s: seq<Range>)
    requires Apart(s)
    ensures s == [] ==> forall v: U32 :: !Covers(s, v)
    ensures s != [] ==> Covers(s, s[0].lo)
  {
    assert s != [] ==> Has(s[0], s[0].lo);
  }

  lemma RestApart(s: seq<Range>)
    requires Apart(s) && s != []
    ensures Apart(s[1..])
  {
    var rest := s[1..];
    assert forall i :: 0 <= i < |rest| ==> rest[i] == s[i + 1];
  }

  /** Two lists of ranges kept apart that cover the same addresses are the same list. */
  lemma {:induction false} MergedFormUnique(a: seq<Range>, b: seq<Range>)
    requires Apart(a) && Apart(b)
    requires forall v: U32 :: Covers(a, v) <==> Covers(b, v)
    ensures a == b
  {
    hide Covers, Apart;
    if a != [] || b != [] {
      StartsCovered(a);
      StartsCovered(b);
      SameFirst(a, b);
      SameFirst(b, a);
      forall v: U32 ensures Covers(a[1..], v) <==> Covers(b[1..], v) {
        RestCovers(a, v);
        RestCovers(b, v);
      }
      RestApart(a);
      RestApart(b);
      MergedFormUnique(a[1..], b[1..]);
      assert a == [a[0]] + a[1..] && b == [b[0]] + b[1..];
    }
  }
}
