/** Wrap-around probing of an inclusive address range, and counting over finite maps and ranges. */
module Ring {
  import opened Bytes

  function Span(start: U32, end: U32): nat {
    if end < start then 0 else end - start + 1
  }

  predicate InRange(start: U32, end: U32, ip: Ip4) {
    start <= ip <= end
  }

  /** The candidate after `cand`, as both allocators compute it. */
  function Advance(start: U32, end: U32, cand: U32): U32
    requires start <= cand <= end
  {
    if cand >= end then start else cand + 1
  }

  /** The candidate reached after `i` moves, without wrapping twice. */
  function At(start: U32, end: U32, cand: U32, i: nat): U32
    requires start <= cand <= end && i <= Span(start, end)
  {
    if cand + i <= end then cand + i else cand + i - Span(start, end)
  }

  lemma AdvanceIsAt(start: U32, end: U32, cand: U32, i: nat)
    requires start <= cand <= end && i < Span(start, end)
    ensures Advance(start, end, At(start, end, cand, i)) == At(start, end, cand, i + 1)
    ensures At(start, end, cand, 0) == cand == At(start, end, cand, Span(start, end))
  {
  }

  /** `Span` moves visit every address of the range exactly once. */
  lemma ProbeVisitsEachOnce(start: U32, end: U32, cand: U32, ip: Ip4)
    requires start <= cand <= end && InRange(start, end, ip)
    ensures exists i :: 0 <= i < Span(start, end) && At(start, end, cand, i) == ip
    ensures forall i, j | 0 <= i < Span(start, end) && 0 <= j < Span(start, end) ::
              At(start, end, cand, i) == At(start, end, cand, j) ==> i == j
  {
    var i := if ip >= cand then ip - cand else ip - cand + Span(start, end);
    assert At(start, end, cand, i) == ip;
  }

  /** The first of the `n` candidates from `At(cand, i)` on that `ok` accepts. */
  function FirstFrom(start: U32, end: U32, cand: U32, i: nat, ok: Ip4 -> bool): Option<Ip4>
    requires start <= cand <= end && i <= Span(start, end)
    decreases Span(start, end) - i
  {
    if i == Span(start, end) then None
    else if ok(At(start, end, cand, i)) then Some(At(start, end, cand, i))
    else FirstFrom(start, end, cand, i + 1, ok)
  }

  lemma {:induction false} FirstFromExact(start: U32, end: U32, cand: U32, i: nat, ok: Ip4 -> bool)
    requires start <= cand <= end && i <= Span(start, end)
    ensures match FirstFrom(start, end, cand, i, ok)
            case None => forall k :: i <= k < Span(start, end) ==> !ok(At(start, end, cand, k))
            case Some(ip) => exists k :: i <= k < Span(start, end) && ip == At(start, end, cand, k) && ok(ip)
                               && forall j :: i <= j < k ==> !ok(At(start, end, cand, j))
    decreases Span(start, end) - i
  {
    if i < Span(start, end) && !ok(At(start, end, cand, i)) {
      FirstFromExact(start, end, cand, i + 1, ok);
    }
  }

  /** `ip` is `k` moves on from `cand` and acceptable, and nothing before it is. */
  ghost predicate FoundAt(start: U32, end: U32, cand: U32, ok: Ip4 -> bool, ip: Ip4, k: nat)
    requires start <= cand <= end
  {
    && k < Span(start, end) && ip == At(start, end, cand, k) && ok(ip)
    && forall j :: 0 <= j < k ==> !ok(At(start, end, cand, j))
  }

  lemma FirstIsFirst(start: U32, end: U32, cand: U32, ok: Ip4 -> bool) returns (k: nat)
    requires start <= cand <= end && FirstFrom(start, end, cand, 0, ok).Some?
    ensures FoundAt(start, end, cand, ok, FirstFrom(start, end, cand, 0, ok).value, k)
  {
    FirstFromExact(start, end, cand, 0, ok);
    var ip := FirstFrom(start, end, cand, 0, ok).value;
    k :| 0 <= k < Span(start, end) && ip == At(start, end, cand, k) && ok(ip)
      && forall j :: 0 <= j < k ==> !ok(At(start, end, cand, j));
  }

  /** Over the whole range the probe fails exactly when no address is acceptable. */
  lemma ProbeComplete(start: U32, end: U32, cand: U32, ok: Ip4 -> bool)
    requires start <= cand <= end
    ensures FirstFrom(start, end, cand, 0, ok).None? <==> forall ip: Ip4 :: InRange(start, end, ip) ==> !ok(ip)
    ensures FirstFrom(start, end, cand, 0, ok).Some? ==>
              var ip := FirstFrom(start, end, cand, 0, ok).value; InRange(start, end, ip) && ok(ip)
  {
    FirstFromExact(start, end, cand, 0, ok);
    if FirstFrom(start, end, cand, 0, ok).None? {
      forall ip: Ip4 | InRange(start, end, ip) ensures !ok(ip) {
        ProbeVisitsEachOnce(start, end, cand, ip);
      }
    }
  }

  function AddrRange(start: U32, end: U32): set<Ip4> {
    set ip: Ip4 | start <= ip <= end && InRange(start, end, ip)
  }

  lemma {:induction false} AddrRangeSize(start: U32, end: U32)
    ensures |AddrRange(start, end)| == Span(start, end)
    decreases end
  {
    if end < start {
      assert AddrRange(start, end) == {};
    } else if end == 0 {
      assert AddrRange(start, end) == {0};
    } else {
      AddrRangeSize(start, end - 1);
      assert AddrRange(start, end) == AddrRange(start, end - 1) + {end};
    }
  }

  /** Two maps that are inverse to each other have the same size. */
  ghost predicate Inverse<A, B>(f: map<A, B>, g: map<B, A>) {
    && (forall a :: a in f ==> f[a] in g && g[f[a]] == a)
    && (forall b :: b in g ==> g[b] in f && f[g[b]] == b)
  }

  lemma {:induction false} InverseSameSize<A, B>(f: map<A, B>, g: map<B, A>)
    requires Inverse(f, g)
    ensures |f| == |g|
    decreases |f|
  {
    if f != map[] {
      var a :| a in f;
      var f', g' := f - {a}, g - {f[a]};
      assert |f'| == |f| - 1 && |g'| == |g| - 1;
      InverseSameSize(f', g');
    } else if b :| b in g {
      assert false;
    }
  }

  lemma SubsetSize<T>(a: set<T>, b: set<T>)
    requires a <= b
    ensures |a| <= |b|
    ensures |a| == |b| <==> a == b
  {
    assert b == a + (b - a);
    if |a| == |b| {
      assert |b - a| == 0;
    }
  }

  /** `r` lists every element of `s` once, in some order: what collecting a hash table gives. */
  ghost predicate Lists<T>(r: seq<T>, s: set<T>) {
    && |r| == |s|
    && (forall x :: x in r ==> x in s) && (forall x :: x in s ==> x in r)
    && (forall i, j :: 0 <= i < j < |r| ==> r[i] != r[j])
  }

  ghost function Elems<T>(r: seq<T>): set<T> {
    set x | x in r
  }

  lemma ElemsGrow<T>(r: seq<T>, k: nat)
    requires k < |r|
    ensures Elems(r[..k + 1]) == Elems(r[..k]) + {r[k]}
  {
    assert r[..k + 1] == r[..k] + [r[k]];
  }

  /** A repetition-free sequence with the elements of `s` lists `s`. */
  lemma {:induction false} DistinctLists<T>(r: seq<T>, s: set<T>)
    requires forall x :: x in r ==> x in s
    requires forall x :: x in s ==> x in r
    requires forall i, j :: 0 <= i < j < |r| ==> r[i] != r[j]
    ensures Lists(r, s)
    decreases |r|
  {
    if r == [] {
      assert s == {};
    } else {
      var last, rest := r[|r| - 1], r[..|r| - 1];
      forall x | x in s - {last} ensures x in rest {
        var i :| 0 <= i < |r| && r[i] == x;
      }
      DistinctLists(rest, s - {last});
      assert s == (s - {last}) + {last};
    }
  }

  lemma ListsGrow<T>(r: seq<T>, s: set<T>, x: T)
    requires Lists(r, s) && x !in s
    ensures Lists(r + [x], s + {x})
  {
  }

  method Collect<T(==)>(s: set<T>) returns (r: seq<T>)
    ensures Lists(r, s)
  {
    var todo := s;
    r := [];
    assert s - todo == {};
    while todo != {}
      invariant todo <= s && Lists(r, s - todo)
      decreases |todo|
    {
      var x :| x in todo;
      ListsGrow(r, s - todo, x);
      assert s - (todo - {x}) == s - todo + {x};
      todo := todo - {x};
      r := r + [x];
    }
    assert s - todo == s;
  }
}
