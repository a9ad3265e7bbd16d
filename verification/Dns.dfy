/** DNS names on the wire: the budgeted reader and the skipper (src/policy/dns.rs). */
module Dns {
  import opened Bytes
  import opened Ring

  type Name = seq<Byte>

  /** What stands at one position of a name. */
  datatype Hop = Root | Label(next: nat, text: Name) | Jump(next: nat) | Malformed

  function HopAt(msg: seq<Byte>, pos: nat): (h: Hop)
    ensures h.Label? || h.Jump? ==> h.next <= |msg|
    ensures h.Label? ==> h.next > pos
  {
    if pos >= |msg| then Malformed
    else
      var len := msg[pos];
      if len == 0 then Root
      else if len < 64 then
        if pos + 1 + len > |msg| then Malformed else Label(pos + 1 + len, msg[pos + 1..pos + 1 + len])
      else if len >= 192 then
        if pos + 1 >= |msg| then Malformed
        else
          var ptr := (len - 192) as int * 256 + msg[pos + 1];
          if ptr >= |msg| then Malformed else Jump(ptr)
      else Malformed
  }

  /** The unbounded walk from `pos` meets the root label as its `n`-th hop. */
  predicate Reaches(msg: seq<Byte>, pos: nat, n: nat)
    decreases n
  {
    n > 0
    && match HopAt(msg, pos)
       case Root => n == 1
       case Label(next, _) => Reaches(msg, next, n - 1)
       case Jump(next) => Reaches(msg, next, n - 1)
       case Malformed => false
  }

  function LowerByte(b: Byte): Byte {
    if 65 <= b <= 90 then b + 32 else b
  }

  function LowerAll(s: Name): (r: Name)
    ensures |r| == |s| && forall i :: 0 <= i < |s| ==> r[i] == LowerByte(s[i])
  {
    seq(|s|, i requires 0 <= i < |s| => LowerByte(s[i]))
  }

  function LowerEach(labels: seq<Name>): (r: seq<Name>)
    ensures |r| == |labels|
  {
    if labels == [] then [] else [LowerAll(labels[0])] + LowerEach(labels[1..])
  }

  /** The labels met and the offset after the name, within `budget` hops. */
  function Read(msg: seq<Byte>, pos: nat, budget: nat): Option<(seq<Name>, nat)>
    decreases budget
  {
    if budget == 0 then None
    else match HopAt(msg, pos)
         case Malformed => None
         case Root => Some(([], pos + 1))
         case Jump(next) =>
           (match Read(msg, next, budget - 1)
            case None => None
            case Some(r) => Some((r.0, pos + 2)))
         case Label(next, text) =>
           match Read(msg, next, budget - 1)
           case None => None
           case Some(r) => Some(([LowerAll(text)] + r.0, r.1))
  }

  function Join(labels: seq<Name>): Name {
    if labels == [] then []
    else if |labels| == 1 then labels[0]
    else labels[0] + [46] + Join(labels[1..])
  }

  /** `read_name`: as many hops as the message has bytes. */
  function NameAt(msg: seq<Byte>, start: nat): Option<(Name, nat)> {
    match Read(msg, start, |msg|)
    case None => None
    case Some(r) => Some((Join(r.0), r.1))
  }

  function SkipName(msg: seq<Byte>, pos: nat): Option<nat>
    decreases |msg| - pos
  {
    if pos >= |msg| then None
    else if msg[pos] == 0 then Some(pos + 1)
    else if msg[pos] < 64 then SkipName(msg, pos + 1 + msg[pos])
    else if msg[pos] >= 192 then if pos + 1 < |msg| then Some(pos + 2) else None
    else None
  }

  // ---- The budget is exact ----

  lemma {:induction false} ReachesOnce(msg: seq<Byte>, pos: nat, m: nat, n: nat)
    requires Reaches(msg, pos, m) && Reaches(msg, pos, n)
    ensures m == n
    decreases m
  {
    var h := HopAt(msg, pos);
    if h.Label? || h.Jump? {
      ReachesOnce(msg, h.next, m - 1, n - 1);
    }
  }

  /** The positions a walk that reaches the root visits. */
  ghost function Visited(msg: seq<Byte>, pos: nat, n: nat): set<int>
    requires Reaches(msg, pos, n)
    decreases n
  {
    {pos} + if n == 1 then {} else Visited(msg, HopAt(msg, pos).next, n - 1)
  }

  lemma {:induction false} VisitedReach(msg: seq<Byte>, pos: nat, n: nat, q: int)
    requires Reaches(msg, pos, n) && q in Visited(msg, pos, n)
    ensures 0 <= q < |msg| && exists k :: 1 <= k <= n && Reaches(msg, q, k)
    decreases n
  {
    if q != pos {
      VisitedReach(msg, HopAt(msg, pos).next, n - 1, q);
    }
  }

  /** No position is visited twice, or the walk would never end. */
  lemma {:induction false} VisitedDistinct(msg: seq<Byte>, pos: nat, n: nat)
    requires Reaches(msg, pos, n)
    ensures |Visited(msg, pos, n)| == n
    decreases n
  {
    if n > 1 {
      var next := HopAt(msg, pos).next;
      VisitedDistinct(msg, next, n - 1);
      if pos in Visited(msg, next, n - 1) {
        VisitedReach(msg, next, n - 1, pos);
        var k :| 1 <= k <= n - 1 && Reaches(msg, pos, k);
        ReachesOnce(msg, pos, k, n);
      }
    }
  }

  /** The positions of a message of `n` bytes. */
  ghost function Below(n: nat): (b: set<int>)
    ensures forall i :: i in b <==> 0 <= i < n
    ensures |b| == n
  {
    if n == 0 then {} else Below(n - 1) + {n - 1}
  }

  /** Pigeonhole: a walk that reaches the root does so within as many hops as there are bytes. */
  lemma WalkIsShort(msg: seq<Byte>, pos: nat, n: nat)
    requires Reaches(msg, pos, n)
    ensures n <= |msg|
  {
    VisitedDistinct(msg, pos, n);
    forall q | q in Visited(msg, pos, n) ensures q in Below(|msg|) {
      VisitedReach(msg, pos, n, q);
    }
    SubsetSize(Visited(msg, pos, n), Below(|msg|));
  }

  lemma {:induction false} ReadIsReach(msg: seq<Byte>, pos: nat, budget: nat) returns (n: nat)
    requires Read(msg, pos, budget).Some?
    ensures Reaches(msg, pos, n)
    decreases budget
  {
    var h := HopAt(msg, pos);
    n := 1;
    if h.Label? || h.Jump? {
      n := ReadIsReach(msg, h.next, budget - 1);
      n := n + 1;
    }
  }

  /** The unbounded walk from `start` reaches a root label. */
  ghost predicate Ends(msg: seq<Byte>, start: nat) {
    exists n: nat :: Reaches(msg, start, n)
  }

  /** The labels on the walk, as they stand in the message. */
  ghost function Spelled(msg: seq<Byte>, pos: nat, n: nat): seq<Name>
    requires Reaches(msg, pos, n)
    decreases n
  {
    match HopAt(msg, pos)
    case Label(next, text) => [text] + Spelled(msg, next, n - 1)
    case Jump(next) => Spelled(msg, next, n - 1)
    case _ => []
  }

  lemma {:induction false} ReadSpells(msg: seq<Byte>, pos: nat, n: nat, budget: nat)
    requires Reaches(msg, pos, n) && n <= budget
    ensures Read(msg, pos, budget).Some? && Read(msg, pos, budget).value.0 == LowerEach(Spelled(msg, pos, n))
    decreases n
  {
    var h := HopAt(msg, pos);
    if h.Label? || h.Jump? {
      ReadSpells(msg, h.next, n - 1, budget - 1);
    }
  }

  /**
    * The reader succeeds exactly when the unbounded walk reaches a root label, and then answers the walk's
    * labels, lower-cased and dotted, with the offset at which the skipper ends.
    */
  lemma ReaderExact(msg: seq<Byte>, start: nat)
    ensures NameAt(msg, start).Some? <==> Ends(msg, start)
    ensures forall n: nat :: Reaches(msg, start, n) ==>
              NameAt(msg, start).Some? && NameAt(msg, start).value.0 == Join(LowerEach(Spelled(msg, start, n)))
    ensures NameAt(msg, start).Some? ==> SkipName(msg, start) == Some(NameAt(msg, start).value.1)
  {
    if NameAt(msg, start).Some? {
      var n := ReadIsReach(msg, start, |msg|);
      assert Reaches(msg, start, n);
      SkipAgrees(msg, start, |msg|);
    }
    forall n: nat | Reaches(msg, start, n)
      ensures NameAt(msg, start).Some? && NameAt(msg, start).value.0 == Join(LowerEach(Spelled(msg, start, n)))
    {
      WalkIsShort(msg, start, n);
      ReadSpells(msg, start, n, |msg|);
    }
  }

  /** Whenever the reader succeeds the skipper ends at the same offset. */
  lemma {:induction false} SkipAgrees(msg: seq<Byte>, pos: nat, budget: nat)
    requires Read(msg, pos, budget).Some?
    ensures SkipName(msg, pos) == Some(Read(msg, pos, budget).value.1)
    decreases budget
  {
    var h := HopAt(msg, pos);
    if h.Label? {
      SkipAgrees(msg, h.next, budget - 1);
    }
  }

  /** The end of a name lies within the message, after its start. */
  lemma {:induction false} SkipInside(msg: seq<Byte>, pos: nat)
    requires SkipName(msg, pos).Some?
    ensures pos < SkipName(msg, pos).value <= |msg|
    decreases |msg| - pos
  {
    if 0 < msg[pos] < 64 {
      SkipInside(msg, pos + 1 + msg[pos]);
    }
  }

  /** The skipper looks only at the bytes of the name. */
  lemma {:induction false} SkipLocal(a: seq<Byte>, b: seq<Byte>, pos: nat)
    requires SkipName(a, pos).Some?
    requires SkipName(a, pos).value <= |b|
    requires forall i :: pos <= i < SkipName(a, pos).value && i < |a| ==> b[i] == a[i]
    ensures SkipName(b, pos) == SkipName(a, pos)
    decreases |a| - pos
  {
    SkipInside(a, pos);
    if 0 < a[pos] < 64 {
      SkipInside(a, pos + 1 + a[pos]);
      SkipLocal(a, b, pos + 1 + a[pos]);
    }
  }

  // ---- The name at a position, hop by hop ----

  /** The labels of the unbounded walk, if it ends. */
  ghost function Labels(msg: seq<Byte>, pos: nat): Option<seq<Name>> {
    if Ends(msg, pos) then
      var n: nat :| Reaches(msg, pos, n);
      Some(Spelled(msg, pos, n))
    else None
  }

  lemma LabelsAre(msg: seq<Byte>, pos: nat, n: nat)
    requires Reaches(msg, pos, n)
    ensures Labels(msg, pos) == Some(Spelled(msg, pos, n))
  {
    assert Ends(msg, pos);
    var m: nat :| Reaches(msg, pos, m) && Labels(msg, pos) == Some(Spelled(msg, pos, m));
    ReachesOnce(msg, pos, m, n);
  }

  lemma LabelsByHop(msg: seq<Byte>, pos: nat)
    ensures match HopAt(msg, pos)
            case Malformed => Labels(msg, pos) == None
            case Root => Labels(msg, pos) == Some([])
            case Jump(next) => Labels(msg, pos) == Labels(msg, next)
            case Label(next, text) => Labels(msg, pos) == Before([text], Labels(msg, next))
  {
    match HopAt(msg, pos) {
      case Malformed =>
      case Root => LabelsAre(msg, pos, 1);
      case _ =>
        var next := HopAt(msg, pos).next;
        EndsByHop(msg, pos);
        if Ends(msg, next) {
          var n: nat :| Reaches(msg, next, n);
          LabelsAre(msg, next, n);
          LabelsAre(msg, pos, n + 1);
        }
    }
  }

  lemma EndsByHop(msg: seq<Byte>, pos: nat)
    requires HopAt(msg, pos).Label? || HopAt(msg, pos).Jump?
    ensures Ends(msg, pos) ==> Ends(msg, HopAt(msg, pos).next)
  {
    if Ends(msg, pos) {
      var n: nat :| Reaches(msg, pos, n);
      assert Reaches(msg, HopAt(msg, pos).next, n - 1);
    }
  }

  function Before(front: seq<Name>, rest: Option<seq<Name>>): Option<seq<Name>> {
    match rest
    case None => None
    case Some(labels) => Some(front + labels)
  }

  /** The reader answers the labels of the walk, lower-cased and dotted. */
  lemma NameIsLabels(msg: seq<Byte>, pos: nat)
    ensures match Labels(msg, pos)
            case None => NameAt(msg, pos) == None
            case Some(labels) => NameAt(msg, pos).Some? && NameAt(msg, pos).value.0 == Join(LowerEach(labels))
  {
    ReaderExact(msg, pos);
    if Ends(msg, pos) {
      var n: nat :| Reaches(msg, pos, n);
      LabelsAre(msg, pos, n);
    }
  }

  // ---- The loops ----

  /** What the loop has collected, followed by what the rest of the walk gives. */
  ghost function Resume(labels: seq<Name>, jumped: bool, after: nat, rest: Option<(seq<Name>, nat)>): Option<(seq<Name>, nat)> {
    match rest
    case None => None
    case Some(r) => Some((labels + r.0, if jumped then after else r.1))
  }

  lemma ResumeStep(labels: seq<Name>, text: Name, jumped: bool, after: nat, more: seq<Name>, end: nat)
    ensures Resume(labels + [text], jumped, after, Some((more, end))) == Resume(labels, jumped, after, Some(([text] + more, end)))
  {
    assert labels + [text] + more == labels + ([text] + more);
  }

  method ReadName(msg: seq<Byte>, start: nat) returns (r: Option<(Name, nat)>)
    ensures r == NameAt(msg, start)
  {
    var labels: seq<Name> := [];
    var pos: nat, after: nat, budget: nat := start, start, |msg|;
    var jumped := false;
    assert forall more: seq<Name> :: [] + more == more;
    while true
      invariant Read(msg, start, |msg|) == Resume(labels, jumped, after, Read(msg, pos, budget))
      decreases budget
    {
      if pos >= |msg| || budget == 0 {
        return None;
      }
      var h := HopAt(msg, pos);
      ghost var rest := if h.Label? || h.Jump? then Read(msg, h.next, budget - 1) else None;
      budget := budget - 1;
      match h {
        case Malformed => return None;
        case Root =>
          pos := pos + 1;
          if !jumped {
            after := pos;
          }
          assert labels + [] == labels;
          return Some((Join(labels), after));
        case Label(next, text) =>
          if rest.Some? {
            ResumeStep(labels, LowerAll(text), jumped, after, rest.value.0, rest.value.1);
          }
          labels := labels + [LowerAll(text)];
          pos := next;
        case Jump(next) =>
          if !jumped {
            after, jumped := pos + 2, true;
          }
          pos := next;
      }
    }
  }

  method Skip(msg: seq<Byte>, start: nat) returns (r: Option<nat>)
    ensures r == SkipName(msg, start)
  {
    var pos := start;
    while true
      invariant SkipName(msg, pos) == SkipName(msg, start)
      decreases |msg| - pos
    {
      if pos >= |msg| {
        return None;
      }
      if msg[pos] < 64 {
        if msg[pos] == 0 {
          return Some(pos + 1);
        }
        pos := pos + 1 + msg[pos];
      } else if msg[pos] >= 192 {
        return if pos + 1 < |msg| then Some(pos + 2) else None;
      } else {
        return None;
      }
    }
  }
}
