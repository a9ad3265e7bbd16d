/**
 * One's-complement arithmetic of the Internet checksum: the 16-bit word sum of a region, the
 * end-around carry fold, and the incremental update of section 3 of RFC 1624.
 */
module Checksum {
  import opened Bytes

  /** Sum of the big-endian 16-bit words of `s`; an odd last byte is the high half of a word. */
  function WordSum(s: seq<Byte>): nat {
    if |s| == 0 then 0
    else if |s| == 1 then s[0] * 256
    else Word(s, 0) + WordSum(s[2..])
  }

  /** A word sum that a receiver accepts: it folds to 0xFFFF. */
  predicate SumOk(sum: nat) {
    sum != 0 && sum % 0xFFFF == 0
  }

  /** The 16-bit value that end-around carry reduces `sum` to. */
  function Folded(sum: nat): (r: U16) {
    if sum == 0 then 0 else if sum % 0xFFFF == 0 then 0xFFFF else sum % 0xFFFF
  }

  /** One carry step keeps the residue, keeps a non-zero sum non-zero, and shrinks a wide sum. */
  lemma CarryStep(sum: nat)
    requires sum >= 0x1_0000
    ensures var next := sum % 0x1_0000 + sum / 0x1_0000;
            0 < next < sum && next % 0xFFFF == sum % 0xFFFF
  {
    var q := sum / 0x1_0000;
    assert sum == (sum % 0x1_0000 + q) + 0xFFFF * q;
  }

  /** The carry-fold loop. */
  method Fold(start: U32) returns (folded: U16)
    ensures folded == Folded(start)
  {
    var sum: U32 := start;
    while sum / 0x1_0000 != 0
      invariant sum % 0xFFFF == start % 0xFFFF
      invariant sum == 0 <==> start == 0
      decreases sum
    {
      CarryStep(sum);
      sum := sum % 0x1_0000 + sum / 0x1_0000;
    }
    folded := sum;
  }

  /** `k` even: the word sum splits at `k`. */
  lemma {:induction false} WordSumSplit(s: seq<Byte>, k: nat)
    requires k <= |s| && k % 2 == 0
    ensures WordSum(s) == WordSum(s[..k]) + WordSum(s[k..])
    decreases k
  {
    if k == 0 {
      assert s[0..] == s && s[..0] == [];
    } else {
      WordSumSplit(s[2..], k - 2);
      assert s[2..][..k - 2] == s[..k][2..];
      assert s[2..][k - 2..] == s[k..];
    }
  }

  /** Overwriting one aligned word changes the sum by the difference of the two words. */
  lemma WordSumSetWord(s: seq<Byte>, i: nat, w: U16)
    requires i + 1 < |s| && i % 2 == 0
    ensures WordSum(SetWord(s, i, w)) + Word(s, i) == WordSum(s) + w
  {
    var r := SetWord(s, i, w);
    WordSumSplit(s, i);
    WordSumSplit(r, i);
    assert r[..i] == s[..i];
    assert r[i..][2..] == s[i..][2..];
  }

  /** The 32-bit accumulator of `adjust_checksum` before the carry fold. */
  function AdjustSum(check: U16, old0: U16, old1: U16, new0: U16, new1: U16): (sum: U32) {
    (0xFFFF - check) + (0xFFFF - old0) + new0 + (0xFFFF - old1) + new1
  }

  /** `HC' = ~(~HC + ~m + m')` over the two words of an address. */
  function Adjusted(check: U16, old0: U16, old1: U16, new0: U16, new1: U16): (r: U16) {
    0xFFFF - Folded(AdjustSum(check, old0, old1, new0, new1))
  }

  /** Adding a multiple of 0xFFFF does not change a residue. */
  lemma SameResidue(a: int, b: int, k: int)
    requires a == b + 0xFFFF * k
    ensures a % 0xFFFF == b % 0xFFFF
  {
  }

  /** The adjusted checksum compensates the change of address exactly, modulo 0xFFFF. */
  lemma AdjustedCompensates(check: U16, old0: U16, old1: U16, new0: U16, new1: U16)
    ensures (Adjusted(check, old0, old1, new0, new1) + new0 + new1) % 0xFFFF == (check + old0 + old1) % 0xFFFF
  {
    var sum := AdjustSum(check, old0, old1, new0, new1);
    var f := Folded(sum);
    var k := (sum - f) / 0xFFFF;
    assert sum == f + 0xFFFF * k;
    SameResidue(0xFFFF - f + new0 + new1, check + old0 + old1, k - 2);
  }

  /** The only inputs whose accumulator is zero, hence whose adjusted checksum is 0xFFFF. */
  lemma AdjustedIsAllOnes(check: U16, old0: U16, old1: U16, new0: U16, new1: U16)
    ensures Adjusted(check, old0, old1, new0, new1) == 0xFFFF
       <==> check == old0 == old1 == 0xFFFF && new0 == new1 == 0
  {
  }

  /**
   * Adjusting back restores the checksum exactly when it was not 0xFFFF: one's complement has two
   * zeros and the fold only ever produces the other one.
   */
  lemma AdjustedBack(check: U16, old0: U16, old1: U16, new0: U16, new1: U16)
    ensures var there := Adjusted(check, old0, old1, new0, new1);
            var back := Adjusted(there, new0, new1, old0, old1);
            && back == (if check == 0xFFFF then 0 else check)
            && (back == check <==> check != 0xFFFF)
  {
    hide Adjusted;
    var there := Adjusted(check, old0, old1, new0, new1);
    var back := Adjusted(there, new0, new1, old0, old1);
    AdjustedCompensates(check, old0, old1, new0, new1);
    AdjustedCompensates(there, new0, new1, old0, old1);
    CancelResidue(back, check, old0 + old1);
    AdjustedIsAllOnes(check, old0, old1, new0, new1);
    AdjustedIsAllOnes(there, new0, new1, old0, old1);
  }

  lemma CancelResidue(a: int, b: int, c: int)
    requires (a + c) % 0xFFFF == (b + c) % 0xFFFF
    ensures a % 0xFFFF == b % 0xFFFF
  {
    var k := (a + c) / 0xFFFF - (b + c) / 0xFFFF;
    SameResidue(a, b, k);
  }
}
