/** Address blocks of a power-of-two size: the masking behind netmasks and CIDR prefixes. */
module Prefix {

  function Pow2(n: nat): (p: nat)
    ensures p > 0
  {
    if n == 0 then 1 else 2 * Pow2(n - 1)
  }

  /** `a` with its low `h` bits masked off. */
  function Base(a: nat, h: nat): (b: nat)
    ensures b <= a
    decreases h
  {
    if h == 0 then a else 2 * Base(a / 2, h - 1)
  }

  /** The block of `a` starts at `Base(a, h)` and holds exactly the addresses with that base. */
  lemma {:induction false} BaseExact(a: nat, x: nat, h: nat)
    ensures Base(x, h) == Base(a, h) <==> Base(a, h) <= x < Base(a, h) + Pow2(h)
    decreases h
  {
    if h > 0 {
      BaseExact(a / 2, x / 2, h - 1);
    }
  }

  /** Masking `h` bits first does not matter when `g >= h` bits are masked next. */
  lemma {:induction false} BaseNested(a: nat, h: nat, g: nat)
    requires h <= g
    ensures Base(Base(a, h), g) == Base(a, g)
    decreases h
  {
    if h > 0 {
      BaseNested(a / 2, h - 1, g - 1);
    }
  }

  /** A block lies inside the larger block around it. */
  lemma {:induction false} BaseInside(a: nat, h: nat, g: nat)
    requires h <= g
    ensures Base(a, g) <= Base(a, h) && Base(a, h) + Pow2(h) <= Base(a, g) + Pow2(g)
    decreases h
  {
    if h > 0 {
      BaseInside(a / 2, h - 1, g - 1);
    } else {
      BaseExact(a, a, g);
    }
  }

  /** A block of an address of `w` bits does not run past the address space. */
  lemma {:induction false} BaseFits(a: nat, h: nat, w: nat)
    requires a < Pow2(w) && h <= w
    ensures Base(a, h) + Pow2(h) <= Pow2(w)
    decreases h
  {
    if h > 0 {
      BaseFits(a / 2, h - 1, w - 1);
    }
  }

  /** A masked address is a whole number of blocks. */
  lemma {:induction false} BaseIsMultiple(a: nat, h: nat) returns (q: nat)
    ensures Base(a, h) == q * Pow2(h)
    decreases h
  {
    q := a;
    if h > 0 {
      q := BaseIsMultiple(a / 2, h - 1);
    }
  }

  lemma {:induction false} Pow2Splits(h: nat, k: nat)
    requires k <= h
    ensures Pow2(h) == Pow2(h - k) * Pow2(k)
    decreases k
  {
    if k > 0 {
      Pow2Splits(h - 1, k - 1);
    }
  }

  lemma Pow2Plus16(n: nat)
    ensures Pow2(n + 16) == 0x1_0000 * Pow2(n)
  {
    Pow2Plus4(n);
    Pow2Plus4(n + 4);
    Pow2Plus4(n + 8);
    Pow2Plus4(n + 12);
  }

  lemma Pow2Plus4(n: nat)
    ensures Pow2(n + 4) == 16 * Pow2(n)
  {
    assert Pow2(n + 2) == 4 * Pow2(n);
  }

  // ---- Bitwise masks ----

  /** `a & m`. */
  function And(a: nat, m: nat): (r: nat)
    decreases m
  {
    if m == 0 then 0 else 2 * And(a / 2, m / 2) + if a % 2 == 1 && m % 2 == 1 then 1 else 0
  }

  /** `a | b`. */
  function Or(a: nat, b: nat): nat
    decreases a + b
  {
    if a == 0 && b == 0 then 0 else 2 * Or(a / 2, b / 2) + if a % 2 == 1 || b % 2 == 1 then 1 else 0
  }

  lemma {:induction false} AndBelow(a: nat, m: nat)
    ensures And(a, m) <= a && And(a, m) <= m
    decreases m
  {
    if m > 0 {
      AndBelow(a / 2, m / 2);
    }
  }

  /** Adding the complement of a mask to a masked address is setting its bits. */
  lemma {:induction false} OrOfMasked(a: nat, m: nat, w: nat)
    requires m < Pow2(w)
    ensures Or(And(a, m), Pow2(w) - 1 - m) == And(a, m) + (Pow2(w) - 1 - m)
    decreases w
  {
    if w > 0 {
      var r, n := And(a, m), Pow2(w) - 1 - m;
      OrOfMasked(a / 2, m / 2, w - 1);
      assert n / 2 == Pow2(w - 1) - 1 - m / 2 && n % 2 == 1 - m % 2;
      assert r / 2 == And(a / 2, m / 2) && (r % 2 == 1 ==> m % 2 == 1);
    } else {
      assert And(a, 0) == 0;
    }
  }

  /** What a mask removes lies in its complement. */
  lemma {:induction false} HostPart(a: nat, m: nat, w: nat)
    requires a < Pow2(w) && m < Pow2(w)
    ensures a - And(a, m) <= Pow2(w) - 1 - m
    decreases w
  {
    if w > 0 {
      HostPart(a / 2, m / 2, w - 1);
    }
  }

  lemma {:induction false} AndAll(a: nat, w: nat)
    requires a < Pow2(w)
    ensures And(a, Pow2(w) - 1) == a
    decreases w
  {
    if w > 0 {
      AndAll(a / 2, w - 1);
      assert (Pow2(w) - 1) / 2 == Pow2(w - 1) - 1;
    }
  }

  lemma {:induction false} Pow2Grows(h: nat, w: nat)
    requires h <= w
    ensures Pow2(h) <= Pow2(w)
    decreases w
  {
    if h < w {
      Pow2Grows(h, w - 1);
    }
  }

  /** A mask of contiguous ones masks off its host bits. */
  lemma {:induction false} AndOfNetmask(a: nat, h: nat, w: nat)
    requires a < Pow2(w) && h <= w
    ensures Pow2(h) <= Pow2(w) && And(a, Pow2(w) - Pow2(h)) == Base(a, h)
    decreases h
  {
    Pow2Grows(h, w);
    if h == 0 {
      AndAll(a, w);
    } else {
      AndOfNetmask(a / 2, h - 1, w - 1);
      var m := Pow2(w) - Pow2(h);
      assert m / 2 == Pow2(w - 1) - Pow2(h - 1) && m % 2 == 0;
      if m == 0 {
        assert Base(a / 2, h - 1) == And(a / 2, 0) == 0;
      }
    }
  }

  /** Address widths. */
  const W4: nat := 32
  const W6: nat := 128

  lemma Pow2Values()
    ensures Pow2(W4) == 0x1_0000_0000
    ensures Pow2(W6) == 0x1_0000_0000_0000_0000_0000_0000_0000_0000
  {
    assert Pow2(0) == 1;
    var n := 0;
    Pow2Plus16(n);
    Pow2Plus16(n + 16);
    Pow2Plus16(n + 32);
    Pow2Plus16(n + 48);
    Pow2Plus16(n + 64);
    Pow2Plus16(n + 80);
    Pow2Plus16(n + 96);
    Pow2Plus16(n + 112);
  }
}
