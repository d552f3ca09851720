/** Bitwise arithmetic on naturals: the `&`, `|`, `<<` and `>>` of the C
    sources, defined bit by bit, and the facts that turn the masks the sources
    use into remainders and sums. */
module Bits {

  function Pow2(n: nat): (p: nat)
    ensures p >= 1
  {
    if n == 0 then 1 else 2 * Pow2(n - 1)
  }

  /** Bit `i` of `x`, bit 0 being the least significant. */
  predicate Bit(x: nat, i: nat) {
    if i == 0 then x % 2 == 1 else Bit(x / 2, i - 1)
  }

  function And(x: nat, y: nat): nat {
    if x == 0 || y == 0 then 0
    else (if x % 2 == 1 && y % 2 == 1 then 1 else 0) + 2 * And(x / 2, y / 2)
  }

  function Or(x: nat, y: nat): nat
    decreases x + y
  {
    if x == 0 then y
    else if y == 0 then x
    else (if x % 2 == 1 || y % 2 == 1 then 1 else 0) + 2 * Or(x / 2, y / 2)
  }

  function Shl(x: nat, k: nat): nat {
    if k == 0 then x else 2 * Shl(x, k - 1)
  }

  function Shr(x: nat, k: nat): nat {
    if k == 0 then x else Shr(x / 2, k - 1)
  }

  /** The `k` low bits of `x`. */
  function Low(x: nat, k: nat): nat {
    if k == 0 then 0 else x % 2 + 2 * Low(x / 2, k - 1)
  }

  lemma {:induction false} BitOfZero(i: nat)
    ensures !Bit(0, i)
  {
    if i > 0 { BitOfZero(i - 1); }
  }

  lemma {:induction false} BitAnd(x: nat, y: nat, i: nat)
    ensures Bit(And(x, y), i) <==> Bit(x, i) && Bit(y, i)
  {
    if x == 0 || y == 0 {
      BitOfZero(i);
    } else if i > 0 {
      BitAnd(x / 2, y / 2, i - 1);
    }
  }

  lemma {:induction false} BitOr(x: nat, y: nat, i: nat)
    ensures Bit(Or(x, y), i) <==> Bit(x, i) || Bit(y, i)
    decreases i
  {
    if x == 0 || y == 0 {
      BitOfZero(i);
    } else if i > 0 {
      BitOr(x / 2, y / 2, i - 1);
    }
  }

  /** Shifting right by `k` renumbers the bits. */
  lemma {:induction false} BitOfShr(x: nat, k: nat, i: nat)
    ensures Bit(Shr(x, k), i) == Bit(x, k + i)
  {
    if k > 0 { BitOfShr(x / 2, k - 1, i); }
  }

  lemma {:induction false} BitOfLow(x: nat, k: nat, i: nat)
    ensures Bit(Low(x, k), i) == (i < k && Bit(x, i))
  {
    if k == 0 {
      BitOfZero(i);
    } else if i > 0 {
      BitOfLow(x / 2, k - 1, i - 1);
    }
  }

  /** Two numbers below 2^n with the same bits are the same number. */
  lemma {:induction false} SameBits(x: nat, y: nat, n: nat)
    requires x < Pow2(n) && y < Pow2(n)
    requires forall i: nat :: i < n ==> Bit(x, i) == Bit(y, i)
    ensures x == y
  {
    if n > 0 {
      assert Bit(x, 0) == Bit(y, 0);
      forall i: nat | i < n - 1 ensures Bit(x / 2, i) == Bit(y / 2, i) {
        assert Bit(x, i + 1) == Bit(y, i + 1);
      }
      SameBits(x / 2, y / 2, n - 1);
    }
  }

  lemma {:induction false} OrBounded(x: nat, y: nat, n: nat)
    requires x < Pow2(n) && y < Pow2(n)
    ensures Or(x, y) < Pow2(n)
  {
    if x != 0 && y != 0 {
      OrBounded(x / 2, y / 2, n - 1);
    }
  }

  lemma {:induction false} AndBounded(x: nat, y: nat)
    ensures And(x, y) <= x
  {
    if x != 0 && y != 0 {
      AndBounded(x / 2, y / 2);
    }
  }

  /** Masking with a run of ones in bits b..a-1 keeps exactly those bits. */
  lemma {:induction false} AndRun(x: nat, a: nat, b: nat)
    requires b <= a
    ensures Pow2(b) <= Pow2(a)
    ensures And(x, Pow2(a) - Pow2(b)) == Low(x, a) - Low(x, b)
  {
    hide And;
    if a == 0 {
      AndNothing(x);
    } else if b == 0 {
      AndRun(x / 2, a - 1, 0);
      AndStep(x, Pow2(a) - 1, Pow2(a - 1) - 1, 1);
    } else {
      AndRun(x / 2, a - 1, b - 1);
      AndStep(x, Pow2(a) - Pow2(b), Pow2(a - 1) - Pow2(b - 1), 0);
    }
  }

  lemma AndNothing(x: nat)
    ensures And(x, 0) == 0
  {
  }

  lemma AndStep(x: nat, m: nat, h: nat, l: nat)
    requires m == 2 * h + l && l < 2
    ensures And(x, m) == 2 * And(x / 2, h) + (if x % 2 == 1 && l == 1 then 1 else 0)
  {
    assert m / 2 == h && m % 2 == l;
  }

  /** `|` of fields that do not overlap is their sum. */
  lemma {:induction false} OrDisjoint(x: nat, y: nat, k: nat)
    requires y < Pow2(k)
    ensures Or(Shl(x, k), y) == Shl(x, k) + y
  {
    if k > 0 {
      OrDisjoint(x, y / 2, k - 1);
      var h := Shl(x, k - 1);
      assert (2 * h) / 2 == h && (2 * h) % 2 == 0;
    }
  }

  lemma {:induction false} LowBounded(x: nat, k: nat)
    ensures Low(x, k) < Pow2(k)
  {
    if k > 0 { LowBounded(x / 2, k - 1); }
  }

  lemma {:induction false} LowShr(x: nat, k: nat)
    ensures x == Low(x, k) + Shl(Shr(x, k), k)
  {
    if k > 0 { LowShr(x / 2, k - 1); }
  }

  lemma {:induction false} ShlIsProduct(x: nat, k: nat)
    ensures Shl(x, k) == Pow2(k) * x
  {
    if k > 0 { ShlIsProduct(x, k - 1); }
  }

  lemma {:induction false} MulAtLeast(d: nat, k: nat)
    requires k >= 1
    ensures d * k >= d
  {
    if k > 1 {
      MulAtLeast(d, k - 1);
      assert d * k == d * (k - 1) + d;
    }
  }

  lemma DivModUnique(x: int, d: int, q: int, r: int)
    requires 0 <= r < d && x == d * q + r
    ensures x / d == q && x % d == r
  {
    var q' := x / d;
    var k := q - q';
    assert d * k == x % d - r by {
      assert d * k == d * q - d * q';
    }
    if k >= 1 {
      MulAtLeast(d, k);
    }
  }

  /** The shifts and low bits as quotients and remainders. */
  lemma AsDivMod(x: nat, k: nat)
    ensures Low(x, k) == x % Pow2(k) && Shr(x, k) == x / Pow2(k)
  {
    LowBounded(x, k);
    LowShr(x, k);
    ShlIsProduct(Shr(x, k), k);
    DivModUnique(x, Pow2(k), Shr(x, k), Low(x, k));
  }
}
