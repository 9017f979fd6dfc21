/** Bitwise operators on natural numbers, by their binary digits. */
module Bits {
  import opened Bytes

  function BitAnd(x: nat, y: nat): (r: nat)
    decreases x + y
  {
    if x == 0 || y == 0 then 0 else (if x % 2 == 1 && y % 2 == 1 then 1 else 0) + 2 * BitAnd(x / 2, y / 2)
  }

  function BitOr(x: nat, y: nat): (r: nat)
    decreases x + y
  {
    if x == 0 then y else if y == 0 then x
    else (if x % 2 == 1 || y % 2 == 1 then 1 else 0) + 2 * BitOr(x / 2, y / 2)
  }

  function BitXor(x: nat, y: nat): (r: nat)
    decreases x + y
  {
    if x == 0 then y else if y == 0 then x
    else (if x % 2 != y % 2 then 1 else 0) + 2 * BitXor(x / 2, y / 2)
  }

  /** Or with bits above `x` adds them. */
  lemma {:induction false} OrAbove(x: nat, g: nat, s: nat)
    requires x < Pow2(s)
    ensures BitOr(x, g * Pow2(s)) == x + g * Pow2(s)
  {
    if s == 0 || x == 0 || g == 0 {
      assert s == 0 ==> x == 0;
    } else {
      var y := g * Pow2(s);
      HalfShift(g, s);
      OrAbove(x / 2, g, s - 1);
      MulMonotone(1, g, Pow2(s));
    }
  }

  lemma HalfShift(g: nat, s: nat)
    requires s > 0
    ensures g * Pow2(s) == 2 * (g * Pow2(s - 1))
    ensures g * Pow2(s) % 2 == 0 && g * Pow2(s) / 2 == g * Pow2(s - 1)
  {
    var h := g * Pow2(s - 1);
    assert g * Pow2(s) == 2 * h;
  }

  /** The `m` low bits of `x`. */
  function Low(x: nat, m: nat): nat
  {
    if m == 0 then 0 else x % 2 + 2 * Low(x / 2, m - 1)
  }

  lemma {:induction false} LowIsMod(x: nat, m: nat)
    ensures Low(x, m) == x % Pow2(m)
  {
    if m == 0 {
      DivUnique(x, 1, x, 0);
    } else {
      LowIsMod(x / 2, m - 1);
      HalfMod(x, m);
    }
  }

  /** Or with the `m` low bits sets them. */
  lemma OrLow(x: nat, m: nat)
    ensures BitOr(x, Pow2(m) - 1) == x - x % Pow2(m) + Pow2(m) - 1
  {
    OrLowBits(x, m);
    LowIsMod(x, m);
  }

  lemma {:induction false} OrLowBits(x: nat, m: nat)
    ensures BitOr(x, Pow2(m) - 1) == x - Low(x, m) + Pow2(m) - 1
  {
    if m > 0 {
      OrLowBits(x / 2, m - 1);
      HalfOnes(m);
      if x == 0 {
        LowZero(m);
      }
    }
  }

  lemma {:induction false} LowZero(m: nat)
    ensures Low(0, m) == 0
  {
    if m > 0 {
      LowZero(m - 1);
    }
  }

  /** And with all bits of a `w`-bit word but the `m` low ones clears those. */
  lemma AndHigh(x: nat, w: nat, m: nat)
    requires m <= w && x < Pow2(w)
    ensures Pow2(w) - Pow2(m) >= 0
    ensures BitAnd(x, Pow2(w) - Pow2(m)) == x - x % Pow2(m)
  {
    AndHighBits(x, w, m);
    LowIsMod(x, m);
  }

  lemma {:induction false} AndHighBits(x: nat, w: nat, m: nat)
    requires m <= w && x < Pow2(w)
    ensures Pow2(w) - Pow2(m) >= 0
    ensures BitAnd(x, Pow2(w) - Pow2(m)) == x - Low(x, m)
  {
    Pow2Monotone(m, w);
    if m == 0 {
      AndOnes(x, w);
    } else {
      AndHighBits(x / 2, w - 1, m - 1);
      AndDouble(x, Pow2(w - 1) - Pow2(m - 1));
    }
  }

  lemma AndDouble(x: nat, h: nat)
    ensures BitAnd(x, 2 * h) == 2 * BitAnd(x / 2, h)
  {
  }

  lemma {:induction false} AndOnes(x: nat, w: nat)
    requires x < Pow2(w)
    ensures BitAnd(x, Pow2(w) - 1) == x
  {
    if w > 0 {
      HalfOnes(w);
      AndOnes(x / 2, w - 1);
    }
  }

  /** Xor with all ones is the complement. */
  lemma {:induction false} XorOnes(x: nat, w: nat)
    requires x < Pow2(w)
    ensures BitXor(x, Pow2(w) - 1) == Pow2(w) - 1 - x
  {
    if w > 0 {
      HalfOnes(w);
      XorOnes(x / 2, w - 1);
    }
  }

  lemma HalfOnes(m: nat)
    requires m > 0
    ensures Pow2(m) - 1 > 0 && (Pow2(m) - 1) % 2 == 1 && (Pow2(m) - 1) / 2 == Pow2(m - 1) - 1
  {
  }

  lemma HalfMod(x: nat, m: nat)
    requires m > 0
    ensures x % Pow2(m) == x % 2 + 2 * (x / 2 % Pow2(m - 1))
  {
    var p := Pow2(m - 1);
    var q, r := x / 2 / p, x / 2 % p;
    DivBasics(x / 2, p);
    assert q * p * 2 == q * Pow2(m);
    DivUnique(x, Pow2(m), q, x % 2 + 2 * r);
  }
}
