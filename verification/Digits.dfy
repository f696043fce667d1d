/**
 Positional digits of a natural number. A machine word is read in base 2 as a row of bits (bitmaps
 and flags) and in base 256 as a row of bytes (memory copies).
 */
module Digits {

  /** Digit `i` of `x`, counted from the least significant one. */
  function Digit(base: nat, x: nat, i: nat): (d: nat)
    requires 2 <= base
    ensures d < base
    decreases i
  {
    if i == 0 then x % base else Digit(base, x / base, i - 1)
  }

  function Times(a: nat, b: nat): nat {
    a * b
  }

  /** `x` with digit `i` replaced by `v`. */
  function WithDigit(base: nat, x: nat, i: nat, v: nat): nat
    requires 2 <= base && v < base
    decreases i
  {
    if i == 0 then Times(x / base, base) + v else Times(WithDigit(base, x / base, i - 1, v), base) + x % base
  }

  /** `x` with its `s` low digits replaced by zero. */
  function DropLow(base: nat, x: nat, s: nat): nat
    requires 2 <= base
    decreases s
  {
    if s == 0 then x else DropLow(base, x / base, s - 1) * base
  }

  lemma DivModUnique(base: nat, q: nat, r: nat)
    requires r < base
    ensures q * base + r >= 0
    ensures (q * base + r) / base == q && (q * base + r) % base == r
  {
    var n := q * base + r;
    assert n == n / base * base + n % base;
    var d := n / base - q;
    assert d * base == r - n % base;
    assert d >= 1 ==> d * base >= base;
    assert d <= -1 ==> d * base <= 0 - base;
  }

  lemma {:induction false} WithDigitAt(base: nat, x: nat, i: nat, v: nat, j: nat)
    requires 2 <= base && v < base
    ensures Digit(base, WithDigit(base, x, i, v), j) == if j == i then v else Digit(base, x, j)
    decreases i
  {
    if i == 0 {
      DivModUnique(base, x / base, v);
    } else {
      DivModUnique(base, WithDigit(base, x / base, i - 1, v), x % base);
      if j > 0 {
        WithDigitAt(base, x / base, i - 1, v, j - 1);
      }
    }
  }

  lemma {:induction false} DropLowAt(base: nat, x: nat, s: nat, j: nat)
    requires 2 <= base
    ensures Digit(base, DropLow(base, x, s), j) == if j < s then 0 else Digit(base, x, j)
    decreases s
  {
    if s > 0 {
      DivModUnique(base, DropLow(base, x / base, s - 1), 0);
      if j > 0 {
        DropLowAt(base, x / base, s - 1, j - 1);
      }
    }
  }

  /** A number is zero exactly when all its digits are. */
  lemma {:induction false} ZeroDigits(base: nat, j: nat)
    requires 2 <= base
    ensures Digit(base, 0, j) == 0
    decreases j
  {
    DivModUnique(base, 0, 0);
    if j > 0 {
      ZeroDigits(base, j - 1);
    }
  }

  /** Bit `i` of `x`. */
  predicate Bit(x: nat, i: nat) {
    Digit(2, x, i) == 1
  }

  /** `x | (1 << i)` */
  function SetBit(x: nat, i: nat): nat {
    WithDigit(2, x, i, 1)
  }

  /** `x & ~(1 << i)` */
  function ClearBit(x: nat, i: nat): nat {
    WithDigit(2, x, i, 0)
  }

  /** `x & (~0 << s)` */
  function BitsFrom(x: nat, s: nat): nat {
    DropLow(2, x, s)
  }

  /** Index of the least set bit, -1 for zero: `__builtin_ffs(x) - 1`. */
  function Ffs(x: nat): (r: int)
    ensures x == 0 ==> r == -1
    ensures x != 0 ==> 0 <= r && Bit(x, r)
    decreases x
  {
    if x == 0 then -1 else if x % 2 == 1 then 0 else 1 + Ffs(x / 2)
  }

  lemma {:induction false} FfsLeast(x: nat, j: nat)
    requires Bit(x, j)
    ensures x != 0 && Ffs(x) <= j
    decreases j
  {
    if x == 0 {
      ZeroDigits(2, j);
    } else if j > 0 && x % 2 == 0 {
      FfsLeast(x / 2, j - 1);
    }
  }

  lemma SetBitAt(x: nat, i: nat)
    ensures forall j: nat :: Bit(SetBit(x, i), j) <==> j == i || Bit(x, j)
  {
    forall j: nat ensures Bit(SetBit(x, i), j) <==> j == i || Bit(x, j) {
      WithDigitAt(2, x, i, 1, j);
    }
  }

  lemma ClearBitAt(x: nat, i: nat)
    ensures forall j: nat :: Bit(ClearBit(x, i), j) <==> j != i && Bit(x, j)
  {
    forall j: nat ensures Bit(ClearBit(x, i), j) <==> j != i && Bit(x, j) {
      WithDigitAt(2, x, i, 0, j);
    }
  }

  /** `ffs(x & (~0 << s))` finds the least set bit at or above `s`, or says there is none. */
  lemma FirstBitFrom(x: nat, s: nat)
    ensures var r := Ffs(BitsFrom(x, s));
            if r < 0 then BitsFrom(x, s) == 0 && forall j: nat :: s <= j ==> !Bit(x, j)
            else BitsFrom(x, s) != 0 && s <= r && Bit(x, r) && forall j: nat :: s <= j < r ==> !Bit(x, j)
  {
    var y := BitsFrom(x, s);
    forall j: nat ensures Bit(y, j) <==> s <= j && Bit(x, j) {
      DropLowAt(2, x, s, j);
    }
    forall j: nat | Bit(y, j) ensures y != 0 && Ffs(y) <= j {
      FfsLeast(y, j);
    }
  }

  /** A word is zero exactly when it has no set bit. */
  lemma ZeroIffNoBits(x: nat)
    ensures x == 0 <==> forall j: nat :: !Bit(x, j)
  {
    if x == 0 {
      forall j: nat ensures !Bit(x, j) {
        ZeroDigits(2, j);
      }
    } else {
      var r: nat := Ffs(x);
      assert Bit(x, r);
    }
  }

  /** A number is determined by its bits. */
  lemma {:induction false} SameBits(x: nat, y: nat)
    requires forall j: nat :: Bit(x, j) <==> Bit(y, j)
    ensures x == y
    decreases x + y
  {
    assert Bit(x, 0) <==> Bit(y, 0);
    if x != 0 || y != 0 {
      forall j: nat ensures Bit(x / 2, j) <==> Bit(y / 2, j) {
        assert Bit(x, j + 1) <==> Bit(y, j + 1);
      }
      SameBits(x / 2, y / 2);
    }
  }
}
