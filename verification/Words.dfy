/** Unsigned 64-bit words as numbers below 2^64, with the bitwise operators the alignment code uses. */
module Words {

  const WORD: nat := 0x1_0000_0000_0000_0000

  function Pow2(k: nat): nat {
    if k == 0 then 1 else 2 * Pow2(k - 1)
  }

  ghost predicate IsPow2(x: nat) {
    exists k: nat :: x == Pow2(k)
  }

  /** Bitwise and, bit by bit. */
  function And(x: nat, y: nat): nat {
    if x == 0 || y == 0 then 0 else 2 * And(x / 2, y / 2) + (if x % 2 == 1 && y % 2 == 1 then 1 else 0)
  }

  /** Bitwise complement of a word. */
  function Not(x: nat): nat
    requires x < WORD
  {
    WORD - 1 - x
  }

  /** Addition that wraps around. */
  function Add(x: nat, y: nat): (r: nat)
    ensures r < WORD
  {
    (x + y) % WORD
  }

  function Mul(x: nat, y: nat): (r: nat)
    ensures r < WORD
  {
    (x * y) % WORD
  }

  // ---------- Powers of two ----------

  lemma {:induction false} Pow2Sum(a: nat, b: nat)
    ensures Pow2(a + b) == Pow2(a) * Pow2(b)
  {
    if a > 0 {
      Pow2Sum(a - 1, b);
      assert Pow2(a + b) == 2 * (Pow2(a - 1) * Pow2(b));
    }
  }

  lemma {:induction false} Pow2Monotone(a: nat, b: nat)
    requires a <= b
    ensures 0 < Pow2(a) <= Pow2(b)
  {
    if a < b { Pow2Monotone(a, b - 1); } else if a > 0 { Pow2Monotone(a - 1, b - 1); }
  }

  /** The larger of two powers of two is a multiple of the smaller. */
  lemma {:induction false} Pow2Divides(a: nat, b: nat)
    requires a <= b
    ensures Pow2(b) == Pow2(b - a) * Pow2(a) && Pow2(a) > 0 && Pow2(b) % Pow2(a) == 0
  {
    Pow2Sum(b - a, a);
    Pow2Monotone(a, a);
    MultipleMod(Pow2(b - a), Pow2(a));
  }

  lemma MultipleMod(q: nat, d: nat)
    requires d > 0
    ensures (q * d) % d == 0
  {
    ModOf(q, 0, d);
  }

  /** The quotient and remainder of a number written as one. */
  lemma {:induction false} ModOf(q: nat, r: nat, d: nat)
    requires r < d
    ensures (q * d + r) % d == r && (q * d + r) / d == q
  {
    var x := q * d + r;
    var p := x / d;
    Divided(x, d);
    if p < q {
      TimesMonotone(p + 1, q, d);
    } else if p > q {
      TimesMonotone(q + 1, p, d);
    }
  }

  lemma Divided(x: nat, d: nat)
    requires d > 0
    ensures x == (x / d) * d + x % d
  {}

  lemma TimesMonotone(a: nat, b: nat, d: nat)
    requires a <= b
    ensures a * d <= b * d && (a + 1) * d == a * d + d
  {}

  /** Adding the same to numbers with one remainder gives numbers with one remainder. */
  lemma SumMod(a: int, b: int, used: nat)
    requires a % WORD == b % WORD
    ensures (a + used) % WORD == (b + used) % WORD
  {}

  lemma SumModUnique(a: nat, b: nat, used: nat)
    requires a < WORD && b < WORD && (a + used) % WORD == (b + used) % WORD
    ensures a == b
  {}

  lemma WordIsPow2()
    ensures WORD == Pow2(64)
  {
    assert Pow2(8) == 256;
    Pow2Sum(8, 8);
    Pow2Sum(16, 16);
    Pow2Sum(32, 32);
  }

  lemma {:induction false} Pow2Less(a: nat, b: nat)
    requires Pow2(a) < Pow2(b)
    ensures a < b
  {
    if a >= b { Pow2Monotone(b, a); }
  }

  // ---------- Masks ----------

  lemma {:induction false} AndSelf(x: nat)
    ensures And(x, x) == x
  {
    if x > 0 { AndSelf(x / 2); }
  }

  lemma {:induction false} AndBelow(x: nat, y: nat)
    ensures And(x, y) <= x && And(x, y) <= y
  {
    if x > 0 && y > 0 { AndBelow(x / 2, y / 2); }
  }

  /** Anding with the complement clears exactly the bits the plain and keeps. */
  lemma {:induction false} AndNotBits(x: nat, y: nat, k: nat)
    requires x < Pow2(k) && y < Pow2(k)
    ensures And(x, Pow2(k) - 1 - y) + And(x, y) == x
  {
    if k > 0 {
      var h := Pow2(k - 1);
      var z := Pow2(k) - 1 - y;
      assert z / 2 == h - 1 - y / 2 && z % 2 == 1 - y % 2;
      AndNotBits(x / 2, y / 2, k - 1);
      AndStep(x, y);
      AndStep(x, z);
    }
  }

  /** The recursion equation of `And`, zero operands included. */
  lemma AndStep(x: nat, y: nat)
    ensures And(x, y) == 2 * And(x / 2, y / 2) + (if x % 2 == 1 && y % 2 == 1 then 1 else 0)
  {}

  lemma AndNot(x: nat, y: nat)
    requires x < WORD && y < WORD
    ensures And(x, Not(y)) == x - And(x, y)
  {
    WordIsPow2();
    AndNotBits(x, y, 64);
  }

  /** The low k bits are the remainder by 2^k. */
  lemma {:induction false} AndLow(x: nat, k: nat)
    ensures Pow2(k) > 0 && And(x, Pow2(k) - 1) == x % Pow2(k)
  {
    if k > 0 {
      AndLow(x / 2, k - 1);
      AndLowStep(x, Pow2(k - 1));
    } else {
      AndStep(x, 0);
    }
  }

  lemma AndLowStep(x: nat, h: nat)
    requires h > 0 && And(x / 2, h - 1) == x / 2 % h
    ensures And(x, 2 * h - 1) == x % (2 * h)
  {
    hide And;
    var m := 2 * h - 1;
    assert m / 2 == h - 1 && m % 2 == 1;
    AndStep(x, m);
    HalfMod(x, h);
  }

  lemma HalfMod(x: nat, h: nat)
    requires h > 0
    ensures x % (2 * h) == 2 * (x / 2 % h) + x % 2
  {
    var q, r := x / 2 / h, x / 2 % h;
    Divided(x / 2, h);
    assert x == 2 * (q * h + r) + x % 2 == q * (2 * h) + (2 * r + x % 2);
    ModOf(q, 2 * r + x % 2, 2 * h);
  }

  /** Masking with the complement of 2^k - 1 rounds down to a multiple of 2^k. */
  lemma MaskRoundsDown(x: nat, s: nat)
    requires x < WORD && 0 < s < WORD && IsPow2(s)
    ensures And(x, Not(s - 1)) == x - x % s
  {
    var k :| s == Pow2(k);
    AndNot(x, s - 1);
    AndLow(x, k);
  }

  lemma {:induction false} Pow2Parity(a: nat)
    requires a > 0
    ensures a % 2 == 0 ==> (IsPow2(a) <==> IsPow2(a / 2))
    ensures a % 2 == 1 ==> (IsPow2(a) <==> a == 1)
  {
    if IsPow2(a) {
      var k: nat :| a == Pow2(k);
      if k > 0 { assert a / 2 == Pow2(k - 1); }
    }
    if IsPow2(a / 2) {
      var k: nat :| a / 2 == Pow2(k);
      assert a % 2 == 0 ==> a == Pow2(k + 1);
    }
    assert Pow2(0) == 1;
  }

  lemma ZeroIsNotPow2()
    ensures !IsPow2(0)
  {
    forall k: nat ensures Pow2(k) != 0 { Pow2Monotone(0, k); }
  }

  /** The validity test for alignments accepts exactly the powers of two. */
  lemma {:induction false} ValidAlignIsPow2(a: nat)
    ensures a != 0 && And(a - 1, a) == 0 <==> IsPow2(a)
  {
    hide And, IsPow2;
    if a == 0 {
      ZeroIsNotPow2();
    } else {
      var b := a / 2;
      Pow2Parity(a);
      AndStep(a - 1, a);
      if a % 2 == 0 {
        ValidAlignIsPow2(b);
        assert (a - 1) / 2 == b - 1;
      } else {
        assert (a - 1) / 2 == b;
        AndSelf(b);
      }
    }
  }

  /** Masking twice is masking once. */
  lemma {:induction false} AndTwice(x: nat, m: nat)
    ensures And(And(x, m), m) == And(x, m)
  {
    if x > 0 && m > 0 {
      AndTwice(x / 2, m / 2);
      AndStep(And(x, m), m);
    }
  }

  /** A number all of whose predecessors are submasks of it is a row of ones. */
  lemma {:induction false} AllSubmasks(m: nat)
    requires forall k: nat :: k <= m ==> And(k, m) == k
    ensures IsPow2(m + 1)
  {
    if m == 0 {
      assert Pow2(0) == 1;
    } else {
      assert And(1, m) == 1;
      AndStep(1, m);
      var h := m / 2;
      forall k: nat | k <= h ensures And(k, h) == k {
        assert And(2 * k + 1, m) == 2 * k + 1;
        AndStep(2 * k + 1, m);
      }
      AllSubmasks(h);
      Pow2Parity(m + 1);
    }
  }

  lemma {:induction false} AndSwap(x: nat, y: nat)
    ensures And(x, y) == And(y, x)
  {
    if x > 0 && y > 0 { AndSwap(x / 2, y / 2); }
  }

  // ---------- Rounding up ----------

  /** The least multiple of `a` that is at least `x`. */
  function RoundUp(x: nat, a: nat): nat
    requires a > 0
  {
    (x + a - 1) / a * a
  }

  lemma {:induction false} RoundUpIsLeast(x: nat, a: nat)
    requires a > 0
    ensures x <= RoundUp(x, a) < x + a && RoundUp(x, a) % a == 0
    ensures forall m: nat :: m % a == 0 && m >= x ==> RoundUp(x, a) <= m
  {
    RoundUpBounds(x, a);
    forall m: nat | m % a == 0 && m >= x ensures RoundUp(x, a) <= m {
      MultipleAtLeast(x, a, m);
    }
  }

  lemma RoundUpBounds(x: nat, a: nat)
    requires a > 0
    ensures x <= RoundUp(x, a) < x + a && RoundUp(x, a) % a == 0
  {
    var y := x + a - 1;
    Divided(y, a);
    MultipleMod(y / a, a);
  }

  lemma MultipleAtLeast(x: nat, a: nat, m: nat)
    requires a > 0 && m % a == 0 && m >= x
    ensures RoundUp(x, a) <= m
  {
    var y := x + a - 1;
    Divided(y, a);
    Divided(m, a);
    LeastQuotient(x, a, y / a, y % a, m / a);
  }

  lemma LeastQuotient(x: nat, a: nat, q: nat, r: nat, p: nat)
    requires q * a + r == x + a - 1 && p * a >= x
    ensures q * a <= p * a
  {
    if p < q {
      TimesMonotone(p + 1, q, a);
    } else {
      TimesMonotone(q, p, a);
    }
  }
}
