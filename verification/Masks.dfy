/** Bitwise operators on unbounded two's-complement integers, as in Python, and on
    32-bit words, as in C; the mask rounding both programs use. */
module Masks {
  import opened Words

  function Pow2(k: nat): (p: int)
    ensures p >= 1
  {
    if k == 0 then 1 else 2 * Pow2(k - 1)
  }

  ghost predicate IsPow2(y: int) {
    exists k: nat :: Pow2(k) == y
  }

  function Abs(x: int): nat {
    if x < 0 then -x else x
  }

  /** `a & b`: bit by bit, the sign extended for ever. */
  function And(a: int, b: int): int
    decreases Abs(a) + Abs(b)
  {
    if a == 0 || b == 0 then 0
    else if a == -1 then b
    else if b == -1 then a
    else (if a % 2 == 1 && b % 2 == 1 then 1 else 0) + 2 * And(a / 2, b / 2)
  }

  /** `~a` in Python. */
  function Not(a: int): int {
    -a - 1
  }

  /** `~a` on uint32_t. */
  function Not32(a: word): word {
    SPACE - 1 - a
  }

  function Or(a: int, b: int): int {
    Not(And(Not(a), Not(b)))
  }

  predicate Bit(x: int, i: nat)
    decreases i
  {
    if i == 0 then x % 2 == 1 else Bit(x / 2, i - 1)
  }

  /** What And means: every bit of the result is the conjunction of the operands' bits. */
  lemma {:induction false} AndBits(a: int, b: int, i: nat)
    ensures Bit(And(a, b), i) == (Bit(a, i) && Bit(b, i))
    decreases i
  {
    ZeroBits(i);
    if a == 0 || b == 0 || a == -1 || b == -1 || i == 0 {
    } else {
      AndBits(a / 2, b / 2, i - 1);
      assert And(a, b) / 2 == And(a / 2, b / 2);
    }
  }

  lemma {:induction false} ZeroBits(i: nat)
    ensures !Bit(0, i)
    ensures Bit(-1, i)
  {
    if i == 0 {
    } else {
      ZeroBits(i - 1);
    }
  }

  lemma {:induction false} NotBits(a: int, i: nat)
    ensures Bit(Not(a), i) == !Bit(a, i)
    decreases i
  {
    if i == 0 {
    } else {
      assert Not(a) / 2 == Not(a / 2);
      NotBits(a / 2, i - 1);
    }
  }

  /** Round x up with the mask, over unbounded integers. */
  function Round(x: int, y: int): int {
    And(x + y - 1, Not(y - 1))
  }

  /** The C macro, over uint32_t. */
  function Round32(x: word, y: word): word
    requires 0 < y
  {
    AndNonNegative(Sub(Add(x, y), 1), Not32(y - 1));
    And(Sub(Add(x, y), 1), Not32(y - 1))
  }

  lemma {:induction false} AndNonNegative(a: nat, b: nat)
    ensures 0 <= And(a, b) <= b
    decreases a + b
  {
    if a == 0 || b == 0 {
    } else {
      AndNonNegative(a / 2, b / 2);
    }
  }

  /** A mask and its complement split every number. */
  lemma {:induction false} AndSplit(z: nat, m: nat)
    ensures And(z, m) + And(z, Not(m)) == z
    decreases z + m
  {
    if z == 0 || m == 0 {
      assert And(z, m) == 0;
    } else {
      hide And;
      AndHalves(z, m / 2);
      AndHalves(z, Not(m / 2));
      AndSplit(z / 2, m / 2);
      assert Not(m) == 2 * Not(m / 2) + (1 - m % 2);
    }
  }

  /** Whatever y is, mask rounding never goes below x nor reaches x + y. */
  lemma RoundBounds(x: nat, y: nat)
    requires 0 < y
    ensures x <= Round(x, y) < x + y
  {
    hide And;
    AndSplit(x + y - 1, y - 1);
    AndNonNegative(x + y - 1, y - 1);
  }

  lemma AndHalves(z: nat, b: int)
    ensures And(z, 2 * b) == 2 * And(z / 2, b)
    ensures And(z, 2 * b + 1) == z % 2 + 2 * And(z / 2, b)
  {
    assert 2 * b / 2 == b && (2 * b + 1) / 2 == b;
  }

  lemma {:induction false} AndHighMask(z: nat, k: nat)
    ensures And(z, -Pow2(k)) == z - z % Pow2(k)
    decreases k
  {
    if k == 0 {
      assert And(z, -1) == z;
    } else {
      AndHighMask(z / 2, k - 1);
      assert -Pow2(k) == 2 * -Pow2(k - 1);
      hide And, Pow2;
      AndHighMaskStep(z, Pow2(k - 1));
    }
  }

  lemma AndHighMaskStep(z: nat, q: int)
    requires 0 < q && And(z / 2, -q) == z / 2 - z / 2 % q
    ensures And(z, 2 * -q) == z - z % (2 * q)
  {
    hide And;
    AndHalves(z, -q);
    HalfFloor(z, q);
  }

  lemma HalfMod(z: nat, p: nat)
    requires 0 < p
    ensures z % (2 * p) == 2 * (z / 2 % p) + z % 2
  {
    var q, r := z / 2 / p, z / 2 % p;
    assert z / 2 == q * p + r;
    assert z == q * (2 * p) + (2 * r + z % 2);
    ModUnique(z, 2 * p, q, 2 * r + z % 2);
  }

  lemma HalfFloor(z: nat, p: nat)
    requires 0 < p
    ensures 2 * (z / 2 - z / 2 % p) == z - z % (2 * p)
  {
    HalfMod(z, p);
  }

  lemma ModUnique(z: int, d: int, q: int, r: int)
    requires 0 <= r < d && z == q * d + r
    ensures z % d == r
  {
    var k := q - z / d;
    assert k * d == z % d - r by {
      assert k * d == q * d - z / d * d;
    }
    ZeroMultiple(k, d);
  }

  lemma ZeroMultiple(k: int, d: int)
    requires -d < k * d < d
    ensures k == 0
  {
    assert k >= 1 ==> (k - 1) * d >= 0;
    assert k <= -1 ==> (-1 - k) * d >= 0;
  }

  /** r is the least multiple of y that is at least x. */
  ghost predicate LeastMultiple(r: int, x: int, y: int)
    requires 0 < y
  {
    r % y == 0 && x <= r && forall s :: x <= s && s % y == 0 ==> r <= s
  }

  lemma RoundIsLeastMultiple(x: nat, y: nat)
    requires IsPow2(y)
    ensures 0 < y && LeastMultiple(Round(x, y), x, y)
  {
    hide And;
    var k: nat :| Pow2(k) == y;
    var z, r := x + y - 1, Round(x, y);
    AndHighMask(z, k);
    assert r == z / y * y + 0;
    ModUnique(r, y, z / y, 0);
    forall s | x <= s && s % y == 0
      ensures r <= s
    {
      CeilIsLeast(x, y, s);
    }
  }

  lemma CeilIsLeast(x: int, y: int, s: int)
    requires 0 < y && x <= s && s % y == 0
    ensures (x + y - 1) - (x + y - 1) % y <= s
  {
    var z := x + y - 1;
    var k := z / y - s / y;
    assert k * y == z / y * y - s / y * y;
    assert s / y * y == s;
    assert k >= 1 ==> (k - 1) * y >= 0;
    assert k <= 0 ==> (-k) * y >= 0;
  }

  lemma RoundOneAligned(y: nat)
    requires 0 < y && Round(1, y) % y == 0
    ensures IsPow2(y)
  {
    hide And, IsPow2;
    RoundBounds(1, y);
    LowBit(y);
    var k := Round(1, y) / y - 1;
    assert k * y == Round(1, y) - y;
    ZeroMultiple(k, y);
  }

  lemma {:induction false} Pow2Exceeds(k: nat)
    ensures Pow2(k) > k
  {
    if k == 0 {
    } else {
      Pow2Exceeds(k - 1);
    }
  }

  /** A bit above those of the mask passes through it. */
  lemma {:induction false} AndHighBit(a: nat, m: nat, k: nat)
    requires a < Pow2(k) && m < Pow2(k)
    ensures And(a + Pow2(k), Not(m)) == And(a, Not(m)) + Pow2(k)
    decreases k
  {
    hide And;
    if k == 0 {
      AndOnes(a);
      AndOnes(a + 1);
    } else {
      AndHighBit(a / 2, m / 2, k - 1);
      AndHighStep(a, Not(m / 2), Pow2(k - 1));
      NotHalves(m);
    }
  }

  lemma AndOnes(z: int)
    ensures And(z, Not(0)) == z
  {
  }

  lemma NotHalves(m: nat)
    ensures Not(m) == 2 * Not(m / 2) || Not(m) == 2 * Not(m / 2) + 1
  {
  }

  lemma AndHighStep(a: nat, b: int, h: nat)
    requires And(a / 2 + h, b) == And(a / 2, b) + h
    ensures And(a + 2 * h, 2 * b) == And(a, 2 * b) + 2 * h
    ensures And(a + 2 * h, 2 * b + 1) == And(a, 2 * b + 1) + 2 * h
  {
    hide And;
    AndHalves(a, b);
    AndHalves(a + 2 * h, b);
  }

  lemma NextPow2(k: nat)
    ensures Pow2(k + 1) == 2 * Pow2(k)
  {
  }

  /** Far up, rounding does what it does to 1. */
  lemma RoundFarUp(y: nat, k: nat)
    requires 0 < y < Pow2(k)
    ensures Round(1 + Pow2(k), y) == Round(1, y) + Pow2(k)
  {
    hide And, Pow2;
    AndHighBit(y, y - 1, k);
  }

  lemma MultipleDifference(a: int, b: int, y: int)
    requires 0 < y && a % y == 0 && b % y == 0
    ensures (a - b) % y == 0
  {
    var i, j := a / y, b / y;
    assert a - b == (i - j) * y + 0 by {
      assert a == i * y && b == j * y;
    }
    ModUnique(a - b, y, i - j, 0);
  }

  /** Mask rounding produces multiples of y from some number on exactly when y is a power of
      two; it then does so everywhere. */
  lemma RoundAlignsIffPow2(y: nat, from: nat)
    requires 0 < y
    ensures (forall x :: from <= x ==> Round(x, y) % y == 0) <==> IsPow2(y)
  {
    hide Round, IsPow2, Pow2;
    if IsPow2(y) {
      forall x | from <= x ensures Round(x, y) % y == 0 {
        RoundIsLeastMultiple(x, y);
      }
    }
    if forall x :: from <= x ==> Round(x, y) % y == 0 {
      var k := y + from;
      Pow2Exceeds(k);
      assert Pow2(k + 1) == 2 * Pow2(k) by { NextPow2(k); }
      RoundFarUp(y, k);
      RoundFarUp(y, k + 1);
      var r, r' := Round(1 + Pow2(k), y), Round(1 + Pow2(k + 1), y);
      MultipleDifference(r', r, y);
      MultipleDifference(r, r' - r, y);
      RoundOneAligned(y);
    }
  }

  /** y & -y is y only for a power of two. */
  lemma {:induction false} LowBit(y: int)
    requires 0 < y
    ensures And(y, -y) == y ==> IsPow2(y)
  {
    if y == 1 {
      assert Pow2(0) == 1;
    } else if y % 2 == 1 {
      assert (-y) / 2 == Not(y / 2);
      AndSplit(y / 2, y / 2);
      AndSelf(y / 2);
      assert And(y, -y) == 1;
    } else {
      LowBit(y / 2);
      assert (-y) / 2 == -(y / 2);
      if And(y, -y) == y {
        var k: nat :| Pow2(k) == y / 2;
        assert Pow2(k + 1) == y;
      }
    }
  }

  lemma {:induction false} AndSelf(a: nat)
    ensures And(a, a) == a
  {
    if a == 0 {
    } else {
      AndSelf(a / 2);
    }
  }

  lemma {:induction false} AndTruncatedMask(z: nat, m: nat, w: nat)
    requires z < Pow2(w) && m < Pow2(w)
    ensures And(z, Pow2(w) - 1 - m) == And(z, Not(m))
    decreases w
  {
    if w == 0 {
      assert z == 0;
    } else {
      hide And;
      var q := Pow2(w - 1);
      var b := q - 1 - m / 2;
      assert Not(m) == 2 * Not(m / 2) + (1 - m % 2);
      assert 2 * q - 1 - m == 2 * b + (1 - m % 2);
      AndHalves(z, b);
      AndHalves(z, Not(m / 2));
      AndTruncatedMask(z / 2, m / 2, w - 1);
    }
  }

  /** The two programs round alike wherever the sum does not pass 2^32. */
  lemma RoundAgrees(x: word, y: word)
    requires 0 < y && x + y - 1 < SPACE
    ensures Round32(x, y) == Round(x, y)
  {
    hide And, Pow2;
    WordIsPow2();
    AndTruncatedMask(x + y - 1, y - 1, 32);
  }

  /** The macro at 32, all of it with wrap-around: the next multiple of 32, which is 0 behind the
      last one. */
  lemma Round32Exact(x: word)
    ensures Round32(x, 32) == if x % 32 == 0 then x else (x - x % 32 + 32) % SPACE
  {
    hide And, Pow2;
    WordIsPow2();
    assert Pow2(5) == 32 by { FivePow2(); }
    var z := Sub(Add(x, 32), 1);
    AndTruncatedMask(z, 31, 32);
    AndHighMask(z, 5);
    NextMultiple(x, z);
  }

  lemma FivePow2()
    ensures Pow2(5) == 32
  {
  }

  lemma NextMultiple(x: word, z: word)
    requires z == if x + 31 < SPACE then x + 31 else x + 31 - SPACE
    ensures z - z % 32 == if x % 32 == 0 then x else (x - x % 32 + 32) % SPACE
  {
    var q, r := x / 32, x % 32;
    if r == 0 {
      ModUnique(z, 32, q, 31);
    } else if x + 31 < SPACE {
      ModUnique(z, 32, q + 1, r - 1);
    } else {
      ModUnique(z, 32, 0, r - 1);
    }
  }

  lemma WordIsPow2()
    ensures Pow2(32) == SPACE
  {
    assert Pow2(8) == 0x100;
    assert Pow2(16) == 0x1_0000;
    assert Pow2(24) == 0x100_0000;
  }

  /** Setting the Thumb bit. */
  function ThumbAddress(x: word): (t: word)
    ensures t == x - x % 2 + 1
  {
    OrOne(x);
    Or(x, 1)
  }

  lemma OrOne(x: nat)
    ensures Or(x, 1) == x - x % 2 + 1
  {
    var a := Not(x);
    if a != -1 {
      assert And(a, Not(1)) == 2 * And(a / 2, -1);
    }
  }
}
