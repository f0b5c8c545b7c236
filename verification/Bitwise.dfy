/** Bitwise operators of unsigned machine words, on naturals.
    `And` and `Xor` follow the binary digits; `Pow2(k)` is `1 << k`. */
module Bitwise {

  const TWO_32: nat := 0x1_0000_0000
  const TWO_64: nat := 0x1_0000_0000_0000_0000

  type uint64 = x: nat | x < TWO_64

  function Pow2(k: nat): (r: nat)
    ensures r >= 1
  {
    if k == 0 then 1 else 2 * Pow2(k - 1)
  }

  /** Binary digit `k` of `x`. */
  function Bit(x: nat, k: nat): (b: nat)
    ensures b <= 1
  {
    if k == 0 then x % 2 else Bit(x / 2, k - 1)
  }

  function And(x: nat, y: nat): nat
  {
    if x == 0 || y == 0 then 0
    else (if x % 2 == 1 && y % 2 == 1 then 1 else 0) + 2 * And(x / 2, y / 2)
  }

  function Xor(x: nat, y: nat): nat
    decreases x + y
  {
    if x == 0 then y else if y == 0 then x
    else (if x % 2 != y % 2 then 1 else 0) + 2 * Xor(x / 2, y / 2)
  }

  function Or(x: nat, y: nat): nat
    decreases x + y
  {
    if x == 0 then y else if y == 0 then x
    else (if x % 2 == 1 || y % 2 == 1 then 1 else 0) + 2 * Or(x / 2, y / 2)
  }

  /** Number of one digits. */
  function PopCount(x: nat): nat
  {
    if x == 0 then 0 else x % 2 + PopCount(x / 2)
  }

  lemma {:induction false} Pow2Adds(j: nat, k: nat)
    ensures Pow2(j + k) == Pow2(j) * Pow2(k)
  {
    if j > 0 {
      Pow2Adds(j - 1, k);
    }
  }

  lemma {:induction false} Pow2Grows(j: nat, k: nat)
    requires j < k
    ensures 2 * Pow2(j) <= Pow2(k)
  {
    if j + 1 < k {
      Pow2Grows(j, k - 1);
    }
  }

  lemma Pow2At32And64()
    ensures Pow2(10) == 1024 && Pow2(32) == TWO_32 && Pow2(64) == TWO_64
  {
    assert Pow2(2) == 4;
    assert Pow2(8) == 256 by { Pow2Adds(2, 2); Pow2Adds(4, 4); }
    assert Pow2(10) == 1024 by { Pow2Adds(2, 8); }
    assert Pow2(16) == 65536 by { Pow2Adds(8, 8); }
    assert Pow2(32) == TWO_32 by { Pow2Adds(16, 16); }
    assert Pow2(64) == TWO_64 by { Pow2Adds(32, 32); }
  }

  /** A number is determined by its digits. */
  lemma {:induction false} DigitsDetermine(x: nat, y: nat)
    requires forall k: nat :: Bit(x, k) == Bit(y, k)
    ensures x == y
    decreases x + y
  {
    if x + y > 0 {
      assert Bit(x, 0) == Bit(y, 0);
      forall k: nat ensures Bit(x / 2, k) == Bit(y / 2, k) {
        assert Bit(x, k + 1) == Bit(y, k + 1);
      }
      if x / 2 + y / 2 < x + y {
        DigitsDetermine(x / 2, y / 2);
      }
    }
  }

  lemma {:induction false} ZeroHasNoDigits(k: nat)
    ensures Bit(0, k) == 0
  {
    if k > 0 {
      ZeroHasNoDigits(k - 1);
    }
  }

  /** `x >> k`. */
  function ShiftRight(x: nat, k: nat): (r: nat)
    ensures r <= x
  {
    if k == 0 then x else ShiftRight(x / 2, k - 1)
  }

  lemma {:induction false} DigitOfShift(x: nat, k: nat)
    ensures Bit(x, k) == ShiftRight(x, k) % 2
    ensures ShiftRight(x, k + 1) == ShiftRight(x, k) / 2
  {
    if k > 0 {
      DigitOfShift(x / 2, k - 1);
    }
  }

  lemma {:induction false} ShiftedOut(x: nat, k: nat)
    requires x < Pow2(k)
    ensures ShiftRight(x, k) == 0
  {
    if k > 0 {
      ShiftedOut(x / 2, k - 1);
    }
  }

  /** Shifting right is dividing by a power of two. */
  lemma {:induction false} ShiftIsDivision(x: nat, k: nat)
    ensures x == Pow2(k) * ShiftRight(x, k) + x % Pow2(k)
    ensures ShiftRight(x, k) == x / Pow2(k)
  {
    if k > 0 {
      var p, q := Pow2(k - 1), ShiftRight(x, k);
      ShiftIsDivision(x / 2, k - 1);
      var r := x / 2 % p;
      Twice(p, q);
      assert x == (2 * p) * q + (2 * r + x % 2);
      QuotientUnique(x, 2 * p, q, 2 * r + x % 2);
    }
  }

  lemma {:induction false} Twice(p: nat, q: nat)
    ensures (2 * p) * q == 2 * (p * q) == p * (2 * q)
  {
  }

  lemma {:induction false} Regroup(a: nat, b: nat, s: nat, t: nat)
    ensures a * (b * s + t) == (a * b) * s + a * t
  {
    assert a * (b * s + t) == a * (b * s) + a * t;
    assert a * (b * s) == (a * b) * s;
  }

  lemma {:induction false} AtMost(p: nat, a: nat, b: nat)
    requires a <= b
    ensures p * a <= p * b
  {
  }

  lemma {:induction false} AtLeastOneMore(d: nat, a: nat, b: nat)
    requires a < b
    ensures d * a + d <= d * b
  {
    assert d * b == d * (a + 1) + d * (b - a - 1);
  }

  lemma {:induction false} DivisionUnique(d: nat, q: nat, r: nat, q': nat, r': nat)
    requires r < d && r' < d && d * q + r == d * q' + r'
    ensures q == q' && r == r'
  {
    if q < q' {
      AtLeastOneMore(d, q, q');
    } else if q' < q {
      AtLeastOneMore(d, q', q);
    }
  }

  lemma QuotientUnique(x: nat, d: nat, q: nat, r: nat)
    requires d > 0 && r < d && x == d * q + r
    ensures x / d == q && x % d == r
  {
    DivisionUnique(d, q, r, x / d, x % d);
  }

  /** Testing a one-bit mask: `x & (1 << k)`. */
  lemma {:induction false} AndPow2(x: nat, k: nat)
    ensures And(x, Pow2(k)) == if Bit(x, k) == 1 then Pow2(k) else 0
  {
    if x == 0 {
      ZeroHasNoDigits(k);
    } else if k > 0 {
      assert Pow2(k) % 2 == 0 && Pow2(k) / 2 == Pow2(k - 1);
      AndPow2(x / 2, k - 1);
    } else {
      assert And(x / 2, 0) == 0;
    }
  }

  lemma {:induction false} XorValue(x: nat, k: nat)
    ensures Xor(x, Pow2(k)) == if Bit(x, k) == 1 then x - Pow2(k) else x + Pow2(k)
    ensures Bit(x, k) == 1 ==> Pow2(k) <= x
  {
    if k == 0 {
      assert Xor(x / 2, 0) == x / 2;
    } else {
      assert Pow2(k) / 2 == Pow2(k - 1) && Pow2(k) % 2 == 0;
      XorValue(x / 2, k - 1);
    }
  }

  lemma {:induction false} XorDigit(x: nat, k: nat, j: nat)
    ensures Bit(Xor(x, Pow2(k)), j) == if j == k then 1 - Bit(x, k) else Bit(x, j)
    decreases k
  {
    var p := Pow2(k);
    var y := Xor(x, p);
    if k == 0 {
      assert Xor(x / 2, 0) == x / 2;
      assert y / 2 == x / 2 && y % 2 == 1 - x % 2;
    } else {
      assert p / 2 == Pow2(k - 1) && p % 2 == 0;
      assert y % 2 == x % 2 && y / 2 == Xor(x / 2, p / 2);
      if j > 0 {
        XorDigit(x / 2, k - 1, j - 1);
      }
    }
  }

  lemma {:induction false} XorPopCount(x: nat, k: nat)
    ensures PopCount(Xor(x, Pow2(k))) == PopCount(x) + 1 - 2 * Bit(x, k)
    decreases k
  {
    var p := Pow2(k);
    var y := Xor(x, p);
    PopCountHalves(x);
    PopCountHalves(y);
    if k == 0 {
      assert Xor(x / 2, 0) == x / 2;
      assert y / 2 == x / 2 && y % 2 == 1 - x % 2;
    } else {
      assert p / 2 == Pow2(k - 1) && p % 2 == 0;
      assert y % 2 == x % 2 && y / 2 == Xor(x / 2, p / 2);
      XorPopCount(x / 2, k - 1);
    }
  }

  /** Flipping one bit: `x ^ (1 << k)`. */
  lemma {:induction false} XorPow2(x: nat, k: nat)
    ensures Xor(x, Pow2(k)) == if Bit(x, k) == 1 then x - Pow2(k) else x + Pow2(k)
    ensures forall j: nat :: Bit(Xor(x, Pow2(k)), j) == if j == k then 1 - Bit(x, k) else Bit(x, j)
    ensures PopCount(Xor(x, Pow2(k))) == PopCount(x) + 1 - 2 * Bit(x, k)
  {
    XorValue(x, k);
    XorPopCount(x, k);
    forall j: nat ensures Bit(Xor(x, Pow2(k)), j) == if j == k then 1 - Bit(x, k) else Bit(x, j) {
      XorDigit(x, k, j);
    }
  }

  lemma PopCountHalves(x: nat)
    ensures PopCount(x) == x % 2 + PopCount(x / 2)
  {
  }

  /** Setting or clearing a bit below 64 stays in the word. */
  lemma XorStaysInWord(x: uint64, k: nat)
    requires k < 64
    ensures Xor(x, Pow2(k)) < TWO_64
  {
    Pow2At32And64();
    Pow2Grows(k, 64);
    XorFits(x, Pow2(k), 64);
  }

  /** The number of trailing zero digits of a non-zero word. */
  function TrailingZeros(x: nat): (k: nat)
    requires x > 0
    ensures Bit(x, k) == 1
    ensures forall j: nat :: j < k ==> Bit(x, j) == 0
  {
    if x % 2 == 1 then 0 else 1 + TrailingZeros(x / 2)
  }

  /** `x & (x - 1)` clears exactly the lowest one digit. */
  lemma {:induction false} ClearsLowestDigit(x: nat)
    requires x > 0
    ensures And(x, x - 1) == x - Pow2(TrailingZeros(x))
    ensures And(x, x - 1) < x
  {
    if x % 2 == 1 {
      AndSelf(x / 2);
      assert (x - 1) / 2 == x / 2;
      assert And(x, x - 1) == 2 * And(x / 2, x / 2) || x == 1;
    } else {
      ClearsLowestDigit(x / 2);
      assert (x - 1) / 2 == x / 2 - 1;
      assert And(x, x - 1) == 2 * And(x / 2, x / 2 - 1);
    }
  }

  lemma {:induction false} AndSelf(x: nat)
    ensures And(x, x) == x
  {
    if x > 0 {
      AndSelf(x / 2);
    }
  }

  lemma AndOddMask(x: nat, m: nat)
    ensures And(x, 2 * m + 1) == x % 2 + 2 * And(x / 2, m)
  {
    assert (2 * m + 1) / 2 == m && (2 * m + 1) % 2 == 1;
    if m == 0 {
      assert And(x / 2, 0) == 0;
    }
  }

  /** A mask of `k` low ones selects the remainder modulo `2^k`. */
  lemma {:induction false} AndLowMask(x: nat, k: nat)
    ensures And(x, Pow2(k) - 1) == x % Pow2(k)
  {
    if k == 0 {
      assert And(x, 0) == 0;
    } else {
      hide And;
      AndLowMask(x / 2, k - 1);
      AndDoubledMask(x, Pow2(k - 1));
    }
  }

  lemma {:induction false} AndDoubledMask(x: nat, p: nat)
    requires p > 0 && And(x / 2, p - 1) == x / 2 % p
    ensures And(x, 2 * p - 1) == x % (2 * p)
  {
    hide And;
    AndOddMask(x, p - 1);
    assert 2 * (p - 1) + 1 == 2 * p - 1;
    RemainderOfDouble(x, p);
  }

  lemma {:induction false} LowDigits(x: nat, k: nat)
    requires k > 0
    ensures x % Pow2(k) == 2 * (x / 2 % Pow2(k - 1)) + x % 2
  {
    RemainderOfDouble(x, Pow2(k - 1));
  }

  lemma {:induction false} RemainderOfDouble(x: nat, p: nat)
    requires p > 0
    ensures x % (2 * p) == 2 * (x / 2 % p) + x % 2
  {
    var q, r := x / 2 / p, x / 2 % p;
    Twice(p, q);
    assert x / 2 == p * q + r;
    QuotientUnique(x, 2 * p, q, 2 * r + x % 2);
  }

  /** Joining digits below `k` with digits from `k` on. */
  lemma {:induction false} OrOfDisjoint(low: nat, high: nat, k: nat)
    requires low < Pow2(k)
    ensures Or(low, high * Pow2(k)) == low + high * Pow2(k)
  {
    if k > 0 && low > 0 && high > 0 {
      var h := high * Pow2(k - 1);
      assert high * Pow2(k) == 2 * h;
      OrOfDisjoint(low / 2, high, k - 1);
    }
  }

  /** Reducing by a multiple of the modulus first makes no difference. */
  lemma {:induction false} ModOfMultiple(x: nat, a: nat, b: nat, ab: nat)
    requires a > 0 && b > 0 && ab == a * b && ab > 0
    ensures (x % ab) % a == x % a
  {
    var q, r := x / ab, x % ab;
    var q', r' := r / a, r % a;
    Regroup(a, b, q, q');
    assert a * (b * q + q') == ab * q + a * q';
    assert x == ab * q + r && r == a * q' + r';
    QuotientUnique(x, a, b * q + q', r');
  }

  lemma {:induction false} AddMultiple(p: nat, q: nat, y: nat)
    requires p > 0
    ensures (p * q + y) % p == y % p
  {
    assert p * q + y == p * (q + y / p) + y % p;
    QuotientUnique(p * q + y, p, q + y / p, y % p);
  }

  lemma {:induction false} WordMod(x: nat, k: nat)
    requires k <= 64
    ensures (x % TWO_64) % Pow2(k) == x % Pow2(k)
  {
    hide Pow2;
    Pow2At32And64();
    Pow2Adds(k, 64 - k);
    ModOfMultiple(x, Pow2(k), Pow2(64 - k), TWO_64);
  }

  lemma {:induction false} XorHalves(x: nat, y: nat)
    ensures Xor(x, y) / 2 == Xor(x / 2, y / 2)
    ensures Xor(x, y) % 2 == if x % 2 != y % 2 then 1 else 0
  {
  }

  lemma {:induction false} ShiftOfXor(x: nat, y: nat, k: nat)
    ensures ShiftRight(Xor(x, y), k) == Xor(ShiftRight(x, k), ShiftRight(y, k))
  {
    if k > 0 {
      XorHalves(x, y);
      ShiftOfXor(x / 2, y / 2, k - 1);
    }
  }

  lemma {:induction false} ShiftTwice(x: nat, j: nat, k: nat)
    ensures ShiftRight(ShiftRight(x, j), k) == ShiftRight(x, j + k)
  {
    if j > 0 {
      ShiftTwice(x / 2, j - 1, k);
    }
  }

  lemma {:induction false} XorCancels(x: nat, y: nat)
    ensures Xor(x, Xor(x, y)) == y
    decreases x + y
  {
    if x > 0 || y > 0 {
      hide Xor;
      XorHalves(x, y);
      XorHalves(x, Xor(x, y));
      XorCancels(x / 2, y / 2);
    } else {
      assert Xor(0, 0) == 0;
    }
  }

  lemma {:induction false} XorFits(x: nat, y: nat, n: nat)
    requires x < Pow2(n) && y < Pow2(n)
    ensures Xor(x, y) < Pow2(n)
  {
    if n > 0 {
      XorHalves(x, y);
      XorFits(x / 2, y / 2, n - 1);
    }
  }

  lemma {:induction false} AndHalves(x: nat, y: nat)
    ensures And(x, y) / 2 == And(x / 2, y / 2)
    ensures And(x, y) % 2 == if x % 2 == 1 && y % 2 == 1 then 1 else 0
  {
  }

  lemma {:induction false} OrHalves(x: nat, y: nat)
    ensures Or(x, y) / 2 == Or(x / 2, y / 2)
    ensures Or(x, y) % 2 == if x % 2 == 1 || y % 2 == 1 then 1 else 0
  {
  }

  /** The operators work digit by digit; a number is determined by its digits. */
  lemma {:induction false} DigitByDigit(x: nat, y: nat, k: nat)
    ensures Bit(And(x, y), k) == if Bit(x, k) == 1 && Bit(y, k) == 1 then 1 else 0
    ensures Bit(Or(x, y), k) == if Bit(x, k) == 1 || Bit(y, k) == 1 then 1 else 0
    ensures Bit(Xor(x, y), k) == if Bit(x, k) != Bit(y, k) then 1 else 0
  {
    AndHalves(x, y);
    OrHalves(x, y);
    XorHalves(x, y);
    if k > 0 {
      hide And, Or, Xor;
      DigitByDigit(x / 2, y / 2, k - 1);
    }
  }
}
