/** The PCG step and output, and which draws bounded sampling uses. */
module Pcg {
  import opened Bitwise

  const MUL: nat := 6364136223846793005
  const INC: nat := 11981177638785157926

  /** One step of the linear congruential state. */
  function NextState(state: uint64): uint64 {
    (state * MUL + INC) % TWO_64
  }

  /** `x >> n | x << (32 - n)` on 32-bit words. */
  function RotateRight32(x: nat, n: nat): nat
    requires x < TWO_32 && n < 32
  {
    Or(ShiftRight(x, n), x * Pow2(32 - n) % TWO_32)
  }

  /** The two halves do not overlap: the low `n` bits move above the others. */
  lemma {:induction false} RotationMovesLowBits(x: nat, n: nat)
    requires x < TWO_32 && n < 32
    ensures RotateRight32(x, n) == x / Pow2(n) + (x % Pow2(n)) * Pow2(32 - n)
    ensures RotateRight32(x, n) < TWO_32
  {
    hide Or;
    var p, h := Pow2(n), Pow2(32 - n);
    assert p * h == TWO_32 by {
      Pow2At32And64();
      Pow2Adds(n, 32 - n);
    }
    SplitProduct(x, p, h);
    ShiftIsDivision(x, n);
    OrOfDisjoint(x / p, x % p, 32 - n);
  }

  /** Shifting left by `h` drops the quotient and keeps the remainder, moved up. */
  lemma {:induction false} SplitProduct(x: nat, p: nat, h: nat)
    requires p > 0 && h > 0 && x < p * h
    ensures x / p < h
    ensures x * h % (p * h) == (x % p) * h
    ensures x / p + (x % p) * h < p * h
  {
    var q, r := x / p, x % p;
    QuotientBelow(x, p, h);
    assert x == p * q + r;
    Scaled(p, h, q, r);
    ScaledRemainder(x * h, p * h, q, r * h);
  }

  lemma ScaledRemainder(x: nat, d: nat, q: nat, r: nat)
    requires r < d && x == d * q + r
    ensures x % d == r
  {
    QuotientUnique(x, d, q, r);
  }

  lemma {:induction false} QuotientBelow(x: nat, p: nat, h: nat)
    requires p > 0 && x < p * h
    ensures x / p < h
  {
    if h <= x / p {
      AtMost(p, h, x / p);
    }
  }

  lemma {:induction false} Scaled(p: nat, h: nat, q: nat, r: nat)
    requires r < p && h > 0
    ensures (p * q + r) * h == (p * h) * q + r * h
    ensures r * h + h <= p * h
  {
    assert (p * q + r) * h == (p * q) * h + r * h;
    Reorder(p, q, h);
    AtLeastOneMore(h, r, p);
  }

  lemma {:induction false} Reorder(p: nat, q: nat, h: nat)
    ensures (p * q) * h == (p * h) * q
  {
  }

  /** The output permutation: xor-shift, then rotate by the top bits. */
  function Output(state: uint64): (x: nat)
    ensures x < TWO_32
  {
    var rot := ShiftRight(state, 59) % 32;
    RotationMovesLowBits(ShiftRight(Xor(ShiftRight(state, 18), state), 27) % TWO_32, rot);
    var xor := ShiftRight(Xor(ShiftRight(state, 18), state), 27) % TWO_32;
    RotateRight32(xor, ShiftRight(state, 59) % 32)
  }

  /** `w` with its low `r` of 32 digits moved above the others. */
  function LowDigitsOnTop(w: nat, r: nat): nat
    requires r < 32
  {
    w / Pow2(r) + (w % Pow2(r)) * Pow2(32 - r)
  }

  /** The top five digits of a state. */
  function TopFive(state: uint64): (r: nat)
    ensures r < 32
  {
    state / 0x800_0000_0000_0000
  }

  /** A draw, in terms of quotients: the word below the top five digits of the state, xor-shifted, with as
      many of its low digits moved to the top as these five digits say. */
  lemma {:induction false} OutputIs(state: uint64)
    ensures Output(state) == LowDigitsOnTop(Xor(state / 0x4_0000, state) / 0x800_0000 % TWO_32, TopFive(state))
  {
    hide Pow2, Xor, Or, ShiftRight;
    PowersUsed();
    ShiftIsDivision(state, 18);
    ShiftIsDivision(Xor(state / 0x4_0000, state), 27);
    ShiftIsDivision(state, 59);
    RotationMovesLowBits(Xor(state / 0x4_0000, state) / 0x800_0000 % TWO_32, TopFive(state));
  }

  lemma PowersUsed()
    ensures Pow2(18) == 0x4_0000 && Pow2(27) == 0x800_0000 && Pow2(59) == 0x800_0000_0000_0000
  {
    assert Pow2(9) == 512;
    assert Pow2(18) == 0x4_0000 by { Pow2Adds(9, 9); }
    assert Pow2(27) == 0x800_0000 by { Pow2Adds(18, 9); }
    assert Pow2(32) == TWO_32 by { Pow2At32And64(); }
    assert Pow2(59) == 0x800_0000_0000_0000 by { Pow2Adds(32, 27); }
  }

  /** High and low half of the 64-bit product of a draw and the bound. */
  function High(x: nat, n: nat): nat {
    x * n / TWO_32
  }

  function Low(x: nat, n: nat): (l: nat)
    ensures l < TWO_32
  {
    x * n % TWO_32
  }

  /** The rejection threshold: negate, subtract, and only then divide. */
  function Threshold(n: nat): nat
    requires 0 < n < TWO_32
  {
    var t := (TWO_32 - n) % TWO_32;
    if t >= n then
      var t' := t - n;
      if t' >= n then t' % n else t'
    else t
  }

  /** A draw is used unless its low half falls below the bound and the threshold. */
  predicate Accepted(x: nat, n: nat)
    requires 0 < n < TWO_32
  {
    Low(x, n) >= n || Low(x, n) >= Threshold(n)
  }

  /** The inverse of the multiplier modulo 2^64. */
  const MUL_INVERSE: nat := 13877824140714322085

  lemma InverseMultiplies()
    ensures MUL * MUL_INVERSE % TWO_64 == 1
  {
  }

  /** No state has two predecessors: the step is a permutation of the 2^64 states. */
  lemma {:induction false} NextStateIsInjective(s: uint64, t: uint64)
    requires NextState(s) == NextState(t)
    ensures s == t
  {
    var k := (s * MUL + INC) / TWO_64 - (t * MUL + INC) / TWO_64;
    assert (s - t) * MUL == k * TWO_64;
    var j := MUL * MUL_INVERSE / TWO_64;
    InverseMultiplies();
    assert MUL * MUL_INVERSE == j * TWO_64 + 1;
    assert (s - t) * (MUL * MUL_INVERSE) == k * TWO_64 * MUL_INVERSE;
    assert (s - t) * (j * TWO_64 + 1) == (s - t) * j * TWO_64 + (s - t);
    assert s - t == (k * MUL_INVERSE - (s - t) * j) * TWO_64;
  }

  /** The threshold is 2^32 modulo the bound, however it was computed. */
  lemma {:induction false} ThresholdIsRemainder(n: nat)
    requires 0 < n < TWO_32
    ensures Threshold(n) == TWO_32 % n < n
  {
    var t := TWO_32 - n;
    if t < n {
      QuotientUnique(TWO_32, n, 1, t);
    } else if t - n < n {
      QuotientUnique(TWO_32, n, 2, t - n);
    } else {
      var q, r := (t - n) / n, (t - n) % n;
      assert TWO_32 == n * (q + 2) + r;
      QuotientUnique(TWO_32, n, q + 2, r);
    }
  }

  lemma {:induction false} AcceptedAboveRemainder(x: nat, n: nat)
    requires 0 < n < TWO_32
    ensures Accepted(x, n) <==> Low(x, n) >= TWO_32 % n
  {
    ThresholdIsRemainder(n);
  }

  lemma {:induction false} ResultBelowBound(x: nat, n: nat)
    requires x < TWO_32 && n > 0
    ensures High(x, n) < n
  {
    AtLeastOneMore(n, x, TWO_32);
    assert TWO_32 * High(x, n) <= x * n;
  }

  /** The draws that are used and yield `k`. */
  ghost function Yielding(n: nat, k: nat): set<nat>
    requires 0 < n < TWO_32
  {
    set x: nat | x < TWO_32 && Accepted(x, n) && High(x, n) == k
  }

  /** Every result below the bound comes from the same number of draws. */
  lemma {:induction false} Uniform(n: nat, k: nat)
    requires 0 < n < TWO_32 && k < n
    ensures |Yielding(n, k)| == TWO_32 / n
  {
    var q, t := TWO_32 / n, TWO_32 % n;
    var first := RoundedUp(k * TWO_32 + t, n);
    RangeIs(first, q);
    forall x: nat ensures x in Yielding(n, k) <==> x in Range(first, q) {
      YieldsInRange(x, n, k);
    }
    assert Yielding(n, k) == Range(first, q);
  }

  lemma {:induction false} YieldsInRange(x: nat, n: nat, k: nat)
    requires 0 < n < TWO_32 && k < n
    ensures (x < TWO_32 && Accepted(x, n) && High(x, n) == k) <==>
            var first := RoundedUp(k * TWO_32 + TWO_32 % n, n);
            first <= x < first + TWO_32 / n
  {
    hide Accepted;
    var q, t := TWO_32 / n, TWO_32 % n;
    var low := k * TWO_32 + t;
    AcceptedAboveRemainder(x, n);
    HalvesOfProduct(x * n, k, t);
    RoundedUpIsLeast(low, n, x);
    RoundedUpShift(low, n, x, q);
    assert low + n * q == (k + 1) * TWO_32;
    if x >= TWO_32 {
      AtMost(n, TWO_32, x);
      assert n * TWO_32 >= (k + 1) * TWO_32;
    }
  }

  lemma {:induction false} HalvesOfProduct(m: nat, k: nat, t: nat)
    requires t < TWO_32
    ensures (m / TWO_32 == k && m % TWO_32 >= t) <==> k * TWO_32 + t <= m < (k + 1) * TWO_32
  {
  }

  /** The least `x` with `x * n >= a`. */
  function RoundedUp(a: nat, n: nat): nat
    requires n > 0
  {
    (a + n - 1) / n
  }

  lemma {:induction false} RoundedUpIsLeast(a: nat, n: nat, x: nat)
    requires n > 0
    ensures RoundedUp(a, n) <= x <==> a <= x * n
  {
    var u := RoundedUp(a, n);
    assert a + n - 1 == n * u + (a + n - 1) % n;
    if u <= x {
      AtMost(n, u, x);
    } else {
      AtLeastOneMore(n, x, u);
    }
  }

  lemma {:induction false} RoundedUpShift(a: nat, n: nat, x: nat, q: nat)
    requires n > 0
    ensures x < RoundedUp(a, n) + q <==> x * n < a + n * q
  {
    if x >= q {
      RoundedUpIsLeast(a, n, x - q);
      assert (x - q) * n == x * n - n * q;
    } else {
      AtLeastOneMore(n, x, q);
    }
  }

  ghost function Range(first: nat, q: nat): set<nat> {
    if q == 0 then {} else Range(first, q - 1) + {first + q - 1}
  }

  lemma {:induction false} RangeIs(first: nat, q: nat)
    ensures forall x: nat :: x in Range(first, q) <==> first <= x < first + q
    ensures |Range(first, q)| == q
  {
    if q > 0 {
      RangeIs(first, q - 1);
    }
  }

  /** The state after `i` more steps. */
  function StateAfter(state: uint64, i: nat): uint64 {
    if i == 0 then state else NextState(StateAfter(state, i - 1))
  }

  /** The `i`-th draw from a state, counting from zero. */
  function Draw(state: uint64, i: nat): nat {
    Output(StateAfter(state, i + 1))
  }

  lemma StateAfterStarts(state: uint64)
    ensures StateAfter(state, 0) == state && StateAfter(state, 1) == NextState(state)
  {
  }

  lemma StateAfterStep(state: uint64, i: nat)
    ensures StateAfter(state, i + 1) == NextState(StateAfter(state, i))
  {
  }

  lemma HalvesAre(x: nat, n: nat, m: nat)
    requires m == x * n
    ensures High(x, n) == m / TWO_32 && Low(x, n) == m % TWO_32
  {
  }
}
