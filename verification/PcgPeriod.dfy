/** The cycles of the PCG state. The increment is even, so a step keeps the parity of
    the state; the states of either parity form one cycle of length 2^63. Hence every
    draw comes up sooner or later, and rejection sampling ends from every state. */
module PcgPeriod {
  import opened Bitwise
  import opened Pcg

  /** `2^k` steps multiply the state by this number and add the other. */
  function JumpMul(k: nat): nat {
    if k == 0 then MUL else JumpMul(k - 1) * JumpMul(k - 1)
  }

  function JumpAdd(k: nat): nat {
    if k == 0 then INC else (JumpMul(k - 1) + 1) * JumpAdd(k - 1)
  }

  lemma {:induction false} StateAfterAdds(state: uint64, i: nat, j: nat)
    ensures StateAfter(state, i + j) == StateAfter(StateAfter(state, i), j)
  {
    hide NextState;
    if j > 0 {
      StateAfterAdds(state, i, j - 1);
    }
  }

  /** Reducing a factor first makes no difference. */
  lemma {:induction false} AffineOfRemainder(a: nat, x: nat, c: nat)
    ensures (a * (x % TWO_64) + c) % TWO_64 == (a * x + c) % TWO_64
  {
    var q, r := x / TWO_64, x % TWO_64;
    assert a * x == a * (TWO_64 * q) + a * r;
    RemainderOfSum(a * q, a * r + c);
    Reassociate(a, q);
  }

  lemma {:induction false} Reassociate(a: nat, q: nat)
    ensures a * (TWO_64 * q) == TWO_64 * (a * q)
  {
  }

  lemma {:induction false} RemainderOfSum(q: int, y: int)
    ensures (TWO_64 * q + y) % TWO_64 == y % TWO_64
  {
  }

  /** A step of any multiplier and increment. */
  function Affine(a: nat, c: nat, s: nat): (s': uint64) {
    (a * s + c) % TWO_64
  }

  lemma StepIsAffine(s: uint64)
    ensures NextState(s) == Affine(MUL, INC, s)
  {
  }

  lemma {:induction false} AffineTwice(a: nat, c: nat, s: nat)
    ensures Affine(a, c, Affine(a, c, s)) == Affine(a * a, (a + 1) * c, s)
  {
    AffineOfRemainder(a, a * s + c, c);
    assert a * (a * s + c) == a * (a * s) + a * c;
    assert a * (a * s) == (a * a) * s;
    assert (a + 1) * c == a * c + c;
  }

  lemma JumpTwice(k: nat, s: nat)
    requires k > 0
    ensures var a, c := JumpMul(k - 1), JumpAdd(k - 1);
            Affine(a, c, Affine(a, c, s)) == Affine(JumpMul(k), JumpAdd(k), s)
  {
    hide Affine;
    AffineTwice(JumpMul(k - 1), JumpAdd(k - 1), s);
  }

  lemma {:induction false} Jump(state: uint64, k: nat)
    ensures StateAfter(state, Pow2(k)) == Affine(JumpMul(k), JumpAdd(k), state)
    decreases k
  {
    hide NextState, Affine;
    if k == 0 {
      StateAfterStarts(state);
      StepIsAffine(state);
    } else {
      var half := Pow2(k - 1);
      hide StateAfter, JumpMul, JumpAdd;
      assert Pow2(k) == half + half;
      StateAfterAdds(state, half, half);
      Jump(state, k - 1);
      Jump(StateAfter(state, half), k - 1);
      JumpTwice(k, state);
    }
  }

  /** The multiplier of `2^k` steps is one more than a multiple of `2^(k + 2)`. */
  lemma {:induction false} MulNearOne(k: nat) returns (u: nat)
    ensures JumpMul(k) == 1 + 4 * Pow2(k) * u
  {
    if k == 0 {
      u := (MUL - 1) / 4;
    } else {
      var v := MulNearOne(k - 1);
      var w := Pow2(k - 1) * v;
      u := v + 2 * w * v;
      SquareNearOne(Pow2(k - 1), v, w);
    }
  }

  lemma {:induction false} SquareNearOne(p: nat, v: nat, w: nat)
    requires w == p * v
    ensures (1 + 4 * p * v) * (1 + 4 * p * v) == 1 + 4 * (2 * p) * (v + 2 * w * v)
  {
    assert 4 * p * v == 4 * w;
    assert (1 + 4 * w) * (1 + 4 * w) == 1 + 8 * w + 16 * (w * w);
    assert (2 * p) * (v + 2 * w * v) == 2 * w + 4 * (w * w) by {
      assert p * (w * v) == w * w;
    }
  }

  /** What `2^k` steps add is an odd multiple of `2^(k + 1)`. */
  lemma {:induction false} AddIsOddMultiple(k: nat) returns (v: nat)
    ensures JumpAdd(k) == 2 * Pow2(k) * (2 * v + 1)
  {
    if k == 0 {
      v := (INC / 2 - 1) / 2;
    } else {
      var u := MulNearOne(k - 1);
      var before := AddIsOddMultiple(k - 1);
      var w := Pow2(k - 1) * u;
      v := before + 2 * w * before + w;
      OddTimesTwiceOdd(Pow2(k - 1), u, w, before);
    }
  }

  lemma {:induction false} OddTimesTwiceOdd(p: nat, u: nat, w: nat, v: nat)
    requires w == p * u
    ensures (1 + 4 * p * u + 1) * (2 * p * (2 * v + 1)) == 2 * (2 * p) * (2 * (v + 2 * w * v + w) + 1)
  {
    assert 4 * p * u == 4 * w;
    var odd := 2 * v + 1;
    assert (2 + 4 * w) * (2 * p * odd) == (2 * (2 * p)) * ((1 + 2 * w) * odd);
    assert (1 + 2 * w) * odd == 2 * (v + 2 * w * v + w) + 1;
  }

  /** `z + p` modulo `2 * p`: flips the highest of the digits kept. */
  function Flipped(z: nat, p: nat): nat
    requires p > 0
  {
    (z + p) % (2 * p)
  }

  lemma {:induction false} FlippedDigit(a: nat, c: nat, p: nat, z: nat, u: nat, v: nat)
    requires p > 0 && a == 1 + (2 * p) * u && c == p * (2 * v + 1)
    ensures (a * z + c) % (2 * p) == Flipped(z, p)
  {
    assert a * z == z + (2 * p) * (u * z);
    assert c == p + (2 * p) * v;
    assert (2 * p) * (u * z) + (2 * p) * v == (2 * p) * (u * z + v);
    AddMultiple(2 * p, u * z + v, z + p);
  }

  lemma {:induction false} AffineFlips(a: nat, c: nat, k: nat, z: nat, u: nat, v: nat)
    requires k < 64 && a == 1 + (2 * Pow2(k)) * u && c == Pow2(k) * (2 * v + 1)
    ensures Affine(a, c, z) % Pow2(k + 1) == Flipped(z, Pow2(k))
  {
    WordMod(a * z + c, k + 1);
    FlippedDigit(a, c, Pow2(k), z, u, v);
  }

  /** Below `2^(k + 1)`, `2^(k - 1)` steps flip exactly the highest digit. */
  lemma {:induction false} JumpFlips(z: uint64, k: nat)
    requires 0 < k <= 63
    ensures StateAfter(z, Pow2(k - 1)) % Pow2(k + 1) == Flipped(z, Pow2(k))
  {
    hide StateAfter, JumpMul, JumpAdd, Flipped, Affine;
    Jump(z, k - 1);
    var u := MulNearOne(k - 1);
    var v := AddIsOddMultiple(k - 1);
    FactorTwo(k, u);
    AffineFlips(JumpMul(k - 1), JumpAdd(k - 1), k, z, u, v);
  }

  lemma FactorTwo(k: nat, u: nat)
    requires k > 0
    ensures 4 * Pow2(k - 1) * u == (2 * Pow2(k)) * u
  {
    assert 4 * Pow2(k - 1) == 2 * Pow2(k);
  }

  /** From any state every other one of its parity is reached, one digit after the other. */
  lemma {:induction false} ReachLowDigits(state: uint64, target: uint64, k: nat) returns (i: nat)
    requires state % 2 == target % 2 && k <= 63
    ensures i < Pow2(k) && StateAfter(state, i) % Pow2(k + 1) == target % Pow2(k + 1)
  {
    if k == 0 {
      i := 0;
    } else {
      hide StateAfter, Flipped;
      var i' := ReachLowDigits(state, target, k - 1);
      var z := StateAfter(state, i');
      if z % Pow2(k + 1) == target % Pow2(k + 1) {
        i := i';
      } else {
        StateAfterAdds(state, i', Pow2(k - 1));
        JumpFlips(z, k);
        OtherHalf(z, target, Pow2(k));
        i := i' + Pow2(k - 1);
      }
    }
  }

  lemma {:induction false} OtherHalf(z: nat, y: nat, p: nat)
    requires p > 0 && z % p == y % p && z % (2 * p) != y % (2 * p)
    ensures Flipped(z, p) == y % (2 * p)
  {
    var r := z % (2 * p);
    LowHalf(z, p);
    LowHalf(y, p);
    Apart(z, 2 * p, p);
    if r < p {
      QuotientUnique(r + p, 2 * p, 0, r + p);
    } else {
      QuotientUnique(r + p, 2 * p, 1, r - p);
    }
  }

  lemma {:induction false} Apart(z: nat, m: nat, p: nat)
    requires m > 0
    ensures (z + p) % m == (z % m + p) % m
  {
    var q, r := z / m, z % m;
    assert z + p == m * q + (r + p);
    AddMultiple(m, q, r + p);
  }

  /** A remainder modulo `2 * p`, in terms of the one modulo `p`. */
  lemma {:induction false} LowHalf(x: nat, p: nat)
    requires p > 0
    ensures x % (2 * p) == if x % (2 * p) < p then x % p else x % p + p
  {
    var r := x % (2 * p);
    ModOfMultiple(x, p, 2, 2 * p);
    if r < p {
      QuotientUnique(r, p, 0, r);
    } else {
      QuotientUnique(r, p, 1, r - p);
    }
  }

  lemma {:induction false} ParityStays(state: uint64, i: nat)
    ensures StateAfter(state, i) % 2 == state % 2
  {
    if i > 0 {
      ParityStays(state, i - 1);
      StepKeepsParity(StateAfter(state, i - 1));
    }
  }

  lemma {:induction false} OddTimes(a: nat, h: nat, c: nat, g: nat, s: nat)
    requires a == 2 * h + 1 && c == 2 * g
    ensures (a * s + c) % 2 == s % 2
  {
    assert a * s == 2 * (h * s) + s;
    AddMultiple(2, h * s + g, s);
  }

  lemma StepKeepsParity(s: uint64)
    ensures NextState(s) % 2 == s % 2
  {
    assert Pow2(1) == 2;
    var a, c: nat := MUL, INC;
    OddTimes(a, (MUL - 1) / 2, c, INC / 2, s);
    WordMod(a * s + c, 1);
  }

  lemma {:induction false} FlippedAgain(z: nat, s: nat, p: nat)
    requires p > 0
    ensures Flipped(s, p) != s % (2 * p)
    ensures z % (2 * p) == s % (2 * p) ==> Flipped(z, p) == Flipped(s, p)
    ensures z % (2 * p) == Flipped(s, p) ==> Flipped(z, p) == s % (2 * p)
  {
    Apart(s, 2 * p, p);
    Apart(z, 2 * p, p);
    var r := s % (2 * p);
    if r < p {
      QuotientUnique(r + p, 2 * p, 0, r + p);
      QuotientUnique(r + p + p, 2 * p, 1, r);
    } else {
      QuotientUnique(r + p, 2 * p, 1, r - p);
      QuotientUnique(r - p + p, 2 * p, 0, r);
    }
  }

  /** An odd number of `2^k` steps flips digit `k + 1`, an even number does not. */
  lemma {:induction false} OddJumpsFlip(state: uint64, k: nat, m: nat)
    requires k <= 62
    ensures StateAfter(state, Pow2(k) * m) % Pow2(k + 2) ==
            if m % 2 == 1 then Flipped(state, Pow2(k + 1)) else state % Pow2(k + 2)
    decreases m
  {
    hide StateAfter, Flipped;
    hide Pow2;
    if m == 0 {
      StateAfterStarts(state);
      assert Pow2(k) * m == 0;
    } else {
      var before := Pow2(k) * (m - 1);
      OnceMore(Pow2(k), m);
      OddJumpsFlip(state, k, m - 1);
      StateAfterAdds(state, before, Pow2(k));
      JumpFlips(StateAfter(state, before), k + 1);
      Doubled(k + 1);
      FlippedAgain(StateAfter(state, before), state, Pow2(k + 1));
    }
  }

  lemma {:induction false} OnceMore(p: nat, m: nat)
    requires m > 0
    ensures p * m == p * (m - 1) + p
  {
  }

  lemma Doubled(k: nat)
    ensures Pow2(k + 1) == 2 * Pow2(k)
  {
  }

  lemma {:induction false} OddPart(i: nat) returns (k: nat, m: nat)
    requires i > 0
    ensures i == Pow2(k) * m && m % 2 == 1
  {
    if i % 2 == 1 {
      k, m := 0, i;
    } else {
      k, m := OddPart(i / 2);
      Twice(Pow2(k), m);
      k := k + 1;
    }
  }

  lemma {:induction false} NoEarlierReturn(state: uint64, i: nat)
    requires 0 < i < Pow2(63)
    ensures StateAfter(state, i) != state
  {
    hide StateAfter, Pow2, Flipped;
    var k, m := OddPart(i);
    AtMost(Pow2(k), 1, m);
    if k > 62 {
      if k > 63 {
        Pow2Grows(63, k);
      }
      assert false;
    }
    OddJumpsFlip(state, k, m);
    Doubled(k + 1);
    FlippedAgain(state, state, Pow2(k + 1));
  }

  /** The states of one parity are one cycle of length 2^63: each leads to exactly the others of its parity. */
  lemma {:induction false} CyclesAreParities(state: uint64, target: uint64)
    ensures state % 2 == target % 2 <==> exists i: nat :: i < Pow2(63) && StateAfter(state, i) == target
    ensures StateAfter(state, Pow2(63)) == state
    ensures forall i: nat :: 0 < i < Pow2(63) ==> StateAfter(state, i) != state
  {
    hide StateAfter, Pow2;
    Pow2At32And64();
    forall i: nat | 0 < i < Pow2(63) ensures StateAfter(state, i) != state {
      NoEarlierReturn(state, i);
    }
    if state % 2 == target % 2 {
      var i := ReachLowDigits(state, target, 63);
    }
    forall i: nat ensures StateAfter(state, i) == target ==> state % 2 == target % 2 {
      ParityStays(state, i);
    }
    ReturnsToStart(state);
  }

  lemma {:induction false} ReturnsToStart(state: uint64)
    ensures StateAfter(state, Pow2(63)) == state
  {
    hide StateAfter, JumpMul, JumpAdd, Affine;
    Jump(state, 63);
    var u := MulNearOne(63);
    var v := AddIsOddMultiple(63);
    assert 2 * Pow2(63) == TWO_64 by {
      Pow2At32And64();
      assert Pow2(64) == 2 * Pow2(63);
    }
    WholeLaps(JumpMul(63), JumpAdd(63), state, u, v);
  }

  lemma {:induction false} WholeLaps(a: nat, c: nat, z: nat, u: nat, v: nat)
    requires a == 1 + 2 * TWO_64 * u && c == TWO_64 * (2 * v + 1)
    ensures Affine(a, c, z) == z % TWO_64
  {
    assert a * z == z + TWO_64 * (2 * (u * z));
    RemainderOfSum(2 * (u * z) + (2 * v + 1), z);
  }

  lemma {:induction false} ZeroShifted(k: nat)
    ensures ShiftRight(0, k) == 0
  {
    if k > 0 {
      ZeroShifted(k - 1);
    }
  }

  /** The draw of a state whose top five digits are zero is an xor-shift of the digits from 27 on. */
  lemma {:induction false} OutputWithoutRotation(state: uint64, t: nat)
    requires ShiftRight(state, 27) == t < TWO_32
    ensures Output(state) == Xor(ShiftRight(t, 18), t)
  {
    Pow2At32And64();
    hide Pow2, Xor, ShiftRight, Or, RotateRight32;
    ShiftTwice(state, 27, 32);
    ShiftedOut(t, 32);
    ShiftOfXor(ShiftRight(state, 18), state, 27);
    ShiftTwice(state, 18, 27);
    ShiftTwice(state, 27, 18);
    XorFits(ShiftRight(t, 18), t, 32);
    NoRotation(Xor(ShiftRight(t, 18), t));
  }

  lemma NoRotation(x: nat)
    requires x < TWO_32
    ensures RotateRight32(x, 0) == x
  {
    RotationMovesLowBits(x, 0);
  }

  /** An xor-shift by more than half the width undoes itself. */
  lemma {:induction false} XorShiftTwice(x: nat)
    requires x < TWO_32
    ensures var t := Xor(ShiftRight(x, 18), x); t < TWO_32 && Xor(ShiftRight(t, 18), t) == x
  {
    Pow2At32And64();
    hide Pow2, ShiftRight;
    ShiftOfXor(ShiftRight(x, 18), x, 18);
    ShiftTwice(x, 18, 18);
    ShiftTwice(x, 32, 4);
    ShiftedOut(x, 32);
    ZeroShifted(4);
    XorFits(ShiftRight(x, 18), x, 32);
    assert Xor(0, ShiftRight(x, 18)) == ShiftRight(x, 18);
    XorCancels(ShiftRight(x, 18), x);
  }

  lemma {:induction false} HighPart(x: nat, t: nat, low: nat, k: nat)
    requires low < Pow2(k) && x == Pow2(k) * t + low
    ensures ShiftRight(x, k) == t
  {
    hide Pow2, ShiftRight;
    ShiftIsDivision(x, k);
    QuotientUnique(x, Pow2(k), t, low);
  }

  lemma {:induction false} LowPart(t: nat, low: nat)
    requires t < TWO_32 && low < 2
    ensures 0x800_0000 * t + low < TWO_64 && (0x800_0000 * t + low) % 2 == low
  {
    AddMultiple(2, 0x400_0000 * t, low);
  }

  /** Every 32-bit word is the draw of some state, of either parity. */
  lemma {:induction false} EveryDrawOccurs(x: nat, parity: nat) returns (state: uint64)
    requires x < TWO_32 && parity < 2
    ensures Output(state) == x && state % 2 == parity
  {
    hide Xor, ShiftRight, Output;
    var t := Xor(ShiftRight(x, 18), x);
    XorShiftTwice(x);
    PowersUsed();
    hide Pow2;
    LowPart(t, parity);
    state := 0x800_0000 * t + parity;
    HighPart(state, t, parity, 27);
    OutputWithoutRotation(state, t);
  }

  /** Some draw is accepted: one that yields zero, by uniformity. */
  lemma {:induction false} SomeWordIsAccepted(n: nat) returns (x: nat)
    requires 0 < n < TWO_32
    ensures x < TWO_32 && Accepted(x, n)
  {
    Uniform(n, 0);
    assert TWO_32 / n >= 1;
    assert Yielding(n, 0) != {};
    x :| x in Yielding(n, 0);
  }

  /** From every state some draw is accepted within one cycle, so the rejection loop ends. */
  lemma {:induction false} SomeDrawIsAccepted(state: uint64, n: nat) returns (j: nat)
    requires 0 < n < TWO_32
    ensures j < Pow2(63) && Accepted(Draw(state, j), n)
  {
    hide Accepted, Output, StateAfter, Pow2, NextState;
    var x := SomeWordIsAccepted(n);
    var first := NextState(state);
    var target := EveryDrawOccurs(x, first % 2);
    CyclesAreParities(first, target);
    j :| j < Pow2(63) && StateAfter(first, j) == target;
    StateAfterStarts(state);
    StateAfterAdds(state, 1, j);
  }
}
