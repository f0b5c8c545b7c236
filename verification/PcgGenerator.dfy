/** The generator object and its sampling by multiplication and rejection. */
module PcgGenerator {
  import opened Bitwise
  import opened Pcg
  import opened PcgPeriod

  /** The high half of the product with the first draw whose low half reaches 2^32 modulo the bound;
      `state'` is the state that made this draw. */
  ghost predicate SampledFrom(state: uint64, n: nat, state': uint64, r: nat)
    requires 0 < n < TWO_32
  {
    exists j: nat :: j < Pow2(63)
      && state' == StateAfter(state, j + 1)
      && Draw(state, j) * n % TWO_32 >= TWO_32 % n
      && (forall i: nat :: i < j ==> Draw(state, i) * n % TWO_32 < TWO_32 % n)
      && r == Draw(state, j) * n / TWO_32
  }

  lemma IsSampled(state: uint64, n: nat, j: nat)
    requires 0 < n < TWO_32 && j < Pow2(63) && Accepted(Draw(state, j), n)
    requires forall i: nat :: i < j ==> !Accepted(Draw(state, i), n)
    ensures SampledFrom(state, n, StateAfter(state, j + 1), High(Draw(state, j), n))
  {
    hide Output, StateAfter, Pow2, Accepted, Draw;
    forall i: nat | i <= j ensures Accepted(Draw(state, i), n) <==> Draw(state, i) * n % TWO_32 >= TWO_32 % n {
      AcceptedAboveRemainder(Draw(state, i), n);
    }
    HalvesAre(Draw(state, j), n, Draw(state, j) * n);
  }

  class Generator {
    var state: uint64

    method Next() returns (s: uint64)
      modifies this
      ensures s == state == NextState(old(state))
      ensures s == (old(state) * 6364136223846793005 + 11981177638785157926) % 0x1_0000_0000_0000_0000
    {
      state := (state * MUL + INC) % TWO_64;
      s := state;
    }

    method Uint32() returns (x: nat)
      modifies this
      ensures state == NextState(old(state)) && x == Output(state)
      ensures x == LowDigitsOnTop(Xor(state / 0x4_0000, state) / 0x800_0000 % TWO_32, TopFive(state))
    {
      var s := Next();
      hide Output, Xor, LowDigitsOnTop;
      OutputIs(s);
      x := Output(s);
    }

    method RejectionThreshold(n: nat) returns (t: nat)
      requires 0 < n < TWO_32
      ensures t == TWO_32 % n
    {
      ThresholdIsRemainder(n);
      t := (TWO_32 - n) % TWO_32;
      if t >= n {
        t := t - n;
        if t >= n {
          t := t % n;
        }
      }
    }

    /** Sampling below `n`: the first accepted draw decides, and there is one. */
    method Uint32n(n: nat) returns (r: nat)
      requires n < TWO_32
      modifies this
      ensures n == 0 ==> r == 0 && state == old(state)
      ensures n > 0 ==> SampledFrom(old(state), n, state, r)
      ensures n > 0 ==> r < n
    {
      hide Output, Accepted, StateAfter, High, Low, Pow2, SampledFrom, Xor, LowDigitsOnTop, TopFive, NextState;
      if n == 0 {
        return 0;
      }
      StateAfterStarts(state);
      ghost var start := state;
      ghost var bound := SomeDrawIsAccepted(start, n);
      ghost var j := 0;
      var x := Uint32();
      var m: nat := x * n;
      var l: nat := m % TWO_32;
      HalvesAre(x, n, m);
      if l < n {
        var t := RejectionThreshold(n);
        while l < t
          invariant j <= bound && state == StateAfter(start, j + 1) && x == Draw(start, j)
          invariant m == x * n && l == Low(x, n)
          invariant forall i: nat :: i < j ==> !Accepted(Draw(start, i), n)
          decreases bound - j
        {
          AcceptedAboveRemainder(x, n);
          assert j != bound;
          StateAfterStep(start, j + 1);
          x := Uint32();
          m := x * n;
          l := m % TWO_32;
          HalvesAre(x, n, m);
          j := j + 1;
        }
      }
      HalvesAre(x, n, m);
      ResultBelowBound(x, n);
      AcceptedAboveRemainder(x, n);
      IsSampled(start, n, j);
      return m / TWO_32;
    }
  }
}
