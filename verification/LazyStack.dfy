/** What the lazy chaining-value stack means, on values.

    Chunk chaining values are numbered from the left; the values that arrive at
    level `k` are the subtrees of `2^k` chunks, also numbered from the left.
    `arrived[k]` counts them. A pair that has been formed at level `k` but whose
    parent has not been computed yet waits in a queue shared by all levels. */
module LazyStack {
  import opened Words
  import opened Bitwise

  const LEVELS: nat := 64

  /** A waiting pair: children `2 * index` and `2 * index + 1` of `level`. */
  datatype Pair = Pair(level: nat, index: nat)

  /** The chaining value of every aligned subtree: level and index to value. */
  type Forest = (nat, nat) -> Chain

  ghost predicate Halves(arrived: seq<nat>, k: nat)
    requires |arrived| == LEVELS + 1 && k < LEVELS
  {
    arrived[k + 1] <= arrived[k] / 2
  }

  /** No level receives more than the pairs formed one level below. */
  ghost predicate Counts(arrived: seq<nat>, n: nat) {
    && |arrived| == LEVELS + 1
    && arrived[0] <= n < TWO_64
    && forall k: nat :: k < LEVELS ==> Halves(arrived, k)
  }

  /** The pair has formed, but its parent has not arrived one level up. */
  ghost predicate Formed(arrived: seq<nat>, pair: Pair)
    requires |arrived| == LEVELS + 1
  {
    pair.level < LEVELS && arrived[pair.level + 1] <= pair.index < arrived[pair.level] / 2
  }

  /** Oldest first on every level. */
  ghost predicate FirstInFirstOut(queue: seq<Pair>) {
    forall i, j :: 0 <= i < j < |queue| && queue[i].level == queue[j].level ==> queue[i].index < queue[j].index
  }

  /** The queue holds exactly the pairs formed and not delivered. */
  ghost predicate Waiting(arrived: seq<nat>, queue: seq<Pair>)
    requires |arrived| == LEVELS + 1
  {
    && (forall pair :: pair in queue <==> Formed(arrived, pair))
    && FirstInFirstOut(queue)
  }

  /** Bit `k` of `occ` is the parity of the arrivals at level `k`. */
  ghost predicate Parities(arrived: seq<nat>, occ: nat)
    requires |arrived| == LEVELS + 1
  {
    occ < TWO_64 && forall k: nat :: k < LEVELS ==> Bit(occ, k) == arrived[k] % 2
  }

  /** On a level with an odd number of arrivals the last one is kept in its slot. */
  ghost predicate Occupied(tree: Forest, arrived: seq<nat>, occ: nat, slots: seq<Chain>)
    requires |arrived| == LEVELS + 1
  {
    && Parities(arrived, occ)
    && |slots| == LEVELS
    && (forall k: nat :: k < LEVELS ==> Kept(tree, arrived, slots, k))
  }

  ghost predicate Kept(tree: Forest, arrived: seq<nat>, slots: seq<Chain>, k: nat)
    requires |arrived| == LEVELS + 1 && |slots| == LEVELS && k < LEVELS
  {
    arrived[k] % 2 == 1 ==> slots[k] == tree(k, arrived[k] - 1)
  }

  ghost predicate Inv(tree: Forest, n: nat, arrived: seq<nat>, queue: seq<Pair>, occ: nat, slots: seq<Chain>) {
    && Counts(arrived, n)
    && Waiting(arrived, queue)
    && Occupied(tree, arrived, occ, slots)
  }

  lemma EmptyIsFine(tree: Forest, arrived: seq<nat>, slots: seq<Chain>)
    requires |slots| == LEVELS && arrived == seq(LEVELS + 1, i => 0)
    ensures Inv(tree, 0, arrived, [], 0, slots)
  {
    forall k: nat | k < LEVELS ensures Bit(0, k) == 0 {
      ZeroHasNoDigits(k);
    }
  }

  lemma SomethingArrived(arrived: seq<nat>, queue: seq<Pair>)
    requires |arrived| == LEVELS + 1 && Waiting(arrived, queue) && |queue| > 0
    ensures exists k: nat :: k <= LEVELS && arrived[k] > 0
  {
    assert queue[0] in queue;
    assert arrived[queue[0].level] > 0;
  }

  lemma {:induction false} CountBound(arrived: seq<nat>, n: nat, k: nat)
    requires Counts(arrived, n) && k <= LEVELS
    ensures arrived[k] * Pow2(k) <= n
  {
    if k > 0 {
      CountBound(arrived, n, k - 1);
      assert Halves(arrived, k - 1);
      HalvedProduct(arrived[k], arrived[k - 1], Pow2(k - 1));
    }
  }

  lemma {:induction false} HalvedProduct(a: nat, b: nat, p: nat)
    requires a <= b / 2
    ensures a * (2 * p) <= b * p
  {
    Twice(p, a);
    AtMost(p, 2 * a, b);
  }

  /** With fewer than `2^64` chunks no pair forms at the top level, so no level ever wraps. */
  lemma LevelsNeverWrap(arrived: seq<nat>, n: nat, pair: Pair)
    requires Counts(arrived, n) && Formed(arrived, pair)
    ensures pair.level < LEVELS - 1
    ensures (pair.index + 1) * Pow2(pair.level + 1) <= n
  {
    var k := pair.level;
    CountBound(arrived, n, k);
    HalvedProduct(pair.index + 1, arrived[k], Pow2(k));
    AtMost(Pow2(k + 1), 1, pair.index + 1);
    Pow2At32And64();
  }

  /** The two forests agree on every subtree of the first `n` chunks. */
  ghost predicate Agree(tree: Forest, tree': Forest, n: nat) {
    forall k: nat, i: nat :: (i + 1) * Pow2(k) <= n ==> tree(k, i) == tree'(k, i)
  }

  /** New chunks to the right change nothing that has arrived already. */
  lemma MoreChunks(tree: Forest, tree': Forest, n: nat, n': nat, arrived: seq<nat>, queue: seq<Pair>,
                   occ: nat, slots: seq<Chain>)
    requires Inv(tree, n, arrived, queue, occ, slots)
    requires n <= n' < TWO_64 && Agree(tree, tree', n)
    ensures Inv(tree', n', arrived, queue, occ, slots)
  {
    forall k: nat | k < LEVELS ensures Kept(tree', arrived, slots, k) {
      assert Kept(tree, arrived, slots, k);
      CountBound(arrived, n, k);
      if arrived[k] % 2 == 1 {
        assert tree(k, arrived[k] - 1) == tree'(k, arrived[k] - 1);
      }
    }
  }

  /** The pair whose parent is due at `level`; chunks arrive on their own. */
  ghost function Due(arrived: seq<nat>, level: nat): seq<Pair>
    requires level < |arrived|
  {
    if level == 0 then [] else [Pair(level - 1, arrived[level])]
  }

  /** The oldest waiting pair is the next one its parent level expects. */
  lemma FrontIsNext(arrived: seq<nat>, queue: seq<Pair>)
    requires |arrived| == LEVELS + 1 && Waiting(arrived, queue) && |queue| > 0
    ensures queue[0].level < LEVELS && queue[..1] == Due(arrived, queue[0].level + 1)
  {
    assert queue[0] in queue;
    var next := Pair(queue[0].level, arrived[queue[0].level + 1]);
    assert Formed(arrived, next);
    assert next in queue;
  }

  /** What a flush may deliver first, and where. */
  lemma NextDelivery(tree: Forest, n: nat, arrived: seq<nat>, queue: seq<Pair>, occ: nat, slots: seq<Chain>)
    requires Inv(tree, n, arrived, queue, occ, slots) && |queue| > 0
    ensures |arrived| == LEVELS + 1
    ensures queue[0].level + 1 < LEVELS
    ensures queue[0].index == arrived[queue[0].level + 1]
    ensures queue == Due(arrived, queue[0].level + 1) + queue[1..]
  {
    assert queue[0] in queue;
    FrontIsNext(arrived, queue);
    LevelsNeverWrap(arrived, n, queue[0]);
    assert queue == queue[..1] + queue[1..];
  }

  /** One arrival at a level: it is either kept as the odd one out, or paired up. */
  lemma Arrive(tree: Forest, n: nat, arrived: seq<nat>, level: nat, queue: seq<Pair>,
               occ: nat, slots: seq<Chain>, value: Chain)
    requires level < LEVELS && |arrived| == LEVELS + 1
    requires level == 0 ==> arrived[0] < n
    requires Inv(tree, n, arrived, Due(arrived, level) + queue, occ, slots)
    requires value == tree(level, arrived[level])
    ensures Xor(occ, Pow2(level)) < TWO_64
    ensures And(occ, Pow2(level)) == 0 <==> arrived[level] % 2 == 0
    ensures PopCount(Xor(occ, Pow2(level))) ==
            if And(occ, Pow2(level)) == 0 then PopCount(occ) + 1 else PopCount(occ) - 1
    ensures And(occ, Pow2(level)) == 0 ==>
              Inv(tree, n, arrived[level := arrived[level] + 1], queue, Xor(occ, Pow2(level)), slots[level := value])
    ensures And(occ, Pow2(level)) != 0 ==>
              && Inv(tree, n, arrived[level := arrived[level] + 1], queue + [Pair(level, arrived[level] / 2)],
                     Xor(occ, Pow2(level)), slots)
              && slots[level] == tree(level, 2 * (arrived[level] / 2))
              && value == tree(level, 2 * (arrived[level] / 2) + 1)
  {
    ArriveCounts(arrived, level, n, queue);
    ArriveQueue(arrived, level, queue);
    ArriveSlots(tree, arrived, level, occ, slots, value);
    XorPow2(occ, level);
    AndPow2(occ, level);
  }

  lemma ArriveSlots(tree: Forest, arrived: seq<nat>, level: nat, occ: nat, slots: seq<Chain>, value: Chain)
    requires level < LEVELS && |arrived| == LEVELS + 1
    requires Occupied(tree, arrived, occ, slots)
    requires value == tree(level, arrived[level])
    ensures (And(occ, Pow2(level)) == 0) == (arrived[level] % 2 == 0)
    ensures Occupied(tree, arrived[level := arrived[level] + 1], Xor(occ, Pow2(level)),
                     if arrived[level] % 2 == 0 then slots[level := value] else slots)
    ensures arrived[level] % 2 == 1 ==>
              && slots[level] == tree(level, 2 * (arrived[level] / 2))
              && value == tree(level, 2 * (arrived[level] / 2) + 1)
  {
    assert Kept(tree, arrived, slots, level);
    var half := arrived[level] / 2;
    assert arrived[level] % 2 == 1 ==> 2 * half == arrived[level] - 1;
    ArriveParity(arrived, level, occ);
    var after := arrived[level := arrived[level] + 1];
    var slots' := if arrived[level] % 2 == 0 then slots[level := value] else slots;
    forall k: nat | k < LEVELS ensures Kept(tree, after, slots', k) {
      assert Kept(tree, arrived, slots, k);
    }
  }

  lemma ArriveParity(arrived: seq<nat>, level: nat, occ: nat)
    requires level < LEVELS && |arrived| == LEVELS + 1 && Parities(arrived, occ)
    ensures (And(occ, Pow2(level)) == 0) == (arrived[level] % 2 == 0)
    ensures Parities(arrived[level := arrived[level] + 1], Xor(occ, Pow2(level)))
  {
    hide Xor, And, Pow2, Bit, PopCount;
    AndPow2(occ, level);
    XorPow2(occ, level);
    XorStaysInWord(occ, level);
    var after, occ' := arrived[level := arrived[level] + 1], Xor(occ, Pow2(level));
    forall k: nat | k < LEVELS ensures Bit(occ', k) == after[k] % 2 {
      assert Bit(occ, k) == arrived[k] % 2;
    }
  }

  lemma ArriveCounts(arrived: seq<nat>, level: nat, n: nat, queue: seq<Pair>)
    requires level < LEVELS && Counts(arrived, n)
    requires level == 0 ==> arrived[0] < n
    requires Waiting(arrived, Due(arrived, level) + queue)
    ensures Counts(arrived[level := arrived[level] + 1], n)
  {
    var after := arrived[level := arrived[level] + 1];
    assert level > 0 ==> (Due(arrived, level) + queue)[0] == Pair(level - 1, arrived[level]);
    assert level > 0 ==> Formed(arrived, Pair(level - 1, arrived[level]));
    forall k: nat | k < LEVELS ensures Halves(after, k) {
      assert Halves(arrived, k);
    }
  }

  /** An arrival takes the due pair from below and may form one pair here. */
  lemma FormedAfterArrival(arrived: seq<nat>, level: nat, pair: Pair)
    requires |arrived| == LEVELS + 1 && level < LEVELS && Halves(arrived, level)
    ensures Formed(arrived[level := arrived[level] + 1], pair) <==>
            || (Formed(arrived, pair) && pair !in Due(arrived, level))
            || (arrived[level] % 2 == 1 && pair == Pair(level, arrived[level] / 2))
  {
    var a := arrived[level];
    assert (a + 1) / 2 == if a % 2 == 0 then a / 2 else a / 2 + 1;
  }

  lemma ArriveQueue(arrived: seq<nat>, level: nat, queue: seq<Pair>)
    requires |arrived| == LEVELS + 1 && level < LEVELS && Halves(arrived, level)
    requires Waiting(arrived, Due(arrived, level) + queue)
    ensures Waiting(arrived[level := arrived[level] + 1],
                    if arrived[level] % 2 == 0 then queue else queue + [Pair(level, arrived[level] / 2)])
  {
    var after := arrived[level := arrived[level] + 1];
    var due := Due(arrived, level);
    var all := due + queue;
    var fresh' := if arrived[level] % 2 == 0 then [] else [Pair(level, arrived[level] / 2)];
    var queue' := queue + fresh';
    assert queue' == if arrived[level] % 2 == 0 then queue else queue + [Pair(level, arrived[level] / 2)];
    TailInOrder(due, queue);
    forall pair ensures pair in queue' <==> Formed(after, pair) {
      assert pair in all <==> pair in due || pair in queue;
      assert pair in queue' <==> pair in queue || pair in fresh';
      FormedAfterArrival(arrived, level, pair);
    }
    assert FirstInFirstOut(queue') by {
      forall i, j | 0 <= i < j < |queue'| && queue'[i].level == queue'[j].level
        ensures queue'[i].index < queue'[j].index
      {
        assert queue'[i] in queue;
        assert queue'[i] in all;
      }
    }
  }

  lemma TailInOrder(due: seq<Pair>, queue: seq<Pair>)
    requires |due| <= 1 && FirstInFirstOut(due + queue)
    ensures FirstInFirstOut(queue)
    ensures forall pair :: pair in due ==> pair !in queue
  {
    var all := due + queue;
    forall i, j | 0 <= i < j < |queue| && queue[i].level == queue[j].level
      ensures queue[i].index < queue[j].index
    {
      assert all[|due| + i] == queue[i] && all[|due| + j] == queue[j];
    }
    forall j | |due| == 1 && 0 <= j < |queue| ensures queue[j] != due[0] {
      assert all[0] == due[0] && all[1 + j] == queue[j];
    }
  }

  /** Once nothing waits, the occupancy word is the number of chunks pushed. */
  lemma DrainedCounts(arrived: seq<nat>, n: nat, k: nat)
    requires Counts(arrived, n) && Waiting(arrived, []) && k <= LEVELS
    ensures arrived[k] == ShiftRight(arrived[0], k)
  {
    if k > 0 {
      DrainedCounts(arrived, n, k - 1);
      assert Halves(arrived, k - 1);
      assert !Formed(arrived, Pair(k - 1, arrived[k]));
      DigitOfShift(arrived[0], k - 1);
    }
  }

  lemma DrainedOccupancy(tree: Forest, n: nat, arrived: seq<nat>, occ: nat, slots: seq<Chain>)
    requires Inv(tree, n, arrived, [], occ, slots)
    ensures occ == arrived[0]
  {
    forall k: nat ensures Bit(occ, k) == Bit(arrived[0], k) {
      DigitOfShift(arrived[0], k);
      if k < LEVELS {
        DrainedCounts(arrived, n, k);
      } else {
        HighDigitsAreZero(arrived[0], k);
        HighDigitsAreZero(occ, k);
      }
    }
    DigitsDetermine(occ, arrived[0]);
  }

  lemma HighDigitsAreZero(x: nat, k: nat)
    requires x < TWO_64 && k >= 64
    ensures Bit(x, k) == 0
  {
    Pow2At32And64();
    if k > 64 {
      Pow2Grows(64, k);
    }
    ShiftedOut(x, k);
    DigitOfShift(x, k);
  }
}
