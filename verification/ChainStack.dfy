/** The lazy, batched stack of chaining values. A pair that completes on some
    level waits in an eight-column buffer; its parent is computed at the next
    flush, together with the parents of whatever else waits there. */
module ChainStack {
  import opened Words
  import opened Bitwise
  import opened TreeSpec
  import opened HashPure
  import opened LazyStack
  import opened ChunkForest

  /** Column `j` holds the two children that the pair waiting there names. */
  ghost predicate HasTwins(tree: Forest, lvls: seq<nat>, left: seq<Word>, right: seq<Word>, queue: seq<Pair>, j: nat)
    requires |lvls| == COLUMNS && |left| == 64 && |right| == 64 && j < |queue| <= COLUMNS
  {
    && lvls[j] == queue[j].level
    && Column(left, j) == tree(queue[j].level, 2 * queue[j].index)
    && Column(right, j) == tree(queue[j].level, 2 * queue[j].index + 1)
  }

  ghost predicate InColumns(tree: Forest, lvls: seq<nat>, left: seq<Word>, right: seq<Word>, queue: seq<Pair>)
    requires |lvls| == COLUMNS && |left| == 64 && |right| == 64 && |queue| <= COLUMNS
  {
    forall j: nat :: j < |queue| ==> HasTwins(tree, lvls, left, right, queue, j)
  }

  lemma AppendPair(tree: Forest, lvls: seq<nat>, left: seq<Word>, right: seq<Word>, queue: seq<Pair>,
                   pair: Pair, l: Chain, r: Chain)
    requires |lvls| == COLUMNS && |left| == 64 && |right| == 64 && |queue| < COLUMNS
    requires InColumns(tree, lvls, left, right, queue)
    requires l == tree(pair.level, 2 * pair.index) && r == tree(pair.level, 2 * pair.index + 1)
    ensures InColumns(tree, lvls[|queue| := pair.level], PutColumn(left, |queue|, l), PutColumn(right, |queue|, r),
                      queue + [pair])
  {
    hide Column, PutColumn;
    var lvls', queue' := lvls[|queue| := pair.level], queue + [pair];
    var left', right' := PutColumn(left, |queue|, l), PutColumn(right, |queue|, r);
    forall j: nat | j < |queue'| ensures HasTwins(tree, lvls', left', right', queue', j) {
      ColumnAfterPut(left, |queue|, l, j);
      ColumnAfterPut(right, |queue|, r, j);
      assert j < |queue| ==> HasTwins(tree, lvls, left, right, queue, j);
    }
  }

  class CvStack {
    var occ: nat
    var lvls: seq<nat>
    var bufn: nat
    const lefts: array<Word>
    const rights: array<Word>
    const slots: array<Chain>

    /** The chunk chaining values pushed so far. */
    ghost var leaves: seq<Chain>
    /** How many values have arrived on each level. */
    ghost var arrived: seq<nat>
    /** What waits in the buffer, column by column. */
    ghost var queue: seq<Pair>

    ghost const Repr: set<object> := {this, lefts, rights, slots}

    ghost predicate Shape()
      reads this
    {
      && lefts.Length == 64 && rights.Length == 64 && slots.Length == LEVELS
      && lefts != rights && (slots as object) != lefts && (slots as object) != rights
      && |lvls| == COLUMNS && bufn <= COLUMNS
      && |queue| == bufn && |arrived| == LEVELS + 1
    }

    ghost predicate Buffered(tree: Forest)
      requires Shape()
      reads this, lefts, rights
    {
      InColumns(tree, lvls, lefts[..], rights[..], queue)
    }

    /** The invariant over everything that has arrived and everything that waits. */
    ghost predicate Valid(m: Mode)
      reads Repr
    {
      && Shape()
      && bufn < COLUMNS
      && Buffered(Subtrees(m, leaves))
      && Inv(Subtrees(m, leaves), |leaves|, arrived, queue, occ, slots[..])
      && arrived[0] == |leaves|
    }

    /** What one more flush reduces. */
    ghost function Work(): nat
      reads this
    {
      PopCount(occ) + 2 * bufn
    }

    constructor (ghost m: Mode)
      ensures fresh(Repr)
      ensures Valid(m) && leaves == []
    {
      occ := 0;
      lvls := seq(COLUMNS, i => 0);
      bufn := 0;
      lefts := new Word[64];
      rights := new Word[64];
      slots := new Chain[LEVELS](i => [0, 0, 0, 0, 0, 0, 0, 0]);
      leaves := [];
      queue := [];
      arrived := seq(LEVELS + 1, i => 0);
      new;
      EmptyIsFine(Subtrees(m, []), arrived, slots[..]);
    }

    /** An independent copy. */
    constructor Copy(ghost m: Mode, other: CvStack)
      requires other.Valid(m)
      ensures fresh(Repr)
      ensures Valid(m) && leaves == other.leaves
    {
      occ, lvls, bufn := other.occ, other.lvls, other.bufn;
      lefts := new Word[64](i requires 0 <= i < 64 reads other.lefts => other.lefts[i]);
      rights := new Word[64](i requires 0 <= i < 64 reads other.rights => other.rights[i]);
      slots := new Chain[LEVELS](i requires 0 <= i < LEVELS reads other.slots => other.slots[i]);
      leaves, arrived, queue := other.leaves, other.arrived, other.queue;
      new;
      assert lefts[..] == other.lefts[..] && rights[..] == other.rights[..] && slots[..] == other.slots[..];
    }

    /** Forgets everything; what the buffer and the slots still hold no longer matters. */
    method Reset(ghost m: Mode)
      requires Shape()
      modifies this
      ensures Valid(m) && leaves == []
    {
      occ, lvls, bufn := 0, seq(COLUMNS, i => 0), 0;
      leaves, queue, arrived := [], [], seq(LEVELS + 1, i => 0);
      EmptyIsFine(Subtrees(m, []), arrived, slots[..]);
    }

    /** An empty stack serves any key and flags. */
    lemma EmptyServesAnyMode(m: Mode, m': Mode)
      requires Valid(m) && leaves == []
      ensures Valid(m')
    {
      forall k: nat | k <= LEVELS ensures arrived[k] == 0 {
        CountBound(arrived, 0, k);
        AtMost(arrived[k], 1, Pow2(k));
      }
      if |queue| > 0 {
        SomethingArrived(arrived, queue);
      }
      assert forall k: nat :: k < LEVELS ==> Kept(Subtrees(m', leaves), arrived, slots[..], k);
    }

    /** One value arrives on a level: it is kept, or it is paired with the one kept there. */
    method PushL(ghost tree: Forest, ghost n: nat, ghost front: seq<Pair>,
                 level: nat, vectors: array<Word>, column: nat)
      requires Shape() && bufn < COLUMNS
      requires vectors.Length == 64 && vectors != lefts && vectors != rights && column < COLUMNS
      requires level < LEVELS
      requires level == 0 ==> arrived[0] < n
      requires Buffered(tree)
      requires Inv(tree, n, arrived, Due(arrived, level) + (front + queue), occ, slots[..])
      requires Column(vectors[..], column) == tree(level, arrived[level])
      modifies this, lefts, rights, slots
      ensures Shape() && Buffered(tree)
      ensures arrived == old(arrived[level := arrived[level] + 1])
      ensures Inv(tree, n, arrived, front + queue, occ, slots[..])
      ensures bufn <= old(bufn) + 1
      ensures Work() == old(Work()) + 1
      ensures leaves == old(leaves)
    {
      hide PutColumn, Column, Inv, InColumns, And, Xor, PopCount, Pow2;
      ghost var value := Column(vectors[..], column);
      Arrive(tree, n, arrived, level, front + queue, occ, slots[..], value);
      ghost var all := front + queue;
      arrived := arrived[level := arrived[level] + 1];
      var bit := Pow2(level % 64);
      if And(occ, bit) == 0 {
        slots[level % 64] := ReadChain(vectors, column);
        occ := Xor(occ, bit);
        return;
      }
      ghost var pair := Pair(level, old(arrived[level]) / 2);
      assert front + (queue + [pair]) == all + [pair];
      BufferPair(tree, pair, level, slots[level % 64], vectors, column);
      occ := Xor(occ, bit);
    }

    /** Puts a pair behind those that wait. */
    method BufferPair(ghost tree: Forest, ghost pair: Pair, level: nat, left: Chain, vectors: array<Word>, column: nat)
      requires Shape() && bufn < COLUMNS && Buffered(tree) && pair.level == level
      requires vectors.Length == 64 && vectors != lefts && vectors != rights && column < COLUMNS
      requires left == tree(pair.level, 2 * pair.index)
      requires Column(vectors[..], column) == tree(pair.level, 2 * pair.index + 1)
      modifies this`queue, this`lvls, this`bufn, lefts, rights
      ensures Shape() && Buffered(tree)
      ensures queue == old(queue) + [pair] && bufn == old(bufn) + 1
    {
      hide PutColumn, Column, InColumns;
      AppendPair(tree, lvls, lefts[..], rights[..], queue, pair, left, Column(vectors[..], column));
      queue := queue + [pair];
      lvls := lvls[bufn % 8 := level];
      WriteChain(left, lefts, bufn);
      CopyChain(vectors, column, rights, bufn);
      bufn := bufn + 1;
    }

    /** Computes the parents of all waiting pairs and delivers them one level up. */
    method Flush(m: Mode)
      requires Shape() && Buffered(Subtrees(m, leaves))
      requires Inv(Subtrees(m, leaves), |leaves|, arrived, queue, occ, slots[..])
      modifies this, lefts, rights, slots
      ensures Shape() && Buffered(Subtrees(m, leaves))
      ensures Inv(Subtrees(m, leaves), |leaves|, arrived, queue, occ, slots[..])
      ensures leaves == old(leaves) && arrived[0] == old(arrived[0])
      ensures bufn <= old(bufn)
      ensures Work() == old(Work()) - old(bufn)
    {
      hide Column, Inv, Mode.CV, Subtrees;
      ghost var tree := Subtrees(m, leaves);
      ghost var n := |leaves|;
      ghost var waiting := queue;
      var output := new Word[64];
      HashP(m, lefts, rights, With(m.flags, PARENT), output, bufn);
      forall j: nat | j < |waiting| ensures Delivers(tree, output[..], j, waiting[j]) && lvls[j] == waiting[j].level {
        ParentIsDue(m, j);
      }
      var buffered, levels := bufn, lvls;
      bufn, lvls, queue := 0, seq(COLUMNS, i => 0), [];
      var i := 0;
      assert waiting[0..] + queue == waiting;
      while i < buffered
        invariant i <= buffered == |waiting| <= COLUMNS
        invariant Shape() && bufn <= i && Buffered(tree)
        invariant leaves == old(leaves) && arrived[0] == old(arrived[0])
        invariant Inv(tree, n, arrived, waiting[i..] + queue, occ, slots[..])
        invariant forall j: nat :: j < |waiting| ==>
                    Delivers(tree, output[..], j, waiting[j]) && levels[j] == waiting[j].level
        invariant Work() == old(Work()) - 2 * buffered + i
      {
        ghost var rest := waiting[i..] + queue;
        assert rest[0] == waiting[i] && rest[1..] == waiting[i + 1..] + queue;
        NextDelivery(tree, n, arrived, rest, occ, slots[..]);
        PushL(tree, n, waiting[i + 1..], levels[i] + 1, output, i);
        i := i + 1;
      }
      assert waiting[i..] + queue == queue;
    }

    /** What `HashP` computes from column `j` is the parent of the pair that waits there. */
    lemma ParentIsDue(m: Mode, j: nat)
      requires Shape() && Buffered(Subtrees(m, leaves)) && j < bufn
      requires Inv(Subtrees(m, leaves), |leaves|, arrived, queue, occ, slots[..])
      ensures lvls[j] == queue[j].level
      ensures m.CV(m.ParentNode(Column(lefts[..], j), Column(rights[..], j))) ==
              Subtrees(m, leaves)(queue[j].level + 1, queue[j].index)
    {
      hide Column, Mode.CV;
      assert HasTwins(Subtrees(m, leaves), lvls, lefts[..], rights[..], queue, j) && queue[j] in queue;
      LevelsNeverWrap(arrived, |leaves|, queue[j]);
      ParentOfTwins(m, leaves, queue[j].level, queue[j].index);
    }

    /** Column `j` of the batch output is the parent of `pair`. */
    ghost predicate Delivers(tree: Forest, output: seq<Word>, j: nat, pair: Pair) {
      |output| == 64 && j < COLUMNS && Column(output, j) == tree(pair.level + 1, pair.index)
    }

    /** Pushes the first `count` columns as chunks. */
    method PushN(m: Mode, vectors: array<Word>, count: nat, ghost chunks: seq<Chain>)
      requires Valid(m)
      requires vectors.Length == 64 && vectors !in Repr && count <= COLUMNS
      requires |chunks| == count && forall i: nat :: i < count ==> Column(vectors[..], i) == chunks[i]
      requires |leaves| + count < TWO_64
      modifies this, lefts, rights, slots
      ensures Valid(m)
      ensures leaves == old(leaves) + chunks
    {
      ForestOfExtension(m, leaves, chunks);
      MoreChunks(Subtrees(m, leaves), Subtrees(m, leaves + chunks), |leaves|, |leaves| + count,
                 arrived, queue, occ, slots[..]);
      BufferedAfterExtension(m, chunks);
      leaves := leaves + chunks;
      ghost var tree := Subtrees(m, leaves);
      var index := 0;
      while index < count
        invariant index <= count
        invariant Shape() && bufn < COLUMNS && Buffered(tree)
        invariant leaves == old(leaves) + chunks
        invariant Inv(tree, |leaves|, arrived, queue, occ, slots[..])
        invariant arrived[0] == |old(leaves)| + index
      {
        assert Column(vectors[..], index) == chunks[index] == leaves[arrived[0]];
        SubtreeOfOne(m, leaves, arrived[0]);
        assert Due(arrived, 0) + ([] + queue) == queue;
        PushL(tree, |leaves|, [], 0, vectors, index);
        assert [] + queue == queue;
        while bufn == 8
          invariant Shape() && Buffered(tree)
          invariant leaves == old(leaves) + chunks
          invariant Inv(tree, |leaves|, arrived, queue, occ, slots[..])
          invariant arrived[0] == |old(leaves)| + index + 1
          decreases Work()
        {
          Flush(m);
        }
        index := index + 1;
      }
    }

    lemma BufferedAfterExtension(m: Mode, chunks: seq<Chain>)
      requires Valid(m)
      ensures Buffered(Subtrees(m, leaves + chunks))
    {
      hide Column, Pow2, Subtree;
      forall j: nat | j < bufn
        ensures HasTwins(Subtrees(m, leaves + chunks), lvls, lefts[..], rights[..], queue, j)
      {
        assert HasTwins(Subtrees(m, leaves), lvls, lefts[..], rights[..], queue, j) && queue[j] in queue;
        LevelsNeverWrap(arrived, |leaves|, queue[j]);
        TwinsInRange(queue[j].level, queue[j].index, |leaves|);
        SubtreeOfExtension(m, leaves, chunks, queue[j].level, 2 * queue[j].index);
        SubtreeOfExtension(m, leaves, chunks, queue[j].level, 2 * queue[j].index + 1);
      }
    }
  }

  lemma TwinsInRange(k: nat, i: nat, n: nat)
    requires (i + 1) * Pow2(k + 1) <= n
    ensures (2 * i + 1) * Pow2(k) <= n && (2 * i + 1 + 1) * Pow2(k) <= n
  {
    Products(i, Pow2(k));
  }
}
