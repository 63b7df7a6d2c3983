/**
 * The payload rule of `my_gather` with the send/receive calls removed: the
 * payload a child sends is replaced by a recursive call for that child. Each
 * rank uses its own `sizes` table, as in the source, so `tables[r]` is the
 * table rank `r` holds.
 */
module Gather {
  import opened Wrappers
  import opened Tree

  /** One local input and one `sizes` table (one entry per rank) per rank. */
  predicate Shaped<T>(inputs: seq<seq<T>>, tables: seq<seq<int>>) {
    |inputs| >= 1 && |tables| == |inputs| &&
    forall r | 0 <= r < |tables| :: |tables[r]| == |inputs|
  }

  /**
   * The payload rule of one rank, given its children's payloads: its own
   * input, the first `sl` elements of the left payload, the first `sr` of the
   * right one, then the left tail and the right tail. `None` is a protocol
   * violation: a missing payload or a split point outside it.
   */
  function Combine<T>(own: seq<T>, fromLeft: Option<seq<T>>, sl: int, fromRight: Option<seq<T>>, sr: int): Option<seq<T>>
  {
    if fromLeft.Some? && fromRight.Some? && 0 <= sl <= |fromLeft.value| && 0 <= sr <= |fromRight.value| then
      var l, r := fromLeft.value, fromRight.value;
      Some(own + l[..sl] + r[..sr] + l[sl..] + r[sr..])
    else
      None
  }

  /**
   * The rule is defined exactly when both payloads are present and each split
   * point lies inside its payload; it then loses and invents nothing, and
   * keeps the own input in front.
   */
  lemma CombinePermutes<T>(own: seq<T>, fromLeft: Option<seq<T>>, sl: int, fromRight: Option<seq<T>>, sr: int)
    ensures var r := Combine(own, fromLeft, sl, fromRight, sr);
      (r.Some? <==>
      fromLeft.Some? && fromRight.Some? && 0 <= sl <= |fromLeft.value| && 0 <= sr <= |fromRight.value|) &&
      (r.Some? ==>
      multiset(r.value) == multiset(own) + multiset(fromLeft.value) + multiset(fromRight.value) &&
      |r.value| == |own| + |fromLeft.value| + |fromRight.value| &&
      r.value[..|own|] == own)
  {
    if Combine(own, fromLeft, sl, fromRight, sr).Some? {
      var l, r := fromLeft.value, fromRight.value;
      assert l == l[..sl] + l[sl..];
      assert r == r[..sr] + r[sr..];
    }
  }

  /**
   * The buffer rank `rank` forwards to its parent, or at the root writes to
   * the output. An absent child contributes an empty payload and split point 0.
   */
  function Payload<T>(inputs: seq<seq<T>>, tables: seq<seq<int>>, rank: nat): Option<seq<T>>
    requires Shaped(inputs, tables) && rank < |inputs|
    decreases |inputs| - rank
  {
    var size := |inputs|;
    Combine(inputs[rank],
            if Left(rank) < size then Payload(inputs, tables, Left(rank)) else Some([]),
            if Left(rank) < size then tables[rank][Left(rank)] else 0,
            if Right(rank) < size then Payload(inputs, tables, Right(rank)) else Some([]),
            if Right(rank) < size then tables[rank][Right(rank)] else 0)
  }

  /**
   * One rank's part of `my_gather`: start from the own input, append each
   * present child's head and keep its tail aside, then append the tails. The
   * children's payloads arrive as `fromLeft` and `fromRight`.
   */
  method MyGather<T>(inputs: seq<seq<T>>, tables: seq<seq<int>>, rank: nat,
                     fromLeft: seq<T>, fromRight: seq<T>) returns (container: seq<T>)
    requires Shaped(inputs, tables) && rank < |inputs|
    requires Left(rank) < |inputs| ==>
      Payload(inputs, tables, Left(rank)) == Some(fromLeft) &&
      0 <= tables[rank][Left(rank)] <= |fromLeft|
    requires Right(rank) < |inputs| ==>
      Payload(inputs, tables, Right(rank)) == Some(fromRight) &&
      0 <= tables[rank][Right(rank)] <= |fromRight|
    ensures Payload(inputs, tables, rank) == Some(container)
  {
    var size := |inputs|;
    var sizes := tables[rank];
    var nb := TreeNeighbours(rank, 0, size);
    RootZeroHeap(rank, size);
    ghost var sl := if Left(rank) < size then sizes[Left(rank)] else 0;
    ghost var sr := if Right(rank) < size then sizes[Right(rank)] else 0;
    ghost var l := if Left(rank) < size then fromLeft else [];
    ghost var r := if Right(rank) < size then fromRight else [];
    container := inputs[rank];
    var childTemp: seq<T> := [];
    if nb.left != -1 {
      var s := sizes[nb.left];
      container := container + fromLeft[..s];
      childTemp := childTemp + fromLeft[s..];
    }
    assert container == inputs[rank] + l[..sl] && childTemp == l[sl..];
    if nb.right != -1 {
      var s := sizes[nb.right];
      container := container + fromRight[..s];
      childTemp := childTemp + fromRight[s..];
    }
    assert container == inputs[rank] + l[..sl] + r[..sr] && childTemp == l[sl..] + r[sr..];
    ghost var head := container;
    container := container + childTemp;
    assert container == head + (l[sl..] + r[sr..]);
    assert container == inputs[rank] + l[..sl] + r[..sr] + l[sl..] + r[sr..];
    PayloadStep(inputs, tables, rank, fromLeft, fromRight);
  }

  /** Unfolds `Payload` once, for the payloads the children actually sent. */
  lemma PayloadStep<T>(inputs: seq<seq<T>>, tables: seq<seq<int>>, rank: nat, fromLeft: seq<T>, fromRight: seq<T>)
    requires Shaped(inputs, tables) && rank < |inputs|
    requires Left(rank) < |inputs| ==>
      Payload(inputs, tables, Left(rank)) == Some(fromLeft) &&
      0 <= tables[rank][Left(rank)] <= |fromLeft|
    requires Right(rank) < |inputs| ==>
      Payload(inputs, tables, Right(rank)) == Some(fromRight) &&
      0 <= tables[rank][Right(rank)] <= |fromRight|
    ensures
      var sl := if Left(rank) < |inputs| then tables[rank][Left(rank)] else 0;
      var sr := if Right(rank) < |inputs| then tables[rank][Right(rank)] else 0;
      var l := if Left(rank) < |inputs| then fromLeft else [];
      var r := if Right(rank) < |inputs| then fromRight else [];
      Payload(inputs, tables, rank) == Some(inputs[rank] + l[..sl] + r[..sr] + l[sl..] + r[sr..])
  {
  }

  /** The inputs of the ranks in `[lo, P)` that lie in the subtree of `r`, in rank order. */
  function SubtreeInputs<T>(inputs: seq<seq<T>>, r: nat, lo: nat): seq<T>
    decreases |inputs| - lo
  {
    if lo >= |inputs| then []
    else (if InSubtree(r, lo) then inputs[lo] else []) + SubtreeInputs(inputs, r, lo + 1)
  }

  /** All inputs concatenated in rank order from `lo` on: what a rank-order gather yields. */
  function Concat<T>(inputs: seq<seq<T>>, lo: nat): seq<T>
    decreases |inputs| - lo
  {
    if lo >= |inputs| then [] else inputs[lo] + Concat(inputs, lo + 1)
  }

  /** No rank below `a` lies in the subtree of `a`. */
  lemma {:induction false} SubtreeInputsFrom<T>(inputs: seq<seq<T>>, a: nat, lo: nat)
    requires lo <= a
    ensures SubtreeInputs(inputs, a, lo) == SubtreeInputs(inputs, a, a)
    decreases a - lo
  {
    if lo < a {
      SubtreeInputsFrom(inputs, a, lo + 1);
    }
  }

  /** From `lo` on, the subtree of `r` holds exactly its children's subtrees' inputs. */
  ghost predicate SplitFrom<T>(inputs: seq<seq<T>>, r: nat, lo: nat) {
    multiset(SubtreeInputs(inputs, r, lo)) ==
      multiset(SubtreeInputs(inputs, Left(r), lo)) + multiset(SubtreeInputs(inputs, Right(r), lo))
  }

  /** Past `r`, the subtree of `r` holds exactly its children's subtrees' inputs. */
  lemma {:induction false} SubtreeInputsSplit<T>(inputs: seq<seq<T>>, r: nat, lo: nat)
    requires lo > r
    ensures SplitFrom(inputs, r, lo)
    decreases |inputs| - lo
  {
    if lo < |inputs| {
      SubtreeInputsSplit(inputs, r, lo + 1);
      SplitOneRank(inputs, r, lo);
    }
  }

  /** The inductive step of `SubtreeInputsSplit`: adding rank `lo` keeps the split. */
  lemma SplitOneRank<T>(inputs: seq<seq<T>>, r: nat, lo: nat)
    requires r < lo < |inputs|
    requires SplitFrom(inputs, r, lo + 1)
    ensures SplitFrom(inputs, r, lo)
  {
    SubtreeChildren(r, lo);
    SiblingsDisjoint(r, lo);
    SplitStep(inputs[lo], InSubtree(r, lo), InSubtree(Left(r), lo), InSubtree(Right(r), lo),
              SubtreeInputs(inputs, r, lo + 1),
              SubtreeInputs(inputs, Left(r), lo + 1), SubtreeInputs(inputs, Right(r), lo + 1));
    assert SubtreeInputs(inputs, r, lo) ==
      (if InSubtree(r, lo) then inputs[lo] else []) + SubtreeInputs(inputs, r, lo + 1);
    assert SubtreeInputs(inputs, Left(r), lo) ==
      (if InSubtree(Left(r), lo) then inputs[lo] else []) + SubtreeInputs(inputs, Left(r), lo + 1);
    assert SubtreeInputs(inputs, Right(r), lo) ==
      (if InSubtree(Right(r), lo) then inputs[lo] else []) + SubtreeInputs(inputs, Right(r), lo + 1);
  }

  /** One rank's input goes to a subtree exactly when it goes to one of the two child subtrees. */
  lemma SplitStep<T>(x: seq<T>, inR: bool, inL: bool, inRt: bool, here: seq<T>, left: seq<T>, right: seq<T>)
    requires (inR <==> inL || inRt) && !(inL && inRt)
    requires multiset(here) == multiset(left) + multiset(right)
    ensures multiset((if inR then x else []) + here) ==
      multiset((if inL then x else []) + left) + multiset((if inRt then x else []) + right)
  {
    if inL {
      assert multiset(x + here) == multiset(x) + multiset(here);
      assert multiset(x + left) == multiset(x) + multiset(left);
    } else if inRt {
      assert multiset(x + here) == multiset(x) + multiset(here);
      assert multiset(x + right) == multiset(x) + multiset(right);
    } else {
      var none: seq<T> := [];
      assert none + here == here && none + left == left && none + right == right;
    }
  }

  /** The root's subtree covers every rank, in rank order. */
  lemma {:induction false} RootSubtreeInputs<T>(inputs: seq<seq<T>>, lo: nat)
    ensures SubtreeInputs(inputs, 0, lo) == Concat(inputs, lo)
    decreases |inputs| - lo
  {
    if lo < |inputs| {
      AllInRootSubtree(lo);
      RootSubtreeInputs(inputs, lo + 1);
    }
  }

  /** The inputs of a subtree are those of its root followed by those of the two child subtrees. */
  lemma SubtreeInputsUnfold<T>(inputs: seq<seq<T>>, r: nat)
    requires r < |inputs|
    ensures multiset(SubtreeInputs(inputs, r, r)) ==
      multiset(inputs[r]) + multiset(SubtreeInputs(inputs, Left(r), Left(r))) +
      multiset(SubtreeInputs(inputs, Right(r), Right(r)))
  {
    assert SubtreeInputs(inputs, r, r) == inputs[r] + SubtreeInputs(inputs, r, r + 1);
    SubtreeInputsSplit(inputs, r, r + 1);
    SubtreeInputsFrom(inputs, Left(r), r + 1);
    SubtreeInputsFrom(inputs, Right(r), r + 1);
  }

  /**
   * A defined payload is a permutation of the inputs of the sender's subtree,
   * and starts with the sender's own input.
   */
  lemma {:induction false} PayloadPermutation<T>(inputs: seq<seq<T>>, tables: seq<seq<int>>, rank: nat)
    requires Shaped(inputs, tables) && rank < |inputs|
    requires Payload(inputs, tables, rank).Some?
    ensures multiset(Payload(inputs, tables, rank).value) == multiset(SubtreeInputs(inputs, rank, rank))
    ensures |inputs[rank]| <= |Payload(inputs, tables, rank).value|
    ensures Payload(inputs, tables, rank).value[..|inputs[rank]|] == inputs[rank]
    decreases |inputs| - rank
  {
    var size := |inputs|;
    SubtreeInputsUnfold(inputs, rank);
    CombinePermutes(inputs[rank],
                    if Left(rank) < size then Payload(inputs, tables, Left(rank)) else Some([]),
                    if Left(rank) < size then tables[rank][Left(rank)] else 0,
                    if Right(rank) < size then Payload(inputs, tables, Right(rank)) else Some([]),
                    if Right(rank) < size then tables[rank][Right(rank)] else 0);
    if Left(rank) < size {
      PayloadPermutation(inputs, tables, Left(rank));
    } else {
      assert SubtreeInputs(inputs, Left(rank), Left(rank)) == [];
    }
    if Right(rank) < size {
      PayloadPermutation(inputs, tables, Right(rank));
    } else {
      assert SubtreeInputs(inputs, Right(rank), Right(rank)) == [];
    }
  }


  /**
   * At the root, a defined result is a permutation of all ranks' inputs in
   * rank order (what a library gather would deliver), and it starts with the
   * root's own input.
   */
  lemma RootPermutation<T>(inputs: seq<seq<T>>, tables: seq<seq<int>>)
    requires Shaped(inputs, tables)
    requires Payload(inputs, tables, 0).Some?
    ensures multiset(Payload(inputs, tables, 0).value) == multiset(Concat(inputs, 0))
    ensures |Payload(inputs, tables, 0).value| == |Concat(inputs, 0)|
    ensures |inputs[0]| <= |Payload(inputs, tables, 0).value|
    ensures Payload(inputs, tables, 0).value[..|inputs[0]|] == inputs[0]
  {
    PayloadPermutation(inputs, tables, 0);
    RootSubtreeInputs(inputs, 0);
    assert |multiset(Payload(inputs, tables, 0).value)| == |multiset(Concat(inputs, 0))|;
  }

  /**
   * The gather is defined when every parent's table asks a child for no more
   * than that child's own input: a child's payload is never shorter.
   */
  lemma {:induction false} PayloadDefined<T>(inputs: seq<seq<T>>, tables: seq<seq<int>>, rank: nat)
    requires Shaped(inputs, tables) && rank < |inputs|
    requires forall c | 0 < c < |inputs| :: 0 <= tables[Parent(c)][c] <= |inputs[c]|
    ensures Payload(inputs, tables, rank).Some?
    decreases |inputs| - rank
  {
    var size := |inputs|;
    if Left(rank) < size {
      PayloadDefined(inputs, tables, Left(rank));
      PayloadPermutation(inputs, tables, Left(rank));
      assert Parent(Left(rank)) == rank;
    }
    if Right(rank) < size {
      PayloadDefined(inputs, tables, Right(rank));
      PayloadPermutation(inputs, tables, Right(rank));
      assert Parent(Right(rank)) == rank;
    }
    CombinePermutes(inputs[rank],
                    if Left(rank) < size then Payload(inputs, tables, Left(rank)) else Some([]),
                    if Left(rank) < size then tables[rank][Left(rank)] else 0,
                    if Right(rank) < size then Payload(inputs, tables, Right(rank)) else Some([]),
                    if Right(rank) < size then tables[rank][Right(rank)] else 0);
  }

  /** The subtree of `r` in pre-order: `r`'s input, then the left subtree, then the right one. */
  function PreOrder<T>(inputs: seq<seq<T>>, r: nat): seq<T>
    requires r < |inputs|
    decreases |inputs| - r
  {
    inputs[r] +
    (if Left(r) < |inputs| then PreOrder(inputs, Left(r)) else []) +
    (if Right(r) < |inputs| then PreOrder(inputs, Right(r)) else [])
  }

  /**
   * Away from the root every table is all zero (those ranks hold an empty
   * result vector), so a child's whole payload goes to the tail and a
   * non-root rank forwards its subtree in pre-order.
   */
  lemma {:induction false} NonRootPreOrder<T>(inputs: seq<seq<T>>, tables: seq<seq<int>>, rank: nat)
    requires Shaped(inputs, tables) && 0 < rank < |inputs|
    requires forall k, c | 0 < k < |inputs| && 0 <= c < |inputs| :: tables[k][c] == 0
    ensures Payload(inputs, tables, rank) == Some(PreOrder(inputs, rank))
    decreases |inputs| - rank
  {
    var size := |inputs|;
    var l := if Left(rank) < size then PreOrder(inputs, Left(rank)) else [];
    var r := if Right(rank) < size then PreOrder(inputs, Right(rank)) else [];
    if Left(rank) < size {
      NonRootPreOrder(inputs, tables, Left(rank));
    }
    if Right(rank) < size {
      NonRootPreOrder(inputs, tables, Right(rank));
    }
    assert Payload(inputs, tables, rank) == Combine(inputs[rank], Some(l), 0, Some(r), 0);
    CombineNoSplit(inputs[rank], l, r);
  }

  /**
   * When every split point is zero, the root's own table included, the
   * gather is defined and rank 0 receives all inputs in pre-order.
   */
  lemma ZeroSplitsPreOrder<T>(inputs: seq<seq<T>>, tables: seq<seq<int>>)
    requires Shaped(inputs, tables)
    requires forall c | 1 <= c < |inputs| :: tables[0][c] == 0
    requires forall k, c | 0 < k < |inputs| && 0 <= c < |inputs| :: tables[k][c] == 0
    ensures Payload(inputs, tables, 0) == Some(PreOrder(inputs, 0))
  {
    var size := |inputs|;
    var l := if Left(0) < size then PreOrder(inputs, Left(0)) else [];
    var r := if Right(0) < size then PreOrder(inputs, Right(0)) else [];
    if Left(0) < size {
      NonRootPreOrder(inputs, tables, Left(0));
    }
    if Right(0) < size {
      NonRootPreOrder(inputs, tables, Right(0));
    }
    assert Payload(inputs, tables, 0) == Combine(inputs[0], Some(l), 0, Some(r), 0);
    CombineNoSplit(inputs[0], l, r);
  }

  /** Split points of zero put each whole payload after the own input, left then right. */
  lemma CombineNoSplit<T>(own: seq<T>, l: seq<T>, r: seq<T>)
    ensures Combine(own, Some(l), 0, Some(r), 0) == Some(own + l + r)
  {
    assert l[..0] == [] && l[0..] == l && r[..0] == [] && r[0..] == r;
    assert own + l[..0] + r[..0] + l[0..] + r[0..] == own + l + r;
  }

  /** With one rank there are no children: the output is the input unchanged. */
  lemma SingleRank<T>(inputs: seq<seq<T>>, tables: seq<seq<int>>)
    requires Shaped(inputs, tables) && |inputs| == 1
    ensures Payload(inputs, tables, 0) == Some(inputs[0])
  {
    var none: seq<T> := [];
    assert Payload(inputs, tables, 0) == Combine(inputs[0], Some(none), 0, Some(none), 0);
    assert inputs[0] + none[..0] + none[..0] + none[0..] + none[0..] == inputs[0];
  }

  /**
   * The rule does not yield rank order in general. Eight ranks of one element
   * each, with the tables the source builds (rank 0 asks one element of each
   * child, every other table is zero): rank 7's element arrives before rank 4's.
   */
  lemma EightRanksOrder(inputs: seq<seq<int>>, tables: seq<seq<int>>)
    requires |inputs| == 8 && forall r | 0 <= r < 8 :: inputs[r] == [r]
    requires Shaped(inputs, tables) && tables[0][1] == 1 && tables[0][2] == 1
    requires forall k, c | 0 < k < 8 && 0 <= c < 8 :: tables[k][c] == 0
    ensures Payload(inputs, tables, 0) == Some([0, 1, 2, 3, 7, 4, 5, 6])
  {
    NonRootPreOrder(inputs, tables, 1);
    NonRootPreOrder(inputs, tables, 2);
    EightRanksSubtrees(inputs);
    var l, r := [1, 3, 7, 4], [2, 5, 6];
    PayloadStep(inputs, tables, 0, l, r);
    EightRanksMerge(inputs[0], l, r);
  }

  /** The root's own element, one element of each child's payload, then the tails. */
  lemma EightRanksMerge(own: seq<int>, l: seq<int>, r: seq<int>)
    requires own == [0] && l == [1, 3, 7, 4] && r == [2, 5, 6]
    ensures own + l[..1] + r[..1] + l[1..] + r[1..] == [0, 1, 2, 3, 7, 4, 5, 6]
  {
    assert l[..1] == [1] && r[..1] == [2] && l[1..] == [3, 7, 4] && r[1..] == [5, 6];
  }

  /** The pre-orders of the two subtrees below the root of an eight-rank tree. */
  lemma EightRanksSubtrees(inputs: seq<seq<int>>)
    requires |inputs| == 8 && forall r | 0 <= r < 8 :: inputs[r] == [r]
    ensures PreOrder(inputs, 1) == [1, 3, 7, 4] && PreOrder(inputs, 2) == [2, 5, 6]
  {
    assert PreOrder(inputs, 3) == [3, 7] by {
      assert PreOrder(inputs, 7) == [7];
    }
    assert PreOrder(inputs, 1) == [1, 3, 7, 4] by {
      assert PreOrder(inputs, 4) == [4];
    }
    assert PreOrder(inputs, 2) == [2, 5, 6] by {
      assert PreOrder(inputs, 5) == [5];
      assert PreOrder(inputs, 6) == [6];
    }
  }
}
