/**
 * The relation tree of `my_gather`: every rank derives a parent and up to two
 * children from its own rank, the root rank and the group size. `-1` stands
 * for "no such neighbour", as in the source.
 */
module Tree {
  import opened CInt

  datatype Neighbours = Neighbours(parent: int, left: int, right: int)

  /** The neighbour arithmetic exactly as written, with C++ truncating `/` and `%`. */
  function TreeNeighbours(rank: int, root: int, size: int): Neighbours
    requires size > 0
  {
    var newrank := CRem(rank - root, size);
    var left := if 2 * newrank + 1 < size then CRem(2 * rank + 1 - root, size) else -1;
    var right := if 2 * newrank + 2 < size then CRem(2 * rank + 2 - root, size) else -1;
    var parent := if rank == root then -1 else CRem(root + CDiv(newrank - 1, 2), size);
    Neighbours(parent, left, right)
  }

  /** The heap layout the tree takes with root 0, the only root the source uses. */
  function Left(r: nat): nat { 2 * r + 1 }

  function Right(r: nat): nat { 2 * r + 2 }

  function Parent(c: nat): (p: nat)
    requires c > 0
    ensures p < c && (Left(p) == c || Right(p) == c)
  {
    (c - 1) / 2
  }

  lemma SmallRem(x: nat, size: nat)
    requires x < size
    ensures CRem(x, size) == x
  {
    assert x % size == x;
  }

  /**
   * With root 0, rank `r` has left child `2r+1` exactly when `2r+1 < P`, right
   * child `2r+2` exactly when `2r+2 < P`, and, unless it is the root, parent
   * `(r-1)/2`.
   */
  lemma RootZeroHeap(rank: nat, size: nat)
    requires rank < size
    ensures TreeNeighbours(rank, 0, size) ==
      Neighbours(if rank == 0 then -1 else Parent(rank),
                 if Left(rank) < size then Left(rank) else -1,
                 if Right(rank) < size then Right(rank) else -1)
  {
    SmallRem(rank, size);
    if Left(rank) < size {
      SmallRem(Left(rank), size);
    }
    if Right(rank) < size {
      SmallRem(Right(rank), size);
    }
    if rank > 0 {
      assert CDiv(rank - 1, 2) == Parent(rank);
      SmallRem(Parent(rank), size);
    }
  }

  /**
   * With root 0, each rank `c` in `1..P-1` is the child of exactly one rank,
   * its parent, which lies below it; the root is nobody's child.
   */
  lemma UniqueParent(c: nat, size: nat)
    requires c < size
    ensures c == 0 <==> TreeNeighbours(c, 0, size).parent == -1
    ensures c > 0 ==> 0 <= TreeNeighbours(c, 0, size).parent < c
    ensures forall r | 0 <= r < size ::
      (TreeNeighbours(r, 0, size).left == c || TreeNeighbours(r, 0, size).right == c) <==>
      (c > 0 && r == TreeNeighbours(c, 0, size).parent)
  {
    RootZeroHeap(c, size);
    forall r | 0 <= r < size
      ensures (TreeNeighbours(r, 0, size).left == c || TreeNeighbours(r, 0, size).right == c) <==>
              (c > 0 && r == TreeNeighbours(c, 0, size).parent)
    {
      RootZeroHeap(r, size);
    }
  }

  /** `c` lies in the subtree rooted at `r` of the root-0 tree. */
  predicate InSubtree(r: nat, c: nat)
    decreases c
  {
    c == r || (c > r && InSubtree(r, Parent(c)))
  }

  /** Every rank lies in the subtree of the root. */
  lemma {:induction false} AllInRootSubtree(c: nat)
    ensures InSubtree(0, c)
    decreases c
  {
    if c > 0 {
      AllInRootSubtree(Parent(c));
    }
  }

  /** Below `r`, the subtree of `r` is exactly the union of its children's subtrees. */
  lemma {:induction false} SubtreeChildren(r: nat, c: nat)
    requires c > r
    ensures InSubtree(r, c) <==> InSubtree(Left(r), c) || InSubtree(Right(r), c)
    decreases c
  {
    if c == Left(r) || c == Right(r) {
      assert Parent(c) == r;
    } else if c > Right(r) {
      SubtreeChildren(r, Parent(c));
    } else {
      assert Parent(c) < r;
      assert !InSubtree(r, Parent(c));
    }
  }

  /** Two subtrees that share a rank are nested. */
  lemma {:induction false} SubtreesNest(a: nat, b: nat, c: nat)
    requires a <= b && InSubtree(a, c) && InSubtree(b, c)
    ensures InSubtree(a, b)
    decreases c
  {
    if c != b {
      SubtreesNest(a, b, Parent(c));
    }
  }

  /** The two children's subtrees are disjoint. */
  lemma SiblingsDisjoint(r: nat, c: nat)
    ensures !(InSubtree(Left(r), c) && InSubtree(Right(r), c))
  {
    if InSubtree(Left(r), c) && InSubtree(Right(r), c) {
      SubtreesNest(Left(r), Right(r), c);
    }
  }

  /**
   * With a root other than 0 the arithmetic as written breaks: C++ `%` keeps
   * the sign of a negative operand. With root 1 and three ranks, rank 0 names
   * itself as its own parent and its own left child, so it would wait for a
   * message from itself.
   */
  lemma NonZeroRootSelfLoop()
    ensures TreeNeighbours(0, 1, 3) == Neighbours(0, 0, 1)
  {
    SelfLoopParent();
    SelfLoopLeft();
    SelfLoopRight();
  }

  lemma SelfLoopParent()
    ensures TreeNeighbours(0, 1, 3).parent == 0
  {
    assert CRem(-1, 3) == -1;
    assert CDiv(-2, 2) == -1;
    assert CRem(0, 3) == 0;
  }

  lemma SelfLoopLeft()
    ensures TreeNeighbours(0, 1, 3).left == 0
  {
    assert CRem(-1, 3) == -1;
    assert CRem(0, 3) == 0;
  }

  lemma SelfLoopRight()
    ensures TreeNeighbours(0, 1, 3).right == 1
  {
    assert CRem(-1, 3) == -1;
    assert CRem(1, 3) == 1;
  }

  /** The same arithmetic read with Euclidean `%` and `/`, as the rotation by `root` intends. */
  function EuclidNeighbours(rank: int, root: int, size: int): Neighbours
    requires size > 0
  {
    var newrank := (rank - root) % size;
    var left := if 2 * newrank + 1 < size then (2 * rank + 1 - root) % size else -1;
    var right := if 2 * newrank + 2 < size then (2 * rank + 2 - root) % size else -1;
    var parent := if rank == root then -1 else (root + (newrank - 1) / 2) % size;
    Neighbours(parent, left, right)
  }

  lemma MulAtLeast(k: int, size: int)
    requires k >= 1 && size > 0
    ensures k * size >= size
  {
    assert (k - 1) * size >= 0;
  }

  /** Quotient and remainder are the unique pair with `0 <= r < size`. */
  lemma ModUnique(x: int, size: int, q: int, r: int)
    requires size > 0 && 0 <= r < size && x == q * size + r
    ensures x % size == r && x / size == q
  {
    var q', r' := x / size, x % size;
    assert (q' - q) * size == r - r';
    if q' > q {
      MulAtLeast(q' - q, size);
    } else if q' < q {
      MulAtLeast(q - q', size);
    }
  }

  /** Two ranks at the same position relative to the root are the same rank. */
  lemma SamePosition(a: int, b: int, root: int, size: int)
    requires 0 <= a < size && 0 <= b < size && size > 0
    requires (a - root) % size == (b - root) % size
    ensures a == b
  {
    var qa, qb := (a - root) / size, (b - root) / size;
    assert a - b == (qa - qb) * size;
    if qa > qb {
      MulAtLeast(qa - qb, size);
    } else if qa < qb {
      MulAtLeast(qb - qa, size);
    }
  }

  /** A rank's position relative to the root, added back to the root, gives the rank. */
  lemma RankFromPosition(rank: int, root: int, size: int)
    requires 0 <= rank < size && 0 <= root < size
    ensures (root + (rank - root) % size) % size == rank
  {
    var nr, q := (rank - root) % size, (rank - root) / size;
    assert rank - root == q * size + nr;
    ModUnique(root + nr, size, -q, rank);
  }

  /** The rank found at position `h` relative to the root has position `h`. */
  lemma PositionOfRank(h: int, root: int, size: int)
    requires 0 <= h < size && 0 <= root < size
    ensures ((root + h) % size - root) % size == h
  {
    var p, k := (root + h) % size, (root + h) / size;
    assert root + h == k * size + p;
    ModUnique(p - root, size, -k, h);
  }

  /** Child `c` of `rank` sits at position `2 * pos + c`, where `pos` is the rank's position. */
  lemma ChildPosition(rank: int, root: int, size: int, c: int)
    requires 0 <= rank < size && 0 <= root < size && (c == 1 || c == 2)
    requires 2 * ((rank - root) % size) + c < size
    ensures ((2 * rank + c - root) % size - root) % size == 2 * ((rank - root) % size) + c
  {
    var nr, q := (rank - root) % size, (rank - root) / size;
    var x := 2 * rank + c - root;
    var child, k := x % size, x / size;
    assert rank - root == q * size + nr;
    assert x == k * size + child;
    assert child - root == (2 * q - k) * size + (2 * nr + c);
    ModUnique(child - root, size, 2 * q - k, 2 * nr + c);
  }

  /**
   * Child `c` (1 for left, 2 for right) of `rank`, when it exists, sits at
   * position `2 * pos + c` relative to the root and names `rank` as its parent.
   */
  lemma EuclidChild(rank: int, root: int, size: int, c: int)
    requires 0 <= rank < size && 0 <= root < size && (c == 1 || c == 2)
    requires 2 * ((rank - root) % size) + c < size
    ensures var child := (2 * rank + c - root) % size;
      0 <= child < size && child != root &&
      (child - root) % size == 2 * ((rank - root) % size) + c &&
      EuclidNeighbours(child, root, size).parent == rank
  {
    var nr := (rank - root) % size;
    var child := (2 * rank + c - root) % size;
    ChildPosition(rank, root, size, c);
    assert child != root by {
      assert (root - root) % size == 0;
    }
    assert (2 * nr + c - 1) / 2 == nr;
    RankFromPosition(rank, root, size);
  }

  /** Every rank but the root is a child of its parent. */
  lemma EuclidParent(rank: int, root: int, size: int)
    requires 0 <= rank < size && 0 <= root < size && rank != root
    ensures var p := EuclidNeighbours(rank, root, size).parent;
      0 <= p < size &&
      (EuclidNeighbours(p, root, size).left == rank ||
       EuclidNeighbours(p, root, size).right == rank)
  {
    var nr := (rank - root) % size;
    if nr == 0 {
      ModUnique(root - root, size, 0, 0);
      SamePosition(rank, root, root, size);
      assert false;
    }
    var h := (nr - 1) / 2;
    var p := (root + h) % size;
    PositionOfRank(h, root, size);
    var c := nr - 2 * h;
    EuclidChild(p, root, size, c);
    SamePosition((2 * p + c - root) % size, rank, root, size);
  }

  /**
   * Read with Euclidean `%`, the arithmetic gives a tree for every root:
   * only the root lacks a parent, every parent lists the rank as a child, and
   * every child lies in range, differs from the rank and names it as parent.
   */
  lemma EuclidTree(rank: int, root: int, size: int)
    requires 0 <= rank < size && 0 <= root < size
    ensures var nb := EuclidNeighbours(rank, root, size);
      (nb.parent == -1 <==> rank == root) &&
      (nb.parent != -1 ==>
         0 <= nb.parent < size &&
         (EuclidNeighbours(nb.parent, root, size).left == rank ||
          EuclidNeighbours(nb.parent, root, size).right == rank)) &&
      (nb.left != -1 ==>
         0 <= nb.left < size && nb.left != rank &&
         EuclidNeighbours(nb.left, root, size).parent == rank) &&
      (nb.right != -1 ==>
         0 <= nb.right < size && nb.right != rank &&
         EuclidNeighbours(nb.right, root, size).parent == rank)
  {
    var nr := (rank - root) % size;
    if 2 * nr + 1 < size {
      EuclidChild(rank, root, size, 1);
    }
    if 2 * nr + 2 < size {
      EuclidChild(rank, root, size, 2);
    }
    if rank != root {
      EuclidParent(rank, root, size);
    }
  }

  /** With root 0 the Euclidean reading and the code as written agree. */
  lemma EuclidAgreesAtRootZero(rank: nat, size: nat)
    requires rank < size
    ensures EuclidNeighbours(rank, 0, size) == TreeNeighbours(rank, 0, size)
  {
    RootZeroHeap(rank, size);
  }
}
