/** The concrete cases the repository's tests check, stated for every tree
    the builders can return: any tree that holds the array in order and is
    heap-ordered (or satisfies a tie-break) gives the answers below. */
module Examples {
  import opened Trees

  /** Range minimum over positions 1..4 of [4, 2, 6, 1, 5, 3] is 1. */
  lemma RangeMinimumExample(t: Tree)
    requires InOrder(t) == Enumerate([4, 2, 6, 1, 5, 3]) && CheckHeap(t)
    ensures GetRangeMinimum(t, 1, 4) == Some(1)
  {
    var a := [4, 2, 6, 1, 5, 3];
    RangeMinimumMatchesArray(a, t, 1, 4);
    assert a[1..5] == [2, 6, 1, 5];
    var m := SeqMin(a[1..5]);
    assert m <= a[1..5][2] == 1;
  }

  /** A one-position range of [9, 7, 5, 3] returns that position's value. */
  lemma SingleRangeExample(t: Tree)
    requires InOrder(t) == Enumerate([9, 7, 5, 3]) && CheckHeap(t)
    ensures GetRangeMinimum(t, 2, 2) == Some(5)
  {
    var a := [9, 7, 5, 3];
    RangeMinimumMatchesArray(a, t, 2, 2);
    assert a[2..3] == [5];
  }

  /** The array with duplicates [2, 1, 1, 3, 1] passes the property check
      under either tie-break, and the two tie-breaks pick different roots:
      the last 1 with `>=`, the first with `>`. */
  lemma DuplicatesExample(ct: CartesianTree, p: TieBreak)
    requires ct.input == [2, 1, 1, 3, 1]
    requires InOrder(ct.root) == Enumerate(ct.input) && Cartesian(ct.root, p)
    ensures VerifyProperties(ct).0
    ensures ct.root.Node? && ct.root.index == (if p == PopGe then 4 else 1)
  {
    CartesianPassesChecks(ct, p);
    RootTieBreak(ct.input, ct.root, p);
    var a, i := ct.input, ct.root.index;
    assert ct.root.value <= a[1] == 1;
    assert a[i] == 1 ==> i == 1 || i == 2 || i == 4;
    assert p == PopGe ==> a[4] == 1 && !(ct.root.value < a[4]);
    assert p == PopGt ==> a[1] == 1 && !(ct.root.value < a[1]);
  }

  /** The two source files disagree on equal values: for [1, 1] the
      non-strict pop puts the second 1 on top, the strict pop the first. */
  lemma TieBreaksDisagree(t1: Tree, t2: Tree)
    requires InOrder(t1) == Enumerate([1, 1]) && Cartesian(t1, PopGe)
    requires InOrder(t2) == Enumerate([1, 1]) && Cartesian(t2, PopGt)
    ensures t1 == Node(1, 1, Node(1, 0, Leaf, Leaf), Leaf)
    ensures t2 == Node(1, 0, Leaf, Node(1, 1, Leaf, Leaf))
  {
    assert Enumerate([1, 1]) == [Entry(1, 0), Entry(1, 1)];
    var e1 := Node(1, 1, Node(1, 0, Leaf, Leaf), Leaf);
    var e2 := Node(1, 0, Leaf, Node(1, 1, Leaf, Leaf));
    assert Cartesian(e1, PopGe) && Cartesian(e2, PopGt);
    CartesianUnique(t1, e1, PopGe);
    CartesianUnique(t2, e2, PopGt);
  }
}
