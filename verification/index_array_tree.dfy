/** The implementation in CartesianTree.cs. Its constructor builds with three
    index arrays (parent, left child, right child; -1 for none) and converts
    them to nodes afterwards; a second, stack-based builder is kept beside it.
    Both compare with a non-strict `>=`, so a later equal value becomes an
    ancestor of an earlier one. */
module IndexArrayTree {
  import opened Trees
  import opened Spines

  // ---------- Index-array construction ----------

  /** The child arrays describe, from `idx` down, a finite subtree whose
      indices all lie in [lo, hi): every left child below its parent, every
      right child above it. */
  ghost predicate Linked(lc: seq<int>, rc: seq<int>, idx: int, lo: int, hi: int)
    requires |lc| == |rc|
    decreases hi - lo
  {
    idx == -1 ||
    (&& 0 <= lo <= idx < hi <= |lc|
     && Linked(lc, rc, lc[idx], lo, idx)
     && Linked(lc, rc, rc[idx], idx + 1, hi))
  }

  /** Converts the child arrays below `rootIdx` into nodes. The interval
      [lo, hi) the subtree covers is carried only to show termination. The
      result is a search tree on index inside that interval whose every node
      carries its array value. */
  function BuildTreeUtil(a: seq<int>, lc: seq<int>, rc: seq<int>, rootIdx: int,
                         ghost lo: int, ghost hi: int): (r: Tree)
    requires |lc| == |rc| == |a|
    requires Linked(lc, rc, rootIdx, lo, hi)
    ensures r == Leaf <==> rootIdx == -1
    ensures r.Node? ==> r.index == rootIdx
    ensures IndexSorted(InOrder(r)) && Within(InOrder(r), lo - 1, hi)
    ensures forall q :: 0 <= q < |InOrder(r)| ==> InOrder(r)[q].value == a[InOrder(r)[q].index]
    decreases hi - lo
  {
    if rootIdx == -1 then Leaf
    else
      var l := BuildTreeUtil(a, lc, rc, lc[rootIdx], lo, rootIdx);
      var r := BuildTreeUtil(a, lc, rc, rc[rootIdx], rootIdx + 1, hi);
      SortedJoin(InOrder(l), Entry(a[rootIdx], rootIdx), InOrder(r), lo - 1, hi);
      ValuesFromArray(a, InOrder(l), Entry(a[rootIdx], rootIdx), InOrder(r));
      Node(a[rootIdx], rootIdx, l, r)
  }

  lemma ValuesFromArray(a: seq<int>, A: seq<Entry>, e: Entry, B: seq<Entry>)
    requires 0 <= e.index < |a| && e.value == a[e.index]
    requires forall q :: 0 <= q < |A| ==> 0 <= A[q].index < |a| && A[q].value == a[A[q].index]
    requires forall q :: 0 <= q < |B| ==> 0 <= B[q].index < |a| && B[q].value == a[B[q].index]
    ensures forall q :: 0 <= q < |A + [e] + B| ==>
      0 <= (A + [e] + B)[q].index < |a| && (A + [e] + B)[q].value == a[(A + [e] + B)[q].index]
  {
    var s := A + [e] + B;
    forall q | 0 <= q < |s| ensures 0 <= s[q].index < |a| && s[q].value == a[s[q].index] {
      if q < |A| {
        assert s[q] == A[q];
      } else if q > |A| {
        assert s[q] == B[q - |A| - 1];
      }
    }
  }

  /** Changing the arrays outside [lo, hi) changes neither the links of a
      subtree inside it nor the nodes built from them. */
  lemma {:induction false} UtilFrame(a: seq<int>, lc: seq<int>, rc: seq<int>, lc': seq<int>, rc': seq<int>,
                                     idx: int, lo: int, hi: int)
    requires |lc| == |rc| == |a| == |lc'| == |rc'|
    requires Linked(lc, rc, idx, lo, hi)
    requires forall q :: 0 <= q < |a| && lo <= q < hi ==> lc'[q] == lc[q] && rc'[q] == rc[q]
    ensures Linked(lc', rc', idx, lo, hi)
    ensures BuildTreeUtil(a, lc', rc', idx, lo, hi) == BuildTreeUtil(a, lc, rc, idx, lo, hi)
    decreases hi - lo
  {
    if idx != -1 {
      UtilFrame(a, lc, rc, lc', rc', lc[idx], lo, idx);
      UtilFrame(a, lc, rc, lc', rc', rc[idx], idx + 1, hi);
    }
  }

  /** How the arrays record stack frame `k`: its right child is the frame
      above (none for the top), its parent the frame below (none for the
      root), and its left child links spell out exactly the frame's left
      subtree. */
  ghost predicate FrameLinked(a: seq<int>, parent: seq<int>, lc: seq<int>, rc: seq<int>, st: seq<Frame>, k: int)
    requires |parent| == |lc| == |rc| == |a|
    requires 0 <= k < |st|
  {
    var i := st[k].index;
    && 0 <= Start(st, k) <= i < |a|
    && rc[i] == (if k + 1 < |st| then st[k + 1].index else -1)
    && parent[i] == (if k > 0 then st[k - 1].index else -1)
    && Linked(lc, rc, lc[i], Start(st, k), i)
    && BuildTreeUtil(a, lc, rc, lc[i], Start(st, k), i) == st[k].left
  }

  /** The arrays after `n` elements: every stack frame is recorded as above and
      positions not yet reached have no parent and no right child. */
  ghost predicate ArraysEncode(a: seq<int>, parent: seq<int>, lc: seq<int>, rc: seq<int>, st: seq<Frame>, n: int)
    requires |parent| == |lc| == |rc| == |a|
  {
    && (forall k :: 0 <= k < |st| ==> FrameLinked(a, parent, lc, rc, st, k))
    && (forall q :: n <= q < |a| ==> 0 <= q && parent[q] == -1 && rc[q] == -1)
  }

  /** The arrays spell out the tree hanging from any stack frame. */
  lemma {:induction false} SpineLinked(a: seq<int>, parent: seq<int>, lc: seq<int>, rc: seq<int>,
                                       st: seq<Frame>, n: int, k: int)
    requires |parent| == |lc| == |rc| == |a|
    requires StackInv(st, a, n, PopGe) && ArraysEncode(a, parent, lc, rc, st, n)
    requires 0 <= k < |st|
    ensures Linked(lc, rc, st[k].index, Start(st, k), n)
    ensures BuildTreeUtil(a, lc, rc, st[k].index, Start(st, k), n) == SpineFrom(st, k)
    decreases |st| - k
  {
    assert FrameLinked(a, parent, lc, rc, st, k);
    assert FrameOk(st, k, a, PopGe);
    var i := st[k].index;
    if k + 1 < |st| {
      SpineLinked(a, parent, lc, rc, st, n, k + 1);
      assert FrameOk(st, k + 1, a, PopGe);
    }
  }

  /** A frame the step keeps is still recorded once its own slots and the
      slots of its left subtree are unchanged, apart from the right child of
      the frame just below the new element, which now points at it. */
  lemma KeptFrame(a: seq<int>, parent: seq<int>, lc: seq<int>, rc: seq<int>,
                  parent': seq<int>, lc': seq<int>, rc': seq<int>,
                  st: seq<Frame>, nst: seq<Frame>, m: int, k: int)
    requires |parent| == |lc| == |rc| == |a| == |parent'| == |lc'| == |rc'|
    requires 0 <= k < m <= |st| && |nst| == m + 1 && nst[..m] == st[..m]
    requires FrameLinked(a, parent, lc, rc, st, k)
    requires forall q :: Start(st, k) <= q < st[k].index ==> lc'[q] == lc[q] && rc'[q] == rc[q]
    requires rc'[st[k].index] == (if k + 1 < m then rc[st[k].index] else nst[m].index)
    requires lc'[st[k].index] == lc[st[k].index] && parent'[st[k].index] == parent[st[k].index]
    ensures FrameLinked(a, parent', lc', rc', nst, k)
  {
    assert nst[k] == st[k];
    if k > 0 {
      assert nst[k - 1] == st[k - 1];
    }
    if k + 1 < m {
      assert nst[k + 1] == st[k + 1];
    }
    var i := st[k].index;
    UtilFrame(a, lc, rc, lc', rc', lc[i], Start(st, k), i);
  }

  /** The pushed frame is recorded once its left child is the popped frame
      (none if nothing was popped), it has no right child, its parent is the
      frame below, and the popped part of the arrays is unchanged. */
  lemma NewFrame(a: seq<int>, parent: seq<int>, lc: seq<int>, rc: seq<int>,
                 parent': seq<int>, lc': seq<int>, rc': seq<int>,
                 st: seq<Frame>, n: int, m: int)
    requires |parent| == |lc| == |rc| == |a| == |parent'| == |lc'| == |rc'|
    requires StackInv(st, a, n, PopGe) && n < |a| && ArraysEncode(a, parent, lc, rc, st, n)
    requires 0 <= m <= |st|
    requires lc'[n] == (if m < |st| then st[m].index else -1) && rc'[n] == -1
    requires parent'[n] == (if m > 0 then st[m - 1].index else -1)
    requires m < |st| ==> forall q :: 0 <= q < n && Start(st, m) <= q ==> lc'[q] == lc[q] && rc'[q] == rc[q]
    ensures FrameLinked(a, parent', lc', rc', st[..m] + [Frame(a[n], n, SpineFrom(st, m))], m)
  {
    var nst := st[..m] + [Frame(a[n], n, SpineFrom(st, m))];
    assert Start(nst, m) == (if m < |st| then Start(st, m) else n) by {
      if m > 0 {
        assert nst[m - 1] == st[m - 1];
        assert FrameOk(st, m - 1, a, PopGe);
      }
    }
    if m < |st| {
      SpineLinked(a, parent, lc, rc, st, n, m);
      SpineSuffix(st, a, n, PopGe, m);
      UtilFrame(a, lc, rc, lc', rc', st[m].index, Start(st, m), n);
    }
  }

  /** One step of the index-array loop, stated on the arrays before and after
      it: if the new element `n` took over the popped frames from `m` up as its
      left subtree, became the right child of frame `m - 1` (or the root when
      `m == 0`), and nothing else at positions below `n` changed, then the new
      arrays record the pushed stack. */
  lemma IndexStep(a: seq<int>, parent: seq<int>, lc: seq<int>, rc: seq<int>,
                  parent': seq<int>, lc': seq<int>, rc': seq<int>,
                  st: seq<Frame>, n: int, m: int)
    requires |parent| == |lc| == |rc| == |a| == |parent'| == |lc'| == |rc'|
    requires StackInv(st, a, n, PopGe) && n < |a| && ArraysEncode(a, parent, lc, rc, st, n)
    requires 0 <= m <= |st| && forall k :: 0 <= k < |st| ==> 0 <= st[k].index < n
    requires forall q :: 0 <= q < |a| && q != n ==> lc'[q] == lc[q]
    requires forall q :: 0 <= q < |a| && q != n && (m == 0 || q != st[m - 1].index) ==> rc'[q] == rc[q]
    requires m > 0 ==> rc'[st[m - 1].index] == n
    requires lc'[n] == (if m < |st| then st[m].index else -1) && rc'[n] == -1
    requires forall k :: 0 <= k < m ==> parent'[st[k].index] == parent[st[k].index]
    requires parent'[n] == (if m > 0 then st[m - 1].index else -1)
    requires forall q :: n < q < |a| ==> parent'[q] == parent[q]
    ensures ArraysEncode(a, parent', lc', rc', st[..m] + [Frame(a[n], n, SpineFrom(st, m))], n + 1)
  {
    var nst := st[..m] + [Frame(a[n], n, SpineFrom(st, m))];
    forall k | 0 <= k < m ensures FrameLinked(a, parent', lc', rc', nst, k) {
      assert FrameLinked(a, parent, lc, rc, st, k);
      assert k + 1 < m ==> st[k].index < st[m - 1].index;
      KeptFrame(a, parent, lc, rc, parent', lc', rc', st, nst, m, k);
    }
    if m > 0 && m < |st| {
      assert FrameOk(st, m, a, PopGe);
    }
    NewFrame(a, parent, lc, rc, parent', lc', rc', st, n, m);
  }

  /** The first branch of a step: the walk reached the root without finding a
      smaller value, so the new element becomes the root with the old root as
      its left child. */
  lemma RootCase(a: seq<int>, parent: seq<int>, lc: seq<int>, rc: seq<int>, st: seq<Frame>, n: int)
    requires |parent| == |lc| == |rc| == |a|
    requires StackInv(st, a, n, PopGe) && 0 < n < |a| && ArraysEncode(a, parent, lc, rc, st, n)
    ensures 0 <= st[0].index < n
    ensures ArraysEncode(a, parent[st[0].index := n], lc[n := st[0].index], rc,
                         st[..0] + [Frame(a[n], n, SpineFrom(st, 0))], n + 1)
  {
    IndicesBelow(st, a, n, PopGe);
    IndexStep(a, parent, lc, rc, parent[st[0].index := n], lc[n := st[0].index], rc, st, n, 0);
  }

  /** Only the top frame lacks a right child. */
  lemma RightChildOfFrame(a: seq<int>, parent: seq<int>, lc: seq<int>, rc: seq<int>, st: seq<Frame>, n: int, j: int)
    requires |parent| == |lc| == |rc| == |a|
    requires StackInv(st, a, n, PopGe) && ArraysEncode(a, parent, lc, rc, st, n)
    requires 0 <= j < |st|
    ensures 0 <= st[j].index < n
    ensures rc[st[j].index] == -1 <==> j + 1 == |st|
    ensures j + 1 < |st| ==> rc[st[j].index] == st[j + 1].index
  {
    assert FrameOk(st, j, a, PopGe);
    assert FrameLinked(a, parent, lc, rc, st, j);
    if j + 1 < |st| {
      assert FrameOk(st, j + 1, a, PopGe);
    }
  }

  /** What the parent walk reads on the right spine: each node's value is its
      array value and its parent is the node below it (none for the root). */
  lemma SpineFacts(a: seq<int>, parent: seq<int>, lc: seq<int>, rc: seq<int>, st: seq<Frame>, n: int)
    requires |parent| == |lc| == |rc| == |a|
    requires StackInv(st, a, n, PopGe) && ArraysEncode(a, parent, lc, rc, st, n)
    ensures forall k :: 0 <= k < |st| ==> 0 <= st[k].index < n && st[k].value == a[st[k].index]
    ensures forall k :: 0 <= k < |st| ==> parent[st[k].index] == (if k > 0 then st[k - 1].index else -1)
  {
    IndicesBelow(st, a, n, PopGe);
    forall k | 0 <= k < |st|
      ensures st[k].value == a[st[k].index] && parent[st[k].index] == (if k > 0 then st[k - 1].index else -1)
    {
      assert FrameOk(st, k, a, PopGe);
      assert FrameLinked(a, parent, lc, rc, st, k);
    }
  }

  /** The second branch of a step: the walk stopped at the top frame `j`,
      whose value is smaller, so the new element becomes its right child. */
  lemma AppendCase(a: seq<int>, parent: seq<int>, lc: seq<int>, rc: seq<int>, st: seq<Frame>, n: int, j: int)
    requires |parent| == |lc| == |rc| == |a|
    requires StackInv(st, a, n, PopGe) && n < |a| && ArraysEncode(a, parent, lc, rc, st, n)
    requires j == |st| - 1 >= 0
    ensures 0 <= st[j].index < n
    ensures ArraysEncode(a, parent[n := st[j].index], lc[n := -1], rc[st[j].index := n],
                         st[..j + 1] + [Frame(a[n], n, SpineFrom(st, j + 1))], n + 1)
  {
    IndicesBelow(st, a, n, PopGe);
    var last := st[j].index;
    IndexStep(a, parent, lc, rc, parent[n := last], lc[n := -1], rc[last := n], st, n, j + 1);
  }

  /** The third branch of a step: the walk stopped at frame `j` below the
      top, whose value is smaller; the new element becomes its right child and
      takes over its former right child as its own left child. */
  lemma SpliceCase(a: seq<int>, parent: seq<int>, lc: seq<int>, rc: seq<int>, st: seq<Frame>, n: int, j: int)
    requires |parent| == |lc| == |rc| == |a|
    requires StackInv(st, a, n, PopGe) && n < |a| && ArraysEncode(a, parent, lc, rc, st, n)
    requires 0 <= j < |st| - 1
    ensures 0 <= st[j].index < n && rc[st[j].index] == st[j + 1].index
    ensures ArraysEncode(a, parent[st[j + 1].index := n][n := st[j].index], lc[n := st[j + 1].index],
                         rc[st[j].index := n], st[..j + 1] + [Frame(a[n], n, SpineFrom(st, j + 1))], n + 1)
  {
    IndicesBelow(st, a, n, PopGe);
    RightChildOfFrame(a, parent, lc, rc, st, n, j);
    var last, c := st[j].index, st[j + 1].index;
    IndexStep(a, parent, lc, rc, parent[c := n][n := last], lc[n := c], rc[last := n], st, n, j + 1);
  }

  /** The parent walk of one step: starting from element `i - 1`, climb while
      the visited value is `>= a[i]` and the root is not reached. It stops at
      spine frame `j`; every frame above `j` would be popped, and frame `j`
      itself only when it is the root. */
  method ClimbParents(a: seq<int>, parent: seq<int>, ghost lc: seq<int>, ghost rc: seq<int>,
                      ghost st: seq<Frame>, root: int, i: int) returns (last: int, ghost j: int)
    requires |parent| == |lc| == |rc| == |a|
    requires StackInv(st, a, i, PopGe) && 0 < i < |a| && ArraysEncode(a, parent, lc, rc, st, i)
    requires root == st[0].index
    ensures 0 <= j < |st| && last == st[j].index && 0 <= last < i
    ensures j + 1 < |st| ==> Pops(st[j + 1].value, a[i], PopGe)
    ensures a[last] >= a[i] ==> j == 0 && Pops(st[0].value, a[i], PopGe)
    ensures a[last] < a[i] ==> !Pops(st[j].value, a[i], PopGe)
  {
    SpineFacts(a, parent, lc, rc, st, i);
    last := i - 1;
    j := |st| - 1;
    while a[last] >= a[i] && last != root
      invariant 0 <= j < |st| && last == st[j].index
      invariant j + 1 < |st| ==> st[j + 1].value >= a[i]
      decreases j
    {
      last := parent[last];
      j := j - 1;
    }
    assert j > 0 ==> st[0].index < st[j].index;
  }

  /** The index-array construction (the constructor's builder). Element `i`
      walks up the parent links from element `i - 1` while the visited value is
      `>= a[i]` and the root is not reached. Then either `i` becomes the new
      root with the old root as left child, or `i` becomes the right child of
      the node where the walk stopped and takes over that node's former right
      child as its own left child. Finally the arrays are turned into nodes. */
  method BuildCartesianTree(a: seq<int>) returns (r: Tree)
    requires |a| > 0
    ensures InOrder(r) == Enumerate(a)
    ensures Cartesian(r, PopGe)
  {
    var n := |a|;
    var parent := seq(n, _ => -1);
    var leftchild := seq(n, _ => -1);
    var rightchild := seq(n, _ => -1);
    var root := 0;
    ghost var st := [Frame(a[0], 0, Leaf)];
    assert FrameOk(st, 0, a, PopGe);
    assert FrameLinked(a, parent, leftchild, rightchild, st, 0);

    for i := 1 to n
      invariant |parent| == |leftchild| == |rightchild| == n
      invariant StackInv(st, a, i, PopGe)
      invariant root == st[0].index
      invariant ArraysEncode(a, parent, leftchild, rightchild, st, i)
    {
      var last;
      assert rightchild[i := -1] == rightchild;
      rightchild := rightchild[i := -1];

      ghost var j;
      last, j := ClimbParents(a, parent, leftchild, rightchild, st, root, i);

      ghost var m;
      RightChildOfFrame(a, parent, leftchild, rightchild, st, i, j);
      if a[last] >= a[i] {
        RootCase(a, parent, leftchild, rightchild, st, i);
        parent := parent[root := i];
        leftchild := leftchild[i := root];
        root := i;
        m := 0;
      } else if rightchild[last] == -1 {
        AppendCase(a, parent, leftchild, rightchild, st, i, j);
        rightchild := rightchild[last := i];
        parent := parent[i := last];
        leftchild := leftchild[i := -1];
        m := j + 1;
      } else {
        SpliceCase(a, parent, leftchild, rightchild, st, i, j);
        parent := parent[rightchild[last] := i];
        leftchild := leftchild[i := rightchild[last]];
        rightchild := rightchild[last := i];
        parent := parent[i := last];
        m := j + 1;
      }
      PushStep(st, a, i, PopGe, m);
      st := st[..m] + [Frame(a[i], i, SpineFrom(st, m))];
    }

    assert FrameLinked(a, parent, leftchild, rightchild, st, 0);
    assert parent[root := -1] == parent;
    parent := parent[root := -1];
    SpineLinked(a, parent, leftchild, rightchild, st, n, 0);
    SpineSuffix(st, a, n, PopGe, 0);
    r := BuildTreeUtil(a, leftchild, rightchild, root, 0, n);
  }

  /** The constructor: no root for an empty array, otherwise the index-array
      tree, which holds the array in order, satisfies both invariants and
      lets the last occurrence of equal values sit highest. */
  method Create(a: seq<int>) returns (ct: CartesianTree)
    ensures ct.input == a
    ensures |a| == 0 ==> ct.root == Leaf
    ensures |a| == 1 ==> ct.root == Node(a[0], 0, Leaf, Leaf)
    ensures InOrder(ct.root) == Enumerate(a)
    ensures Cartesian(ct.root, PopGe)
    ensures |a| <= IntMaxValue ==> VerifyProperties(ct) == (true, true, true)
  {
    var root := Leaf;
    if |a| > 0 {
      root := BuildCartesianTree(a);
    }
    ct := CartesianTree(a, root);
    if |a| == 1 {
      SingletonTree(a, root);
    }
    if |a| <= IntMaxValue {
      CartesianPassesChecks(ct, PopGe);
    }
  }
}
