/** The stack-based builder kept beside the index-array one in
    CartesianTree.cs. Its pop loop uses `>=`, like the index-array builder, so
    both produce the same tree; but after the loop it walks from the root down
    the chain of left children and returns the node it ends on. */
module StackTree {
  import opened Trees
  import opened Spines
  import IndexArrayTree

  /** The loop shared by both versions below: every input element is pushed
      after popping the nodes whose value is `>=` its own. `rootIndex` follows
      the source's `root` variable, which is reassigned whenever the stack
      empties, so it always names the stack bottom. */
  method PushAll(a: seq<int>) returns (stack: seq<Frame>, rootIndex: int)
    ensures StackInv(stack, a, |a|, PopGe)
    ensures |a| > 0 ==> rootIndex == stack[0].index
  {
    stack := [];
    rootIndex := -1;
    for idx := 0 to |a|
      invariant StackInv(stack, a, idx, PopGe)
      invariant idx > 0 ==> rootIndex == stack[0].index
    {
      var m := |stack|;
      var lastPopped := Leaf;
      while m > 0 && stack[m - 1].value >= a[idx]
        invariant 0 <= m <= |stack|
        invariant m < |stack| ==> Pops(stack[m].value, a[idx], PopGe)
        invariant lastPopped == SpineFrom(stack, m)
      {
        m := m - 1;
        lastPopped := SpineFrom(stack, m);
      }
      if m == 0 {
        rootIndex := idx;
      }
      PushStep(stack, a, idx, PopGe, m);
      stack := stack[..m] + [Frame(a[idx], idx, lastPopped)];
    }
  }

  /** The stack-based builder with the closing walk removed: it returns the
      node last made root, i.e. the stack bottom with everything hanging from
      it. */
  method BuildStackBased(a: seq<int>) returns (r: Tree)
    ensures |a| == 0 ==> r == Leaf
    ensures InOrder(r) == Enumerate(a)
    ensures Cartesian(r, PopGe)
  {
    if |a| == 0 {
      return Leaf;
    }
    var stack, rootIndex := PushAll(a);
    SpineSuffix(stack, a, |a|, PopGe, 0);
    r := SpineFrom(stack, 0);
  }

  /** The walk that ends the source's stack-based builder: follow left
      children while there is one. */
  function LeftmostNode(t: Tree): Tree
  {
    if t.Node? && t.left.Node? then LeftmostNode(t.left) else t
  }

  /** Walking down the left children of a valid tree over the first `h`
      positions ends at the node of position 0, which has no left child, and
      whose own subtree is a valid tree over a prefix of the array. */
  lemma {:induction false} LeftmostIsFirst(a: seq<int>, t: Tree, h: int, p: TieBreak)
    requires t.Node? && 0 < h <= |a|
    requires InOrder(t) == Slice(a, 0, h) && Cartesian(t, p)
    ensures var r := LeftmostNode(t);
      && r.Node? && r.left == Leaf && r.index == 0 && r.value == a[0]
      && |InOrder(r)| <= h && InOrder(r) == Slice(a, 0, |InOrder(r)|)
      && Cartesian(r, p)
  {
    InOrderParts(t);
    var k := |InOrder(t.left)|;
    if t.left.Node? {
      InOrderNonEmpty(t.left);
      assert InOrder(t.left) == Slice(a, 0, h)[..k];
      assert Slice(a, 0, h)[..k] == Slice(a, 0, k);
      LeftmostIsFirst(a, t.left, k, p);
    } else {
      assert InOrder(t)[0] == Entry(a[0], 0);
    }
  }

  /** The walk changes the tree exactly when the array's first element is not
      a strict minimum; only then does the result still hold every element. */
  lemma LeftmostKeepsTree(a: seq<int>, t: Tree)
    requires |a| > 0 && InOrder(t) == Enumerate(a) && Cartesian(t, PopGe)
    ensures LeftmostNode(t) == t <==> forall k :: 0 < k < |a| ==> a[0] < a[k]
    ensures InOrder(LeftmostNode(t)) == Enumerate(a) <==> forall k :: 0 < k < |a| ==> a[0] < a[k]
  {
    RootTieBreak(a, t, PopGe);
    LeftmostIsFirst(a, t, |a|, PopGe);
    var r := LeftmostNode(t);
    if InOrder(r) == Enumerate(a) {
      RootTieBreak(a, r, PopGe);
    }
    if LeftmostNode(t) == t {
      RootTieBreak(a, r, PopGe);
    }
    if forall k :: 0 < k < |a| ==> a[0] < a[k] {
      assert t.value <= a[0];
      InOrderParts(t);
      InOrderNonEmpty(t.left);
      EnumerateSorted(a);
    }
  }

  /** The stack-based builder as written: the full tree is built, then the
      walk down the left children returns the node of position 0 with only
      its right subtree. The result is the whole tree exactly when `a[0]` is
      a strict minimum; otherwise elements are lost. */
  method BuildStackBasedAsWritten(a: seq<int>) returns (r: Tree)
    ensures |a| == 0 ==> r == Leaf
    ensures |a| > 0 ==> r.Node? && r.index == 0 && r.value == a[0] && r.left == Leaf
    ensures |InOrder(r)| <= |a| && InOrder(r) == Slice(a, 0, |InOrder(r)|)
    ensures Cartesian(r, PopGe)
    ensures InOrder(r) == Enumerate(a) <==> forall k :: 0 < k < |a| ==> a[0] < a[k]
    ensures 1 < |a| && a[1] <= a[0] ==> r == Node(a[0], 0, Leaf, Leaf)
  {
    if |a| == 0 {
      return Leaf;
    }
    var stack, rootIndex := PushAll(a);
    SpineSuffix(stack, a, |a|, PopGe, 0);
    var root := SpineFrom(stack, 0);
    LeftmostIsFirst(a, root, |a|, PopGe);
    LeftmostKeepsTree(a, root);
    r := LeftmostNode(root);
    if 1 < |a| && a[1] <= a[0] {
      LoneFirstNode(a, r);
    }
  }

  /** A node of position 0 with no left child whose in-order sequence is a
      prefix of the array cannot have a right subtree when `a[1] <= a[0]`:
      that subtree would start with `a[1]`, which the heap order forbids. */
  lemma LoneFirstNode(a: seq<int>, r: Tree)
    requires 1 < |a| && a[1] <= a[0]
    requires r.Node? && r.index == 0 && r.value == a[0] && r.left == Leaf
    requires |InOrder(r)| <= |a| && InOrder(r) == Slice(a, 0, |InOrder(r)|)
    requires Cartesian(r, PopGe)
    ensures r.right == Leaf
  {
    var s, rest := InOrder(r), InOrder(r.right);
    assert s == [Entry(a[0], 0)] + rest;
    if r.right.Node? {
      InOrderNonEmpty(r.right);
      SecondOfPrefix(a, s, rest);
      assert false;
    }
  }

  /** The element after the first of an array prefix is position 1. */
  lemma SecondOfPrefix(a: seq<int>, s: seq<Entry>, rest: seq<Entry>)
    requires 0 < |s| <= |a| && s == Slice(a, 0, |s|)
    requires s == [Entry(a[0], 0)] + rest && |rest| > 0
    ensures rest[0] == Entry(a[1], 1)
  {
    assert rest[0] == s[1];
  }

  /** The smallest input the walk gets wrong: for [2, 1] the tree is 1 with
      left child 2, and the walk returns the lone node of 2. */
  lemma AsWrittenDropsRoot(t: Tree)
    requires InOrder(t) == Enumerate([2, 1]) && Cartesian(t, PopGe)
    ensures t == Node(1, 1, Node(2, 0, Leaf, Leaf), Leaf)
    ensures LeftmostNode(t) == Node(2, 0, Leaf, Leaf)
    ensures InOrder(LeftmostNode(t)) != Enumerate([2, 1])
  {
    var expected := Node(1, 1, Node(2, 0, Leaf, Leaf), Leaf);
    assert Enumerate([2, 1]) == [Entry(2, 0), Entry(1, 1)];
    assert Cartesian(expected, PopGe);
    CartesianUnique(t, expected, PopGe);
  }

  /** The runner's second example: it shows the as-written stack result
      beside the index-array tree. Since 3 follows 9, the walk ends on the
      node of 9 with nothing to its right, and that lone node is displayed. */
  method RunnerSecondExample() returns (byIndex: Tree, byStack: Tree)
    ensures InOrder(byIndex) == Enumerate([9, 3, 7, 1, 8, 12, 10, 20, 15, 18, 5])
    ensures byStack == Node(9, 0, Leaf, Leaf)
  {
    var a := [9, 3, 7, 1, 8, 12, 10, 20, 15, 18, 5];
    byIndex := IndexArrayTree.BuildCartesianTree(a);
    byStack := BuildStackBasedAsWritten(a);
  }

  /** The runner builds the same array both ways and shows both trees: with
      the walk removed, the two builders give the same tree on every input. */
  method CompareBuilders(a: seq<int>) returns (byIndex: Tree, byStack: Tree)
    requires |a| > 0
    ensures byIndex == byStack
    ensures InOrder(byIndex) == Enumerate(a)
  {
    byIndex := IndexArrayTree.BuildCartesianTree(a);
    byStack := BuildStackBased(a);
    CartesianUnique(byIndex, byStack, PopGe);
  }
}
