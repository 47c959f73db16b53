/** The implementation in cartesian_tree.cs: a single stack-based builder whose
    pop loop uses a strict `>`, so an earlier equal value stays on the stack and
    a later equal value becomes its right descendant. */
module StrictStackTree {
  import opened Trees
  import opened Spines

  /** The monotonic-stack construction. Each new node pops every stack node
      whose value is strictly greater; the last node popped (with the chain
      above it, still linked as right children) becomes its left child, and it
      becomes the right child of the new stack top. The root is the bottom of
      the stack. The caller only invokes it on a non-empty array. */
  method BuildCartesianTree(a: seq<int>) returns (root: Tree)
    requires |a| > 0
    ensures InOrder(root) == Enumerate(a)
    ensures Cartesian(root, PopGt)
  {
    var stack: seq<Frame> := [];
    for i := 0 to |a|
      invariant StackInv(stack, a, i, PopGt)
    {
      var m := |stack|;
      var lastPopped := Leaf;
      while m > 0 && stack[m - 1].value > a[i]
        invariant 0 <= m <= |stack|
        invariant m < |stack| ==> Pops(stack[m].value, a[i], PopGt)
        invariant lastPopped == SpineFrom(stack, m)
      {
        m := m - 1;
        lastPopped := SpineFrom(stack, m);
      }
      PushStep(stack, a, i, PopGt, m);
      stack := stack[..m] + [Frame(a[i], i, lastPopped)];
    }
    SpineSuffix(stack, a, |a|, PopGt, 0);
    root := SpineFrom(stack, 0);
  }

  /** The constructor: no root for an empty array, otherwise the tree built
      above, which holds the array in order, satisfies both invariants and
      keeps the first occurrence of equal values highest. */
  method Create(a: seq<int>) returns (ct: CartesianTree)
    ensures ct.input == a
    ensures |a| == 0 ==> ct.root == Leaf
    ensures |a| == 1 ==> ct.root == Node(a[0], 0, Leaf, Leaf)
    ensures InOrder(ct.root) == Enumerate(a)
    ensures Cartesian(ct.root, PopGt)
    ensures |a| <= IntMaxValue ==> VerifyProperties(ct) == (true, true, true)
  {
    var root := Leaf;
    if |a| > 0 {
      root := BuildCartesianTree(a);
    }
    ct := CartesianTree(a, root);
    if |a| == 1 {
      SingletonTree(a, root);
    }
    if |a| <= IntMaxValue {
      CartesianPassesChecks(ct, PopGt);
    }
  }
}
