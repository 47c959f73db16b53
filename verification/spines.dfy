/** The state of a stack-based builder between two input elements. The stack
    holds the right spine of the tree built so far, bottom (the root) first;
    each frame carries the node's value, its index and the left subtree it
    already owns. Its right child is the next frame up; the top frame has none.
    All three builders of the repository maintain this state: the two stack
    builders literally, the index-array builder through its child arrays. */
module Spines {
  import opened Trees

  datatype Frame = Frame(value: int, index: int, left: Tree)

  /** The tree hanging from frame `k`: frame `k`'s node with the frames above
      it as its chain of right children. */
  function SpineFrom(st: seq<Frame>, k: nat): Tree
    decreases |st| - k
  {
    if k >= |st| then Leaf
    else Node(st[k].value, st[k].index, st[k].left, SpineFrom(st, k + 1))
  }

  /** The first array position inside frame `k`'s left subtree. */
  function Start(st: seq<Frame>, k: int): int
    requires 0 <= k < |st|
  {
    if k == 0 then 0 else st[k - 1].index + 1
  }

  /** Whether the pop loop removes a stack node of value `top` when the new
      value is `x`: `top >= x` for `PopGe`, `top > x` for `PopGt`. */
  predicate Pops(top: int, x: int, p: TieBreak)
  {
    if p == PopGe then top >= x else top > x
  }

  /** Frame `k` owns exactly the positions from `Start(st, k)` up to its own
      index, as a valid subtree whose values lie above the frame's value. */
  ghost predicate FrameOk(st: seq<Frame>, k: int, a: seq<int>, p: TieBreak)
    requires 0 <= k < |st|
  {
    && 0 <= Start(st, k) <= st[k].index < |a|
    && st[k].value == a[st[k].index]
    && InOrder(st[k].left) == Slice(a, Start(st, k), st[k].index)
    && Cartesian(st[k].left, p)
    && LowerBound(InOrder(st[k].left), st[k].value, p == PopGt)
  }

  /** The stack after the first `n` elements of `a` have been pushed: the
      frames cover positions 0..n-1 in order, the top frame is element n-1, and
      no frame would be popped by the frame above it (values strictly increase
      up the stack under `PopGe`, never decrease under `PopGt`). */
  ghost predicate StackInv(st: seq<Frame>, a: seq<int>, n: int, p: TieBreak)
  {
    && 0 <= n <= |a|
    && (|st| == 0 <==> n == 0)
    && (|st| > 0 ==> st[|st| - 1].index == n - 1)
    && (forall k :: 0 <= k < |st| ==> FrameOk(st, k, a, p))
    && (forall k :: 0 <= k < |st| - 1 ==> !Pops(st[k].value, st[k + 1].value, p))
    && (forall k, l :: 0 <= k < l < |st| ==> st[k].index < st[l].index)
  }

  /** Every frame holds a position already read. */
  lemma IndicesBelow(st: seq<Frame>, a: seq<int>, n: int, p: TieBreak)
    requires StackInv(st, a, n, p)
    ensures forall k :: 0 <= k < |st| ==> 0 <= st[k].index < n
  {
    forall k | 0 <= k < |st| ensures 0 <= st[k].index < n {
      assert FrameOk(st, k, a, p);
      assert k < |st| - 1 ==> st[k].index < st[|st| - 1].index;
    }
  }

  lemma SliceExtend(a: seq<int>, lo: int, hi: int)
    requires 0 <= lo <= hi < |a|
    ensures Slice(a, lo, hi + 1) == Slice(a, lo, hi) + [Entry(a[hi], hi)]
  {
  }

  lemma LowerBoundJoin(A: seq<Entry>, e: Entry, B: seq<Entry>, v: int, strictA: bool, strictB: bool)
    requires LowerBound(A, v, strictA) && v <= e.value && LowerBound(B, v, strictB)
    ensures LowerBound(A + [e] + B, v, false)
  {
    var s := A + [e] + B;
    forall q | 0 <= q < |s| ensures Above(s[q].value, v, false) {
      if q < |A| {
        assert s[q] == A[q];
      } else if q > |A| {
        assert s[q] == B[q - |A| - 1];
      }
    }
  }

  /** The tree hanging from any frame holds exactly the positions from that
      frame's start to the end of the input read so far, satisfies the
      tie-break invariant, and has the frame's value as its minimum. */
  lemma {:induction false} SpineSuffix(st: seq<Frame>, a: seq<int>, n: int, p: TieBreak, k: int)
    requires StackInv(st, a, n, p) && 0 <= k < |st|
    ensures 0 <= Start(st, k) <= st[k].index < n
    ensures InOrder(SpineFrom(st, k)) == Slice(a, Start(st, k), n)
    ensures Cartesian(SpineFrom(st, k), p)
    ensures LowerBound(InOrder(SpineFrom(st, k)), st[k].value, false)
    decreases |st| - k
  {
    assert FrameOk(st, k, a, p);
    assert k < |st| - 1 ==> st[k].index < st[|st| - 1].index;
    var v, i, L := st[k].value, st[k].index, st[k].left;
    var R := SpineFrom(st, k + 1);
    assert SpineFrom(st, k) == Node(v, i, L, R);
    if k == |st| - 1 {
      SliceExtend(a, Start(st, k), i);
      LowerBoundJoin(InOrder(L), Entry(v, i), [], v, p == PopGt, false);
    } else {
      SpineSuffix(st, a, n, p, k + 1);
      assert FrameOk(st, k + 1, a, p);
      assert !Pops(v, st[k + 1].value, p);
      assert LowerBound(InOrder(R), v, p == PopGe);
      SliceSplit(a, Start(st, k), i, n);
      LowerBoundJoin(InOrder(L), Entry(v, i), InOrder(R), v, p == PopGt, p == PopGe);
    }
  }

  /** Pushing element `n` after popping every frame from `m` up keeps the
      stack invariant, provided the loop stopped where the comparison says: the
      frame below `m` is not popped by `a[n]` and frame `m` is. The new frame
      takes the popped part of the spine as its left subtree. */
  lemma PushStep(st: seq<Frame>, a: seq<int>, n: int, p: TieBreak, m: int)
    requires StackInv(st, a, n, p) && n < |a| && 0 <= m <= |st|
    requires m > 0 ==> !Pops(st[m - 1].value, a[n], p)
    requires m < |st| ==> Pops(st[m].value, a[n], p)
    ensures StackInv(st[..m] + [Frame(a[n], n, SpineFrom(st, m))], a, n + 1, p)
  {
    var top := Frame(a[n], n, SpineFrom(st, m));
    var nst := st[..m] + [top];
    forall k | 0 <= k < m ensures FrameOk(nst, k, a, p) {
      assert nst[k] == st[k];
      assert FrameOk(st, k, a, p);
      if k > 0 {
        assert nst[k - 1] == st[k - 1];
      }
    }
    assert Start(nst, m) == (if m < |st| then Start(st, m) else n) by {
      if m > 0 {
        assert nst[m - 1] == st[m - 1];
      }
    }
    if m < |st| {
      SpineSuffix(st, a, n, p, m);
      assert FrameOk(st, m, a, p);
    }
    assert FrameOk(nst, m, a, p);
    forall k | 0 <= k < |nst| - 1 ensures !Pops(nst[k].value, nst[k + 1].value, p) {
      assert nst[k] == st[k];
      if k + 1 < m {
        assert nst[k + 1] == st[k + 1];
      }
    }
    forall k, l | 0 <= k < l < |nst| ensures nst[k].index < nst[l].index {
      assert nst[k] == st[k];
      assert FrameOk(st, k, a, p);
      if l < m {
        assert nst[l] == st[l];
      }
    }
  }
}
