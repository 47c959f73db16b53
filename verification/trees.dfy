/** The node shape shared by both Cartesian tree implementations, the read-only
    operations on it (traversals, range-minimum query, invariant checks) and the
    declarative description of a Cartesian tree those operations are proved
    against. A Cartesian tree over an array is a min-heap on value and a binary
    search tree on array index. */
module Trees {

  datatype Option<T> = None | Some(value: T)

  /** A node holds one array element: its value, its position in the array and
      its two children. `Leaf` stands for a null child link. */
  datatype Tree = Leaf | Node(value: int, index: int, left: Tree, right: Tree)

  /** A (value, index) pair, as the traversals report nodes. */
  datatype Entry = Entry(value: int, index: int)

  /** A built tree together with the array it was built from. */
  datatype CartesianTree = CartesianTree(input: seq<int>, root: Tree)

  /** How the builder's pop loop treats a stack node whose value equals the new
      value. `PopGe` pops it (`>=`), so a later equal value becomes an ancestor
      of an earlier one; `PopGt` keeps it (`>`), so the earlier one stays the
      ancestor. */
  datatype TieBreak = PopGe | PopGt

  /** The sentinels `int.MinValue` and `int.MaxValue` passed to the index check. */
  const IntMinValue: int := -0x8000_0000
  const IntMaxValue: int := 0x7fff_ffff

  // ---------- Traversals ----------

  function InOrder(t: Tree): seq<Entry>
  {
    match t
    case Leaf => []
    case Node(v, i, l, r) => InOrder(l) + [Entry(v, i)] + InOrder(r)
  }

  function PreOrder(t: Tree): seq<Entry>
  {
    match t
    case Leaf => []
    case Node(v, i, l, r) => [Entry(v, i)] + PreOrder(l) + PreOrder(r)
  }

  /** The pairs (a[k], k) for lo <= k < hi, in array order. */
  function Slice(a: seq<int>, lo: int, hi: int): seq<Entry>
    requires 0 <= lo <= hi <= |a|
  {
    seq(hi - lo, q requires 0 <= q < hi - lo => Entry(a[lo + q], lo + q))
  }

  /** The pairs (a[0], 0), ..., (a[n-1], n-1): what the in-order traversal of a
      tree built from `a` must give back. */
  function Enumerate(a: seq<int>): seq<Entry>
  {
    Slice(a, 0, |a|)
  }

  // ---------- Range Minimum Query ----------

  /** The first node met on the way down from the root whose index lies in
      [lo, hi]; the descent goes left when the node's index exceeds `hi` and
      right otherwise. */
  function FindLca(t: Tree, lo: int, hi: int): (r: Option<Tree>)
    ensures r.Some? ==> r.value.Node? && lo <= r.value.index <= hi
  {
    match t
    case Leaf => None
    case Node(_, i, l, r) =>
      if lo <= i && i <= hi then Some(t)
      else if i > hi then FindLca(l, lo, hi)
      else FindLca(r, lo, hi)
  }

  function GetRangeMinimum(t: Tree, lo: int, hi: int): Option<int>
  {
    match FindLca(t, lo, hi)
    case None => None
    case Some(n) => Some(n.value)
  }

  /** The smallest element of a non-empty sequence (LINQ's `Min`). */
  function SeqMin(s: seq<int>): (m: int)
    requires |s| > 0
    ensures m in s
    ensures forall k :: 0 <= k < |s| ==> m <= s[k]
  {
    if |s| == 1 then s[0]
    else
      var rest := SeqMin(s[1..]);
      if s[0] <= rest then s[0] else rest
  }

  // ---------- Verification ----------

  /** No child's value is smaller than its parent's. */
  function CheckHeap(t: Tree): bool
  {
    match t
    case Leaf => true
    case Node(v, _, l, r) =>
      if l.Node? && l.value < v then false
      else if r.Node? && r.value < v then false
      else CheckHeap(l) && CheckHeap(r)
  }

  /** Every index lies strictly between the bounds inherited from the
      ancestors; the bounds narrow to the node's own index on the way down. */
  function CheckBstIndices(t: Tree, minIdx: int, maxIdx: int): bool
  {
    match t
    case Leaf => true
    case Node(_, i, l, r) =>
      if i <= minIdx || i >= maxIdx then false
      else CheckBstIndices(l, minIdx, i) && CheckBstIndices(r, i, maxIdx)
  }

  /** (allOk, heapOk, bstOk). */
  function VerifyProperties(ct: CartesianTree): (bool, bool, bool)
  {
    var heapOk := CheckHeap(ct.root);
    var bstOk := CheckBstIndices(ct.root, IntMinValue, IntMaxValue);
    (heapOk && bstOk, heapOk, bstOk)
  }

  // ---------- Declarative description ----------

  /** Every entry's value is above `v`: strictly when `strict`, else or equal. */
  ghost predicate LowerBound(s: seq<Entry>, v: int, strict: bool)
  {
    forall q :: 0 <= q < |s| ==> Above(s[q].value, v, strict)
  }

  predicate Above(x: int, v: int, strict: bool)
  {
    if strict then v < x else v <= x
  }

  /** Indices strictly increase along the sequence. */
  ghost predicate IndexSorted(s: seq<Entry>)
  {
    forall p, q :: 0 <= p < q < |s| ==> s[p].index < s[q].index
  }

  /** Every index lies strictly between `lo` and `hi`. */
  ghost predicate Within(s: seq<Entry>, lo: int, hi: int)
  {
    forall q :: 0 <= q < |s| ==> lo < s[q].index < hi
  }

  ghost predicate ValuesIncrease(s: seq<Entry>)
  {
    forall p, q :: 0 <= p < q < |s| ==> s[p].value < s[q].value
  }

  ghost predicate ValuesDecrease(s: seq<Entry>)
  {
    forall p, q :: 0 <= p < q < |s| ==> s[p].value > s[q].value
  }

  /** The heap invariant over whole subtrees: every node's value is at most
      every value below it. */
  ghost predicate HeapOrdered(t: Tree)
  {
    match t
    case Leaf => true
    case Node(v, _, l, r) =>
      HeapOrdered(l) && HeapOrdered(r)
      && LowerBound(InOrder(l), v, false) && LowerBound(InOrder(r), v, false)
  }

  /** The heap invariant together with the tie-break a builder applies to equal
      values: with `PopGe` the values in a node's right subtree are strictly
      larger than its own, with `PopGt` those in its left subtree are. */
  ghost predicate Cartesian(t: Tree, p: TieBreak)
  {
    match t
    case Leaf => true
    case Node(v, _, l, r) =>
      Cartesian(l, p) && Cartesian(r, p)
      && LowerBound(InOrder(l), v, p == PopGt) && LowerBound(InOrder(r), v, p == PopGe)
  }

  /** Position `k` splits `s` the way a root splits its in-order sequence
      under tie-break `p`: values before it are above `s[k]`, strictly for
      `PopGt`, and values after it are above `s[k]`, strictly for `PopGe`. */
  ghost predicate SplitsAt(s: seq<Entry>, k: int, p: TieBreak)
  {
    && 0 <= k < |s|
    && (forall q :: 0 <= q < k ==> Above(s[q].value, s[k].value, p == PopGt))
    && (forall q :: k < q < |s| ==> Above(s[q].value, s[k].value, p == PopGe))
  }

  ghost predicate NoLeftChildren(t: Tree)
  {
    match t
    case Leaf => true
    case Node(_, _, l, r) => l == Leaf && NoLeftChildren(r)
  }

  ghost predicate NoRightChildren(t: Tree)
  {
    match t
    case Leaf => true
    case Node(_, _, l, r) => r == Leaf && NoRightChildren(l)
  }

  // ---------- Lemmas ----------

  lemma SliceSplit(a: seq<int>, lo: int, mid: int, hi: int)
    requires 0 <= lo <= mid < hi <= |a|
    ensures Slice(a, lo, hi) == Slice(a, lo, mid) + [Entry(a[mid], mid)] + Slice(a, mid + 1, hi)
  {
  }

  lemma InOrderNonEmpty(t: Tree)
    ensures t.Node? <==> |InOrder(t)| > 0
  {
  }

  /** Where the parts of a node sit in its in-order sequence. */
  lemma InOrderParts(t: Tree)
    requires t.Node?
    ensures var s := InOrder(t); var k := |InOrder(t.left)|;
      && |s| == k + 1 + |InOrder(t.right)|
      && s[k] == Entry(t.value, t.index)
      && s[..k] == InOrder(t.left)
      && s[k + 1..] == InOrder(t.right)
      && (forall q :: 0 <= q < k ==> s[q] == InOrder(t.left)[q])
      && (forall q :: 0 <= q < |InOrder(t.right)| ==> s[k + 1 + q] == InOrder(t.right)[q])
  {
    var s := InOrder(t);
    var k := |InOrder(t.left)|;
    assert s == InOrder(t.left) + [Entry(t.value, t.index)] + InOrder(t.right);
    assert s[..k] == InOrder(t.left);
    assert s[k + 1..] == InOrder(t.right);
  }

  /** A sorted, bounded sequence around `e` splits into sorted, bounded parts. */
  lemma SortedSplit(A: seq<Entry>, e: Entry, B: seq<Entry>, lo: int, hi: int)
    requires IndexSorted(A + [e] + B) && Within(A + [e] + B, lo, hi)
    ensures lo < e.index < hi
    ensures IndexSorted(A) && Within(A, lo, e.index)
    ensures IndexSorted(B) && Within(B, e.index, hi)
  {
    var s, k := A + [e] + B, |A|;
    assert s[k] == e;
    forall p, q | 0 <= p < q < |A| ensures A[p].index < A[q].index {
      assert s[p] == A[p] && s[q] == A[q];
    }
    forall q | 0 <= q < |A| ensures lo < A[q].index < e.index {
      assert s[q] == A[q];
    }
    forall p, q | 0 <= p < q < |B| ensures B[p].index < B[q].index {
      assert s[k + 1 + p] == B[p] && s[k + 1 + q] == B[q];
    }
    forall q | 0 <= q < |B| ensures e.index < B[q].index < hi {
      assert s[k + 1 + q] == B[q];
    }
  }

  /** Sorted, bounded parts around `e` make a sorted, bounded sequence. */
  lemma SortedJoin(A: seq<Entry>, e: Entry, B: seq<Entry>, lo: int, hi: int)
    requires lo < e.index < hi
    requires IndexSorted(A) && Within(A, lo, e.index)
    requires IndexSorted(B) && Within(B, e.index, hi)
    ensures IndexSorted(A + [e] + B) && Within(A + [e] + B, lo, hi)
  {
    var s, k := A + [e] + B, |A|;
    forall p, q | 0 <= p < q < |s| ensures s[p].index < s[q].index {
      if q < k {
        assert s[p] == A[p] && s[q] == A[q];
      } else if q == k {
        assert s[p] == A[p];
      } else if p < k {
        assert s[p] == A[p] && s[q] == B[q - k - 1];
      } else if p == k {
        assert s[q] == B[q - k - 1];
      } else {
        assert s[p] == B[p - k - 1] && s[q] == B[q - k - 1];
      }
    }
    forall q | 0 <= q < |s| ensures lo < s[q].index < hi {
      if q < k {
        assert s[q] == A[q];
      } else if q > k {
        assert s[q] == B[q - k - 1];
      }
    }
  }

  /** `CheckBstIndices` succeeds exactly when the in-order indices strictly
      increase and all lie strictly between the two bounds. */
  lemma {:induction false} CheckBstIndicesIff(t: Tree, minIdx: int, maxIdx: int)
    ensures CheckBstIndices(t, minIdx, maxIdx)
            <==> IndexSorted(InOrder(t)) && Within(InOrder(t), minIdx, maxIdx)
  {
    match t
    case Leaf =>
    case Node(_, i, l, r) =>
      CheckBstIndicesIff(l, minIdx, i);
      CheckBstIndicesIff(r, i, maxIdx);
      var L, e, R := InOrder(l), Entry(t.value, i), InOrder(r);
      assert InOrder(t) == L + [e] + R;
      if CheckBstIndices(t, minIdx, maxIdx) {
        SortedJoin(L, e, R, minIdx, maxIdx);
      }
      if IndexSorted(L + [e] + R) && Within(L + [e] + R, minIdx, maxIdx) {
        SortedSplit(L, e, R, minIdx, maxIdx);
      }
  }

  /** In a heap-ordered tree the root holds the smallest value. */
  lemma HeapRootIsMin(t: Tree)
    requires t.Node? && HeapOrdered(t)
    ensures LowerBound(InOrder(t), t.value, false)
  {
    InOrderParts(t);
  }

  /** The local parent/child check of `CheckHeap` is equivalent to the heap
      invariant over whole subtrees. */
  lemma {:induction false} CheckHeapIff(t: Tree)
    ensures CheckHeap(t) <==> HeapOrdered(t)
  {
    match t
    case Leaf =>
    case Node(v, _, l, r) =>
      CheckHeapIff(l);
      CheckHeapIff(r);
      if CheckHeap(t) {
        if l.Node? {
          HeapRootIsMin(l);
        }
        if r.Node? {
          HeapRootIsMin(r);
        }
      }
      if HeapOrdered(t) {
        if l.Node? {
          InOrderParts(l);
          assert InOrder(l)[|InOrder(l.left)|].value == l.value;
        }
        if r.Node? {
          InOrderParts(r);
          assert InOrder(r)[|InOrder(r.left)|].value == r.value;
        }
      }
  }

  lemma {:induction false} CartesianIsHeapOrdered(t: Tree, p: TieBreak)
    requires Cartesian(t, p)
    ensures HeapOrdered(t)
  {
    match t
    case Leaf =>
    case Node(_, _, l, r) =>
      CartesianIsHeapOrdered(l, p);
      CartesianIsHeapOrdered(r, p);
  }

  /** Nothing in [lo, hi] occurs in `s`. */
  ghost predicate Misses(s: seq<Entry>, lo: int, hi: int)
  {
    forall q :: 0 <= q < |s| ==> s[q].index < lo || hi < s[q].index
  }

  /** `v` is at most every value in `s` whose index lies in [lo, hi]. */
  ghost predicate MinOver(s: seq<Entry>, lo: int, hi: int, v: int)
  {
    forall q :: 0 <= q < |s| && lo <= s[q].index <= hi ==> v <= s[q].value
  }

  /** The range-minimum query on any tree with both invariants: it finds nothing
      exactly when no node's index lies in [lo, hi], and otherwise finds a node
      in that range whose value is at most every value in that range. */
  lemma {:induction false} FindLcaIsRangeMinimum(t: Tree, lo: int, hi: int)
    requires HeapOrdered(t) && IndexSorted(InOrder(t))
    ensures FindLca(t, lo, hi).None? <==> Misses(InOrder(t), lo, hi)
    ensures FindLca(t, lo, hi).Some? ==>
      && Entry(FindLca(t, lo, hi).value.value, FindLca(t, lo, hi).value.index) in InOrder(t)
      && MinOver(InOrder(t), lo, hi, FindLca(t, lo, hi).value.value)
  {
    match t
    case Leaf =>
    case Node(v, i, l, r) =>
      var L, e, R := InOrder(l), Entry(v, i), InOrder(r);
      assert InOrder(t) == L + [e] + R;
      SortedParts(L, e, R);
      if lo <= i <= hi {
        HeapRootIsMin(t);
        assert (L + [e] + R)[|L|] == e;
      } else if i > hi {
        FindLcaIsRangeMinimum(l, lo, hi);
        var res := FindLca(l, lo, hi);
        DescendLeft(L, e, R, lo, hi, if res.Some? then res.value.value else 0);
      } else {
        FindLcaIsRangeMinimum(r, lo, hi);
        var res := FindLca(r, lo, hi);
        DescendRight(L, e, R, lo, hi, if res.Some? then res.value.value else 0);
      }
  }

  /** The index order around `e`: both parts sorted, `A` below `e`, `B` above. */
  lemma SortedParts(A: seq<Entry>, e: Entry, B: seq<Entry>)
    requires IndexSorted(A + [e] + B)
    ensures IndexSorted(A) && IndexSorted(B)
    ensures forall q :: 0 <= q < |A| ==> A[q].index < e.index
    ensures forall q :: 0 <= q < |B| ==> e.index < B[q].index
  {
    var s, k := A + [e] + B, |A|;
    assert s[k] == e;
    forall p, q | 0 <= p < q < |A| ensures A[p].index < A[q].index {
      assert s[p] == A[p] && s[q] == A[q];
    }
    forall q | 0 <= q < |A| ensures A[q].index < e.index {
      assert s[q] == A[q];
    }
    forall p, q | 0 <= p < q < |B| ensures B[p].index < B[q].index {
      assert s[k + 1 + p] == B[p] && s[k + 1 + q] == B[q];
    }
    forall q | 0 <= q < |B| ensures e.index < B[q].index {
      assert s[k + 1 + q] == B[q];
    }
  }

  /** When the root's index exceeds `hi`, only its left part can hold indices
      in [lo, hi]. */
  lemma DescendLeft(A: seq<Entry>, e: Entry, B: seq<Entry>, lo: int, hi: int, v: int)
    requires e.index > hi
    requires forall q :: 0 <= q < |B| ==> e.index < B[q].index
    ensures Misses(A, lo, hi) <==> Misses(A + [e] + B, lo, hi)
    ensures forall x :: x in A ==> x in A + [e] + B
    ensures MinOver(A, lo, hi, v) ==> MinOver(A + [e] + B, lo, hi, v)
  {
    var s, k := A + [e] + B, |A|;
    assert forall q :: 0 <= q < k ==> s[q] == A[q];
    assert forall q :: k < q < |s| ==> s[q] == B[q - k - 1];
  }

  /** When the root's index is below `lo`, only its right part can hold
      indices in [lo, hi]. */
  lemma DescendRight(A: seq<Entry>, e: Entry, B: seq<Entry>, lo: int, hi: int, v: int)
    requires e.index < lo
    requires forall q :: 0 <= q < |A| ==> A[q].index < e.index
    ensures Misses(B, lo, hi) <==> Misses(A + [e] + B, lo, hi)
    ensures forall x :: x in B ==> x in A + [e] + B
    ensures MinOver(B, lo, hi, v) ==> MinOver(A + [e] + B, lo, hi, v)
  {
    var s, k := A + [e] + B, |A|;
    assert forall q :: 0 <= q < k ==> s[q] == A[q];
    assert forall q :: 0 <= q < |B| ==> s[k + 1 + q] == B[q];
  }

  lemma EnumerateSorted(a: seq<int>)
    ensures IndexSorted(Enumerate(a))
    ensures forall q :: 0 <= q < |a| ==> Enumerate(a)[q] == Entry(a[q], q)
  {
  }

  /** On a tree whose in-order traversal is the array and which passes the heap
      check, `GetRangeMinimum(lo, hi)` is `min(a[lo..hi])` for an in-bounds
      range, and is null exactly when [lo, hi] contains no position of the array
      (in particular whenever lo > hi, and always on the empty tree). Bounds
      that reach past the array are clipped to it: the answer is then the
      minimum of the part of the array the range overlaps. */
  lemma RangeMinimumMatchesArray(a: seq<int>, t: Tree, lo: int, hi: int)
    requires InOrder(t) == Enumerate(a) && CheckHeap(t)
    ensures GetRangeMinimum(t, lo, hi).None? <==> (hi < lo || hi < 0 || |a| <= lo || |a| == 0)
    ensures 0 <= lo <= hi < |a| ==> GetRangeMinimum(t, lo, hi) == Some(SeqMin(a[lo..hi + 1]))
    ensures 0 < |a| && lo <= hi && 0 <= hi && lo < |a| ==>
      GetRangeMinimum(t, lo, hi) == Some(SeqMin(Overlap(a, lo, hi)))
  {
    CheckHeapIff(t);
    NoAnswerIff(a, t, lo, hi);
    if 0 < |a| && lo <= hi && 0 <= hi && lo < |a| {
      ClippedMinimum(a, t, lo, hi);
    }
  }

  /** The part of the array a non-empty range [lo, hi] overlaps. */
  function Overlap(a: seq<int>, lo: int, hi: int): (w: seq<int>)
    requires 0 < |a| && lo <= hi && 0 <= hi && lo < |a|
    ensures |w| > 0
  {
    var l := if lo < 0 then 0 else lo;
    var h := if |a| <= hi then |a| - 1 else hi;
    a[l..h + 1]
  }

  /** The query finds nothing exactly when [lo, hi] holds no array position. */
  lemma NoAnswerIff(a: seq<int>, t: Tree, lo: int, hi: int)
    requires InOrder(t) == Enumerate(a) && HeapOrdered(t)
    ensures GetRangeMinimum(t, lo, hi).None? <==> (hi < lo || hi < 0 || |a| <= lo || |a| == 0)
  {
    EnumerateSorted(a);
    FindLcaIsRangeMinimum(t, lo, hi);
    MissesEnumerate(a, lo, hi);
  }

  /** The query over [lo, hi] answers with the minimum of the overlap [l, h]
      of that range with the array. */
  lemma ClippedMinimum(a: seq<int>, t: Tree, lo: int, hi: int)
    requires InOrder(t) == Enumerate(a) && HeapOrdered(t)
    requires 0 < |a| && lo <= hi && 0 <= hi && lo < |a|
    ensures GetRangeMinimum(t, lo, hi) == Some(SeqMin(Overlap(a, lo, hi)))
    ensures 0 <= lo && hi < |a| ==> Overlap(a, lo, hi) == a[lo..hi + 1]
  {
    NoAnswerIff(a, t, lo, hi);
    EnumerateSorted(a);
    FindLcaIsRangeMinimum(t, lo, hi);
    var n := FindLca(t, lo, hi).value;
    InEnumerate(a, Entry(n.value, n.index));
    OverlapMin(a, lo, hi, n.index, n.value);
  }

  /** A value at a position of the range that is at most everything in the
      range is the minimum of the overlap of the range with the array. */
  lemma OverlapMin(a: seq<int>, lo: int, hi: int, w: int, v: int)
    requires 0 < |a| && lo <= hi && 0 <= hi && lo < |a|
    requires lo <= w <= hi && 0 <= w < |a| && a[w] == v
    requires MinOver(Enumerate(a), lo, hi, v)
    ensures v == SeqMin(Overlap(a, lo, hi))
    ensures 0 <= lo && hi < |a| ==> Overlap(a, lo, hi) == a[lo..hi + 1]
  {
    var l, h := if lo < 0 then 0 else lo, if |a| <= hi then |a| - 1 else hi;
    assert Overlap(a, lo, hi) == a[l..h + 1];
    MinOverNarrow(Enumerate(a), lo, hi, l, h, v);
    WindowMin(a, l, h, w, v);
  }

  lemma InEnumerate(a: seq<int>, e: Entry)
    requires e in Enumerate(a)
    ensures 0 <= e.index < |a| && a[e.index] == e.value
  {
    var w :| 0 <= w < |a| && Enumerate(a)[w] == e;
  }

  lemma MinOverNarrow(s: seq<Entry>, lo: int, hi: int, l: int, h: int, v: int)
    requires MinOver(s, lo, hi, v) && lo <= l && h <= hi
    ensures MinOver(s, l, h, v)
  {
  }

  lemma MissesEnumerate(a: seq<int>, lo: int, hi: int)
    ensures Misses(Enumerate(a), lo, hi) <==> (hi < lo || hi < 0 || |a| <= lo || |a| == 0)
  {
    EnumerateSorted(a);
    if !(hi < lo || hi < 0 || |a| <= lo || |a| == 0) {
      var q := if lo < 0 then 0 else lo;
      assert lo <= Enumerate(a)[q].index <= hi;
    }
  }

  /** A value at a position of the window that is at most everything in the
      window is the window's minimum. */
  lemma WindowMin(a: seq<int>, lo: int, hi: int, w: int, v: int)
    requires 0 <= lo <= w <= hi < |a| && a[w] == v
    requires MinOver(Enumerate(a), lo, hi, v)
    ensures v == SeqMin(a[lo..hi + 1])
  {
    EnumerateSorted(a);
    var window := a[lo..hi + 1];
    var m := SeqMin(window);
    assert window[w - lo] == v;
    var u :| 0 <= u < |window| && window[u] == m;
    assert Enumerate(a)[lo + u] == Entry(m, lo + u);
  }

  /** A tree with the tie-break invariant and the right in-order sequence
      passes both checks, whatever the tie-break. */
  lemma CartesianPassesChecks(ct: CartesianTree, p: TieBreak)
    requires InOrder(ct.root) == Enumerate(ct.input) && Cartesian(ct.root, p)
    requires |ct.input| <= IntMaxValue
    ensures VerifyProperties(ct) == (true, true, true)
  {
    CartesianIsHeapOrdered(ct.root, p);
    CheckHeapIff(ct.root);
    EnumerateSorted(ct.input);
    CheckBstIndicesIff(ct.root, IntMinValue, IntMaxValue);
  }

  /** The pre-order traversal visits the same nodes as the in-order one, each
      as often, and starts at the root. */
  lemma {:induction false} PreOrderPermutesInOrder(t: Tree)
    ensures multiset(PreOrder(t)) == multiset(InOrder(t))
    ensures |PreOrder(t)| == |InOrder(t)|
    ensures t.Node? ==> PreOrder(t)[0] == Entry(t.value, t.index)
  {
    match t
    case Leaf =>
    case Node(_, _, l, r) =>
      PreOrderPermutesInOrder(l);
      PreOrderPermutesInOrder(r);
      assert |PreOrder(t)| == |multiset(PreOrder(t))|;
  }

  /** The root's position in the in-order sequence splits it as the tie-break says. */
  lemma RootSplits(t: Tree, p: TieBreak)
    requires t.Node? && Cartesian(t, p)
    ensures SplitsAt(InOrder(t), |InOrder(t.left)|, p)
  {
    var A, e, B := InOrder(t.left), Entry(t.value, t.index), InOrder(t.right);
    assert InOrder(t) == A + [e] + B;
    var s, k := A + [e] + B, |A|;
    assert s[k] == e;
    forall q | 0 <= q < k ensures Above(s[q].value, s[k].value, p == PopGt) {
      assert s[q] == A[q];
    }
    forall q | k < q < |s| ensures Above(s[q].value, s[k].value, p == PopGe) {
      assert s[q] == B[q - k - 1];
    }
  }

  /** At most one position splits a sequence under a given tie-break. */
  lemma SplitUnique(s: seq<Entry>, k1: int, k2: int, p: TieBreak)
    requires SplitsAt(s, k1, p) && SplitsAt(s, k2, p)
    ensures k1 == k2
  {
    var lo, hi := if k1 < k2 then k1 else k2, if k1 < k2 then k2 else k1;
    var x, y := s[lo].value, s[hi].value;
    assert lo < hi ==> Above(y, x, p == PopGe) && Above(x, y, p == PopGt);
  }

  /** A tie-break invariant and an in-order sequence determine the tree: two
      trees that agree on both are equal. */
  lemma {:induction false} CartesianUnique(t1: Tree, t2: Tree, p: TieBreak)
    requires Cartesian(t1, p) && Cartesian(t2, p)
    requires InOrder(t1) == InOrder(t2)
    ensures t1 == t2
  {
    InOrderNonEmpty(t1);
    InOrderNonEmpty(t2);
    if t1.Node? {
      InOrderParts(t1);
      InOrderParts(t2);
      RootSplits(t1, p);
      RootSplits(t2, p);
      SplitUnique(InOrder(t1), |InOrder(t1.left)|, |InOrder(t2.left)|, p);
      CartesianUnique(t1.left, t2.left, p);
      CartesianUnique(t1.right, t2.right, p);
    }
  }

  /** The root is a minimum of the array. With `PopGe` it is the last
      occurrence of that minimum, with `PopGt` the first. */
  lemma RootTieBreak(a: seq<int>, t: Tree, p: TieBreak)
    requires InOrder(t) == Enumerate(a) && Cartesian(t, p) && |a| > 0
    ensures t.Node? && 0 <= t.index < |a| && a[t.index] == t.value
    ensures forall k :: 0 <= k < |a| ==> t.value <= a[k]
    ensures p == PopGe ==> forall k :: t.index < k < |a| ==> t.value < a[k]
    ensures p == PopGt ==> forall k :: 0 <= k < t.index ==> t.value < a[k]
  {
    EnumerateSorted(a);
    InOrderNonEmpty(t);
    InOrderParts(t);
    RootSplits(t, p);
    var s, k := InOrder(t), |InOrder(t.left)|;
    assert s[k] == Entry(a[k], k);
    assert forall q :: 0 <= q < |a| ==> s[q].value == a[q];
  }

  /** Strictly increasing values give a right-only chain whose root is the
      first element. */
  lemma {:induction false} IncreasingIsRightChain(t: Tree, p: TieBreak)
    requires Cartesian(t, p) && ValuesIncrease(InOrder(t))
    ensures NoLeftChildren(t)
    ensures t.Node? ==> InOrder(t)[0] == Entry(t.value, t.index)
  {
    match t
    case Leaf =>
    case Node(v, i, l, r) =>
      var A, e, B := InOrder(l), Entry(v, i), InOrder(r);
      var s, k := A + [e] + B, |A|;
      assert InOrder(t) == s;
      RootSplits(t, p);
      var first := s[0].value;
      assert k > 0 ==> Above(first, v, p == PopGt) && first < v;
      InOrderNonEmpty(l);
      assert ValuesIncrease(B) by {
        forall p1, q1 | 0 <= p1 < q1 < |B| ensures B[p1].value < B[q1].value {
          assert s[k + 1 + p1] == B[p1] && s[k + 1 + q1] == B[q1];
        }
      }
      IncreasingIsRightChain(r, p);
  }

  /** Strictly decreasing values give a left-only chain whose root is the last
      element. */
  lemma {:induction false} DecreasingIsLeftChain(t: Tree, p: TieBreak)
    requires Cartesian(t, p) && ValuesDecrease(InOrder(t))
    ensures NoRightChildren(t)
    ensures t.Node? ==> InOrder(t)[|InOrder(t)| - 1] == Entry(t.value, t.index)
  {
    match t
    case Leaf =>
    case Node(v, i, l, r) =>
      var A, e, B := InOrder(l), Entry(v, i), InOrder(r);
      var s, k := A + [e] + B, |A|;
      assert InOrder(t) == s;
      RootSplits(t, p);
      var last := s[|s| - 1].value;
      assert k < |s| - 1 ==> Above(last, v, p == PopGe) && v > last;
      InOrderNonEmpty(r);
      assert ValuesDecrease(A) by {
        forall p1, q1 | 0 <= p1 < q1 < |A| ensures A[p1].value > A[q1].value {
          assert s[p1] == A[p1] && s[q1] == A[q1];
        }
      }
      DecreasingIsLeftChain(l, p);
  }

  /** A one-element array has exactly one tree with its in-order sequence: a
      single node with that value, index 0 and no children. */
  lemma SingletonTree(a: seq<int>, t: Tree)
    requires |a| == 1 && InOrder(t) == Enumerate(a)
    ensures t == Node(a[0], 0, Leaf, Leaf)
  {
    InOrderNonEmpty(t);
    InOrderParts(t);
    InOrderNonEmpty(t.left);
    InOrderNonEmpty(t.right);
    assert InOrder(t)[0] == Entry(a[0], 0);
  }

  /** The skewed shapes in array terms: a strictly increasing array gives a
      chain of right children rooted at index 0, a strictly decreasing one a
      chain of left children rooted at index n-1, under either tie-break. */
  lemma ArrayShapes(a: seq<int>, t: Tree, p: TieBreak)
    requires InOrder(t) == Enumerate(a) && Cartesian(t, p) && |a| > 0
    ensures (forall i, j :: 0 <= i < j < |a| ==> a[i] < a[j]) ==>
              NoLeftChildren(t) && t.index == 0
    ensures (forall i, j :: 0 <= i < j < |a| ==> a[i] > a[j]) ==>
              NoRightChildren(t) && t.index == |a| - 1
  {
    EnumerateSorted(a);
    InOrderNonEmpty(t);
    if forall i, j :: 0 <= i < j < |a| ==> a[i] < a[j] {
      IncreasingIsRightChain(t, p);
    }
    if forall i, j :: 0 <= i < j < |a| ==> a[i] > a[j] {
      DecreasingIsLeftChain(t, p);
    }
  }
}
