/** Binary-heap routines over an abstract collection: sifting, heapify, push, pop, remove and fix. */
module Heaps {

  // ---------- Order and shape ----------

  /** Always true: three values whose order some proof wants to compare. */
  ghost predicate Compared<T>(x: T, y: T, z: T) {
    true
  }

  /** What the routines expect of Less. */
  ghost predicate StrictWeakOrder<T(!new)>(less: (T, T) -> bool) {
    && (forall x :: !less(x, x))
    && (forall x, y, z {:trigger Compared(x, y, z)} :: Compared(x, y, z) && less(x, y) && less(y, z) ==> less(x, z))
    && (forall x, y, z {:trigger Compared(x, y, z)} :: Compared(x, y, z) && !less(x, y) && !less(y, z) ==> !less(x, z))
  }

  lemma Asymmetric<T(!new)>(less: (T, T) -> bool, x: T, y: T)
    requires StrictWeakOrder(less) && less(x, y)
    ensures !less(y, x)
  {
    assert Compared(x, y, x);
  }

  lemma Transitive<T(!new)>(less: (T, T) -> bool, x: T, y: T, z: T)
    requires StrictWeakOrder(less) && !less(y, x) && !less(z, y)
    ensures !less(z, x)
  {
    assert Compared(z, y, x);
  }

  /** The source computes (j-1)/2 with truncation toward zero, so the parent of the root is the root itself. */
  function Parent(j: nat): nat {
    if j == 0 then 0 else (j - 1) / 2
  }

  predicate InOrder<T>(less: (T, T) -> bool, s: seq<T>, j: nat)
    requires j < |s|
  {
    !less(s[j], s[Parent(j)])
  }

  /** The first n items form a heap. */
  ghost predicate IsHeap<T>(less: (T, T) -> bool, s: seq<T>, n: nat)
    requires n <= |s|
  {
    forall j :: 0 < j < n ==> InOrder(less, s, j)
  }

  /** The documented invariant: no child is less than its parent. */
  lemma HeapMeans<T>(less: (T, T) -> bool, s: seq<T>)
    ensures IsHeap(less, s, |s|) <==>
      forall i :: 0 <= i < |s| ==> HasHeapChild(less, s, i, 2 * i + 1) && HasHeapChild(less, s, i, 2 * i + 2)
  {
    if IsHeap(less, s, |s|) {
      forall i, c | 0 <= i < |s| && (c == 2 * i + 1 || c == 2 * i + 2)
        ensures HasHeapChild(less, s, i, c)
      {
        assert c < |s| ==> InOrder(less, s, c) && Parent(c) == i;
      }
    } else {
      var j :| 0 < j < |s| && !InOrder(less, s, j);
      assert j == 2 * Parent(j) + 1 || j == 2 * Parent(j) + 2;
      assert !HasHeapChild(less, s, Parent(j), j);
    }
  }

  predicate HasHeapChild<T>(less: (T, T) -> bool, s: seq<T>, i: nat, c: nat)
    requires i < |s|
  {
    c < |s| ==> !less(s[c], s[i])
  }

  function Swapped<T>(s: seq<T>, i: nat, j: nat): (r: seq<T>)
    requires i < |s| && j < |s|
    ensures |r| == |s|
  {
    seq(|s|, k requires 0 <= k < |s| => if k == i then s[j] else if k == j then s[i] else s[k])
  }

  lemma SwappedIsUpdate<T>(s: seq<T>, i: nat, j: nat)
    requires i < |s| && j < |s|
    ensures Swapped(s, i, j) == s[i := s[j]][j := s[i]]
  {
  }

  lemma SwappedKeepsItems<T>(s: seq<T>, i: nat, j: nat)
    requires i < |s| && j < |s|
    ensures multiset(Swapped(s, i, j)) == multiset(s)
  {
    SwappedIsUpdate(s, i, j);
  }

  // ---------- What the sifting loops compute ----------

  /** Items after a sift, where the sifted item came to rest, and what the sift cost. */
  datatype Sift<T> = Sift(items: seq<T>, at: nat, comparisons: nat, swaps: nat)

  function SmallerChild<T>(less: (T, T) -> bool, s: seq<T>, i: nat, n: nat): (j: nat)
    requires 2 * i + 1 < n <= |s|
    ensures i < j < n && Parent(j) == i
  {
    if 2 * i + 2 < n && less(s[2 * i + 2], s[2 * i + 1]) then 2 * i + 2 else 2 * i + 1
  }

  function Down<T>(less: (T, T) -> bool, s: seq<T>, i: nat, n: nat): (r: Sift<T>)
    requires n <= |s|
    ensures |r.items| == |s| && i <= r.at
    decreases if i < n then n - i else 0
  {
    if 2 * i + 1 >= n then
      Sift(s, i, 0, 0)
    else
      var j := SmallerChild(less, s, i, n);
      var cost := if 2 * i + 2 < n then 2 else 1;
      if !less(s[j], s[i]) then
        Sift(s, i, cost, 0)
      else
        var r := Down(less, Swapped(s, i, j), j, n);
        r.(comparisons := cost + r.comparisons, swaps := 1 + r.swaps)
  }

  function Up<T>(less: (T, T) -> bool, s: seq<T>, j: nat): (r: Sift<T>)
    requires j < |s|
    ensures |r.items| == |s| && r.at <= j
    decreases j
  {
    if j == 0 then
      Sift(s, 0, 0, 0)
    else if InOrder(less, s, j) then
      Sift(s, j, 1, 0)
    else
      var r := Up(less, Swapped(s, Parent(j), j), Parent(j));
      r.(comparisons := 1 + r.comparisons, swaps := 1 + r.swaps)
  }

  // ---------- Sifting down repairs a heap ----------

  /** Heap from node lo on, except for the edges that touch node i; i's children already respect i's parent. */
  ghost predicate HeapAround<T>(less: (T, T) -> bool, s: seq<T>, lo: nat, i: nat, n: nat)
    requires n <= |s|
  {
    && (forall j :: 0 < j < n && lo <= Parent(j) && j != i && Parent(j) != i ==> InOrder(less, s, j))
    && (forall j :: 0 < j < n && 0 < i && lo <= Parent(i) && Parent(j) == i ==> !less(s[j], s[Parent(i)]))
  }

  lemma {:induction false} DownFrame<T>(less: (T, T) -> bool, s: seq<T>, i: nat, n: nat)
    requires n <= |s|
    ensures var r := Down(less, s, i, n);
      && multiset(r.items) == multiset(s)
      && (forall k :: 0 <= k < |s| && (k < i || n <= k) ==> r.items[k] == s[k])
      && (r.at == i ==> r.items == s && r.swaps == 0)
    decreases if i < n then n - i else 0
  {
    if 2 * i + 1 < n {
      var j := SmallerChild(less, s, i, n);
      if less(s[j], s[i]) {
        SwappedKeepsItems(s, i, j);
        DownFrame(less, Swapped(s, i, j), j, n);
      }
    }
  }

  lemma OtherChild<T(!new)>(less: (T, T) -> bool, s: seq<T>, i: nat, n: nat)
    requires StrictWeakOrder(less) && 2 * i + 2 < n <= |s|
    ensures var j := SmallerChild(less, s, i, n);
      !less(s[2 * i + 1], s[j]) && !less(s[2 * i + 2], s[j])
  {
    if less(s[2 * i + 2], s[2 * i + 1]) {
      Asymmetric(less, s[2 * i + 2], s[2 * i + 1]);
    }
  }

  lemma SwapDown<T(!new)>(less: (T, T) -> bool, s: seq<T>, lo: nat, i: nat, n: nat)
    requires StrictWeakOrder(less)
    requires lo <= i && 2 * i + 1 < n <= |s|
    requires HeapAround(less, s, lo, i, n)
    requires less(s[SmallerChild(less, s, i, n)], s[i])
    ensures var j := SmallerChild(less, s, i, n);
      var t := Swapped(s, i, j);
      && HeapAround(less, t, lo, j, n)
      && InOrder(less, t, j)
      && (0 < i && lo <= Parent(i) ==> InOrder(less, t, i))
  {
    var j := SmallerChild(less, s, i, n);
    var t := Swapped(s, i, j);
    Asymmetric(less, s[j], s[i]);
    forall k | 0 < k < n && lo <= Parent(k) && k != j && Parent(k) != j
      ensures InOrder(less, t, k)
    {
      if k == i {
      } else if Parent(k) == i {
        assert k == 2 * i + 1 || k == 2 * i + 2;
        OtherChild(less, s, i, n);
      } else {
        assert InOrder(less, s, k);
      }
    }
    forall k | 0 < k < n && Parent(k) == j
      ensures !less(t[k], t[Parent(j)])
    {
      assert InOrder(less, s, k);
    }
  }

  /** If the sifted item moved, every edge is in order; if it did not, only the edge above it may not be. */
  lemma {:induction false} DownRepairs<T(!new)>(less: (T, T) -> bool, s: seq<T>, lo: nat, i: nat, n: nat)
    requires StrictWeakOrder(less)
    requires n <= |s| && lo <= i
    requires HeapAround(less, s, lo, i, n)
    ensures var r := Down(less, s, i, n);
      forall j :: 0 < j < n && lo <= Parent(j) && (j != i || i < r.at) ==> InOrder(less, r.items, j)
    decreases if i < n then n - i else 0
  {
    if 2 * i + 1 < n {
      var j := SmallerChild(less, s, i, n);
      if less(s[j], s[i]) {
        SwapDown(less, s, lo, i, n);
        DownRepairs(less, Swapped(s, i, j), lo, j, n);
        DownFrame(less, Swapped(s, i, j), j, n);
      } else {
        forall k | 0 < k < n && lo <= Parent(k) && k != i
          ensures InOrder(less, s, k)
        {
          if Parent(k) == i {
            assert k == 2 * i + 1 || k == 2 * i + 2;
            if k != j {
              OtherChild(less, s, i, n);
              Transitive(less, s[i], s[j], s[k]);
            }
          }
        }
      }
    } else {
      assert forall k :: 0 < k < n ==> Parent(k) != i;
    }
  }

  // ---------- Sifting up repairs a heap ----------

  lemma {:induction false} UpFrame<T>(less: (T, T) -> bool, s: seq<T>, j: nat)
    requires j < |s|
    ensures var r := Up(less, s, j);
      && multiset(r.items) == multiset(s)
      && (forall k :: j < k < |s| ==> r.items[k] == s[k])
    decreases j
  {
    if j != 0 && !InOrder(less, s, j) {
      SwappedKeepsItems(s, Parent(j), j);
      UpFrame(less, Swapped(s, Parent(j), j), Parent(j));
    }
  }

  /** Heap except possibly the edge above node j, whose children already respect j's parent. */
  ghost predicate HeapBelow<T>(less: (T, T) -> bool, s: seq<T>, j: nat, n: nat)
    requires n <= |s|
  {
    && (forall k :: 0 < k < n && k != j ==> InOrder(less, s, k))
    && (forall k :: 0 < k < n && 0 < j && Parent(k) == j ==> !less(s[k], s[Parent(j)]))
  }

  lemma {:induction false} UpRepairs<T(!new)>(less: (T, T) -> bool, s: seq<T>, j: nat, n: nat)
    requires StrictWeakOrder(less)
    requires j < n <= |s|
    requires HeapBelow(less, s, j, n)
    ensures IsHeap(less, Up(less, s, j).items, n)
    decreases j
  {
    if j != 0 && !InOrder(less, s, j) {
      var p := Parent(j);
      var t := Swapped(s, p, j);
      Asymmetric(less, s[j], s[p]);
      forall k | 0 < k < n && k != p
        ensures InOrder(less, t, k)
      {
        if k != j {
          assert InOrder(less, s, k);
          if Parent(k) == p {
            Transitive(less, s[j], s[p], s[k]);
          }
        }
      }
      forall k | 0 < k < n && 0 < p && Parent(k) == p
        ensures !less(t[k], t[Parent(p)])
      {
        assert InOrder(less, s, p);
        if k != j {
          assert InOrder(less, s, k);
          Transitive(less, s[Parent(p)], s[p], s[k]);
        }
      }
      UpRepairs(less, t, p, n);
    }
  }

  // ---------- Costs of sifting ----------

  /** Floor of the base-2 logarithm (0 for 0). */
  function Log2(n: nat): nat {
    if n < 2 then 0 else 1 + Log2(n / 2)
  }

  function Pow2(k: nat): nat {
    if k == 0 then 1 else 2 * Pow2(k - 1)
  }

  lemma {:induction false} Log2IsFloorLog(n: nat)
    requires 1 <= n
    ensures Pow2(Log2(n)) <= n < Pow2(Log2(n) + 1)
  {
    if n >= 2 {
      Log2IsFloorLog(n / 2);
    }
  }

  /** Height of the m-th node, counted from 1 in level order, in a heap of n items. */
  function Height(m: nat, n: nat): nat
    requires 1 <= m
    decreases if m < n then n - m else 0
  {
    if 2 * m <= n then 1 + Height(2 * m, n) else 0
  }

  /** Halving the heap takes one level off every node that has a child. */
  lemma {:induction false} HeightOfHalf(m: nat, n: nat)
    requires 1 <= m && 2 * m <= n
    ensures Height(m, n) == 1 + Height(m, n / 2)
    decreases n - m
  {
    if 4 * m <= n {
      HeightOfHalf(2 * m, n);
    }
  }

  lemma {:induction false} HeightOfRoot(n: nat)
    requires 1 <= n
    ensures Height(1, n) == Log2(n)
  {
    if 2 <= n {
      HeightOfHalf(1, n);
      HeightOfRoot(n / 2);
    }
  }

  lemma {:induction false} HeightShrinks(m: nat, m': nat, n: nat)
    requires 1 <= m <= m'
    ensures Height(m', n) <= Height(m, n)
    decreases if m' < n then n - m' else 0
  {
    if 2 * m' <= n {
      HeightShrinks(2 * m, 2 * m', n);
    }
  }

  /** Depth of a node plus its height is at most the height of the whole heap. */
  lemma {:induction false} DepthPlusHeight(m: nat, n: nat)
    requires 1 <= m <= n
    ensures Log2(m) + Height(m, n) <= Log2(n)
  {
    if m == 1 {
      HeightOfRoot(n);
    } else {
      DepthPlusHeight(m / 2, n);
      HeightShrinks(2 * (m / 2), m, n);
    }
  }

  lemma {:induction false} DownCost<T>(less: (T, T) -> bool, s: seq<T>, i: nat, n: nat)
    requires n <= |s|
    ensures var r := Down(less, s, i, n);
      && r.swaps <= Height(i + 1, n)
      && r.comparisons <= 2 * Height(i + 1, n)
      && (r.swaps == 0 ==> r.comparisons <= 2)
    decreases if i < n then n - i else 0
  {
    if 2 * i + 1 < n {
      var j := SmallerChild(less, s, i, n);
      if less(s[j], s[i]) {
        DownCost(less, Swapped(s, i, j), j, n);
        HeightShrinks(2 * (i + 1), j + 1, n);
      }
    }
  }

  lemma {:induction false} UpCost<T>(less: (T, T) -> bool, s: seq<T>, j: nat)
    requires j < |s|
    ensures Up(less, s, j).comparisons <= Log2(j + 1)
    ensures Up(less, s, j).swaps <= Up(less, s, j).comparisons
    decreases j
  {
    if j != 0 && !InOrder(less, s, j) {
      assert Parent(j) + 1 == (j + 1) / 2;
      UpCost(less, Swapped(s, Parent(j), j), Parent(j));
    }
  }

  // ---------- Init ----------

  /** Items after an operation and what it cost. */
  datatype Work<T> = Work(items: seq<T>, comparisons: nat, swaps: nat)

  /** Sifts down nodes k-1, k-2, ..., 0. */
  function HeapifyFrom<T>(less: (T, T) -> bool, s: seq<T>, k: nat): (r: Work<T>)
    requires k <= |s|
    ensures |r.items| == |s|
    decreases k
  {
    if k == 0 then
      Work(s, 0, 0)
    else
      var d := Down(less, s, k - 1, |s|);
      var r := HeapifyFrom(less, d.items, k - 1);
      Work(r.items, d.comparisons + r.comparisons, d.swaps + r.swaps)
  }

  function Heapify<T>(less: (T, T) -> bool, s: seq<T>): (r: Work<T>)
    ensures |r.items| == |s|
  {
    HeapifyFrom(less, s, |s| / 2)
  }

  ghost predicate HeapFrom<T>(less: (T, T) -> bool, s: seq<T>, lo: nat) {
    forall j :: 0 < j < |s| && lo <= Parent(j) ==> InOrder(less, s, j)
  }

  lemma HeapifyStep<T(!new)>(less: (T, T) -> bool, s: seq<T>, i: nat)
    requires StrictWeakOrder(less)
    requires i < |s| && HeapFrom(less, s, i + 1)
    ensures HeapFrom(less, Down(less, s, i, |s|).items, i)
    ensures multiset(Down(less, s, i, |s|).items) == multiset(s)
  {
    DownRepairs(less, s, i, i, |s|);
    DownFrame(less, s, i, |s|);
  }

  lemma {:induction false} HeapifyFromEstablishes<T(!new)>(less: (T, T) -> bool, s: seq<T>, k: nat)
    requires StrictWeakOrder(less)
    requires k <= |s| && HeapFrom(less, s, k)
    ensures HeapFrom(less, HeapifyFrom(less, s, k).items, 0)
    ensures multiset(HeapifyFrom(less, s, k).items) == multiset(s)
    decreases k
  {
    if k != 0 {
      HeapifyStep(less, s, k - 1);
      HeapifyFromEstablishes(less, Down(less, s, k - 1, |s|).items, k - 1);
    }
  }

  /** Sum of the heights of nodes 1..m in a heap of n items. */
  function SumHeights(m: nat, n: nat): nat {
    if m == 0 then 0 else Height(m, n) + SumHeights(m - 1, n)
  }

  lemma {:induction false} SumHeightsOfHalf(m: nat, n: nat)
    requires 2 * m <= n
    ensures SumHeights(m, n) == m + SumHeights(m, n / 2)
    decreases m
  {
    if m != 0 {
      HeightOfHalf(m, n);
      SumHeightsOfHalf(m - 1, n);
    }
  }

  lemma {:induction false} LeavesHaveNoHeight(m: nat, n: nat)
    requires n / 2 <= m <= n
    ensures SumHeights(m, n) == SumHeights(n / 2, n)
    decreases m
  {
    if n / 2 < m {
      LeavesHaveNoHeight(m - 1, n);
    }
  }

  /** The heights of all nodes of a heap of n items add up to less than n. */
  lemma {:induction false} SumHeightsIsLinear(n: nat)
    requires 1 <= n
    ensures SumHeights(n / 2, n) <= n - 1
  {
    if 2 <= n {
      SumHeightsOfHalf(n / 2, n);
      LeavesHaveNoHeight(n / 2, n / 2);
      SumHeightsIsLinear(n / 2);
    }
  }

  lemma {:induction false} HeapifyFromCost<T>(less: (T, T) -> bool, s: seq<T>, k: nat)
    requires k <= |s|
    ensures HeapifyFrom(less, s, k).swaps <= SumHeights(k, |s|)
    ensures HeapifyFrom(less, s, k).comparisons <= 2 * SumHeights(k, |s|)
    decreases k
  {
    if k != 0 {
      DownCost(less, s, k - 1, |s|);
      HeapifyFromCost(less, Down(less, s, k - 1, |s|).items, k - 1);
    }
  }

  /** Init establishes the heap invariant, keeps the items, and its total cost is linear. */
  lemma HeapifyIsLinearAndCorrect<T(!new)>(less: (T, T) -> bool, s: seq<T>)
    requires StrictWeakOrder(less)
    ensures var r := Heapify(less, s);
      && IsHeap(less, r.items, |s|)
      && multiset(r.items) == multiset(s)
      && (1 <= |s| ==> r.comparisons <= 2 * |s| - 2 && r.swaps <= |s| - 1)
      && (|s| == 0 ==> r.comparisons == r.swaps == 0)
  {
    HeapifyFromEstablishes(less, s, |s| / 2);
    if 1 <= |s| {
      HeapifyFromCost(less, s, |s| / 2);
      SumHeightsIsLinear(|s|);
    }
  }

  /** Init leaves a collection that is already a heap as it is. */
  lemma {:induction false} HeapifyKeepsHeaps<T>(less: (T, T) -> bool, s: seq<T>, k: nat)
    requires IsHeap(less, s, |s|) && k <= |s|
    ensures HeapifyFrom(less, s, k).items == s
    decreases k
  {
    if k != 0 {
      if 2 * (k - 1) + 1 < |s| {
        var j := SmallerChild(less, s, k - 1, |s|);
        assert InOrder(less, s, j);
      }
      HeapifyKeepsHeaps(less, s, k - 1);
    }
  }

  // ---------- Push, Pop, Remove and Fix ----------

  function Pushed<T>(less: (T, T) -> bool, s: seq<T>, x: T): (r: Sift<T>)
    ensures |r.items| == |s| + 1
  {
    Up(less, s + [x], |s|)
  }

  /** Sifts down within the first n items, and sifts up instead if that moved nothing. */
  function DownElseUp<T>(less: (T, T) -> bool, s: seq<T>, i: nat, n: nat): (r: Sift<T>)
    requires i < n <= |s|
    ensures |r.items| == |s|
  {
    var d := Down(less, s, i, n);
    if i < d.at then d
    else
      var u := Up(less, d.items, i);
      u.(comparisons := d.comparisons + u.comparisons, swaps := d.swaps + u.swaps)
  }

  /** The collection after its item i has been brought to the end by Remove. */
  function Removing<T>(less: (T, T) -> bool, s: seq<T>, i: nat): (r: Sift<T>)
    requires i < |s|
    ensures |r.items| == |s|
  {
    var n := |s| - 1;
    if n != i then DownElseUp(less, Swapped(s, i, n), i, n) else Sift(s, i, 0, 0)
  }

  /** The collection after its first item has been brought to the end by Pop. */
  function Popping<T>(less: (T, T) -> bool, s: seq<T>): (r: Sift<T>)
    requires 0 < |s|
    ensures |r.items| == |s|
  {
    Down(less, Swapped(s, 0, |s| - 1), 0, |s| - 1)
  }

  function Popped<T>(less: (T, T) -> bool, s: seq<T>): (r: seq<T>)
    requires 0 < |s|
    ensures |r| == |s| - 1
  {
    Popping(less, s).items[..|s| - 1]
  }

  function Removed<T>(less: (T, T) -> bool, s: seq<T>, i: nat): (r: seq<T>)
    requires i < |s|
    ensures |r| == |s| - 1
  {
    Removing(less, s, i).items[..|s| - 1]
  }

  function Fixed<T>(less: (T, T) -> bool, s: seq<T>, i: nat): (r: Sift<T>)
    requires i < |s|
    ensures |r.items| == |s|
  {
    DownElseUp(less, s, i, |s|)
  }

  lemma PushRepairs<T(!new)>(less: (T, T) -> bool, s: seq<T>, x: T)
    requires StrictWeakOrder(less) && IsHeap(less, s, |s|)
    ensures var r := Pushed(less, s, x);
      && IsHeap(less, r.items, |r.items|)
      && multiset(r.items) == multiset(s) + multiset{x}
      && r.comparisons <= Log2(|s| + 1)
  {
    var t := s + [x];
    forall k | 0 < k < |t| && k != |s|
      ensures InOrder(less, t, k)
    {
      assert InOrder(less, s, k);
    }
    UpRepairs(less, t, |s|, |t|);
    UpFrame(less, t, |s|);
    UpCost(less, t, |s|);
  }

  lemma DownElseUpRepairs<T(!new)>(less: (T, T) -> bool, s: seq<T>, i: nat, n: nat)
    requires StrictWeakOrder(less)
    requires i < n <= |s| && HeapAround(less, s, 0, i, n)
    ensures IsHeap(less, DownElseUp(less, s, i, n).items, n)
  {
    DownRepairs(less, s, 0, i, n);
    DownFrame(less, s, i, n);
    if Down(less, s, i, n).at == i {
      UpRepairs(less, s, i, n);
    }
  }

  lemma DownElseUpFrame<T>(less: (T, T) -> bool, s: seq<T>, i: nat, n: nat)
    requires i < n <= |s|
    ensures var r := DownElseUp(less, s, i, n).items;
      multiset(r) == multiset(s) && forall k :: n <= k < |s| ==> r[k] == s[k]
  {
    DownFrame(less, s, i, n);
    UpFrame(less, Down(less, s, i, n).items, i);
  }

  lemma DownElseUpCost<T>(less: (T, T) -> bool, s: seq<T>, i: nat, n: nat)
    requires i < n <= |s|
    ensures DownElseUp(less, s, i, n).comparisons <= 2 * Log2(n)
  {
    DownCost(less, s, i, n);
    DepthPlusHeight(i + 1, n);
    if Down(less, s, i, n).at == i {
      UpCost(less, Down(less, s, i, n).items, i);
    }
  }

  /** A heap whose item i is overwritten is still a heap around i. */
  lemma OverwrittenHeap<T(!new)>(less: (T, T) -> bool, s: seq<T>, i: nat, x: T, n: nat)
    requires StrictWeakOrder(less)
    requires n <= |s| && i < |s| && IsHeap(less, s, |s|)
    ensures HeapAround(less, s[i := x], 0, i, n)
  {
    var t := s[i := x];
    forall j | 0 < j < n && j != i && Parent(j) != i
      ensures InOrder(less, t, j)
    {
      assert InOrder(less, s, j);
    }
    forall j | 0 < j < n && 0 < i && Parent(j) == i
      ensures !less(t[j], t[Parent(i)])
    {
      assert InOrder(less, s, j) && InOrder(less, s, i);
      Transitive(less, s[Parent(i)], s[i], s[j]);
    }
  }

  /** Fix after any change of one item restores the heap and keeps the changed items. */
  lemma FixRepairs<T(!new)>(less: (T, T) -> bool, s: seq<T>, i: nat, x: T)
    requires StrictWeakOrder(less)
    requires i < |s| && IsHeap(less, s, |s|)
    ensures var r := Fixed(less, s[i := x], i);
      && IsHeap(less, r.items, |s|)
      && multiset(r.items) == multiset(s) - multiset{s[i]} + multiset{x}
      && r.comparisons <= 2 * Log2(|s|)
  {
    OverwrittenHeap(less, s, i, x, |s|);
    DownElseUpRepairs(less, s[i := x], i, |s|);
    DownElseUpFrame(less, s[i := x], i, |s|);
    DownElseUpCost(less, s[i := x], i, |s|);
  }

  lemma DropLast<T>(s: seq<T>, t: seq<T>, x: T)
    requires 0 < |s| == |t| && multiset(t) == multiset(s) && t[|t| - 1] == x
    ensures multiset(t[..|t| - 1]) == multiset(s) - multiset{x}
  {
    assert t == t[..|t| - 1] + [x];
  }

  lemma RemovingRepairs<T(!new)>(less: (T, T) -> bool, s: seq<T>, i: nat)
    requires StrictWeakOrder(less)
    requires i < |s| && IsHeap(less, s, |s|)
    ensures IsHeap(less, Removing(less, s, i).items, |s| - 1)
  {
    if i < |s| - 1 {
      SwappedRepairs(less, s, i);
      RemovingIs(less, s, i);
    }
  }

  lemma RemovingIs<T>(less: (T, T) -> bool, s: seq<T>, i: nat)
    requires i < |s| - 1
    ensures Removing(less, s, i) == DownElseUp(less, Swapped(s, i, |s| - 1), i, |s| - 1)
  {
  }

  lemma SwappedRepairs<T(!new)>(less: (T, T) -> bool, s: seq<T>, i: nat)
    requires StrictWeakOrder(less)
    requires i < |s| - 1 && IsHeap(less, s, |s|)
    ensures IsHeap(less, DownElseUp(less, Swapped(s, i, |s| - 1), i, |s| - 1).items, |s| - 1)
  {
    SwappedIsHeapAround(less, s, i);
    DownElseUpRepairs(less, Swapped(s, i, |s| - 1), i, |s| - 1);
  }

  lemma RemovingFrame<T>(less: (T, T) -> bool, s: seq<T>, i: nat)
    requires i < |s|
    ensures var m := Removing(less, s, i).items;
      multiset(m) == multiset(s) && m[|s| - 1] == s[i]
  {
    if i < |s| - 1 {
      SwappedKeepsItems(s, i, |s| - 1);
      DownElseUpFrame(less, Swapped(s, i, |s| - 1), i, |s| - 1);
    }
  }

  lemma RemovingCost<T>(less: (T, T) -> bool, s: seq<T>, i: nat)
    requires i < |s|
    ensures Removing(less, s, i).comparisons <= 2 * Log2(|s| - 1)
  {
    if i < |s| - 1 {
      DownElseUpCost(less, Swapped(s, i, |s| - 1), i, |s| - 1);
    }
  }

  lemma SwappedIsHeapAround<T(!new)>(less: (T, T) -> bool, s: seq<T>, i: nat)
    requires StrictWeakOrder(less)
    requires i < |s| - 1 && IsHeap(less, s, |s|)
    ensures HeapAround(less, Swapped(s, i, |s| - 1), 0, i, |s| - 1)
  {
    var n := |s| - 1;
    OverwrittenHeap(less, s, i, s[n], n);
    SwappedWithLast(s, i);
    SameFirstItems(less, s[i := s[n]], Swapped(s, i, n), i, n);
  }

  lemma SwappedWithLast<T>(s: seq<T>, i: nat)
    requires i < |s| - 1
    ensures var n := |s| - 1;
      forall k :: 0 <= k < n ==> Swapped(s, i, n)[k] == s[i := s[n]][k]
  {
  }

  lemma SameFirstItems<T>(less: (T, T) -> bool, s: seq<T>, t: seq<T>, i: nat, n: nat)
    requires n <= |s| == |t| && i < n && forall k :: 0 <= k < n ==> s[k] == t[k]
    requires HeapAround(less, s, 0, i, n)
    ensures HeapAround(less, t, 0, i, n)
  {
    forall j | 0 < j < n && j != i && Parent(j) != i
      ensures InOrder(less, t, j)
    {
      assert InOrder(less, s, j);
    }
  }

  /** Remove at any index takes out exactly that item and leaves a heap. */
  lemma RemoveRepairs<T(!new)>(less: (T, T) -> bool, s: seq<T>, i: nat)
    requires StrictWeakOrder(less)
    requires i < |s| && IsHeap(less, s, |s|)
    ensures var r := Removed(less, s, i);
      && IsHeap(less, r, |r|)
      && multiset(r) == multiset(s) - multiset{s[i]}
      && Removing(less, s, i).items[|s| - 1] == s[i]
      && Removing(less, s, i).comparisons <= 2 * Log2(|s| - 1)
  {
    RemovingRepairs(less, s, i);
    RemovingFrame(less, s, i);
    RemovingCost(less, s, i);
    var m, r := Removing(less, s, i).items, Removed(less, s, i);
    DropLast(s, m, s[i]);
    assert r == m[..|s| - 1];
    forall j | 0 < j < |r|
      ensures InOrder(less, r, j)
    {
      assert InOrder(less, m, j);
    }
  }

  /** Pop and Remove(h, 0) leave the same items and return the same item. */
  lemma PopIsRemoveFirst<T>(less: (T, T) -> bool, s: seq<T>)
    requires 0 < |s|
    ensures Popped(less, s) == Removed(less, s, 0)
    ensures Popping(less, s).items == Removing(less, s, 0).items
    ensures Popping(less, s).comparisons == Removing(less, s, 0).comparisons
  {
    DownFrame(less, Swapped(s, 0, |s| - 1), 0, |s| - 1);
    if |s| == 1 {
      assert Swapped(s, 0, 0) == s;
    }
  }

  lemma {:induction false} RootIsMinimal<T(!new)>(less: (T, T) -> bool, s: seq<T>, k: nat)
    requires StrictWeakOrder(less)
    requires k < |s| && IsHeap(less, s, |s|)
    ensures !less(s[k], s[0])
    decreases k
  {
    if k != 0 {
      RootIsMinimal(less, s, Parent(k));
      assert InOrder(less, s, k);
      Transitive(less, s[0], s[Parent(k)], s[k]);
    }
  }

  /** Pop returns a minimum, takes out exactly that item, and leaves a heap. */
  lemma PopRepairs<T(!new)>(less: (T, T) -> bool, s: seq<T>)
    requires StrictWeakOrder(less)
    requires 0 < |s| && IsHeap(less, s, |s|)
    ensures var r := Popped(less, s);
      && IsHeap(less, r, |r|)
      && multiset(r) == multiset(s) - multiset{s[0]}
      && Popping(less, s).items[|s| - 1] == s[0]
      && (forall x :: x in s ==> !less(x, s[0]))
      && Popping(less, s).comparisons <= 2 * Log2(|s| - 1)
  {
    PopIsRemoveFirst(less, s);
    RemoveRepairs(less, s, 0);
    forall x | x in s
      ensures !less(x, s[0])
    {
      var k: nat :| k < |s| && s[k] == x;
      RootIsMinimal(less, s, k);
    }
  }

  /** Changing item i and calling Fix, or removing it and pushing the new value, give heaps of the same items. */
  lemma FixIsRemoveThenPush<T(!new)>(less: (T, T) -> bool, s: seq<T>, i: nat, x: T)
    requires StrictWeakOrder(less)
    requires i < |s| && IsHeap(less, s, |s|)
    ensures var f := Fixed(less, s[i := x], i).items;
      var p := Pushed(less, Removed(less, s, i), x).items;
      IsHeap(less, f, |f|) && IsHeap(less, p, |p|) && multiset(f) == multiset(p)
  {
    FixRepairs(less, s, i, x);
    RemoveRepairs(less, s, i);
    PushRepairs(less, Removed(less, s, i), x);
  }

  // ---------- Whole runs ----------

  datatype Op<T> = PushItem(item: T) | PopItem | RemoveAt(index: nat) | FixAt(index: nat, item: T)

  predicate Legal<T>(s: seq<T>, op: Op<T>) {
    match op
    case PushItem(_) => true
    case PopItem => 0 < |s|
    case RemoveAt(i) => i < |s|
    case FixAt(i, _) => i < |s|
  }

  function Apply<T>(less: (T, T) -> bool, s: seq<T>, op: Op<T>): seq<T>
    requires Legal(s, op)
  {
    match op
    case PushItem(x) => Pushed(less, s, x).items
    case PopItem => Popped(less, s)
    case RemoveAt(i) => Removed(less, s, i)
    case FixAt(i, x) => Fixed(less, s[i := x], i).items
  }

  /** The items an operation brings in. */
  function Incoming<T>(op: Op<T>): multiset<T> {
    if op.PushItem? || op.FixAt? then multiset{op.item} else multiset{}
  }

  /** The items an operation takes out: the one returned, or the one overwritten before Fix. */
  function Outgoing<T>(s: seq<T>, op: Op<T>): multiset<T>
    requires Legal(s, op)
  {
    match op
    case PushItem(_) => multiset{}
    case PopItem => multiset{s[0]}
    case RemoveAt(i) => multiset{s[i]}
    case FixAt(i, _) => multiset{s[i]}
  }

  predicate LegalRun<T>(less: (T, T) -> bool, s: seq<T>, ops: seq<Op<T>>)
    decreases |ops|
  {
    ops == [] || (Legal(s, ops[0]) && LegalRun(less, Apply(less, s, ops[0]), ops[1..]))
  }

  function ApplyAll<T>(less: (T, T) -> bool, s: seq<T>, ops: seq<Op<T>>): seq<T>
    requires LegalRun(less, s, ops)
    decreases |ops|
  {
    if ops == [] then s else ApplyAll(less, Apply(less, s, ops[0]), ops[1..])
  }

  function AllIncoming<T>(ops: seq<Op<T>>): multiset<T> {
    if ops == [] then multiset{} else Incoming(ops[0]) + AllIncoming(ops[1..])
  }

  function AllOutgoing<T>(less: (T, T) -> bool, s: seq<T>, ops: seq<Op<T>>): multiset<T>
    requires LegalRun(less, s, ops)
    decreases |ops|
  {
    if ops == [] then multiset{}
    else Outgoing(s, ops[0]) + AllOutgoing(less, Apply(less, s, ops[0]), ops[1..])
  }

  lemma ApplyKeepsHeap<T(!new)>(less: (T, T) -> bool, s: seq<T>, op: Op<T>)
    requires StrictWeakOrder(less) && IsHeap(less, s, |s|) && Legal(s, op)
    ensures var r := Apply(less, s, op);
      && IsHeap(less, r, |r|)
      && multiset(r) + Outgoing(s, op) == multiset(s) + Incoming(op)
  {
    match op
    case PushItem(x) => PushRepairs(less, s, x);
    case PopItem => PopRepairs(less, s);
    case RemoveAt(i) => RemoveRepairs(less, s, i);
    case FixAt(i, x) => FixRepairs(less, s, i, x);
  }

  lemma Chained<T>(s: multiset<T>, t: multiset<T>, r: multiset<T>, i: multiset<T>, j: multiset<T>, o: multiset<T>,
                   p: multiset<T>)
    requires t + o == s + i && r + p == t + j
    ensures r + (o + p) == s + (i + j)
  {
    assert r + (o + p) == (r + p) + o == (t + o) + j;
  }

  /**
   * Every run keeps the heap invariant and conserves items: what is left and what went out is what was there and
   * came in.
   */
  lemma {:induction false} RunKeepsHeap<T(!new)>(less: (T, T) -> bool, s: seq<T>, ops: seq<Op<T>>)
    requires StrictWeakOrder(less) && IsHeap(less, s, |s|) && LegalRun(less, s, ops)
    ensures var r := ApplyAll(less, s, ops);
      && IsHeap(less, r, |r|)
      && multiset(r) + AllOutgoing(less, s, ops) == multiset(s) + AllIncoming(ops)
    decreases |ops|
  {
    if ops != [] {
      var t := Apply(less, s, ops[0]);
      ApplyKeepsHeap(less, s, ops[0]);
      RunKeepsHeap(less, t, ops[1..]);
      Chained(multiset(s), multiset(t), multiset(ApplyAll(less, t, ops[1..])), Incoming(ops[0]), AllIncoming(ops[1..]),
              Outgoing(s, ops[0]), AllOutgoing(less, t, ops[1..]));
    }
  }

  /** The results of popping until nothing is left. */
  function PopAll<T>(less: (T, T) -> bool, s: seq<T>): seq<T>
    decreases |s|
  {
    if s == [] then [] else [Popping(less, s).items[|s| - 1]] + PopAll(less, Popped(less, s))
  }

  ghost predicate Sorted<T>(less: (T, T) -> bool, s: seq<T>) {
    forall i, j :: 0 <= i < j < |s| ==> !less(s[j], s[i])
  }

  lemma SmallestFirst<T(!new)>(less: (T, T) -> bool, x: T, rest: seq<T>, all: seq<T>)
    requires forall y :: y in all ==> !less(y, x)
    requires x in all && multiset(rest) == multiset(all) - multiset{x}
    requires Sorted(less, rest)
    ensures Sorted(less, [x] + rest) && multiset([x] + rest) == multiset(all)
  {
    forall y | y in rest
      ensures !less(y, x)
    {
      assert y in multiset(rest);
      assert y in multiset(all);
    }
  }

  lemma {:induction false} PopAllSorts<T(!new)>(less: (T, T) -> bool, s: seq<T>)
    requires StrictWeakOrder(less) && IsHeap(less, s, |s|)
    ensures Sorted(less, PopAll(less, s))
    ensures multiset(PopAll(less, s)) == multiset(s)
    decreases |s|
  {
    if s != [] {
      PopRepairs(less, s);
      PopAllSorts(less, Popped(less, s));
      SmallestFirst(less, s[0], PopAll(less, Popped(less, s)), s);
    }
  }

  /** Init, any run of operations, then popping everything: the items come out sorted, none lost and none invented. */
  lemma HeapRunSorts<T(!new)>(less: (T, T) -> bool, s: seq<T>, ops: seq<Op<T>>)
    requires StrictWeakOrder(less) && LegalRun(less, Heapify(less, s).items, ops)
    ensures var h := Heapify(less, s).items;
      var out := PopAll(less, ApplyAll(less, h, ops));
      Sorted(less, out) && multiset(out) + AllOutgoing(less, h, ops) == multiset(s) + AllIncoming(ops)
  {
    HeapifyIsLinearAndCorrect(less, s);
    RunKeepsHeap(less, Heapify(less, s).items, ops);
    PopAllSorts(less, ApplyAll(less, Heapify(less, s).items, ops));
  }

  // ---------- The routines ----------

  /** An array-backed collection meeting the Heap interface, which counts the calls to Less and Swap. */
  class Heap<T> {
    const less: (T, T) -> bool
    var items: seq<T>
    ghost var comparisons: nat
    ghost var swaps: nat

    constructor (less: (T, T) -> bool, items: seq<T>)
      ensures this.less == less && this.items == items && comparisons == 0 && swaps == 0
    {
      this.less, this.items := less, items;
      comparisons, swaps := 0, 0;
    }

    method Less(i: nat, j: nat) returns (b: bool)
      requires i < |items| && j < |items|
      modifies this`comparisons
      ensures b == less(items[i], items[j]) && comparisons == old(comparisons) + 1
    {
      b := less(items[i], items[j]);
      comparisons := comparisons + 1;
    }

    method Swap(i: nat, j: nat)
      requires i < |items| && j < |items|
      modifies this`items, this`swaps
      ensures items == Swapped(old(items), i, j) && swaps == old(swaps) + 1
    {
      SwappedIsUpdate(items, i, j);
      items := items[i := items[j]][j := items[i]];
      swaps := swaps + 1;
    }

    method Append(x: T)
      modifies this`items
      ensures items == old(items) + [x]
    {
      items := items + [x];
    }

    method DropLast() returns (x: T)
      requires 0 < |items|
      modifies this`items
      ensures items == old(items)[..|old(items)| - 1] && x == old(items)[|old(items)| - 1]
    {
      x := items[|items| - 1];
      items := items[..|items| - 1];
    }
  }

  method Init<T(!new)>(h: Heap<T>)
    modifies h
    ensures var r := Heapify(h.less, old(h.items));
      && h.items == r.items
      && h.comparisons == old(h.comparisons) + r.comparisons
      && h.swaps == old(h.swaps) + r.swaps
    ensures StrictWeakOrder(h.less) ==>
      && IsHeap(h.less, h.items, |h.items|)
      && multiset(h.items) == multiset(old(h.items))
      && (1 <= |h.items| ==> h.comparisons - old(h.comparisons) < 2 * |h.items|)
      && (1 <= |h.items| ==> h.swaps - old(h.swaps) <= |h.items| - 1)
  {
    HeapifyMeans(h.less, h.items);
    ghost var goal := Heapify(h.less, h.items);
    ghost var c0, s0 := h.comparisons, h.swaps;
    var n := |h.items|;
    var i := n / 2 - 1;
    while 0 <= i
      invariant -1 <= i <= n / 2 - 1 && |h.items| == n
      invariant var rest := HeapifyFrom(h.less, h.items, i + 1);
        && rest.items == goal.items
        && h.comparisons + rest.comparisons == c0 + goal.comparisons
        && h.swaps + rest.swaps == s0 + goal.swaps
    {
      var _ := SiftDown(h, i, n);
      i := i - 1;
    }
  }

  lemma HeapifyMeans<T(!new)>(less: (T, T) -> bool, s: seq<T>)
    ensures var r := Heapify(less, s);
      StrictWeakOrder(less) ==>
        && IsHeap(less, r.items, |s|) && multiset(r.items) == multiset(s)
        && (1 <= |s| ==> r.comparisons < 2 * |s| && r.swaps <= |s| - 1)
  {
    if StrictWeakOrder(less) {
      HeapifyIsLinearAndCorrect(less, s);
    }
  }

  method Push<T(!new)>(h: Heap<T>, x: T)
    modifies h
    ensures var r := Pushed(h.less, old(h.items), x);
      && h.items == r.items
      && h.comparisons == old(h.comparisons) + r.comparisons
      && h.swaps == old(h.swaps) + r.swaps
    ensures StrictWeakOrder(h.less) && IsHeap(h.less, old(h.items), |old(h.items)|) ==>
      && IsHeap(h.less, h.items, |h.items|)
      && multiset(h.items) == multiset(old(h.items)) + multiset{x}
      && h.comparisons - old(h.comparisons) <= Log2(|h.items|)
  {
    h.Append(x);
    SiftUp(h, |h.items| - 1);
    if StrictWeakOrder(h.less) && IsHeap(h.less, old(h.items), |old(h.items)|) {
      PushRepairs(h.less, old(h.items), x);
    }
  }

  method Pop<T(!new)>(h: Heap<T>) returns (x: T)
    requires 0 < |h.items|
    modifies h
    ensures h.items == Popped(h.less, old(h.items))
    ensures x == Popping(h.less, old(h.items)).items[|old(h.items)| - 1]
    ensures h.comparisons == old(h.comparisons) + Popping(h.less, old(h.items)).comparisons
    ensures h.swaps == old(h.swaps) + 1 + Popping(h.less, old(h.items)).swaps
    ensures StrictWeakOrder(h.less) && IsHeap(h.less, old(h.items), |old(h.items)|) ==>
      && IsHeap(h.less, h.items, |h.items|)
      && multiset(h.items) == multiset(old(h.items)) - multiset{x}
      && x in old(h.items) && (forall y :: y in old(h.items) ==> !h.less(y, x))
      && h.comparisons - old(h.comparisons) <= 2 * Log2(|h.items|)
  {
    var n := |h.items| - 1;
    h.Swap(0, n);
    var _ := SiftDown(h, 0, n);
    x := h.DropLast();
    if StrictWeakOrder(h.less) && IsHeap(h.less, old(h.items), |old(h.items)|) {
      PopRepairs(h.less, old(h.items));
    }
  }

  lemma RemoveMeans<T(!new)>(less: (T, T) -> bool, s: seq<T>, i: nat)
    requires i < |s|
    ensures StrictWeakOrder(less) && IsHeap(less, s, |s|) ==>
      && IsHeap(less, Removed(less, s, i), |Removed(less, s, i)|)
      && Removing(less, s, i).items[|s| - 1] == s[i]
      && multiset(Removed(less, s, i)) == multiset(s) - multiset{s[i]}
      && Removing(less, s, i).comparisons <= 2 * Log2(|s| - 1)
  {
    if StrictWeakOrder(less) && IsHeap(less, s, |s|) {
      RemoveRepairs(less, s, i);
    }
  }

  method Remove<T(!new)>(h: Heap<T>, i: nat) returns (x: T)
    requires i < |h.items|
    modifies h
    ensures h.items == Removed(h.less, old(h.items), i)
    ensures x == Removing(h.less, old(h.items), i).items[|old(h.items)| - 1]
    ensures h.comparisons == old(h.comparisons) + Removing(h.less, old(h.items), i).comparisons
    ensures h.swaps == old(h.swaps) + Removing(h.less, old(h.items), i).swaps + (if i < |h.items| then 1 else 0)
    ensures StrictWeakOrder(h.less) && IsHeap(h.less, old(h.items), |old(h.items)|) ==>
      && IsHeap(h.less, h.items, |h.items|)
      && x == old(h.items)[i]
      && multiset(h.items) == multiset(old(h.items)) - multiset{x}
      && h.comparisons - old(h.comparisons) <= 2 * Log2(|h.items|)
  {
    BringToEnd(h, i);
    x := h.DropLast();
    RemoveMeans(h.less, old(h.items), i);
  }

  /** The part of Remove that brings item i to the end and repairs what is before it. */
  method BringToEnd<T>(h: Heap<T>, i: nat)
    requires i < |h.items|
    modifies h
    ensures var r := Removing(h.less, old(h.items), i);
      && h.items == r.items && h.comparisons == old(h.comparisons) + r.comparisons
      && h.swaps == old(h.swaps) + r.swaps + (if i != |h.items| - 1 then 1 else 0)
  {
    var n := |h.items| - 1;
    if n != i {
      h.Swap(i, n);
      var moved := SiftDown(h, i, n);
      if !moved {
        SiftUp(h, i);
      }
    }
  }

  /** If there was a heap before the client changed item i, then there is one again, of the changed items. */
  method Fix<T(!new)>(h: Heap<T>, i: nat, ghost before: T)
    requires i < |h.items|
    modifies h
    ensures var r := Fixed(h.less, old(h.items), i);
      && h.items == r.items
      && h.comparisons == old(h.comparisons) + r.comparisons
      && h.swaps == old(h.swaps) + r.swaps
    ensures StrictWeakOrder(h.less) && IsHeap(h.less, old(h.items)[i := before], |old(h.items)|) ==>
      && IsHeap(h.less, h.items, |h.items|)
      && multiset(h.items) == multiset(old(h.items))
      && h.comparisons - old(h.comparisons) <= 2 * Log2(|h.items|)
  {
    FixMeans(h.less, h.items, i, before);
    var moved := SiftDown(h, i, |h.items|);
    if !moved {
      SiftUp(h, i);
    }
  }

  lemma FixMeans<T(!new)>(less: (T, T) -> bool, s: seq<T>, i: nat, before: T)
    requires i < |s|
    ensures var r := Fixed(less, s, i);
      StrictWeakOrder(less) && IsHeap(less, s[i := before], |s|) ==>
        && IsHeap(less, r.items, |s|) && multiset(r.items) == multiset(s) && r.comparisons <= 2 * Log2(|s|)
  {
    var t := s[i := before];
    assert t[i := s[i]] == s;
    if StrictWeakOrder(less) && IsHeap(less, t, |s|) {
      FixRepairs(less, t, i, s[i]);
      assert multiset(t) == multiset(s) - multiset{s[i]} + multiset{before};
    }
  }

  method SiftUp<T>(h: Heap<T>, j0: nat)
    requires j0 < |h.items|
    modifies h
    ensures var r := Up(h.less, old(h.items), j0);
      && h.items == r.items
      && h.comparisons == old(h.comparisons) + r.comparisons
      && h.swaps == old(h.swaps) + r.swaps
  {
    var j: nat := j0;
    while true
      invariant j < |h.items|
      invariant var r := Up(h.less, old(h.items), j0);
        var rest := Up(h.less, h.items, j);
        && rest.items == r.items
        && h.comparisons + rest.comparisons == old(h.comparisons) + r.comparisons
        && h.swaps + rest.swaps == old(h.swaps) + r.swaps
      decreases j
    {
      var i := Parent(j);
      if i == j {
        break;
      }
      var smaller := h.Less(j, i);
      if !smaller {
        break;
      }
      h.Swap(i, j);
      j := i;
    }
  }

  method SiftDown<T>(h: Heap<T>, i0: nat, n: nat) returns (moved: bool)
    requires n <= |h.items|
    modifies h
    ensures var r := Down(h.less, old(h.items), i0, n);
      && h.items == r.items
      && h.comparisons == old(h.comparisons) + r.comparisons
      && h.swaps == old(h.swaps) + r.swaps
      && moved == (r.at > i0)
  {
    ghost var goal := Down(h.less, h.items, i0, n);
    ghost var c0, s0 := h.comparisons, h.swaps;
    var i := i0;
    while true
      invariant i0 <= i && n <= |h.items|
      invariant var rest := Down(h.less, h.items, i, n);
        && rest.items == goal.items && rest.at == goal.at
        && h.comparisons + rest.comparisons == c0 + goal.comparisons
        && h.swaps + rest.swaps == s0 + goal.swaps
      decreases if i < n then n - i else 0
    {
      var j1 := 2 * i + 1;
      if j1 >= n {
        break;
      }
      ghost var now := h.items;
      var j := LesserChild(h, i, n);
      var smaller := h.Less(j, i);
      if !smaller {
        break;
      }
      h.Swap(i, j);
      assert h.items == Swapped(now, i, j);
      i := j;
    }
    moved := i > i0;
  }

  /** The lesser child of i, the left one if neither is less. */
  method LesserChild<T>(h: Heap<T>, i: nat, n: nat) returns (j: nat)
    requires 2 * i + 1 < n <= |h.items|
    modifies h
    ensures h.items == old(h.items) && h.swaps == old(h.swaps)
    ensures j == SmallerChild(h.less, h.items, i, n)
    ensures h.comparisons == old(h.comparisons) + if 2 * i + 2 < n then 1 else 0
  {
    var j1 := 2 * i + 1;
    j := j1;
    var j2 := j1 + 1;
    if j2 < n {
      var right := h.Less(j2, j1);
      if right {
        j := j2;
      }
    }
  }
}
