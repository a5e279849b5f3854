/** Circular doubly linked lists without a beginning or an end. */
module Rings {

  // ---------- Circles ----------

  /** Position i of a circle of n, going around once. */
  function Around(i: nat, n: nat): nat
    requires i <= n && 0 < n
  {
    if i < n then i else 0
  }

  ghost predicate Distinct<T>(c: seq<T>) {
    forall i, j :: 0 <= i < j < |c| ==> c[i] != c[j]
  }

  ghost predicate Disjoint<T>(c: seq<T>, d: seq<T>) {
    forall i, j :: 0 <= i < |c| && 0 <= j < |d| ==> c[i] != d[j]
  }

  ghost predicate Adjacent<T>(a: Ring<T>, b: Ring<T>)
    reads a, b
  {
    a.next == b && b.prev == a
  }

  /** Starting from c[0] and following `next`, the ring is c; `prev` leads back the same way. */
  ghost predicate Circle<T>(c: seq<Ring<T>>)
    reads c
  {
    c != [] && Distinct(c) && forall i :: 0 <= i < |c| ==> LinkedAt(c, i)
  }

  ghost predicate LinkedAt<T>(c: seq<Ring<T>>, i: nat)
    requires i < |c|
    reads c
  {
    Adjacent(c[i], c[Around(i + 1, |c|)])
  }

  /** A circle, or the zero value, which stands for a circle of one. */
  ghost predicate RingOf<T>(c: seq<Ring<T>>)
    reads c
  {
    Circle(c) || (|c| == 1 && c[0].next == null)
  }

  lemma {:induction false} LeadsBack<T>(c: seq<Ring<T>>, d: seq<Ring<T>>, i: nat, j: nat)
    requires RingOf(c) && RingOf(d) && i < |c| && j < |d| && c[i] == d[j]
    ensures d[0] in c
    decreases j
  {
    if j != 0 {
      var h := if i == 0 then |c| - 1 else i - 1;
      assert LinkedAt(d, j - 1) && LinkedAt(d, j);
      assert Circle(c) ==> LinkedAt(c, h);
      LeadsBack(c, d, h, j - 1);
    }
  }

  lemma ElsewhereIsDisjoint<T>(c: seq<Ring<T>>, d: seq<Ring<T>>)
    requires RingOf(c) && RingOf(d) && d[0] !in c
    ensures Disjoint(c, d)
  {
    forall i, j | 0 <= i < |c| && 0 <= j < |d|
      ensures c[i] != d[j]
    {
      if c[i] == d[j] {
        LeadsBack(c, d, i, j);
      }
    }
  }

  lemma {:induction false} SameWay<T>(c: seq<Ring<T>>, d: seq<Ring<T>>, i: nat, m: nat)
    requires Circle(c) && Circle(d) && i < |c| && d[0] == c[i] && m < |d| && m <= |c|
    ensures d[m] == if i + m < |c| then c[i + m] else c[i + m - |c|]
  {
    if m != 0 {
      SameWay(c, d, i, m - 1);
      assert LinkedAt(d, m - 1);
      assert LinkedAt(c, if i + (m - 1) < |c| then i + (m - 1) else i + (m - 1) - |c|);
    }
  }

  /** Two rings are one and the same, seen from different elements, or they share no element. */
  lemma SameOrDisjoint<T>(c: seq<Ring<T>>, d: seq<Ring<T>>)
    requires Circle(c) && Circle(d)
    ensures Disjoint(c, d) || exists i :: 0 <= i < |c| && d == c[i..] + c[..i]
  {
    if d[0] !in c {
      ElsewhereIsDisjoint(c, d);
    } else {
      var i :| 0 <= i < |c| && c[i] == d[0];
      SameLength(c, d, i);
      forall m | 0 <= m < |d|
        ensures d[m] == (c[i..] + c[..i])[m]
      {
        SameWay(c, d, i, m);
      }
      assert d == c[i..] + c[..i];
    }
  }

  lemma SameLength<T>(c: seq<Ring<T>>, d: seq<Ring<T>>, i: nat)
    requires Circle(c) && Circle(d) && i < |c| && d[0] == c[i]
    ensures |c| == |d|
  {
    if |c| < |d| {
      SameWay(c, d, i, |c|);
    } else if |d| < |c| {
      OnePast(c, d, i);
    }
  }

  lemma OnePast<T>(c: seq<Ring<T>>, d: seq<Ring<T>>, i: nat)
    requires Circle(c) && Circle(d) && i < |c| && d[0] == c[i] && |d| <= |c|
    ensures c[if i + |d| < |c| then i + |d| else i + |d| - |c|] == d[0]
  {
    SameWay(c, d, i, |d| - 1);
    assert LinkedAt(d, |d| - 1);
    assert LinkedAt(c, if i + |d| - 1 < |c| then i + |d| - 1 else i + |d| - 1 - |c|);
  }

  // ---------- Linking ----------

  /** The ring after Link with an element of another ring d. */
  function Merged<R>(c: seq<R>, d: seq<R>): seq<R>
    requires c != []
  {
    [c[0]] + d + c[1..]
  }

  /** The ring after Link with the element k steps on, and the ring of those in between. */
  function Kept<R>(c: seq<R>, k: nat): seq<R>
    requires 1 <= k <= |c|
  {
    [c[0]] + c[k..]
  }

  function Gone<R>(c: seq<R>, k: nat): seq<R>
    requires 1 <= k <= |c|
  {
    c[1..k]
  }

  /** Steps from c[0] on to s, at least one and at most once around. */
  ghost function StepsTo<R>(c: seq<R>, s: R): (k: nat)
    requires s in c
    ensures 1 <= k <= |c| && c[Around(k, |c|)] == s
  {
    if c[0] == s then |c| else var k :| 0 < k < |c| && c[k] == s; k
  }

  lemma StepsAre<R>(c: seq<R>, s: R, k: nat)
    requires Distinct(c) && 1 <= k <= |c| && c[Around(k, |c|)] == s
    ensures s in c && StepsTo(c, s) == k
  {
  }

  /** A ring taken in can be taken out again, and a piece taken out can be put back. */
  lemma MergeAndCut<R>(c: seq<R>, d: seq<R>, k: nat)
    requires 1 <= k <= |c|
    ensures Kept(Merged(c, d), |d| + 1) == c && Gone(Merged(c, d), |d| + 1) == d
    ensures Merged(Kept(c, k), Gone(c, k)) == c
  {
  }

  /** The ring of c[0] after Link with s, where d is the ring of s if that is another one. */
  ghost function RingAfterLink<R>(c: seq<R>, d: seq<R>, s: R): seq<R>
    requires c != []
  {
    if s in c then Kept(c, StepsTo(c, s)) else Merged(c, d)
  }

  /** The elements that are no longer in it. */
  ghost function RestAfterLink<R>(c: seq<R>, d: seq<R>, s: R): seq<R>
    requires c != []
  {
    if s in c then Gone(c, StepsTo(c, s)) else []
  }

  /** Linking with the old next element gives both rings back. */
  lemma LinkUndoesLink<R>(c: seq<R>, d: seq<R>, s: R)
    requires c != [] && Distinct(c)
    requires if s in c then d == [] else d != [] && d[0] == s && Distinct(d) && Disjoint(c, d)
    ensures var c1, d1, n := RingAfterLink(c, d, s), RestAfterLink(c, d, s), c[Around(1, |c|)];
      && c1 != [] && c1[0] == c[0] && c1[Around(1, |c1|)] == s && Distinct(c1)
      && (n !in c1 ==> d1 != [] && d1[0] == n)
      && RingAfterLink(c1, d1, n) == c && RestAfterLink(c1, d1, n) == d
  {
    if s !in c {
      CutUndoesMerge(c, d);
    } else {
      MergeUndoesCut(c, StepsTo(c, s));
    }
  }

  lemma CutUndoesMerge<R>(c: seq<R>, d: seq<R>)
    requires c != [] && d != [] && Distinct(c) && Distinct(d) && Disjoint(c, d)
    ensures var c1, n := Merged(c, d), c[Around(1, |c|)];
      && Distinct(c1) && n in c1 && RingAfterLink(c1, [], n) == c && RestAfterLink(c1, [], n) == d
  {
    MergeAndCut(c, d, 1);
    StepsAre(Merged(c, d), c[Around(1, |c|)], |d| + 1);
  }

  lemma MergeUndoesCut<R>(c: seq<R>, k: nat)
    requires Distinct(c) && 1 <= k <= |c|
    ensures var c1, d1, n := Kept(c, k), Gone(c, k), c[Around(1, |c|)];
      && Distinct(c1) && c1[Around(1, |c1|)] == c[Around(k, |c|)]
      && (n !in c1 ==> d1 != [] && d1[0] == n)
      && RingAfterLink(c1, d1, n) == c && RestAfterLink(c1, d1, n) == []
  {
    MergeAndCut(c, [], k);
    var n := c[Around(1, |c|)];
    if k == 1 {
      StepsAre(c, n, 1);
    } else {
      assert n == Gone(c, k)[0] && n !in Kept(c, k);
    }
  }

  lemma LinkAddsNone<R>(c: seq<R>, d: seq<R>, s: R)
    requires c != []
    ensures var c1, d1 := RingAfterLink(c, d, s), RestAfterLink(c, d, s);
      && (forall i :: 0 <= i < |c1| ==> c1[i] in c || c1[i] in d)
      && (forall i :: 0 <= i < |d1| ==> d1[i] in c || d1[i] in d)
  {
  }

  /** Whatever Link did: the elements of both rings are there, each once, and nothing else. */
  lemma LinkConserves<R>(c: seq<R>, d: seq<R>, k: nat)
    requires 1 <= k <= |c|
    ensures multiset(Merged(c, d)) == multiset(c) + multiset(d)
    ensures multiset(Kept(c, k)) + multiset(Gone(c, k)) == multiset(c)
  {
    assert c == [c[0]] + c[1..];
    assert c == [c[0]] + c[1..k] + c[k..];
  }

  /** The same ring, from the element k steps on. */
  function Turned<R>(c: seq<R>, k: nat): seq<R>
    requires k <= |c|
  {
    c[k..] + c[..k]
  }

  lemma TurnedIsCircle<T>(c: seq<Ring<T>>, k: nat)
    requires Circle(c) && k <= |c|
    ensures Circle(Turned(c, k)) && Turned(c, k)[0] == c[Around(k, |c|)]
    ensures 1 <= k ==> Turned(c, k)[|c| - 1] == c[k - 1]
  {
    var d := Turned(c, k);
    forall i | 0 <= i < |d|
      ensures LinkedAt(d, i)
    {
      assert LinkedAt(c, if i + k < |c| then i + k else i + k - |c|);
    }
  }

  /**
   * Within one ring, Link makes neighbours of c[0] and the element k steps on, and of the two ends of what is in
   * between.
   */
  ghost predicate CutAt<T>(c: seq<Ring<T>>, k: nat)
    requires 1 <= k <= |c|
    reads c
  {
    && Adjacent(c[0], c[Around(k, |c|)]) && Adjacent(c[k - 1], c[Around(1, |c|)])
    && forall i :: 0 < i < |c| && i != k - 1 ==> LinkedAt(c, i)
  }

  lemma CutMakesCircles<T>(c: seq<Ring<T>>, k: nat)
    requires Distinct(c) && 1 <= k <= |c| && CutAt(c, k)
    ensures Circle(Kept(c, k)) && (1 < k ==> Circle(Gone(c, k)))
  {
    forall i | 0 <= i < |Kept(c, k)|
      ensures LinkedAt(Kept(c, k), i)
    {
      KeptAt(c, k, i);
      assert 0 < i ==> LinkedAt(c, i + k - 1);
    }
    forall i | 0 <= i < |Gone(c, k)|
      ensures LinkedAt(Gone(c, k), i)
    {
      GoneAt(c, k, i);
      assert i + 1 < k - 1 ==> LinkedAt(c, i + 1);
    }
  }

  lemma KeptAt<R>(c: seq<R>, k: nat, i: nat)
    requires 1 <= k <= |c| && i < |Kept(c, k)|
    ensures Kept(c, k)[i] == if i == 0 then c[0] else c[i + k - 1]
    ensures Kept(c, k)[Around(i + 1, |Kept(c, k)|)] == c[Around(i + k, |c|)]
  {
  }

  lemma GoneAt<R>(c: seq<R>, k: nat, i: nat)
    requires 1 <= k <= |c| && i < |Gone(c, k)|
    ensures Gone(c, k)[i] == c[i + 1]
    ensures Gone(c, k)[Around(i + 1, |Gone(c, k)|)] == if i + 1 < k - 1 then c[i + 2] else c[1]
  {
  }

  /** Of two rings, it makes neighbours of c[0] and d[0], and of the last of d and the next of c. */
  ghost predicate JoinedTo<T>(c: seq<Ring<T>>, d: seq<Ring<T>>)
    requires c != [] && d != []
    reads c, d
  {
    && Adjacent(c[0], d[0]) && Adjacent(d[|d| - 1], c[Around(1, |c|)])
    && (forall i :: 0 < i < |c| ==> LinkedAt(c, i))
    && (forall i :: 0 <= i < |d| - 1 ==> LinkedAt(d, i))
  }

  lemma JoiningMakesCircle<T>(c: seq<Ring<T>>, d: seq<Ring<T>>)
    requires c != [] && d != [] && Distinct(c) && Distinct(d) && Disjoint(c, d) && JoinedTo(c, d)
    ensures Circle(Merged(c, d))
  {
    forall i | 0 <= i < |Merged(c, d)|
      ensures LinkedAt(Merged(c, d), i)
    {
      MergedAt(c, d, i);
      assert 1 <= i < |d| ==> LinkedAt(d, i - 1);
      assert |d| < i ==> LinkedAt(c, i - |d|);
    }
  }

  lemma MergedAt<R>(c: seq<R>, d: seq<R>, i: nat)
    requires c != [] && d != [] && i < |Merged(c, d)|
    ensures Merged(c, d)[i] == if i == 0 then c[0] else if i <= |d| then d[i - 1] else c[i - |d|]
    ensures Merged(c, d)[Around(i + 1, |Merged(c, d)|)] == if i < |d| then d[i] else c[Around(i + 1 - |d|, |c|)]
  {
  }

  class Ring<T> {
    var next: Ring?<T>
    var prev: Ring?<T>
    var Value: T

    /** The zero value. */
    constructor (zero: T)
      ensures next == null && prev == null && Value == zero
    {
      next, prev, Value := null, null, zero;
    }

    method Init()
      modifies this`next, this`prev
      ensures next == this == prev
    {
      next, prev := this, this;
    }

    method Next(ghost c: seq<Ring<T>>) returns (n: Ring<T>)
      requires RingOf(c) && c[0] == this
      modifies this`next, this`prev
      ensures Circle(c) && n == c[Around(1, |c|)] && n == next
      ensures old(Circle(c)) ==> next == old(next) && prev == old(prev)
    {
      assert Circle(c) ==> LinkedAt(c, 0);
      if next == null {
        Init();
        assert LinkedAt(c, 0);
        return this;
      }
      return next;
    }

    method Prev(ghost c: seq<Ring<T>>) returns (p: Ring<T>)
      requires RingOf(c) && c[0] == this
      modifies this`next, this`prev
      ensures Circle(c) && p == c[|c| - 1] && p == prev
      ensures old(Circle(c)) ==> next == old(next) && prev == old(prev)
    {
      assert Circle(c) ==> LinkedAt(c, 0) && LinkedAt(c, |c| - 1);
      if next == null {
        Init();
        assert LinkedAt(c, 0);
        return this;
      }
      return prev;
    }

    /** Goes n elements forward, or -n backward. */
    method Move(n: int, ghost c: seq<Ring<T>>) returns (r: Ring<T>)
      requires RingOf(c) && c[0] == this
      modifies this`next, this`prev
      ensures Circle(c) && r == c[n % |c|]
      ensures old(Circle(c)) ==> next == old(next) && prev == old(prev)
    {
      assert Circle(c) ==> LinkedAt(c, 0);
      if next == null {
        Init();
        assert LinkedAt(c, 0);
        return this;
      }
      r := Walk(n, c);
    }

    method Walk(n: int, ghost c: seq<Ring<T>>) returns (r: Ring<T>)
      requires Circle(c) && c[0] == this
      ensures r == c[n % |c|]
    {
      r := this;
      var k := n;
      if n < 0 {
        while k < 0
          invariant n <= k <= 0 && r == c[(n - k) % |c|]
        {
          StepOn(n - k - 1, |c|);
          assert LinkedAt(c, (n - k - 1) % |c|);
          r := r.prev;
          k := k + 1;
        }
      } else if n > 0 {
        while k > 0
          invariant 0 <= k <= n && r == c[(n - k) % |c|]
        {
          StepOn(n - k, |c|);
          assert LinkedAt(c, (n - k) % |c|);
          r := r.next;
          k := k - 1;
        }
      }
    }

    /**
     * Makes s the next element. Within one ring that cuts out the elements in between, which form a ring of
     * their own; an s from another ring brings that ring along.
     */
    method Link(s: Ring?<T>, ghost c: seq<Ring<T>>, ghost d: seq<Ring<T>>) returns (n: Ring<T>)
      requires RingOf(c) && c[0] == this
      requires s != null && s !in c ==> RingOf(d) && d[0] == s
      modifies c`next, c`prev, d`next, d`prev
      ensures n == c[Around(1, |c|)]
      ensures s == null ==> Circle(c)
      ensures s != null ==> Circle(RingAfterLink<Ring<T>>(c, d, s))
      ensures s != null && RestAfterLink<Ring<T>>(c, d, s) != [] ==> Circle(RestAfterLink<Ring<T>>(c, d, s))
    {
      if s != null && s !in c {
        ElsewhereIsDisjoint(c, d);
      }
      n := Next(c);
      if s != null {
        Join(s, n, c, d);
      }
    }

    method Join(s: Ring<T>, n: Ring<T>, ghost c: seq<Ring<T>>, ghost d: seq<Ring<T>>)
      requires Circle(c) && c[0] == this && n == c[Around(1, |c|)]
      requires s !in c ==> RingOf(d) && d[0] == s && Disjoint(c, d)
      modifies c`next, c`prev, d`next, d`prev
      ensures Circle(RingAfterLink(c, d, s))
      ensures RestAfterLink(c, d, s) != [] ==> Circle(RestAfterLink(c, d, s))
    {
      ghost var k, e := 1, d;
      if s in c {
        k := StepsTo(c, s);
        e := Turned(c, k);
        TurnedIsCircle(c, k);
      }
      var p := s.Prev(e);
      label Before:
      Splice(s, p, n);
      if s in c {
        forall i | 0 < i < |c| && i != k - 1
          ensures LinkedAt(c, i)
        {
          assert old@Before(LinkedAt(c, i));
        }
        CutMakesCircles(c, k);
      } else {
        forall i | 0 < i < |c|
          ensures LinkedAt(c, i)
        {
          assert old@Before(LinkedAt(c, i));
        }
        forall i | 0 <= i < |d| - 1
          ensures LinkedAt(d, i)
        {
          assert old@Before(LinkedAt(d, i));
        }
        JoiningMakesCircle(c, d);
      }
    }

    method Splice(s: Ring<T>, p: Ring<T>, n: Ring<T>)
      requires p == this <==> s == n
      modifies this`next, p`next, s`prev, n`prev
      ensures Adjacent(this, s) && Adjacent(p, n)
    {
      next := s;
      s.prev := this;
      n.prev := p;
      p.next := n;
    }

    /** Takes the next n % Len elements out, in order; a negative n counts as 0. The result is the old next element. */
    method Unlink(n: int, ghost c: seq<Ring<T>>) returns (g: Ring?<T>)
      requires RingOf(c) && c[0] == this
      modifies c`next, c`prev
      ensures n <= 0 ==> g == null && RingOf(c) && (old(Circle(c)) ==> Circle(c))
      ensures n > 0 ==>
        var k := n % |c|;
        && g == c[Around(1, |c|)]
        && Circle(Kept(c, k + 1)) && (0 < k ==> Circle(Gone(c, k + 1)))
    {
      if n <= 0 {
        return null;
      }
      var s := Move(n + 1, c);
      StepOn(n, |c|);
      StepsAre(c, s, n % |c| + 1);
      g := Link(s, c, []);
    }
  }

  /** Whatever Link did, linking with its result undoes it, and returns the element it was given. */
  method LinkTwice<T>(r: Ring<T>, s: Ring<T>, ghost c: seq<Ring<T>>, ghost d: seq<Ring<T>>) returns (m: Ring<T>)
    requires Circle(c) && c[0] == r
    requires if s in c then d == [] else Circle(d) && d[0] == s
    modifies c`next, c`prev, d`next, d`prev
    ensures m == s && Circle(c)
    ensures s !in c ==> Circle(d)
  {
    if s !in c {
      ElsewhereIsDisjoint(c, d);
    }
    LinkUndoesLink(c, d, s);
    LinkAddsNone(c, d, s);
    var n := r.Link(s, c, d);
    m := r.Link(n, RingAfterLink(c, d, s), RestAfterLink(c, d, s));
  }

  /** A ring of n elements, or none. */
  method NewRing<T>(n: int, zero: T) returns (r: Ring?<T>, ghost c: seq<Ring<T>>)
    ensures n <= 0 ==> r == null
    ensures n > 0 ==> |c| == n && Circle(c) && c[0] == r
    ensures fresh(c) && forall i :: 0 <= i < |c| ==> c[i].Value == zero
  {
    if n <= 0 {
      return null, [];
    }
    var first := new Ring(zero);
    var p := first;
    c := [first];
    for i := 1 to n
      invariant |c| == i && c[0] == first && c[i - 1] == p && Distinct(c) && fresh(c)
      invariant forall j :: 0 <= j < i - 1 ==> Adjacent(c[j], c[Around(j + 1, i)])
      invariant forall j :: 0 <= j < i ==> c[j].Value == zero
    {
      var q := new Ring(zero);
      q.prev := p;
      p.next := q;
      p := q;
      c := c + [q];
    }
    p.next := first;
    first.prev := p;
    r := first;
    assert forall i :: 0 <= i < |c| ==> LinkedAt(c, i);
  }

  method Len<T>(r: Ring?<T>, ghost c: seq<Ring<T>>) returns (n: nat)
    requires r != null ==> RingOf(c) && c[0] == r
    modifies if r == null then {} else {r}
    ensures r == null ==> n == 0
    ensures r != null ==> n == |c| && Circle(c)
  {
    n := 0;
    if r != null {
      n := 1;
      var p := r.Next(c);
      while p != r
        invariant Circle(c) && 1 <= n <= |c| && p == c[Around(n, |c|)]
        decreases |c| - n
      {
        assert LinkedAt(c, n);
        n := n + 1;
        p := p.next;
      }
    }
  }

  /** Calls f, which appends to `seen`, on every value, in order. */
  method Do<T>(r: Ring?<T>, ghost c: seq<Ring<T>>) returns (seen: seq<T>)
    requires r != null ==> RingOf(c) && c[0] == r
    modifies if r == null then {} else {r}
    ensures r == null ==> seen == []
    ensures r != null ==> |seen| == |c| && Circle(c) && forall i :: 0 <= i < |c| ==>
      seen[i] == old(c[i].Value) == c[i].Value
  {
    seen := [];
    if r != null {
      seen := [r.Value];
      var p := r.Next(c);
      while p != r
        invariant Circle(c) && 1 <= |seen| <= |c| && p == c[Around(|seen|, |c|)]
        invariant forall i :: 0 <= i < |seen| ==> seen[i] == c[i].Value
        decreases |c| - |seen|
      {
        assert LinkedAt(c, |seen|);
        seen := seen + [p.Value];
        p := p.next;
      }
    }
  }

  lemma StepOn(i: int, n: nat)
    requires 0 < n
    ensures (i + 1) % n == Around(i % n + 1, n)
  {
    var q, m := i / n, i % n;
    if m + 1 < n {
      ModIs(i + 1, q, m + 1, n);
    } else {
      assert i + 1 == (q + 1) * n + 0;
      ModIs(i + 1, q + 1, 0, n);
    }
  }

  lemma ModIs(i: int, q: int, m: nat, n: nat)
    requires i == q * n + m && m < n
    ensures i % n == m
  {
    var q1, m1 := i / n, i % n;
    var z := q - q1;
    assert z * n == m1 - m;
    if z != 0 {
      TimesAtLeast(z, n);
    }
  }

  lemma TimesAtLeast(z: int, n: nat)
    ensures z >= 1 ==> z * n >= n
    ensures z <= -1 ==> z * n + n <= 0
  {
    assert z >= 1 ==> (z - 1) * n >= 0;
    assert z <= -1 ==> (z + 1) * n <= 0;
  }
}
