/** Doubly linked lists, kept as a ring through a sentinel. */
module Lists {
  import Rings
  import opened Streams

  // ---------- Edits of sequences ----------

  function InsertedAt<E>(s: seq<E>, i: nat, x: E): seq<E>
    requires i <= |s|
  {
    s[..i] + [x] + s[i..]
  }

  function RemovedAt<E>(s: seq<E>, i: nat): seq<E>
    requires i < |s|
  {
    s[..i] + s[i + 1..]
  }

  /** The element at position i taken out, and put back to end up at position j. */
  function MovedTo<E>(s: seq<E>, i: nat, j: nat): seq<E>
    requires i < |s| && j < |s|
  {
    InsertedAt(RemovedAt(s, i), j, s[i])
  }

  lemma RemoveUndoesInsert<E>(s: seq<E>, i: nat, x: E)
    requires i <= |s|
    ensures RemovedAt(InsertedAt(s, i, x), i) == s
    ensures multiset(InsertedAt(s, i, x)) == multiset(s) + multiset{x}
  {
    assert s == s[..i] + s[i..];
  }

  lemma InsertUndoesRemove<E>(s: seq<E>, i: nat)
    requires i < |s|
    ensures InsertedAt(RemovedAt(s, i), i, s[i]) == s
    ensures multiset(RemovedAt(s, i)) + multiset{s[i]} == multiset(s)
  {
    assert s == s[..i] + [s[i]] + s[i + 1..];
  }

  lemma InsertedAtEnd<E>(s: seq<E>, x: E)
    ensures InsertedAt(s, |s|, x) == s + [x]
  {
  }

  /** A move puts one element where it should be, leaves the others in their order, and can be undone. */
  lemma MoveIsOneEdit<E>(s: seq<E>, i: nat, j: nat)
    requires i < |s| && j < |s|
    ensures |MovedTo(s, i, j)| == |s| && MovedTo(s, i, j)[j] == s[i]
    ensures RemovedAt(MovedTo(s, i, j), j) == RemovedAt(s, i)
    ensures MovedTo(MovedTo(s, i, j), j, i) == s
    ensures multiset(MovedTo(s, i, j)) == multiset(s)
  {
    InsertUndoesRemove(s, i);
    RemoveUndoesInsert(RemovedAt(s, i), j, s[i]);
  }

  lemma ReplacedAt<E>(s: seq<E>, i: nat, j: nat, x: E)
    requires i < |s| && j < |s|
    ensures var r := InsertedAt(RemovedAt(s, i), j, x);
      && |r| == |s|
      && forall k :: 0 <= k < |s| ==>
           r[k] == if k == j then x else var m := if k < j then k else k - 1; s[if m < i then m else m + 1]
  {
  }

  /** Where x is in s. */
  ghost function IndexIn<E>(s: seq<E>, x: E): (i: nat)
    requires x in s
    ensures i < |s| && s[i] == x
  {
    var i :| 0 <= i < |s| && s[i] == x;
    i
  }

  /** Where `mark` is once another element has been taken out. */
  ghost function IndexWithout<E>(s: seq<E>, x: E, mark: E): (j: nat)
    requires x in s && mark in s && x != mark
    ensures j < |s| - 1 && RemovedAt(s, IndexIn(s, x))[j] == mark
  {
    if IndexIn(s, mark) < IndexIn(s, x) then IndexIn(s, mark) else IndexIn(s, mark) - 1
  }

  lemma IndexIs<E>(s: seq<E>, i: nat)
    requires Rings.Distinct(s) && i < |s|
    ensures IndexIn(s, s[i]) == i
  {
  }

  // ---------- Rings through a sentinel ----------

  /** The sentinel, and then the elements. */
  function Node<T>(root: Element<T>, elems: seq<Element<T>>, i: nat): Element<T>
    requires i <= |elems|
  {
    if i == 0 then root else elems[i - 1]
  }

  ghost predicate LinkedAt<T>(root: Element<T>, elems: seq<Element<T>>, i: nat)
    requires i <= |elems|
    reads root, elems
  {
    var a, b := Node(root, elems, i), Node(root, elems, Rings.Around(i + 1, |elems| + 1));
    a.next == b && b.prev == a
  }

  ghost predicate Linked<T>(root: Element<T>, elems: seq<Element<T>>)
    reads root, elems
  {
    root !in elems && Rings.Distinct(elems) && forall i :: 0 <= i <= |elems| ==> LinkedAt(root, elems, i)
  }

  /** e is hooked in after node i of a ring. */
  ghost predicate Hooked<T>(root: Element<T>, elems: seq<Element<T>>, i: nat, e: Element<T>)
    requires i <= |elems|
    reads root, elems, e
  {
    && e.prev == Node(root, elems, i) && e.next == Node(root, elems, Rings.Around(i + 1, |elems| + 1))
    && e.prev.next == e && e.next.prev == e
    && forall j :: 0 <= j <= |elems| && j != i ==> LinkedAt(root, elems, j)
  }

  lemma HookedIsInserted<T>(root: Element<T>, elems: seq<Element<T>>, i: nat, e: Element<T>)
    requires root !in elems && Rings.Distinct(elems) && i <= |elems| && e !in elems && e != root &&
      Hooked(root, elems, i, e)
    ensures Linked(root, InsertedAt(elems, i, e))
  {
    var after := InsertedAt(elems, i, e);
    forall j | 0 <= j <= |after|
      ensures LinkedAt(root, after, j)
    {
      var k := if j <= i then j else j - 1;
      var h := if j == |after| then 0 else if j + 1 <= i then j + 1 else j;
      assert j != i + 1 ==> Node(root, after, j) == Node(root, elems, k);
      assert j != i ==> Node(root, after, Rings.Around(j + 1, |after| + 1)) == Node(root, elems, h);
      assert k != i ==> LinkedAt(root, elems, k);
    }
  }

  /** Element i of a ring is bypassed. */
  ghost predicate Unhooked<T>(root: Element<T>, elems: seq<Element<T>>, i: nat)
    requires i < |elems|
    reads root, elems
  {
    var a, b := Node(root, elems, i), Node(root, elems, Rings.Around(i + 2, |elems| + 1));
    && a.next == b && b.prev == a
    && forall j :: 0 <= j <= |elems| && j != i && j != i + 1 ==> LinkedAt(root, elems, j)
  }

  lemma UnhookedIsRemoved<T>(root: Element<T>, elems: seq<Element<T>>, i: nat)
    requires root !in elems && Rings.Distinct(elems) && i < |elems| && Unhooked(root, elems, i)
    ensures Linked(root, RemovedAt(elems, i))
  {
    var after := RemovedAt(elems, i);
    forall j | 0 <= j <= |after|
      ensures LinkedAt(root, after, j)
    {
      var k := if j <= i then j else j + 1;
      var h := if j == |after| then 0 else if j + 1 <= i then j + 1 else j + 2;
      assert Node(root, after, j) == Node(root, elems, k);
      assert Node(root, after, Rings.Around(j + 1, |after| + 1)) == Node(root, elems, h);
      assert k != i ==> LinkedAt(root, elems, k);
    }
  }

  ghost predicate InRing<T>(root: Element<T>, elems: seq<Element<T>>, x: Element?<T>) {
    x == root || x in elems
  }

  /** Nothing changes in the ring when the neighbours of e, which is not in it, are made to bypass e. */
  ghost predicate UnhooksNothing<T>(root: Element<T>, elems: seq<Element<T>>, e: Element<T>)
    requires e.prev != null && e.next != null
    reads e, e.prev, e.next
  {
    InRing(root, elems, e.prev) || InRing(root, elems, e.next) ==> e.prev.next == e.next && e.next.prev == e.prev
  }

  /** e points to the neighbours of x, as x itself does. */
  ghost predicate Beside<T>(e: Element<T>, x: Element<T>)
    reads e, x
  {
    e.prev == x.prev && e.next == x.next
  }

  /** In a ring, only element i has its neighbours. */
  lemma OnlyTwin<T>(root: Element<T>, elems: seq<Element<T>>, i: nat, k: nat)
    requires Linked(root, elems) && i < |elems| && k < |elems| && Beside(elems[i], elems[k])
    ensures i == k
  {
    assert LinkedAt(root, elems, i) && LinkedAt(root, elems, k);
  }

  /** Without the twin of e, and so without e itself. */
  lemma WithoutTwin<T>(root: Element<T>, elems: seq<Element<T>>, i: nat, e: Element<T>)
    requires Linked(root, elems) && i < |elems| && Beside(e, elems[i])
    ensures e !in RemovedAt(elems, i)
    ensures forall j :: 0 <= j <= |elems| && j != i + 1 ==>
      Following(j, i) < |elems| && Node(root, RemovedAt(elems, i), Following(j, i)) == Node(root, elems, j)
  {
    if e in elems {
      OnlyTwin(root, elems, IndexIn(elems, e), i);
    }
  }

  /** e has been hooked in between `at` and what followed it. */
  ghost predicate Between<T>(e: Element<T>, at: Element<T>, next: Element<T>)
    reads e, at, next
  {
    at.next == e && e.next == next && next.prev == e && (next != e ==> e.prev == at)
  }

  ghost predicate AllNaming<T>(l: List<T>, elems: seq<Element<T>>)
    reads elems
  {
    forall i :: 0 <= i < |elems| ==> elems[i].list == l
  }

  lemma MovedAreNaming<T>(l: List<T>, elems: seq<Element<T>>, i: nat, j: nat, e: Element<T>)
    requires AllNaming(l, elems) && i < |elems| && j < |elems| && e.list == l
    ensures |InsertedAt(RemovedAt(elems, i), j, e)| == |elems|
    ensures AllNaming(l, InsertedAt(RemovedAt(elems, i), j, e))
  {
    ReplacedAt(elems, i, j, e);
  }

  /** In a ring, the neighbours of a node are nodes of the ring. */
  lemma NeighboursStay<T>(root: Element<T>, elems: seq<Element<T>>, x: Element<T>)
    ensures Linked(root, elems) && InRing(root, elems, x) ==>
      && x.prev != null && x.next != null && InRing(root, elems, x.prev) && InRing(root, elems, x.next)
      && (x in elems ==> x.prev != x)
  {
    if Linked(root, elems) && InRing(root, elems, x) {
      NodesAreLinked(root, elems, x);
      assert x in elems ==> LinkedAt(root, elems, IndexIn(elems, x));
    }
  }

  /** Where the node that follows node j ends up, if it is element i. */
  function Following(j: nat, i: nat): nat {
    if j <= i then j else j - 1
  }

  /** e moved after node j, if both are in the ring. */
  ghost function MovedAfter<E>(s: seq<E>, e: E, j: nat): seq<E> {
    if e in s && j <= |s| then MovedTo(s, IndexIn(s, e), Following(j, IndexIn(s, e))) else s
  }

  lemma NodesAreLinked<T>(root: Element<T>, elems: seq<Element<T>>, e: Element<T>)
    requires Linked(root, elems) || (root.next == null && elems == [])
    ensures Linked(root, elems) ==> root.next != null
    ensures e in elems || (e == root && root.next != null) ==>
      && e.next != null && (e.next == root || e.next in elems)
      && e.prev != null && (e.prev == root || e.prev in elems)
  {
    assert Linked(root, elems) ==> LinkedAt(root, elems, 0);
    if e in elems {
      var i := IndexIn(elems, e);
      assert LinkedAt(root, elems, i) && LinkedAt(root, elems, i + 1);
    } else if e == root && root.next != null {
      assert LinkedAt(root, elems, 0) && LinkedAt(root, elems, |elems|);
    }
  }

  lemma LastInRing<T>(root: Element<T>, elems: seq<Element<T>>)
    requires Linked(root, elems)
    ensures root.prev == Node(root, elems, |elems|)
  {
    assert LinkedAt(root, elems, |elems|);
  }

  lemma PrecedingInRing<T>(root: Element<T>, elems: seq<Element<T>>, mark: Element<T>)
    requires Linked(root, elems) && mark in elems
    ensures mark.prev == Node(root, elems, IndexIn(elems, mark)) && mark.prev.next == mark
    ensures mark.prev != root ==> IndexIn(elems, mark) == IndexIn(elems, mark.prev) + 1
  {
    assert LinkedAt(root, elems, IndexIn(elems, mark));
    if mark.prev != root {
      IndexIs(elems, IndexIn(elems, mark) - 1);
    }
  }

  class Element<T> {
    var next: Element?<T>
    var prev: Element?<T>
    var list: List?<T>
    var Value: T

    constructor (value: T)
      ensures next == null && prev == null && list == null && Value == value
    {
      next, prev, list, Value := null, null, null, value;
    }

    /**
     * The next element of the list; null for the last one, and if there is no list. An element that an Init
     * has left behind still walks along its old neighbours.
     */
    method Next() returns (r: Element?<T>)
      requires list != null && this in list.elems ==> list.Valid()
      ensures list == null ==> r == null
      ensures list != null && this in list.elems ==>
        var i := IndexIn(list.elems, this);
        r == if i + 1 < |list.elems| then list.elems[i + 1] else null
      ensures list != null && this !in list.elems ==> r == if next == list.root then null else next
    {
      if list != null && this in list.elems {
        assert LinkedAt(list.root, list.elems, IndexIn(list.elems, this) + 1);
      }
      var p := next;
      if list != null && p != list.root {
        return p;
      }
      return null;
    }

    method Prev() returns (r: Element?<T>)
      requires list != null && this in list.elems ==> list.Valid()
      ensures list == null ==> r == null
      ensures list != null && this in list.elems ==>
        var i := IndexIn(list.elems, this);
        r == if 0 < i then list.elems[i - 1] else null
      ensures list != null && this !in list.elems ==> r == if prev == list.root then null else prev
    {
      if list != null && this in list.elems {
        assert LinkedAt(list.root, list.elems, IndexIn(list.elems, this));
      }
      var p := prev;
      if list != null && p != list.root {
        return p;
      }
      return null;
    }
  }

  class List<T> {
    const root: Element<T>
    var len: int
    ghost var elems: seq<Element<T>>

    /** Built up by the sentinel's pointers, unless this is still the zero value. */
    ghost predicate Valid()
      reads this, root, elems
    {
      && len == |elems| && root.list == null
      && AllNaming(this, elems)
      && if root.next == null then elems == [] else Linked(root, elems)
    }

    /** The zero value. */
    constructor (zero: T)
      ensures Valid() && elems == [] && fresh(root) && root.next == null
    {
      root := new Element(zero);
      len, elems := 0, [];
    }

    /**
     * An element that an Init has left behind: it names this list as its own, but is not in it. Operations on
     * such an element modify the list all the same. Where that is no edit of `elems`, `!Valid()` with the old
     * elements says that its pointers and `len` are no longer theirs.
     */
    ghost predicate Stray(e: Element<T>)
      reads this, e
    {
      e.list == this && e !in elems
    }

    /** The elements whose pointers an operation on a stray element may write; none for any other. */
    ghost function Near(e: Element<T>): set<Element<T>>
      reads this, e, e.prev
    {
      if !Stray(e) then {} else
        {e} + (if e.next == null then {} else {e.next}) + (if e.prev == null then {} else {e.prev}) +
        (if e.prev == null || e.prev.next == null then {} else {e.prev.next})
    }

    /** Where `at` is among the nodes of the ring; past all of them if it is not. */
    ghost function PlaceOf(at: Element<T>): nat
      reads this
    {
      if at == root then 0 else if at in elems then IndexIn(elems, at) + 1 else |elems| + 1
    }

    /** Empties the list; the elements it had still name it as theirs. */
    method Init()
      requires root.list == null
      modifies this`len, this`elems, root`next, root`prev
      ensures Valid() && root.next != null && elems == []
      ensures old(Valid()) ==> forall i :: 0 <= i < |old(elems)| ==> Stray(old(elems)[i])
    {
      root.next, root.prev, len, elems := root, root, 0, [];
      assert LinkedAt(root, elems, 0);
    }

    method LazyInit()
      requires Valid()
      modifies this`len, this`elems, root`next, root`prev
      ensures Valid() && root.next != null && elems == old(elems)
      ensures old(root.next) != null ==> root.next == old(root.next) && root.prev == old(root.prev)
    {
      if root.next == null {
        Init();
      }
    }

    /**
     * Hooks e in after `at`, which is node i if this is the ring of the sentinel and `nodes`. Elsewhere it leaves
     * that ring alone exactly if what follows `at` is not in it.
     */
    method Hook(e: Element<T>, at: Element<T>, ghost nodes: seq<Element<T>>, ghost i: nat)
      requires e != at && at.next != null && !InRing(root, nodes, e)
      modifies e`next, e`prev, at`next, at.next`prev
      ensures Between(e, at, old(at.next))
      ensures old(Linked(root, nodes)) && i <= |nodes| && at == Node(root, nodes, i) ==>
        Linked(root, InsertedAt(nodes, i, e)) && root.next != null
      ensures !InRing(root, nodes, at) ==>
        (Linked(root, nodes) <==> old(Linked(root, nodes) && !InRing(root, nodes, at.next)))
    {
      ghost var linked, next := Linked(root, nodes), at.next;
      ghost var inRing := linked && i <= |nodes| && at == Node(root, nodes, i);
      assert inRing ==> LinkedAt(root, nodes, i);
      e.prev := at;
      e.next := at.next;
      e.prev.next := e;
      e.next.prev := e;
      if inRing {
        forall j | 0 <= j <= |nodes| && j != i
          ensures LinkedAt(root, nodes, j)
        {
          assert old(LinkedAt(root, nodes, j));
        }
        HookedIsInserted(root, nodes, i, e);
        assert LinkedAt(root, InsertedAt(nodes, i, e), 0);
      }
      if !InRing(root, nodes, at) {
        NeighboursStay(root, nodes, next);
        forall j | 0 <= j <= |nodes| && !InRing(root, nodes, next)
          ensures LinkedAt(root, nodes, j) == old(LinkedAt(root, nodes, j))
        {
        }
      }
    }

    /**
     * Makes the neighbours of e bypass it. It is node i + 1 if this is the ring of the sentinel and `nodes`, or
     * at least has the neighbours of that node.
     */
    method Unhook(e: Element<T>, ghost nodes: seq<Element<T>>, ghost i: nat)
      requires e.next != null && e.prev != null
      modifies e.prev`next, e.next`prev
      ensures old(e.prev).next == old(e.next) && old(e.next).prev == old(e.prev)
      ensures old(Linked(root, nodes) && i < |nodes| && Beside(e, nodes[i])) ==>
        Linked(root, RemovedAt(nodes, i)) && root.next != null
      ensures old(Linked(root, nodes)) && !InRing(root, nodes, e) ==>
        (Linked(root, nodes) <==> old(UnhooksNothing(root, nodes, e)))
    {
      ghost var linked, p, q, harmless := Linked(root, nodes), e.prev, e.next, UnhooksNothing(root, nodes, e);
      ghost var inRing := linked && i < |nodes| && Beside(e, nodes[i]);
      assert inRing ==> LinkedAt(root, nodes, i) && LinkedAt(root, nodes, i + 1);
      e.prev.next := e.next;
      e.next.prev := e.prev;
      if inRing {
        forall j | 0 <= j <= |nodes| && j != i && j != i + 1
          ensures LinkedAt(root, nodes, j)
        {
          assert old(LinkedAt(root, nodes, j));
        }
        UnhookedIsRemoved(root, nodes, i);
        assert LinkedAt(root, RemovedAt(nodes, i), 0);
      }
      if linked && !InRing(root, nodes, e) {
        if harmless {
          forall j | 0 <= j <= |nodes|
            ensures LinkedAt(root, nodes, j)
          {
            assert old(LinkedAt(root, nodes, j));
          }
        } else if InRing(root, nodes, p) {
          ghost var j := if p == root then 0 else IndexIn(nodes, p) + 1;
          assert old(LinkedAt(root, nodes, j));
          assert Linked(root, nodes) ==> LinkedAt(root, nodes, j);
        } else {
          NeighboursStay(root, nodes, q);
        }
      }
    }

    /** Pointers that are written outside the ring of `nodes`, next to `at`, leave it alone exactly if `linked`. */
    ghost predicate StillLinked(nodes: seq<Element<T>>, at: Element<T>, linked: bool)
      reads root, nodes
    {
      !InRing(root, nodes, at) ==> (Linked(root, nodes) <==> linked)
    }

    method InsertElement(e: Element<T>, at: Element<T>, ghost i: nat)
      requires Valid() && e !in elems && e != root && e != at && at.next != null
      modifies this`len, this`elems, e`next, e`prev, e`list, at`next, at.next`prev
      ensures len == old(len) + 1 && e.list == this && Between(e, at, old(at.next))
      ensures if i <= |old(elems)| && at == Node(root, old(elems), i)
        then Valid() && root.next != null && elems == InsertedAt(old(elems), i, e)
        else elems == old(elems)
      ensures StillLinked(old(elems), at, old(Linked(root, elems) && !InRing(root, elems, at.next)))
    {
      ghost var inRing := i <= |elems| && at == Node(root, elems, i);
      e.list := this;
      len := len + 1;
      Hook(e, at, elems, i);
      if inRing {
        elems := InsertedAt(elems, i, e);
      }
    }

    method InsertValue(v: T, at: Element<T>, ghost i: nat) returns (e: Element<T>)
      requires Valid() && at.next != null
      modifies this`len, this`elems, at`next, at.next`prev
      ensures fresh(e) && e.Value == v && len == old(len) + 1 && e.list == this && Between(e, at, old(at.next))
      ensures if i <= |old(elems)| && at == Node(root, old(elems), i)
        then Valid() && root.next != null && elems == InsertedAt(old(elems), i, e)
        else elems == old(elems)
      ensures StillLinked(old(elems), at, old(Linked(root, elems) && !InRing(root, elems, at.next)))
    {
      e := new Element(v);
      InsertElement(e, at, i);
    }

    /** Clears what e points to, which does not matter to a ring that it is not in. */
    method Clear(e: Element<T>, ghost nodes: seq<Element<T>>)
      modifies e`next, e`prev, e`list
      ensures e.next == null && e.prev == null && e.list == null
      ensures !InRing(root, nodes, e) ==> (Linked(root, nodes) <==> old(Linked(root, nodes)))
    {
      e.next := null;
      e.prev := null;
      e.list := null;
    }

    /** Removes e, or the element that has its neighbours. */
    method RemoveElement(e: Element<T>, ghost i: nat)
      requires Valid() && e.next != null && e.prev != null && e.list == this
      modifies this`len, this`elems, e`next, e`prev, e`list, e.prev`next, e.next`prev
      ensures e.next == null && e.prev == null && e.list == null && len == old(len) - 1
      ensures old(Linked(root, elems)) ==> StillLinked(old(elems), e, old(UnhooksNothing(root, elems, e)))
      ensures if old(i < |elems| && Beside(e, elems[i]))
        then Valid() && root.next != null && elems == RemovedAt(old(elems), i)
        else elems == old(elems)
    {
      ghost var inRing := i < |elems| && Beside(e, elems[i]);
      if inRing && e in elems {
        OnlyTwin(root, elems, IndexIn(elems, e), i);
      }
      Unhook(e, elems, i);
      Clear(e, if inRing then RemovedAt(elems, i) else elems);
      len := len - 1;
      if inRing {
        elems := RemovedAt(elems, i);
      }
    }

    /**
     * Moves e after `at`; after itself it stays where it is. In the ring these are node j and element i, or
     * that which has the neighbours of e and gives up its place.
     */
    method MoveElement(e: Element<T>, at: Element<T>, ghost i: nat, ghost j: nat)
      requires Valid() && e.next != null && e.prev != null && at.next != null && e.list == this
      modifies this`elems, e`next, e`prev, e.prev`next, e.next`prev, at`next, at.next`prev
      ensures e != at ==> Between(e, at, old(if e.prev == at then e.next else at.next))
      ensures
        if old(e != at && i < |elems| && Beside(e, elems[i]) && j <= |elems| && at == Node(root, elems, j) &&
          j != i + 1)
        then Valid() && root.next != null && elems == InsertedAt(RemovedAt(old(elems), i), Following(j, i), e)
        else elems == old(elems)
      ensures e == at ==> Valid()
      ensures e != at && old(root.next != null && !InRing(root, elems, e) && !InRing(root, elems, at)) ==>
        (Valid() <==> old(LeavesAlone(e, at)))
    {
      ghost var inRing := i < |elems| && Beside(e, elems[i]) && j <= |elems| && at == Node(root, elems, j) &&
        j != i + 1;
      if e == at {
        return;
      }
      ghost var rest := elems;
      if i < |elems| && Beside(e, elems[i]) && (inRing || e in elems) {
        WithoutTwin(root, elems, i, e);
        rest := RemovedAt(elems, i);
      } else if e in elems {
        WithoutTwin(root, elems, IndexIn(elems, e), e);
        rest := RemovedAt(elems, IndexIn(elems, e));
      }
      Rehook(e, at, elems, i, rest, Following(j, i));
      if inRing {
        MovedAreNaming(this, elems, i, Following(j, i), e);
        elems := InsertedAt(RemovedAt(elems, i), Following(j, i), e);
      }
    }

    /** The pointer writes of MoveElement: first on the ring of `nodes`, and then on what is left of it. */
    method Rehook(e: Element<T>, at: Element<T>, ghost nodes: seq<Element<T>>, ghost i: nat,
                  ghost rest: seq<Element<T>>, ghost k: nat)
      requires e.next != null && e.prev != null && at.next != null && e != at && !InRing(root, rest, e)
      modifies e`next, e`prev, e.prev`next, e.next`prev, at`next, at.next`prev
      ensures Between(e, at, old(if e.prev == at then e.next else at.next))
      ensures old(root.next) != null ==> root.next != null
      ensures old(Linked(root, nodes) && i < |nodes| && Beside(e, nodes[i]) && rest == RemovedAt(nodes, i)) ==>
        k <= |rest| && at == Node(root, rest, k) ==> Linked(root, InsertedAt(rest, k, e)) && root.next != null
      ensures old(Linked(root, nodes)) && rest == nodes && !InRing(root, nodes, at) ==>
        (Linked(root, nodes) <==>
         old(UnhooksNothing(root, nodes, e) && !InRing(root, nodes, if e.prev == at then e.next else at.next)))
    {
      Unhook(e, nodes, i);
      Hook(e, at, rest, k);
    }

    /** The ring stays as it is when e is moved after `at`, and neither is in it. */
    ghost predicate LeavesAlone(e: Element<T>, at: Element<T>)
      requires e.prev != null && e.next != null
      reads this, e, e.prev, e.next, at
    {
      UnhooksNothing(root, elems, e) && !InRing(root, elems, if e.prev == at then e.next else at.next)
    }

    /** Which element of the ring has the neighbours of e: e itself if it is in the ring. None is past the end. */
    ghost function TwinOf(e: Element<T>): (i: nat)
      reads this, elems, e
      ensures i < |elems| ==> Beside(e, elems[i])
      ensures i >= |elems| ==> forall k :: 0 <= k < |elems| ==> !Beside(e, elems[k])
    {
      if k: nat :| k < |elems| && Beside(e, elems[k]) then k else |elems|
    }

    /** The list is a list of the elements ListAfter(e, at) when e has been moved after `at`. */
    ghost predicate StaysList(e: Element<T>, at: Element?<T>)
      reads this, elems, e, e.prev, e.next, at
    {
      e.prev != null && e.next != null && at != null &&
      (e != at ==>
         if InRing(root, elems, at) then TwinOf(e) < |elems| && at != elems[TwinOf(e)]
         else !InRing(root, elems, e) && LeavesAlone(e, at))
    }

    /** In a ring e takes its place after `at`, and in exchange it or its twin gives up its own. */
    ghost function ListAfter(e: Element<T>, at: Element?<T>): seq<Element<T>>
      reads this, elems, e
    {
      var i := TwinOf(e);
      if at == null || e == at || !InRing(root, elems, at) || i >= |elems| || at == elems[i] then elems
      else InsertedAt(RemovedAt(elems, i), Following(PlaceOf(at), i), e)
    }

    /** An element of the list that is moved after another, or after the sentinel, leaves a list. */
    lemma MemberMoves(e: Element<T>, at: Element<T>)
      requires Valid() && e in elems && InRing(root, elems, at)
      ensures root.next != null && StaysList(e, at)
      ensures ListAfter(e, at) == MovedTo(elems, IndexIn(elems, e), Following(PlaceOf(at), IndexIn(elems, e)))
    {
      NodesAreLinked(root, elems, e);
      OnlyTwin(root, elems, IndexIn(elems, e), TwinOf(e));
      if e == at {
        InsertUndoesRemove(elems, IndexIn(elems, e));
      }
    }

    lemma MemberMovesBefore(e: Element<T>, mark: Element<T>)
      requires Valid() && e in elems && mark in elems && e != mark
      ensures root.next != null && StaysList(e, mark.prev)
      ensures ListAfter(e, mark.prev) == MovedTo(elems, IndexIn(elems, e), IndexWithout(elems, e, mark))
    {
      NodesAreLinked(root, elems, mark);
      PrecedingInRing(root, elems, mark);
      MemberMoves(e, mark.prev);
    }

    lemma MemberMovesAfter(e: Element<T>, mark: Element<T>)
      requires Valid() && e in elems && mark in elems && e != mark
      ensures root.next != null && StaysList(e, mark)
      ensures ListAfter(e, mark) == MovedTo(elems, IndexIn(elems, e), IndexWithout(elems, e, mark) + 1)
    {
      MemberMoves(e, mark);
    }

    lemma MemberMovesToBack(e: Element<T>)
      requires Valid() && e in elems
      ensures root.next != null && root.prev != null && StaysList(e, root.prev)
      ensures ListAfter(e, root.prev) == MovedTo(elems, IndexIn(elems, e), |elems| - 1)
      ensures e == root.prev ==> ListAfter(e, root.prev) == elems
    {
      NodesAreLinked(root, elems, e);
      LastInRing(root, elems);
      IndexIs(elems, |elems| - 1);
      MemberMoves(e, root.prev);
    }

    /**
     * The last node has the last place, and only if it is the twin of a stray element can that not be moved after
     * it.
     */
    lemma StrayMovesToBack(e: Element<T>)
      requires Valid() && root.next != null && Stray(e) && e.next != null && e.prev != null
      ensures root.prev != null && PlaceOf(root.prev) == |elems| && e != root.prev
      ensures StaysList(e, root.prev) <==> TwinOf(e) + 1 < |elems|
      ensures ListAfter(e, root.prev) ==
        if TwinOf(e) + 1 < |elems| then RemovedAt(elems, TwinOf(e)) + [e] else elems
    {
      LastInRing(root, elems);
      if elems != [] {
        IndexIs(elems, |elems| - 1);
      }
      if TwinOf(e) + 1 < |elems| {
        InsertedAtEnd(RemovedAt(elems, TwinOf(e)), e);
      }
    }

    /** Where `at` and the twin of e are among the nodes of the ring. */
    lemma PlacesInRing(e: Element<T>, at: Element<T>)
      requires Valid()
      ensures InRing(root, elems, at) <==> PlaceOf(at) <= |elems|
      ensures InRing(root, elems, at) ==> at == Node(root, elems, PlaceOf(at))
      ensures TwinOf(e) < |elems| ==> (at == elems[TwinOf(e)] <==> PlaceOf(at) == TwinOf(e) + 1)
      ensures e in elems ==> TwinOf(e) == IndexIn(elems, e)
    {
      if TwinOf(e) < |elems| && at == elems[TwinOf(e)] {
        IndexIs(elems, TwinOf(e));
      }
      if e in elems {
        OnlyTwin(root, elems, IndexIn(elems, e), TwinOf(e));
      }
    }

    /** Moves e after `at`, wherever the two are. */
    method MoveNextTo(e: Element<T>, at: Element<T>)
      requires Valid() && e.next != null && e.prev != null && at.next != null && e.list == this
      modifies this`elems, e`next, e`prev, e.prev`next, e.next`prev, at`next, at.next`prev
      ensures elems == old(ListAfter(e, at))
      ensures e != at ==> Between(e, at, old(if e.prev == at then e.next else at.next))
      ensures old(root.next) != null ==> (Valid() <==> old(StaysList(e, at)))
    {
      ghost var i, j := TwinOf(e), PlaceOf(at);
      PlacesInRing(e, at);
      ghost var from, to := e in elems, InRing(root, elems, at);
      MoveElement(e, at, i, j);
      if to && !from {
        NeighboursStay(root, elems, at);
      } else if from && !to {
        NeighboursStay(root, elems, e);
      }
    }

    method Front() returns (e: Element?<T>)
      requires Valid()
      ensures e == if elems == [] then null else elems[0]
    {
      if len == 0 {
        return null;
      }
      assert LinkedAt(root, elems, 0);
      return root.next;
    }

    method Back() returns (e: Element?<T>)
      requires Valid()
      ensures e == if elems == [] then null else elems[|elems| - 1]
    {
      if len == 0 {
        return null;
      }
      assert LinkedAt(root, elems, |elems|);
      return root.prev;
    }

    /**
     * Takes e out if it is an element of this list. A stray element takes the one out that has its neighbours,
     * without a word; if there is none, the list counts an element less than it has.
     */
    method Remove(e: Element<T>) returns (v: T)
      requires Valid() && (Stray(e) ==> e.next != null && e.prev != null)
      modifies this`len, this`elems, root`next, root`prev, elems`next, elems`prev, e`list, Near(e)`next, Near(e)`prev
      ensures v == e.Value
      ensures Valid() <==> !old(Stray(e) && TwinOf(e) >= |elems|)
      ensures old(e.list) != this ==> elems == old(elems) && e.list == old(e.list)
      ensures old(e.list) == this ==> len == old(len) - 1 && e.list == null && e.next == null && e.prev == null
      ensures old(Stray(e) && root.next != null) ==>
        (Linked(root, old(elems)) <==> old(UnhooksNothing(root, elems, e)))
      ensures e in old(elems) ==> elems == RemovedAt(old(elems), IndexIn(old(elems), e))
      ensures old(Stray(e)) ==>
        var i := old(TwinOf(e));
        elems == if i < |old(elems)| then RemovedAt(old(elems), i) else old(elems)
    {
      if e.list == this {
        NodesAreLinked(root, elems, e);
        ghost var i := TwinOf(e);
        if e in elems {
          OnlyTwin(root, elems, IndexIn(elems, e), i);
        } else if i < |elems| {
          NodesAreLinked(root, elems, elems[i]);
        }
        RemoveElement(e, i);
      }
      return e.Value;
    }

    method Prepend(v: T) returns (e: Element<T>)
      requires Valid() && root.next != null
      modifies this`len, this`elems, root`next, root`prev, elems`next, elems`prev
      ensures Valid() && root.next != null && fresh(e) && elems == [e] + old(elems)
      ensures e.Value == v
    {
      assert LinkedAt(root, elems, 0);
      e := InsertValue(v, root, 0);
    }

    method Append(v: T) returns (e: Element<T>)
      requires Valid() && root.next != null
      modifies this`len, this`elems, root`next, root`prev, elems`next, elems`prev
      ensures Valid() && root.next != null && fresh(e) && elems == old(elems) + [e]
      ensures e.Value == v && Values() == old(Values()) + [v]
    {
      assert LinkedAt(root, elems, |elems|);
      e := InsertValue(v, root.prev, |elems|);
    }

    method PushFront(v: T) returns (e: Element<T>)
      requires Valid()
      modifies this`len, this`elems, root`next, root`prev, elems`next, elems`prev
      ensures Valid() && fresh(e) && e.Value == v && elems == [e] + old(elems)
    {
      LazyInit();
      e := Prepend(v);
    }

    method PushBack(v: T) returns (e: Element<T>)
      requires Valid()
      modifies this`len, this`elems, root`next, root`prev, elems`next, elems`prev
      ensures Valid() && fresh(e) && e.Value == v && elems == old(elems) + [e]
    {
      LazyInit();
      e := Append(v);
    }

    /**
     * Null if `mark` does not name this list. With a stray mark it depends on where that was left: the new
     * element goes after what was before the mark, and is counted whether that is in the ring or not.
     */
    method InsertBefore(v: T, mark: Element<T>) returns (e: Element?<T>)
      requires Valid() && (Stray(mark) ==> mark.prev != null && mark.prev.next != null)
      modifies this`len, this`elems, root`next, root`prev, elems`next, elems`prev, Near(mark)`next, Near(mark)`prev
      ensures Valid() <==> !old(Stray(mark) && PlaceOf(mark.prev) > |elems|)
      ensures old(mark.list) != this ==> e == null && elems == old(elems)
      ensures old(mark.list) == this ==> e != null && fresh(e) && e.Value == v && len == old(len) + 1
      ensures mark in old(elems) ==> elems == InsertedAt(old(elems), IndexIn(old(elems), mark), e)
      ensures old(Stray(mark)) ==>
        var at := old(PlaceOf(mark.prev));
        elems == if at <= |old(elems)| then InsertedAt(old(elems), at, e) else old(elems)
      ensures old(Stray(mark)) ==>
        && e.list == this && Between(e, old(mark.prev), old(mark.prev.next))
        && StillLinked(old(elems), old(mark.prev), old(Linked(root, elems) && !InRing(root, elems, mark.prev.next)))
    {
      if mark.list != this {
        return null;
      }
      if mark in elems {
        PrecedingInRing(root, elems, mark);
      } else {
        assert PlaceOf(mark.prev) <= |elems| ==> LinkedAt(root, elems, PlaceOf(mark.prev));
      }
      e := InsertValue(v, mark.prev, PlaceOf(mark.prev));
    }

    method InsertAfter(v: T, mark: Element<T>) returns (e: Element?<T>)
      requires Valid() && (Stray(mark) ==> mark.next != null)
      modifies this`len, this`elems, root`next, root`prev, elems`next, elems`prev, Near(mark)`next, Near(mark)`prev
      ensures Valid() <==> !old(Stray(mark))
      ensures
        if old(mark.list) != this then e == null && elems == old(elems)
        else if mark in old(elems) then
          e != null && fresh(e) && e.Value == v && elems == InsertedAt(old(elems), IndexIn(old(elems), mark) + 1, e)
        else
          e != null && fresh(e) && e.Value == v && elems == old(elems) && len == old(len) + 1
      ensures old(Stray(mark)) ==>
        && e.list == this && Between(e, mark, old(mark.next))
        && StillLinked(old(elems), mark, old(Linked(root, elems) && !InRing(root, elems, mark.next)))
    {
      if mark.list != this {
        return null;
      }
      ghost var i := if mark in elems then IndexIn(elems, mark) else |elems|;
      assert mark in elems ==> LinkedAt(root, elems, i + 1);
      e := InsertValue(v, mark, i + 1);
    }

    /**
     * A stray element takes the place of the one that has its neighbours, which is lost; if there is none, it
     * gets into the ring without being counted.
     */
    method MoveToFront(e: Element<T>)
      requires Valid() && (Stray(e) ==> e.next != null && e.prev != null && root.next != null)
      modifies this`elems, root`next, root`prev, elems`next, elems`prev, Near(e)`next, Near(e)`prev
      ensures e.list != this ==> Valid() && elems == old(elems)
      ensures e in old(elems) ==> Valid() && elems == MovedTo(old(elems), IndexIn(old(elems), e), 0)
      ensures old(Stray(e)) ==>
        var i := old(TwinOf(e));
        && (Valid() <==> i < |old(elems)|)
        && elems == (if i < |old(elems)| then [e] + RemovedAt(old(elems), i) else old(elems))
        && root.next == e
    {
      if e.list != this {
        return;
      }
      NodesAreLinked(root, elems, e);
      NodesAreLinked(root, elems, root);
      if e in elems {
        MemberMoves(e, root);
        assert LinkedAt(root, elems, 0);
        InsertUndoesRemove(elems, IndexIn(elems, e));
      }
      if root.next == e {
        return;
      }
      MoveNextTo(e, root);
    }

    /** The same; but a stray element that has the neighbours of the last one does not leave a list. */
    method MoveToBack(e: Element<T>)
      requires Valid() && (Stray(e) ==> e.next != null && e.prev != null && root.next != null)
      modifies this`elems, root`next, root`prev, elems`next, elems`prev, Near(e)`next, Near(e)`prev
      ensures e.list != this ==> Valid() && elems == old(elems)
      ensures e in old(elems) ==> Valid() && elems == MovedTo(old(elems), IndexIn(old(elems), e), |old(elems)| - 1)
      ensures old(Stray(e)) ==>
        var i := old(TwinOf(e));
        && (Valid() <==> i + 1 < |old(elems)|)
        && elems == if i + 1 < |old(elems)| then RemovedAt(old(elems), i) + [e] else old(elems)
    {
      if e.list != this {
        return;
      }
      NodesAreLinked(root, elems, e);
      NodesAreLinked(root, elems, root);
      NodesAreLinked(root, elems, root.prev);
      if e in elems {
        MemberMovesToBack(e);
      } else {
        StrayMovesToBack(e);
      }
      if root.prev == e {
        return;
      }
      MoveNextTo(e, root.prev);
    }

    /** What MoveBefore and MoveAfter do to elements that name this list: e goes after `at`. */
    ghost predicate Acts(e: Element<T>, mark: Element<T>)
      reads e, mark
    {
      e.list == this && e != mark && mark.list == this
    }

    /**
     * Nothing moves unless both name this list, and are not the same one. Stray elements are moved as well, or
     * something is moved next to them; StaysList says when that leaves the list of the elements ListAfter.
     */
    method MoveBefore(e: Element<T>, mark: Element<T>)
      requires Valid() && (Stray(e) ==> e.next != null && e.prev != null)
      requires Stray(mark) ==> mark.prev != null && mark.prev.next != null
      modifies this`elems, root`next, root`prev, elems`next, elems`prev
      modifies Near(e)`next, Near(e)`prev, Near(mark)`next, Near(mark)`prev
      ensures !old(Acts(e, mark)) ==> Valid() && elems == old(elems)
      ensures e in old(elems) && e != mark && mark in old(elems) ==>
        Valid() && elems == MovedTo(old(elems), IndexIn(old(elems), e), IndexWithout(old(elems), e, mark))
      ensures old(Acts(e, mark)) ==> elems == old(ListAfter(e, mark.prev))
      ensures old(Acts(e, mark) && root.next != null) ==> (Valid() <==> old(StaysList(e, mark.prev)))
    {
      if e.list != this || e == mark || mark.list != this {
        return;
      }
      NodesAreLinked(root, elems, e);
      NodesAreLinked(root, elems, mark);
      NodesAreLinked(root, elems, mark.prev);
      if e in elems && mark in elems {
        MemberMovesBefore(e, mark);
      }
      MoveNextTo(e, mark.prev);
    }

    method MoveAfter(e: Element<T>, mark: Element<T>)
      requires Valid() && (Stray(e) ==> e.next != null && e.prev != null) && (Stray(mark) ==> mark.next != null)
      modifies this`elems, root`next, root`prev, elems`next, elems`prev
      modifies Near(e)`next, Near(e)`prev, Near(mark)`next, Near(mark)`prev
      ensures !old(Acts(e, mark)) ==> Valid() && elems == old(elems)
      ensures e in old(elems) && e != mark && mark in old(elems) ==>
        Valid() && elems == MovedTo(old(elems), IndexIn(old(elems), e), IndexWithout(old(elems), e, mark) + 1)
      ensures old(Acts(e, mark)) ==> elems == old(ListAfter(e, mark))
      ensures old(Acts(e, mark) && root.next != null) ==> (Valid() <==> old(StaysList(e, mark)))
    {
      if e.list != this || e == mark || mark.list != this {
        return;
      }
      NodesAreLinked(root, elems, e);
      NodesAreLinked(root, elems, mark);
      if e in elems && mark in elems {
        MemberMovesAfter(e, mark);
      }
      MoveNextTo(e, mark);
    }

    ghost function Values(): (vs: seq<T>)
      reads this, elems
      ensures |vs| == |elems| && forall i :: 0 <= i < |vs| ==> vs[i] == elems[i].Value
    {
      seq(|elems|, i requires 0 <= i < |elems| reads this, elems => elems[i].Value)
    }

    /** Of the elements `theirs` of the other list, the values `copied` have been appended; e is the next one. */
    ghost predicate Appending(other: List<T>, theirs: seq<Element<T>>, ours: seq<T>, copied: seq<T>, e: Element?<T>)
      reads this, root, elems, other, other.root, other.elems, theirs
    {
      Appended(other, theirs, ours, copied) && (|copied| < |theirs| ==> e == theirs[|copied|])
    }

    ghost predicate Appended(other: List<T>, theirs: seq<Element<T>>, ours: seq<T>, copied: seq<T>)
      reads this, root, elems, other, other.root, other.elems, theirs
    {
      && Valid() && root.next != null && other.Valid() && (other == this || other.root != root)
      && theirs <= other.elems && (other != this ==> theirs == other.elems)
      && Values() == ours + copied && |copied| <= |theirs|
      && (forall k :: 0 <= k < |copied| ==> copied[k] == theirs[k].Value)
    }

    method AppendCopy(other: List<T>, e: Element<T>, ghost theirs: seq<Element<T>>, ghost ours: seq<T>,
                      ghost copied: seq<T>)
      returns (next: Element?<T>, ghost copy: Element<T>)
      requires Appending(other, theirs, ours, copied, e) && |copied| < |theirs|
      modifies this`len, this`elems, root`next, root`prev, elems`next, elems`prev
      ensures Appending(other, theirs, ours, copied + [e.Value], next)
      ensures fresh(copy) && elems == old(elems) + [copy]
    {
      var added := AppendOne(other, e, theirs, ours, copied);
      copy := added;
      IndexIs(other.elems, |copied|);
      assert e == other.elems[|copied|] && e.list == other;
      next := e.Next();
    }

    method AppendOne(other: List<T>, e: Element<T>, ghost theirs: seq<Element<T>>, ghost ours: seq<T>,
                     ghost copied: seq<T>)
      returns (copy: Element<T>)
      requires Appending(other, theirs, ours, copied, e) && |copied| < |theirs|
      modifies this`len, this`elems, root`next, root`prev, elems`next, elems`prev
      ensures Appended(other, theirs, ours, copied + [e.Value])
      ensures fresh(copy) && elems == old(elems) + [copy]
    {
      copy := Append(e.Value);
      ConcatAssociates(ours, copied, [e.Value]);
    }

    /** Appends copies of the other list's elements, which may be this very list. */
    method PushBackList(other: List<T>)
      requires Valid() && other.Valid() && (other == this || other.root != root)
      modifies this`len, this`elems, root`next, root`prev, elems`next, elems`prev
      ensures Valid() && Values() == old(Values()) + old(other.Values())
      ensures old(elems) <= elems
      ensures other != this ==> other.Valid() && other.elems == old(other.elems)
    {
      ghost var ours, vals := Values(), other.Values();
      LazyInit();
      assert Values() == ours + [];
      var e := other.Front();
      ghost var copied := AppendCopies(other, other.len, e, other.elems, ours);
      assert copied == vals;
    }

    method AppendCopies(other: List<T>, count: nat, first: Element?<T>, ghost theirs: seq<Element<T>>,
                        ghost ours: seq<T>)
      returns (ghost copied: seq<T>)
      requires Appending(other, theirs, ours, [], first) && count == |theirs|
      modifies this`len, this`elems, root`next, root`prev, elems`next, elems`prev
      ensures Appending(other, theirs, ours, copied, null) && |copied| == |theirs|
      ensures old(elems) <= elems
    {
      copied := [];
      var i, e := count, first;
      while i > 0
        invariant Appending(other, theirs, ours, copied, e) && i == |theirs| - |copied|
        invariant old(elems) <= elems && forall k :: |old(elems)| <= k < |elems| ==> fresh(elems[k])
      {
        ghost var copy;
        ghost var v := e.Value;
        e, copy := AppendCopy(other, e, theirs, ours, copied);
        copied := copied + [v];
        i := i - 1;
      }
    }

    /**
     * Copies of the last n elements of `theirs`, the other list's, have been put in front of `mine`; e is the next
     * one to copy. If that list is this very one, `mine` and `theirs` are the same.
     */
    ghost predicate Prepending(other: List<T>, theirs: seq<Element<T>>, mine: seq<Element<T>>, n: nat, e: Element?<T>)
      reads this, root, elems, other, other.root, other.elems, theirs
    {
      Prepended(other, theirs, mine, n) && IsNext(other.elems, |theirs|, n, e) && IsNext(theirs, |theirs|, n, e)
    }

    ghost predicate Prepended(other: List<T>, theirs: seq<Element<T>>, mine: seq<Element<T>>, n: nat)
      reads this, root, elems, other, other.root, other.elems, theirs
    {
      && Valid() && root.next != null && other.Valid() && (other == this || other.root != root)
      && theirs == (if other == this then mine else other.elems)
      && PrependedSoFar(theirs, mine, elems, n)
    }

    method PrependCopy(other: List<T>, e: Element<T>, ghost theirs: seq<Element<T>>, ghost mine: seq<Element<T>>,
                       ghost n: nat)
      returns (next: Element?<T>)
      requires Prepending(other, theirs, mine, n, e) && n < |theirs|
      modifies this`len, this`elems, root`next, root`prev, elems`next, elems`prev
      ensures Prepending(other, theirs, mine, n + 1, next)
      ensures forall x :: x in elems ==> x in old(elems) || fresh(x)
    {
      var _ := PrependOne(other, e, theirs, mine, n);
      next := StepBack(other, e, theirs, mine, n);
    }

    method PrependOne(other: List<T>, e: Element<T>, ghost theirs: seq<Element<T>>, ghost mine: seq<Element<T>>,
                      ghost n: nat)
      returns (copy: Element<T>)
      requires Prepended(other, theirs, mine, n) && n < |theirs| && e == theirs[|theirs| - n - 1]
      modifies this`len, this`elems, root`next, root`prev, elems`next, elems`prev
      ensures Prepended(other, theirs, mine, n + 1)
      ensures fresh(copy) && elems == [copy] + old(elems)
    {
      copy := Prepend(e.Value);
      OneMorePrepended(theirs, mine, old(elems), copy, n);
    }

    method StepBack(other: List<T>, e: Element<T>, ghost theirs: seq<Element<T>>, ghost mine: seq<Element<T>>,
                    ghost n: nat)
      returns (next: Element?<T>)
      requires Prepended(other, theirs, mine, n + 1) && n < |theirs|
      requires n < |other.elems| && e == other.elems[|other.elems| - n - 1]
      ensures Prepending(other, theirs, mine, n + 1, next)
    {
      IndexIs(other.elems, |other.elems| - n - 1);
      next := e.Prev();
      if other == this && n + 1 < |theirs| {
        SuffixAt(elems, mine, |elems| - n - 2);
      }
    }

    /** Puts copies of the other list's elements in front, in their order; it may be this very list. */
    method PushFrontList(other: List<T>)
      requires Valid() && other.Valid() && (other == this || other.root != root)
      modifies this`len, this`elems, root`next, root`prev, elems`next, elems`prev
      ensures Valid() && Values() == old(other.Values()) + old(Values())
      ensures IsSuffix(elems, old(elems))
      ensures other != this ==> other.Valid() && other.elems == old(other.elems)
    {
      ghost var theirs, mine, vals, ours := other.elems, elems, other.Values(), Values();
      LazyInit();
      var e := other.Back();
      PrependCopies(other, other.len, e, theirs);
      ValuesInFront(theirs, mine, elems, vals, ours, Values());
    }

    method PrependCopies(other: List<T>, count: nat, last: Element?<T>, ghost theirs: seq<Element<T>>)
      requires Valid() && root.next != null && other.Valid() && (other == this || other.root != root)
      requires theirs == other.elems && count == |theirs| && (theirs != [] ==> last == theirs[|theirs| - 1])
      modifies this`len, this`elems, root`next, root`prev, elems`next, elems`prev
      ensures Prepending(other, theirs, old(elems), count, null)
    {
      ghost var mine, n: nat := elems, 0;
      var i, e := count, last;
      while i > 0
        invariant i + n == count && Prepending(other, theirs, mine, n, e)
        invariant forall x :: x in elems ==> x in mine || fresh(x)
      {
        assert forall k :: 0 <= k < |elems| ==> elems[k] in elems;
        e := PrependCopy(other, e, theirs, mine, n);
        i, n := i - 1, n + 1;
      }
    }
  }

  /** Only to say where a quantifier is to be instantiated. */
  predicate Here(k: int) {
    true
  }

  ghost predicate IsSuffix<E>(s: seq<E>, t: seq<E>) {
    |t| <= |s| && forall k {:trigger Here(k)} :: Here(k) && |s| - |t| <= k < |s| ==> s[k] == t[k - (|s| - |t|)]
  }

  lemma SuffixAt<E>(s: seq<E>, t: seq<E>, k: nat)
    requires IsSuffix(s, t) && |s| - |t| <= k < |s|
    ensures s[k] == t[k - (|s| - |t|)]
  {
    assert Here(k);
  }

  lemma SuffixOfMore<E>(s: seq<E>, t: seq<E>, x: E)
    requires IsSuffix(s, t)
    ensures IsSuffix([x] + s, t)
  {
    forall k | |s| + 1 - |t| <= k < |s| + 1
      ensures ([x] + s)[k] == t[k - (|s| + 1 - |t|)]
    {
      SuffixAt(s, t, k - 1);
    }
  }

  /** The next one to copy of the last m elements of s. */
  ghost predicate IsNext<T>(s: seq<Element<T>>, m: nat, n: nat, e: Element?<T>) {
    n < m ==> n < |s| && e == s[|s| - n - 1]
  }

  ghost predicate PrependedSoFar<T>(theirs: seq<Element<T>>, mine: seq<Element<T>>, all: seq<Element<T>>, n: nat)
    reads theirs, all
  {
    n <= |theirs| && |all| == n + |mine| && IsSuffix(all, mine) && AreCopiesOfLast(theirs, all, n)
  }

  lemma OneMorePrepended<T>(theirs: seq<Element<T>>, mine: seq<Element<T>>, all: seq<Element<T>>, copy: Element<T>,
                            n: nat)
    requires PrependedSoFar(theirs, mine, all, n) && n < |theirs| && copy.Value == theirs[|theirs| - n - 1].Value
    ensures PrependedSoFar(theirs, mine, [copy] + all, n + 1)
  {
    OneMoreCopied(theirs, all, copy, n);
    SuffixOfMore(all, mine, copy);
  }

  lemma ValuesInFront<T>(theirs: seq<Element<T>>, mine: seq<Element<T>>, all: seq<Element<T>>,
                         vals: seq<T>, ours: seq<T>, allVals: seq<T>)
    requires PrependedSoFar(theirs, mine, all, |theirs|)
    requires |vals| == |theirs| && forall k :: 0 <= k < |vals| ==> vals[k] == theirs[k].Value
    requires |ours| == |mine| && forall k :: 0 <= k < |ours| ==> ours[k] == mine[k].Value
    requires |allVals| == |all| && forall k :: 0 <= k < |allVals| ==> allVals[k] == all[k].Value
    ensures allVals == vals + ours
  {
    forall k | 0 <= k < |all|
      ensures allVals[k] == (vals + ours)[k]
    {
      assert Here(k);
    }
  }

  ghost predicate AreCopiesOfLast<T>(s: seq<Element<T>>, t: seq<Element<T>>, n: nat)
    reads s, t
  {
    n <= |s| && n <= |t| && forall k {:trigger Here(k)} :: Here(k) && 0 <= k < n ==> t[k].Value == s[|s| - n + k].Value
  }

  lemma OneMoreCopied<T>(s: seq<Element<T>>, t: seq<Element<T>>, copy: Element<T>, n: nat)
    requires AreCopiesOfLast(s, t, n) && n < |s| && copy.Value == s[|s| - n - 1].Value
    ensures AreCopiesOfLast(s, [copy] + t, n + 1)
  {
    forall k | 0 <= k < n + 1
      ensures ([copy] + t)[k].Value == s[|s| - (n + 1) + k].Value
    {
      assert Here(k - 1);
    }
  }

  /** Removing an element that an Init has taken out already: the list has a length of -1. */
  method RemoveAfterInit<T>(v: T) returns (l: List<T>)
    ensures !l.Valid() && l.elems == [] && l.len == -1
  {
    l := new List(v);
    var e := l.PushBack(v);
    assert l.elems == [e] && LinkedAt(l.root, l.elems, 0) && LinkedAt(l.root, l.elems, 1);
    assert e.next == e.prev == l.root && l.elems[0].list == l;
    l.Init();
    assert LinkedAt(l.root, l.elems, 0);
    var _ := l.Remove(e);
  }
}
