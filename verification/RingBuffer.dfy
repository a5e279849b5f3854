/** The drop-oldest ring buffer. */
module RingBuffers {
  import opened Streams
  import Lines

  // ---------- States ----------

  /** Backing items, the two cursors, and whether equal cursors mean full rather than empty. */
  datatype State<T> = State(items: seq<T>, read: nat, write: nat, full: bool) {
    ghost predicate Sound() {
      read < |items| && write < |items| && (full ==> read == write)
    }

    function Cap(): nat {
      |items|
    }

    /** Len: the source's (cap + write - read) % cap, or the capacity when full. */
    function Len(): nat
      requires Sound()
    {
      if full then |items| else (|items| + write - read) % |items|
    }
  }

  /** A position that may lie past the end, wrapped around. */
  function Wrap(k: nat, cap: nat): nat
    requires k < 2 * cap
    ensures Wrap(k, cap) < cap
  {
    if k < cap then k else k - cap
  }

  lemma ModAddCap(k: nat, cap: nat)
    requires k < cap
    ensures (cap + k) % cap == k
  {
    assert (cap + k) / cap == 1;
  }

  lemma ModIsWrap(k: nat, cap: nat)
    requires 0 < cap && k < 2 * cap
    ensures k % cap == Wrap(k, cap)
  {
    if cap <= k {
      ModAddCap(k - cap, cap);
    }
  }

  /** How far position j lies after position from, going around. */
  function Dist(from: nat, j: nat, cap: nat): nat
    requires from < cap && j < cap
    ensures Dist(from, j, cap) < cap
  {
    if from <= j then j - from else j - from + cap
  }

  /** The unread items, oldest first. */
  ghost function Contents<T>(s: State<T>): (c: seq<T>)
    requires s.Sound()
    ensures |c| == s.Len() <= s.Cap()
    ensures forall i :: 0 <= i < |c| ==> c[i] == s.items[Wrap(s.read + i, s.Cap())]
  {
    seq(s.Len(), i requires 0 <= i < s.Len() => s.items[Wrap(s.read + i, s.Cap())])
  }

  /** The last k items of s, or all of it. */
  function LastOf<T>(s: seq<T>, k: nat): (r: seq<T>)
    ensures |r| == if |s| <= k then |s| else k
    ensures forall i :: 0 <= i < |r| ==> r[i] == s[|s| - |r| + i]
  {
    var n := if |s| <= k then |s| else k;
    seq(n, i requires 0 <= i < n => s[|s| - n + i])
  }

  // ---------- Writing ----------

  /** The slots from write on, going around, overwritten with p. */
  function Overwritten<T>(items: seq<T>, write: nat, p: seq<T>): (r: seq<T>)
    requires write < |items| && |p| <= |items|
    ensures |r| == |items|
  {
    seq(|items|, j requires 0 <= j < |items| =>
      var d := Dist(write, j, |items|);
      if d < |p| then p[d] else items[j])
  }

  function WrittenWithinBounds<T>(s: State<T>, p: seq<T>): State<T>
    requires s.Sound() && s.write + |p| < s.Cap()
  {
    var end := s.write + |p|;
    var full := s.full || (s.write < s.read <= end);
    State(Overwritten(s.items, s.write, p), if full then end else s.read, end, full)
  }

  function WrittenWrapped<T>(s: State<T>, p: seq<T>): State<T>
    requires s.Sound() && |p| < s.Cap() <= s.write + |p|
  {
    var end := s.write + |p|;
    var full := s.full || (s.write < s.read <= end);
    if full || end - s.Cap() >= s.read then
      State(Overwritten(s.items, s.write, p), end - s.Cap(), end - s.Cap(), true)
    else
      State(Overwritten(s.items, s.write, p), s.read, end - s.Cap(), false)
  }

  /**
   * Write: within bounds, wrapped, or so long that only its last items fit, which then go to the front of the
   * array.
   */
  function Written<T>(s: State<T>, p: seq<T>): State<T>
    requires s.Sound()
  {
    if s.Cap() <= |p| then State(p[|p| - s.Cap()..], s.write, s.write, true)
    else if s.write + |p| < s.Cap() then WrittenWithinBounds(s, p)
    else WrittenWrapped(s, p)
  }

  function WrittenItem<T>(s: State<T>, x: T): State<T>
    requires s.Sound()
  {
    var pos := (s.write + 1) % s.Cap();
    State(s.items[s.write := x], if s.full then pos else s.read, pos, s.full || pos == s.read)
  }

  lemma LenIsDist<T>(s: State<T>)
    requires s.Sound()
    ensures !s.full ==> s.Len() == Dist(s.read, s.write, s.Cap())
    ensures s.write == Wrap(s.read + s.Len(), s.Cap())
  {
    if !s.full {
      ModIsWrap(s.Cap() + s.write - s.read, s.Cap());
    }
  }

  /**
   * Where a write of fewer than Cap items leaves the cursors: counts add up to at most Cap, and the oldest make
   * way.
   */
  lemma WrittenCursors<T>(s: State<T>, p: seq<T>)
    requires s.Sound() && |p| < s.Cap()
    ensures var t := Written(s, p);
      var total := s.Len() + |p|;
      && t.Sound() && t.Cap() == s.Cap()
      && t.items == Overwritten(s.items, s.write, p)
      && t.Len() == (if total <= s.Cap() then total else s.Cap())
      && t.read == (if total <= s.Cap() then s.read else Wrap(s.read + (total - s.Cap()), s.Cap()))
  {
    LenIsDist(s);
    LenIsDist(Written(s, p));
  }

  /** The item k of everything so far, if it is among the last Cap ones, sits where counting on from read leads. */
  lemma SlotAfterWrite<T>(s: State<T>, p: seq<T>, k: nat, slot: nat)
    requires s.Sound() && |p| < s.Cap()
    requires s.Len() + |p| <= k + s.Cap() && k < s.Len() + |p|
    requires slot < s.Cap() && (slot == s.read + k || slot == s.read + k - s.Cap() || slot == s.read + k - 2 * s.Cap())
    ensures Overwritten(s.items, s.write, p)[slot] == (Contents(s) + p)[k]
  {
    LenIsDist(s);
    if k < s.Len() {
      assert slot == Wrap(s.read + k, s.Cap());
    }
  }

  /** A write of fewer than Cap items keeps exactly the last Cap items of everything so far. */
  lemma WriteKeepsLast<T>(s: State<T>, p: seq<T>)
    requires s.Sound() && |p| < s.Cap()
    ensures Written(s, p).Sound()
    ensures Contents(Written(s, p)) == LastOf(Contents(s) + p, s.Cap())
  {
    var t := Written(s, p);
    var all := Contents(s) + p;
    WrittenCursors(s, p);
    forall i | 0 <= i < t.Len()
      ensures Contents(t)[i] == all[|all| - t.Len() + i]
    {
      ItemAfterWrite(s, p, i);
    }
    LastOfIs(all, s.Cap(), Contents(t), |all| - t.Len());
  }

  lemma ItemAfterWrite<T>(s: State<T>, p: seq<T>, i: nat)
    requires s.Sound() && |p| < s.Cap()
    requires Written(s, p).Sound() && i < Written(s, p).Len()
    ensures Written(s, p).Len() <= |Contents(s) + p|
    ensures Contents(Written(s, p))[i] == (Contents(s) + p)[|Contents(s) + p| - Written(s, p).Len() + i]
  {
    var t := Written(s, p);
    WrittenCursors(s, p);
    var k := s.Len() + |p| - t.Len() + i;
    var slot := Wrap(t.read + i, s.Cap());
    assert t.items == Overwritten(s.items, s.write, p) && Contents(t)[i] == t.items[slot];
    SlotAfterWrite(s, p, k, slot);
  }

  lemma LastOfIs<T>(all: seq<T>, k: nat, c: seq<T>, drop: nat)
    requires drop == if |all| <= k then 0 else |all| - k
    requires |c| + drop == |all| && forall i :: 0 <= i < |c| ==> c[i] == all[drop + i]
    ensures c == LastOf(all, k)
  {
  }

  lemma LastOfAppend<T>(s: seq<T>, t: seq<T>, u: seq<T>, k: nat)
    ensures LastOf(LastOf(s + t, k) + u, k) == LastOf(s + (t + u), k)
  {
    var all, kept := s + (t + u), LastOf(s + t, k) + u;
    var lost := |all| - |kept|;
    assert forall i :: 0 <= i < |kept| ==> kept[i] == all[lost + i];
    var r := LastOf(kept, k);
    LastOfIs(all, k, r, |all| - |r|);
  }

  function WrittenAll<T>(s: State<T>, ps: seq<seq<T>>): State<T>
    requires s.Sound() && forall p :: p in ps ==> |p| < s.Cap()
    decreases |ps|
  {
    if ps == [] then s
    else
      WrittenCursors(s, ps[0]);
      WrittenAll(Written(s, ps[0]), ps[1..])
  }

  /** Any number of such writes keeps the last Cap items of everything written. */
  lemma {:induction false} WritesKeepLast<T>(s: State<T>, ps: seq<seq<T>>)
    requires s.Sound() && forall p :: p in ps ==> |p| < s.Cap()
    ensures WrittenAll(s, ps).Sound()
    ensures Contents(WrittenAll(s, ps)) == LastOf(Contents(s) + Lines.Flatten(ps), s.Cap())
    decreases |ps|
  {
    if ps == [] {
      assert Contents(s) + [] == Contents(s);
    } else {
      WriteKeepsLast(s, ps[0]);
      WrittenCursors(s, ps[0]);
      WritesKeepLast(Written(s, ps[0]), ps[1..]);
      LastOfAppend(Contents(s), ps[0], Lines.Flatten(ps[1..]), s.Cap());
    }
  }

  // ---------- Long writes ----------

  function RotatedLeft<T>(s: seq<T>, k: nat): seq<T>
    requires k <= |s|
  {
    s[k..] + s[..k]
  }

  /** A write of at least Cap items leaves the last Cap of them, but rotated left by the write cursor. */
  lemma LongWriteRotates<T>(s: State<T>, p: seq<T>)
    requires s.Sound() && s.Cap() <= |p|
    ensures Written(s, p).Sound()
    ensures Contents(Written(s, p)) == RotatedLeft(p[|p| - s.Cap()..], s.write)
  {
  }

  /**
   * So Write keeps the last Cap items, whatever the items are, exactly if fewer than Cap of them are
   * written or the write cursor is at the front.
   */
  lemma WriteKeepsLastIff<T(!new)>(s: State<T>, count: nat, a: T, b: T)
    requires s.Sound() && a != b
    ensures (forall p: seq<T> :: |p| == count ==> Contents(Written(s, p)) == LastOf(Contents(s) + p, s.Cap()))
      <==> count < s.Cap() || s.write == 0
  {
    if count < s.Cap() {
      forall p: seq<T> | |p| == count
        ensures Contents(Written(s, p)) == LastOf(Contents(s) + p, s.Cap())
      {
        WriteKeepsLast(s, p);
      }
    } else if s.write == 0 {
      forall p: seq<T> | |p| == count
        ensures Contents(Written(s, p)) == LastOf(Contents(s) + p, s.Cap())
      {
        LongWriteInPlace(s, p);
      }
    } else {
      var p := seq(count, i => if i == count - s.Cap() then a else b);
      LongWriteOutOfPlace(s, p);
    }
  }

  lemma LongWriteInPlace<T>(s: State<T>, p: seq<T>)
    requires s.Sound() && s.Cap() <= |p| && s.write == 0
    ensures Contents(Written(s, p)) == LastOf(Contents(s) + p, s.Cap())
  {
    LongWriteRotates(s, p);
    LastOfLong(Contents(s), p, s.Cap());
    var q := p[|p| - s.Cap()..];
    assert q[0..] + q[..0] == q;
  }

  lemma LongWriteOutOfPlace<T>(s: State<T>, p: seq<T>)
    requires s.Sound() && s.Cap() <= |p| && p[|p| - s.Cap()] != p[|p| - s.Cap() + s.write]
    ensures Contents(Written(s, p)) != LastOf(Contents(s) + p, s.Cap())
  {
    LongWriteRotates(s, p);
    LastOfLong(Contents(s), p, s.Cap());
    assert Contents(Written(s, p))[0] == p[|p| - s.Cap()..][s.write];
  }

  lemma LastOfLong<T>(s: seq<T>, p: seq<T>, k: nat)
    requires k <= |p|
    ensures LastOf(s + p, k) == p[|p| - k..]
  {
    SuffixIs(p, |p| - k, LastOf(s + p, k));
  }

  /** Writing one item and writing a slice of one item leave the same state. */
  lemma WriteItemIsWrite<T>(s: State<T>, x: T)
    requires s.Sound()
    ensures WrittenItem(s, x) == Written(s, [x])
    ensures WrittenItem(s, x).Sound()
    ensures Contents(WrittenItem(s, x)) == LastOf(Contents(s) + [x], s.Cap())
  {
    if s.Cap() == 1 {
      OnlySlot(s, x);
    } else {
      WrittenItemWraps(s, x);
      WriteKeepsLast(s, [x]);
    }
  }

  lemma OnlySlot<T>(s: State<T>, x: T)
    requires s.Sound() && s.Cap() == 1
    ensures WrittenItem(s, x) == Written(s, [x]) && Written(s, [x]).Sound()
    ensures Contents(Written(s, [x])) == LastOf(Contents(s) + [x], 1)
  {
    assert WrittenItem(s, x) == Written(s, [x]) == State([x], 0, 0, true);
    LongWriteInPlace(s, [x]);
  }

  lemma OverwrittenItem<T>(s: State<T>, x: T)
    requires s.Sound()
    ensures s.items[s.write := x] == Overwritten(s.items, s.write, [x])
  {
  }

  lemma WrittenItemWraps<T>(s: State<T>, x: T)
    requires s.Sound() && 2 <= s.Cap()
    ensures WrittenItem(s, x) == Written(s, [x])
  {
    ModIsWrap(s.write + 1, s.Cap());
    OverwrittenItem(s, x);
  }

  // ---------- Reading ----------

  /** Read of up to k items. */
  function AfterRead<T>(s: State<T>, k: nat): State<T>
    requires s.Sound()
  {
    if k == 0 || s.Len() == 0 then s else Drained(s, ReadCount(s, k))
  }

  /** After n items went out, and `full` was cleared. */
  function Drained<T>(s: State<T>, n: nat): State<T>
    requires s.Sound() && n <= s.Cap()
  {
    s.(read := (s.read + n) % s.Cap(), full := false)
  }

  function ReadCount<T>(s: State<T>, k: nat): (n: nat)
    requires s.Sound()
    ensures n <= k && n <= s.Cap()
  {
    LenIsDist(s);
    if k < s.Len() then k else s.Len()
  }

  lemma ReadTakesOldest<T>(s: State<T>, k: nat)
    requires s.Sound()
    ensures var t := AfterRead(s, k);
      && t.Sound() && ReadCount(s, k) <= |Contents(s)|
      && Contents(t) == Contents(s)[ReadCount(s, k)..]
  {
    LenIsDist(s);
    if k != 0 && s.Len() != 0 {
      var n, t := ReadCount(s, k), AfterRead(s, k);
      forall i | 0 <= i < s.Len() - n
        ensures t.Sound() && t.Len() == s.Len() - n && Contents(t)[i] == Contents(s)[n + i]
      {
        DrainedSlot(s, n, i);
      }
      DrainedLen(s, n);
      SuffixIs(Contents(s), n, Contents(t));
    }
  }

  lemma DrainedLen<T>(s: State<T>, n: nat)
    requires s.Sound() && 0 < n <= s.Len()
    ensures Drained(s, n).Sound() && Drained(s, n).Len() == s.Len() - n
    ensures Drained(s, n).read == Wrap(s.read + n, s.Cap())
  {
    LenIsDist(s);
    ModIsWrap(s.read + n, s.Cap());
    LenIsDist(Drained(s, n));
  }

  lemma DrainedSlot<T>(s: State<T>, n: nat, i: nat)
    requires s.Sound() && 0 < n && n + i < s.Len()
    ensures var t := Drained(s, n);
      t.Sound() && t.Len() == s.Len() - n && Contents(t)[i] == Contents(s)[n + i]
  {
    DrainedLen(s, n);
    assert Wrap(Drained(s, n).read + i, s.Cap()) == Wrap(s.read + (n + i), s.Cap());
  }

  /** ReadItem does not look whether there is an item. */
  function AfterReadItem<T>(s: State<T>): State<T>
    requires s.Sound()
  {
    s.(read := (s.read + 1) % s.Cap(), full := false)
  }

  /**
   * ReadItem takes the oldest item off if there is one; off an empty ring it takes a stale one, and others become
   * readable.
   */
  lemma ReadItemTakesOldest<T>(s: State<T>)
    requires s.Sound()
    ensures AfterReadItem(s).Sound()
    ensures Contents(s) != [] ==> s.items[s.read] == Contents(s)[0] && Contents(AfterReadItem(s)) == Contents(s)[1..]
    ensures Contents(s) != [] ==> AfterReadItem(s) == AfterRead(s, 1)
    ensures Contents(s) == [] ==> |Contents(AfterReadItem(s))| == s.Cap() - 1
  {
    ModIsWrap(s.read + 1, s.Cap());
    if s.Len() == 0 {
      LenIsDist(s);
      LenIsDist(AfterReadItem(s));
    } else {
      ReadTakesOldest(s, 1);
    }
  }

  // ---------- Whole runs ----------

  datatype Writing<T> = WriteSlice(p: seq<T>) | WriteOne(x: T)

  function ItemsOf<T>(w: Writing<T>): seq<T> {
    match w
    case WriteSlice(p) => p
    case WriteOne(x) => [x]
  }

  /** The client's calls. */
  datatype Call<T> = Put(w: Writing<T>) | ReadUpTo(k: nat) | ReadOne

  function AfterCall<T>(s: State<T>, c: Call<T>): State<T>
    requires s.Sound()
  {
    match c
    case Put(WriteSlice(p)) => Written(s, p)
    case Put(WriteOne(x)) => WrittenItem(s, x)
    case ReadUpTo(k) => AfterRead(s, k)
    case ReadOne => AfterReadItem(s)
  }

  /** No call, on an empty ring or a full one, leaves a cursor out of range or `full` without equal cursors. */
  lemma CallKeepsSound<T>(s: State<T>, c: Call<T>)
    requires s.Sound()
    ensures AfterCall(s, c).Sound() && AfterCall(s, c).Cap() == s.Cap()
  {
    match c
    case Put(WriteSlice(p)) => WriteRefinesQueue(s, p);
    case Put(WriteOne(x)) => WriteItemIsWrite(s, x);
    case ReadUpTo(k) => ReadTakesOldest(s, k);
    case ReadOne => ReadItemTakesOldest(s);
  }

  function AfterCalls<T>(s: State<T>, calls: seq<Call<T>>): State<T>
    requires s.Sound()
    decreases |calls|
  {
    if calls == [] then s
    else
      CallKeepsSound(s, calls[0]);
      AfterCalls(AfterCall(s, calls[0]), calls[1..])
  }

  lemma {:induction false} RunKeepsSound<T>(s: State<T>, calls: seq<Call<T>>)
    requires s.Sound()
    ensures AfterCalls(s, calls).Sound() && AfterCalls(s, calls).Cap() == s.Cap()
    decreases |calls|
  {
    if calls != [] {
      CallKeepsSound(s, calls[0]);
      RunKeepsSound(AfterCall(s, calls[0]), calls[1..]);
    }
  }

  /** What the ring stands for: a queue that drops its oldest items, and by how much the next long write is turned. */
  datatype Queue<T> = Queue(items: seq<T>, turn: nat)

  function QueueWritten<T>(q: Queue<T>, cap: nat, p: seq<T>): Queue<T>
    requires q.turn < cap
  {
    if |p| < cap then Queue(LastOf(q.items + p, cap), (q.turn + |p|) % cap)
    else Queue(RotatedLeft(p[|p| - cap..], q.turn), q.turn)
  }

  function QueueAfter<T>(q: Queue<T>, cap: nat, c: Call<T>): Queue<T>
    requires q.turn < cap && (c == ReadOne ==> q.items != [])
  {
    match c
    case Put(w) => QueueWritten(q, cap, ItemsOf(w))
    case ReadUpTo(k) => q.(items := q.items[if k < |q.items| then k else |q.items|..])
    case ReadOne => q.(items := q.items[1..])
  }

  /** The queue after a run, unless ReadItem is called on an empty one. */
  function QueueAfterAll<T>(q: Queue<T>, cap: nat, calls: seq<Call<T>>): Option<Queue<T>>
    requires q.turn < cap
    decreases |calls|
  {
    if calls == [] then Some(q)
    else if calls[0] == ReadOne && q.items == [] then None
    else QueueAfterAll(QueueAfter(q, cap, calls[0]), cap, calls[1..])
  }

  ghost function Abstract<T>(s: State<T>): Queue<T>
    requires s.Sound()
  {
    Queue(Contents(s), s.write)
  }

  lemma WriteRefinesQueue<T>(s: State<T>, p: seq<T>)
    requires s.Sound()
    ensures Written(s, p).Sound() && Written(s, p).Cap() == s.Cap()
    ensures Abstract(Written(s, p)) == QueueWritten(Abstract(s), s.Cap(), p)
  {
    if |p| < s.Cap() {
      WriteKeepsLast(s, p);
      ModIsWrap(s.write + |p|, s.Cap());
    } else {
      LongWriteRotates(s, p);
    }
  }

  lemma CallRefinesQueue<T>(s: State<T>, c: Call<T>)
    requires s.Sound() && (c == ReadOne ==> Contents(s) != [])
    ensures AfterCall(s, c).Sound() && AfterCall(s, c).Cap() == s.Cap()
    ensures Abstract(AfterCall(s, c)) == QueueAfter(Abstract(s), s.Cap(), c)
  {
    match c
    case Put(WriteSlice(p)) => WriteRefinesQueue(s, p);
    case Put(WriteOne(x)) =>
      WriteItemIsWrite(s, x);
      WriteRefinesQueue(s, [x]);
    case ReadUpTo(k) =>
      ReadTakesOldest(s, k);
      ReadCountIsLeast(s, k);
    case ReadOne => ReadItemTakesOldest(s);
  }

  lemma ReadCountIsLeast<T>(s: State<T>, k: nat)
    requires s.Sound()
    ensures ReadCount(s, k) == if k < |Contents(s)| then k else |Contents(s)|
  {
  }

  /** Over any run that takes single items only when there are some, the ring stands for the queue. */
  lemma {:induction false} RunRefinesQueue<T>(s: State<T>, calls: seq<Call<T>>)
    requires s.Sound() && QueueAfterAll(Abstract(s), s.Cap(), calls).Some?
    ensures AfterCalls(s, calls).Sound()
    ensures QueueAfterAll(Abstract(s), s.Cap(), calls) == Some(Abstract(AfterCalls(s, calls)))
    decreases |calls|
  {
    if calls != [] {
      CallRefinesQueue(s, calls[0]);
      RunRefinesQueue(AfterCall(s, calls[0]), calls[1..]);
    }
  }

  // ---------- Streaming in ----------

  /** One round of ReadFrom: d was read to the write cursor, with or without an error. */
  function Streamed<T>(s: State<T>, d: seq<T>, failed: bool): State<T>
    requires s.Sound() && s.write + |d| <= s.Cap()
  {
    var items := Overwritten(s.items, s.write, d);
    var full := s.full || (s.write < s.read <= s.write + |d|);
    if failed then
      State(items, s.read, s.write, full)
    else
      var filled := s.Cap() - (s.write - s.read) == |d|;
      var write := (s.write + |d|) % s.Cap();
      State(items, if full || filled then write else s.read, write, full || filled)
  }

  lemma StreamedSame<T>(s: State<T>, d: seq<T>)
    requires s.Sound() && s.write + |d| <= s.Cap()
    ensures Streamed(s, d, false) == Written(s, d)
  {
    ModIsWrap(s.write + |d|, s.Cap());
    if |d| == s.Cap() {
      assert Overwritten(s.items, s.write, d) == d == d[|d| - s.Cap()..];
    }
  }

  /** Without an error a round of ReadFrom is a Write, and never one that rotates. */
  lemma StreamedIsWritten<T>(s: State<T>, d: seq<T>)
    requires s.Sound() && s.write + |d| <= s.Cap()
    ensures Streamed(s, d, false) == Written(s, d)
    ensures Written(s, d).Sound() && Contents(Written(s, d)) == LastOf(Contents(s) + d, s.Cap())
  {
    StreamedSame(s, d);
    if |d| < s.Cap() {
      WriteKeepsLast(s, d);
    } else {
      LongWriteRotates(s, d);
      LastOfLong(Contents(s), d, s.Cap());
      assert d[|d| - s.Cap()..] == d;
      assert RotatedLeft(d, 0) == d;
    }
  }

  /**
   * An error that comes with items loses them: unless the ring is full, the round is a Write exactly if it read
   * nothing.
   */
  lemma FailedRoundKeepsItemsIff<T>(s: State<T>, d: seq<T>)
    requires s.Sound() && !s.full && s.write + |d| <= s.Cap()
    ensures (Streamed(s, d, true).Sound() && Contents(Streamed(s, d, true)) == LastOf(Contents(s) + d, s.Cap()))
      <==> d == []
  {
    var t := Streamed(s, d, true);
    LenIsDist(s);
    if d == [] {
      assert t.items == s.items;
      assert Contents(s) + [] == Contents(s);
    } else if t.Sound() {
      assert |Contents(t)| == s.Len() < s.Cap();
      assert s.Len() < |LastOf(Contents(s) + d, s.Cap())|;
    }
  }

  /** In a full ring such an error puts the newest items where the oldest should be. */
  lemma FailedRoundWhenFull<T>(s: State<T>, d: seq<T>)
    requires s.Sound() && s.full && s.write + |d| <= s.Cap()
    ensures Streamed(s, d, true).Sound()
    ensures Contents(Streamed(s, d, true)) == d + Contents(s)[|d|..]
  {
  }

  /** ReadFrom: rounds until the source returns an error. */
  function StreamedAll<T>(s: State<T>, script: seq<Step<T>>): State<T>
    requires s.Sound()
    decreases |script|, Head(script)
  {
    var a := Answer(script, s.Cap() - s.write);
    if a.err != None then Streamed(s, a.items, true)
    else
      StreamedIsWritten(s, a.items);
      StreamedAll(Streamed(s, a.items, false), a.rest)
  }

  lemma LastOfChain<T>(c: seq<T>, d: seq<T>, more: seq<T>, all: seq<T>, k: nat, kept: seq<T>, end: seq<T>)
    requires kept == LastOf(c + d, k) && end == LastOf(kept + more, k) && all == d + more
    ensures end == LastOf(c + all, k)
  {
    LastOfAppend(c, d, more, k);
  }

  /** A ring that was s0 has been given `got`, chunk by chunk, and has kept the last Cap items. */
  ghost predicate Flowed<T>(s0: State<T>, got: seq<T>, s: State<T>)
    requires s0.Sound()
  {
    s.Sound() && s.Cap() == s0.Cap() && Contents(s) == LastOf(Contents(s0) + got, s0.Cap())
  }

  /** A ReadFrom that began with s0 and script0 has `got` and is to go on from s and script. */
  ghost predicate InFlow<T>(s0: State<T>, script0: seq<Step<T>>, s: State<T>, script: seq<Step<T>>, got: seq<T>)
    requires s0.Sound()
  {
    && Flowed(s0, got, s) && StreamedAll(s, script) == StreamedAll(s0, script0)
    && Received(Deliver(script0, 0, 0, EOF), got, script, 0, 0)
  }

  lemma FlowStarts<T>(s: State<T>, script: seq<Step<T>>)
    requires s.Sound()
    ensures InFlow(s, script, s, script, [])
  {
    assert [] + Deliver(script, 0, 0, EOF).items == Deliver(script, 0, 0, EOF).items;
    NoNews(s);
  }

  lemma FlowedOn<T>(s0: State<T>, got: seq<T>, s: State<T>, d: seq<T>)
    requires s0.Sound() && Flowed(s0, got, s) && s.write + |d| <= s.Cap()
    ensures Flowed(s0, got + d, Streamed(s, d, false))
  {
    StreamedIsWritten(s, d);
    LastOfChain(Contents(s0), got, d, got + d, s0.Cap(), Contents(s), Contents(Streamed(s, d, false)));
  }

  /** A round without an error reads d, and leads from s to t. */
  ghost predicate RoundOn<T>(s: State<T>, script: seq<Step<T>>, d: seq<T>, t: State<T>, rest: seq<Step<T>>)
    requires s.Sound()
  {
    && Answer(script, s.Cap() - s.write) == Reply(d, None, rest)
    && s.write + |d| <= s.Cap() && t == Streamed(s, d, false)
  }

  lemma RoundGoesOn<T>(s: State<T>, script: seq<Step<T>>, d: seq<T>, t: State<T>, rest: seq<Step<T>>)
    requires s.Sound() && RoundOn(s, script, d, t, rest)
    ensures t.Sound() && StreamedAll(s, script) == StreamedAll(t, rest)
  {
    StreamedIsWritten(s, d);
  }

  lemma FlowGoesOn<T>(s0: State<T>, script0: seq<Step<T>>, s: State<T>, script: seq<Step<T>>, got: seq<T>,
                      d: seq<T>, t: State<T>, rest: seq<Step<T>>)
    requires s0.Sound() && InFlow(s0, script0, s, script, got) && RoundOn(s, script, d, t, rest)
    ensures InFlow(s0, script0, t, rest, got + d)
  {
    ReceivedOn(Deliver(script0, 0, 0, EOF), got, script, s.Cap() - s.write, d, rest);
    FlowedOn(s0, got, s, d);
    RoundGoesOn(s, script, d, t, rest);
  }

  /** The last round of a ReadFrom: the state before it, and the items it read. */
  datatype LastRound<T> = LastRound(before: State<T>, items: seq<T>) {
    ghost predicate Sound() {
      before.Sound() && before.write + |items| <= before.Cap()
    }

    /** The items ran over the read cursor of a ring that is not full. */
    ghost predicate RunsOver() {
      before.write < before.read <= before.write + |items|
    }
  }

  /**
   * How a ReadFrom ends: `got` was counted and kept, then a round read `last.items` together with the
   * error. Those items come along with the stop, and are put in the array without moving the cursors.
   */
  ghost predicate FlowEnded<T>(s0: State<T>, script0: seq<Step<T>>, last: LastRound<T>, s: State<T>, got: seq<T>,
                               stop: Option<Error>, script: seq<Step<T>>)
    requires s0.Sound()
  {
    var d := Deliver(script0, 0, 0, EOF);
    && last.Sound() && Flowed(s0, got, last.before)
    && s == StreamedAll(s0, script0) == Streamed(last.before, last.items, true)
    && d.items == got + last.items && (d.joined <==> last.items != [])
    && stop == Some(d.stop) && script == d.rest
  }

  lemma FlowStops<T>(s0: State<T>, script0: seq<Step<T>>, s: State<T>, script: seq<Step<T>>, got: seq<T>)
    requires s0.Sound() && InFlow(s0, script0, s, script, got)
    requires Answer(script, s.Cap() - s.write).err != None
    ensures var a := Answer(script, s.Cap() - s.write);
      FlowEnded(s0, script0, LastRound(s, a.items), Streamed(s, a.items, true), got, a.err, a.rest)
  {
    AnswerWithinSegment(script, s.Cap() - s.write, 0, 0, EOF);
  }

  /** Either way, for a round that took state s to t. */
  lemma FlowRound<T>(s0: State<T>, script0: seq<Step<T>>, s: State<T>, script: seq<Step<T>>, got: seq<T>,
                     t: State<T>, e: Option<Error>, rest: seq<Step<T>>) returns (news: seq<T>)
    requires s0.Sound() && InFlow(s0, script0, s, script, got)
    requires var a := Answer(script, s.Cap() - s.write);
      e == a.err && rest == a.rest && t == Streamed(s, a.items, e != None)
    ensures news == Answer(script, s.Cap() - s.write).items
    ensures e == None ==> InFlow(s0, script0, t, rest, got + news) && Shorter(rest, script)
    ensures e != None ==> FlowEnded(s0, script0, LastRound(s, news), t, got, e, rest)
  {
    news := Answer(script, s.Cap() - s.write).items;
    if e == None {
      FlowGoesOn(s0, script0, s, script, got, news, t, rest);
    } else {
      FlowStops(s0, script0, s, script, got);
    }
  }

  /** Every ReadFrom ends in such a last round. */
  lemma {:induction false} FlowEnds<T>(s0: State<T>, script0: seq<Step<T>>, s: State<T>, script: seq<Step<T>>,
                                       got: seq<T>)
    returns (last: LastRound<T>, all: seq<T>)
    requires s0.Sound() && InFlow(s0, script0, s, script, got)
    ensures var d := Deliver(script0, 0, 0, EOF);
      FlowEnded(s0, script0, last, StreamedAll(s0, script0), all, Some(d.stop), d.rest)
    decreases |script|, Head(script)
  {
    var a := Answer(script, s.Cap() - s.write);
    if a.err == None {
      FlowGoesOn(s0, script0, s, script, got, a.items, Streamed(s, a.items, false), a.rest);
      last, all := FlowEnds(s0, script0, Streamed(s, a.items, false), a.rest, got + a.items);
    } else {
      FlowStops(s0, script0, s, script, got);
      last, all := LastRound(s, a.items), got;
    }
  }

  /** The ring holds the last Cap items of what it held and of the stream, in order. */
  ghost predicate KeepsLast<T>(s0: State<T>, items: seq<T>, s: State<T>)
    requires s0.Sound()
  {
    s.Sound() && Contents(s) == LastOf(Contents(s0) + items, s0.Cap())
  }

  /**
   * Whether ReadFrom keeps the last Cap items, for every stream and every ring: it does if the error that
   * stops it comes alone. Otherwise, it does not if the ring was not yet full; and a full ring has the
   * newest items where the oldest belong.
   */
  lemma LastRoundDecides<T>(s0: State<T>, script0: seq<Step<T>>, last: LastRound<T>, s: State<T>, got: seq<T>,
                            stop: Option<Error>, script: seq<Step<T>>)
    requires s0.Sound() && FlowEnded(s0, script0, last, s, got, stop, script)
    ensures var d := Deliver(script0, 0, 0, EOF);
      var lost := last.items;
      && (!d.joined ==> KeepsLast(s0, d.items, s))
      && (s0.Len() + |got| < s0.Cap() ==> (KeepsLast(s0, d.items, s) <==> !d.joined))
      && (s0.Cap() <= s0.Len() + |got| ==>
           && s.Sound() && Contents(s) == lost + Contents(last.before)[|lost|..]
           && (KeepsLast(s0, d.items, s) <==>
               lost + Contents(last.before)[|lost|..] == Contents(last.before)[|lost|..] + lost))
  {
    var s1, lost := last.before, last.items;
    LastOfAppend(Contents(s0), got, lost, s0.Cap());
    LenIsDist(s1);
    if s1.full {
      FailedRoundWhenFull(s1, lost);
      LastOfFull(Contents(s1), lost);
    } else {
      FailedRoundKeepsItemsIff(s1, lost);
    }
    if lost == [] {
      NoNews(s1);
    }
  }

  lemma LastOfFull<T>(c: seq<T>, d: seq<T>)
    requires |d| <= |c|
    ensures LastOf(c + d, |c|) == c[|d|..] + d
  {
  }

  /**
   * From a source whose error comes alone ReadFrom leaves the last Cap items of everything, in order. As
   * long as everything fits, that is also the only way.
   */
  lemma StreamKeepsLast<T>(s: State<T>, script: seq<Step<T>>)
    requires s.Sound()
    ensures var d, t := Deliver(script, 0, 0, EOF), StreamedAll(s, script);
      && (!d.joined ==> KeepsLast(s, d.items, t))
      && (s.Len() + |d.items| <= s.Cap() ==> (KeepsLast(s, d.items, t) <==> !d.joined))
  {
    FlowStarts(s, script);
    var last, got := FlowEnds(s, script, s, script, []);
    var d := Deliver(script, 0, 0, EOF);
    LastRoundDecides(s, script, last, StreamedAll(s, script), got, Some(d.stop), d.rest);
  }

  lemma FlowMeans<T>(s0: State<T>, script0: seq<Step<T>>, last: LastRound<T>, s: State<T>, got: seq<T>,
                     stop: Option<Error>, script: seq<Step<T>>)
    requires s0.Sound() && FlowEnded(s0, script0, last, s, got, stop, script)
    ensures s.Sound() <==> !last.RunsOver()
    ensures var d := Deliver(script0, 0, 0, EOF);
      !d.joined ==> KeepsLast(s0, d.items, s) && |got| == |d.items|
  {
    FailedRoundIsSoundIff(last);
    LastRoundDecides(s0, script0, last, s, got, stop, script);
  }

  /** A failed round leaves a sound state exactly if its items did not run over the read cursor. */
  lemma FailedRoundIsSoundIff<T>(last: LastRound<T>)
    requires last.Sound()
    ensures Streamed(last.before, last.items, true).Sound() <==> !last.RunsOver()
  {
  }

  lemma OverwrittenInPlace<T>(items: seq<T>, write: nat, d: seq<T>)
    requires write < |items| && write + |d| <= |items|
    ensures Overwritten(items, write, d) == items[..write] + d + items[write + |d|..]
  {
  }

  lemma SplitInside<T>(a: seq<T>, d: seq<T>, b: seq<T>, k: nat)
    requires k <= |d|
    ensures (a + d + b)[|a| + k..] == d[k..] + b && (a + d + b)[..|a| + k] == a + d[..k]
  {
  }

  /**
   * What a round with an error leaves of a ring that is not full: what it held, and none of the items read,
   * unless they run over the read cursor. Then the ring counts as full with unequal cursors, and its slots from
   * the read cursor on hold the items read last, then what lay behind the write cursor before them, and the items
   * read first.
   */
  lemma FailedRoundLeaves<T>(last: LastRound<T>)
    requires last.Sound() && !last.before.full
    ensures var s, d, t := last.before, last.items, Streamed(last.before, last.items, true);
      if last.RunsOver() then
        var k := s.read - s.write;
        && t.full && t.read == s.read != s.write == t.write
        && RotatedLeft(t.items, t.read) == (d[k..] + s.items[s.write + |d|..]) + (s.items[..s.write] + d[..k])
      else t.Sound() && Contents(t) == Contents(s)
  {
    var s, d := last.before, last.items;
    if last.RunsOver() {
      OverwrittenInPlace(s.items, s.write, d);
      SplitInside(s.items[..s.write], d, s.items[s.write + |d|..], s.read - s.write);
    } else {
      LenIsDist(s);
      LenIsDist(Streamed(s, d, true));
    }
  }

  lemma NoNews<T>(s: State<T>)
    requires s.Sound()
    ensures Streamed(s, [], true) == s
    ensures LastOf(Contents(s) + [], s.Cap()) == Contents(s)
  {
    assert Overwritten(s.items, s.write, []) == s.items;
    assert Contents(s) + [] == Contents(s);
    LenIsDist(s);
  }

  // ---------- Streaming out ----------

  /** What WriteTo offers a sink, in order. */
  ghost function Offered<T>(s: State<T>): (r: seq<T>)
    requires s.Sound()
    ensures |r| == if s.read >= s.write then s.Cap() - s.read + s.write else s.write - s.read
    ensures forall i :: 0 <= i < |r| ==> r[i] == s.items[Wrap(s.read + i, s.Cap())]
  {
    var n := if s.read >= s.write then s.Cap() - s.read + s.write else s.write - s.read;
    seq(n, i requires 0 <= i < n => s.items[Wrap(s.read + i, s.Cap())])
  }

  /** That is the contents exactly if there are any; an empty ring offers all its stale items. */
  lemma OfferedIsContentsIff<T>(s: State<T>)
    requires s.Sound()
    ensures Offered(s) == Contents(s) <==> Contents(s) != []
    ensures Contents(s) == [] ==> |Offered(s)| == s.Cap()
  {
    LenIsDist(s);
    if s.Len() != 0 {
      assert Offered(s) == Contents(s);
    }
  }

  /** After the first n items offered went out in state s, t is reached and the sink has `received`. */
  ghost predicate Sent<T>(s: State<T>, received0: seq<T>, t: State<T>, received: seq<T>, n: nat)
    requires s.Sound()
  {
    && n <= |Offered(s)| && n <= s.Cap() && t == Drained(s, n) && received == received0 + Offered(s)[..n]
  }

  lemma SentFirst<T>(s: State<T>, received0: seq<T>, t: State<T>, received: seq<T>, n: nat)
    requires s.Sound() && s.write <= s.read && s.read + n <= s.Cap()
    requires t == Drained(s, n) && received == received0 + s.items[s.read..s.read + n]
    ensures Sent(s, received0, t, received, n)
    ensures n == s.Cap() - s.read ==> t == s.(read := 0, full := false)
  {
    OfferedFirst(s, n);
    ModIsWrap(s.read + n, s.Cap());
  }

  lemma OfferedFirst<T>(s: State<T>, n: nat)
    requires s.Sound() && s.write <= s.read && s.read + n <= s.Cap()
    ensures n <= |Offered(s)| && Offered(s)[..n] == s.items[s.read..s.read + n]
  {
    SliceIs(s.items, s.read, Offered(s), n);
  }

  /** Where WriteTo goes on from: from the start, or after all items up to the end of the array, or after nothing. */
  ghost predicate HalfSent<T>(s: State<T>, s1: State<T>, n: nat)
    requires s.Sound()
  {
    if s.read < s.write then s1 == s && n == 0
    else
      || (n == s.Cap() - s.read && s1 == s.(read := 0, full := false))
      || (n == 0 && s.read == s.write && s1 == s.(full := false))
  }

  /** After n items from the end of the array, or none, m more from state s1. */
  lemma SentSecond<T>(s: State<T>, received0: seq<T>, n: nat, s1: State<T>, received1: seq<T>, t: State<T>,
                      received: seq<T>, m: nat)
    requires s.Sound() && s1.Sound() && s1.read + m <= s.write && HalfSent(s, s1, n)
    requires n <= |Offered(s)| && received1 == received0 + Offered(s)[..n]
    requires t == Drained(s1, m) && received == received1 + s.items[s1.read..s1.read + m]
    ensures Sent(s, received0, t, received, n + m)
    ensures s1.read + m == s.write && (n != 0 || s.read < s.write) ==> n + m == |Offered(s)|
  {
    ModIsWrap(s.read + n + m, s.Cap());
    ModIsWrap(s1.read + m, s.Cap());
    PrefixIsJoined(Offered(s)[..n], s.items, s1.read, Offered(s), n, m);
    ConcatAssociates(received0, Offered(s)[..n], s.items[s1.read..s1.read + m]);
  }

  lemma NothingSent<T>(s: State<T>, received: seq<T>)
    requires s.Sound()
    ensures received == received + Offered(s)[..0]
  {
  }

  /** Nothing has gone out of a ring with equal cursors: if it was full, it is empty now. */
  lemma SentNothing<T>(s: State<T>, received0: seq<T>, t: State<T>, received: seq<T>, n: nat)
    requires s.Sound() && Sent(s, received0, t, received, n)
    ensures s.read == s.write && n == 0 ==> t.Sound() && received == received0 && Contents(t) == []
  {
    if s.read == s.write && n == 0 {
      LenIsDist(s);
      DrainedKeepsRest(s, 0);
      assert Offered(s)[..0] == [] && received0 + [] == received0;
    }
  }

  /** Everything offered has gone out: of a ring that is not empty that is the contents, and it is empty now. */
  lemma SentAll<T>(s: State<T>, received0: seq<T>, t: State<T>, received: seq<T>, n: nat)
    requires s.Sound() && Sent(s, received0, t, received, n)
    ensures n == |Offered(s)| && Contents(s) != [] ==>
      t.Sound() && received == received0 + Contents(s) && Contents(t) == []
  {
    if n == |Offered(s)| && Contents(s) != [] {
      OfferedIsContentsIff(s);
      DrainedKeepsRest(s, s.Len());
      assert Offered(s)[..|Offered(s)|] == Offered(s);
    }
  }

  /** Clearing `full` loses everything when nothing went out of a full ring; otherwise just what went out is gone. */
  lemma DrainedKeepsRest<T>(s: State<T>, n: nat)
    requires s.Sound() && n <= s.Len()
    ensures Drained(s, n).Sound()
    ensures s.full && n == 0 ==> Contents(Drained(s, n)) == []
    ensures !(s.full && n == 0) ==> Contents(Drained(s, n)) == Contents(s)[n..]
  {
    LenIsDist(s);
    ModIsWrap(s.read + n, s.Cap());
    if n == 0 {
      LenIsDist(Drained(s, n));
    } else {
      ReadTakesOldest(s, n);
    }
  }

  // ---------- The ring buffer ----------

  /** Copies p to the slots from write on, and goes on at the front if it runs past the end. */
  method Overwrite<T>(items: array<T>, write: nat, p: seq<T>)
    requires write < items.Length && |p| <= items.Length
    modifies items
    ensures items[..] == Overwritten(old(items[..]), write, p)
  {
    if write + |p| <= items.Length {
      Store(items, write, p);
    } else {
      var n := items.Length - write;
      Store(items, write, p[..n]);
      Store(items, 0, p[n..]);
    }
  }

  class RingBuffer<T(0)> {
    const items: array<T>
    var read: nat
    var write: nat
    var full: bool

    constructor (size: nat)
      requires 1 <= size
      ensures Valid() && items.Length == size && fresh(items) && Contents(St()) == [] && read == write == 0 && !full
    {
      items := new T[size];
      read, write, full := 0, 0, false;
      new;
      LenIsDist(St());
    }

    ghost function St(): State<T>
      reads this, items
    {
      State(items[..], read, write, full)
    }

    ghost predicate Valid()
      reads this, items
    {
      St().Sound()
    }

    method Len() returns (n: nat)
      requires Valid()
      ensures n == St().Len() == |Contents(St())|
    {
      LenIsDist(St());
      if full {
        return items.Length;
      }
      return (items.Length + (write - read)) % items.Length;
    }

    method WriteWithinBounds(p: seq<T>, end: nat) returns (n: nat)
      requires Valid() && end == write + |p| < items.Length
      modifies this, items
      ensures St() == WrittenWithinBounds(old(St()), p) && n == |p|
    {
      Overwrite(items, write, p);
      if write < read && end >= read {
        full := true;
      }
      write := end;
      if full {
        read := end;
      }
      return |p|;
    }

    method WriteWrapped(p: seq<T>, end: nat) returns (n: nat)
      requires Valid() && |p| < items.Length <= end == write + |p|
      modifies this, items
      ensures St() == WrittenWrapped(old(St()), p) && n == |p|
    {
      ModIsWrap(end, items.Length);
      var endWrapped := end % items.Length;
      Overwrite(items, write, p);
      if write < read && end >= read {
        full := true;
      }
      write := endWrapped;
      if full || endWrapped >= read {
        read := write;
        full := true;
      }
      return |p|;
    }

    /** Writes p over the oldest items if it must; at most Cap items are kept, and reported. */
    method Write(p: seq<T>) returns (n: nat)
      requires Valid()
      modifies this, items
      ensures Valid() && St() == Written(old(St()), p)
      ensures n == if |p| < items.Length then |p| else items.Length
      ensures |p| < items.Length ==> Contents(St()) == LastOf(old(Contents(St())) + p, items.Length)
    {
      if |p| < items.Length {
        WriteKeepsLast(St(), p);
        var end := write + |p|;
        if end < items.Length {
          n := WriteWithinBounds(p, end);
        } else {
          n := WriteWrapped(p, end);
        }
        return;
      }
      Store(items, 0, p[|p| - items.Length..]);
      assert items[..] == p[|p| - items.Length..];
      read := write;
      full := true;
      return items.Length;
    }

    method WriteItem(item: T)
      requires Valid()
      modifies this, items
      ensures Valid() && St() == WrittenItem(old(St()), item)
      ensures Contents(St()) == LastOf(old(Contents(St())) + [item], items.Length)
    {
      WriteItemIsWrite(St(), item);
      var pos := (write + 1) % items.Length;
      if full {
        read := pos;
      } else if pos == read {
        full := true;
      }
      items[write] := item;
      write := pos;
    }

    /** Reads the oldest items into p. */
    method Read(p: array<T>) returns (n: nat)
      requires Valid() && p != items
      modifies this, p
      ensures Valid() && St() == AfterRead(old(St()), p.Length)
      ensures n <= p.Length && n <= |old(Contents(St()))| && (n < p.Length ==> n == |old(Contents(St()))|)
      ensures Contents(St()) == old(Contents(St()))[n..]
      ensures forall i :: 0 <= i < n ==> p[i] == old(Contents(St()))[i]
      ensures forall i :: n <= i < p.Length ==> p[i] == old(p[i])
    {
      ReadTakesOldest(St(), p.Length);
      LenIsDist(St());
      var len := Len();
      if p.Length == 0 || len == 0 {
        return 0;
      }
      n := ReadSome(p);
    }

    /** The rest of Read: there are items, and some are wanted. */
    method ReadSome(p: array<T>) returns (n: nat)
      requires Valid() && p != items && 0 < p.Length && 0 < St().Len()
      modifies this, p
      ensures n == ReadCount(old(St()), p.Length) && St() == Drained(old(St()), n)
      ensures forall i :: 0 <= i < n ==> p[i] == old(Contents(St()))[i]
      ensures forall i :: n <= i < p.Length ==> p[i] == old(p[i])
    {
      if read >= write {
        n := ReadAround(p);
      } else {
        n := ReadStraight(p);
      }
    }

    /** The unread items go on at the front of the array. */
    method ReadAround(p: array<T>) returns (n: nat)
      requires Valid() && p != items && 0 < p.Length && 0 < St().Len() && write <= read
      modifies this, p
      ensures n == ReadCount(old(St()), p.Length) && St() == Drained(old(St()), n)
      ensures forall i :: 0 <= i < n ==> p[i] == old(Contents(St()))[i]
      ensures forall i :: n <= i < p.Length ==> p[i] == old(p[i])
    {
      LenIsDist(St());
      n := if p.Length < items.Length - read then p.Length else items.Length - read;
      CopyToFront(p, items, read, read + n);
      full := false;
      if n < p.Length {
        var k := if p.Length - n < write then p.Length - n else write;
        Store(p, n, items[..k]);
        n := n + k;
      }
      read := (read + n) % items.Length;
    }

    method ReadStraight(p: array<T>) returns (n: nat)
      requires Valid() && p != items && read < write
      modifies this, p
      ensures n == ReadCount(old(St()), p.Length) && St() == Drained(old(St()), n)
      ensures forall i :: 0 <= i < n ==> p[i] == old(Contents(St()))[i]
      ensures forall i :: n <= i < p.Length ==> p[i] == old(p[i])
    {
      LenIsDist(St());
      n := if p.Length < write - read then p.Length else write - read;
      CopyToFront(p, items, read, read + n);
      ModIsWrap(read + n, items.Length);
      read := read + n;
    }

    /** Reads the item at the read cursor; it does not look whether there is one. */
    method ReadItem() returns (item: T)
      requires Valid()
      modifies this
      ensures Valid() && St() == AfterReadItem(old(St())) && item == old(items[read])
      ensures old(Contents(St())) != [] ==> old(Contents(St())) == [item] + Contents(St())
    {
      ReadItemTakesOldest(St());
      item := items[read];
      read := (read + 1) % items.Length;
      full := false;
    }

    /** One read of the source to the write cursor. */
    method Fetch(b: Source<T>) returns (num: nat, e: Option<Error>)
      requires Valid() && b.ending == AtEOF
      modifies items, b
      ensures var a := Answer(old(b.script), items.Length - write);
        && items[..] == Overwritten(old(items[..]), write, a.items)
        && num == |a.items| && e == a.err && b.script == a.rest
    {
      num, e := b.Read(items, write, items.Length);
    }

    /** One round of ReadFrom; after an error the cursors stay. */
    method Round(b: Source<T>) returns (num: nat, e: Option<Error>)
      requires Valid() && b.ending == AtEOF
      modifies this, items, b
      ensures var a := Answer(old(b.script), items.Length - old(write));
        && num == |a.items| && e == a.err && b.script == a.rest
        && St() == Streamed(old(St()), a.items, a.err != None)
    {
      num, e := Fetch(b);
      if write < read && write + num >= read {
        full := true;
      }
      if e != None {
        return;
      }
      if items.Length - (write - read) == num {
        full := true;
        read := write;
      }
      write := (write + num) % items.Length;
      if full {
        read := write;
      }
    }

    /** A round, seen as part of the ReadFrom that began with s0 and script0. */
    method Pump(b: Source<T>, ghost s0: State<T>, ghost script0: seq<Step<T>>, ghost got: seq<T>)
      returns (num: nat, e: Option<Error>, ghost news: seq<T>)
      requires Valid() && b.ending == AtEOF && s0.Sound() && InFlow(s0, script0, St(), b.script, got)
      modifies this, items, b
      ensures num == |news|
      ensures e == None ==> InFlow(s0, script0, St(), b.script, got + news) && Shorter(b.script, old(b.script))
      ensures e != None ==> FlowEnded(s0, script0, LastRound(old(St()), news), St(), got, e, b.script)
    {
      ghost var s, script := St(), b.script;
      num, e := Round(b);
      news := FlowRound(s0, script0, s, script, got, St(), e, b.script);
    }

    /**
     * Takes everything the source delivers up to its first error; EOF is not passed on. Only what comes
     * before the round with the error is counted; LastRoundDecides says what the ring then holds.
     */
    method ReadFrom(b: Source<T>)
      returns (n: nat, err: Option<Error>, ghost got: seq<T>, ghost stop: Option<Error>, ghost last: LastRound<T>)
      requires Valid() && b.ending == AtEOF
      modifies this, items, b
      ensures FlowEnded(old(St()), old(b.script), last, St(), got, stop, b.script)
      ensures n == |got| && err == if stop == Some(EOF) then None else stop
      ensures Valid() <==> !last.RunsOver()
      ensures var d := Deliver(old(b.script), 0, 0, EOF);
        !d.joined ==> KeepsLast(old(St()), d.items, St()) && n == |d.items|
    {
      n, got := 0, [];
      ghost var s0, script0 := St(), b.script;
      FlowStarts(s0, script0);
      while true
        invariant Valid() && InFlow(s0, script0, St(), b.script, got) && n == |got|
        decreases |b.script|, Head(b.script)
      {
        ghost var news, before := [], St();
        var num, e;
        num, e, news := Pump(b, s0, script0, got);
        if e != None {
          last := LastRound(before, news);
          FlowMeans(s0, script0, last, St(), got, e, b.script);
          return n, if e == Some(EOF) then None else e, got, e, last;
        }
        n, got := n + num, got + news;
      }
    }

    /** Sends the items between the read cursor and `end`, and moves the cursor past what was taken. */
    method Send(b: Sink<T>, end: nat) returns (num: nat, e: Option<Error>)
      requires Valid() && read <= end <= items.Length
      modifies this, b
      ensures num == Taken(old(b.verdicts), end - old(read)) && e == Refusal(old(b.verdicts))
      ensures b.received == old(b.received) + items[old(read)..old(read) + num]
      ensures b.verdicts == Later(old(b.verdicts))
      ensures St() == Drained(old(St()), num)
    {
      num, e := b.Write(items[read..end]);
      assert items[read..end][..num] == items[read..read + num];
      full := false;
      read := (read + num) % items.Length;
    }

    /** The first half of WriteTo: the items up to the end of the array, unless they are all the unread ones. */
    method SendEnd(b: Sink<T>) returns (num: nat, e: Option<Error>)
      requires Valid() && write <= read
      requires TakesOrRefuses(b.verdicts, items.Length - read) || (read == write &&
        Taken(b.verdicts, items.Length - read) == 0)
      modifies this, b
      ensures num == Taken(old(b.verdicts), old(items.Length - read)) && e == Refusal(old(b.verdicts))
      ensures b.verdicts == Later(old(b.verdicts)) && write == old(write)
      ensures Sent(old(St()), old(b.received), St(), b.received, num)
      ensures e == None ==> Valid() && read <= write && HalfSent(old(St()), St(), num)
    {
      ghost var s, r0 := St(), b.received;
      num, e := Send(b, items.Length);
      SentFirst(s, r0, St(), b.received, num);
      ModIsWrap(s.read + num, items.Length);
    }

    /** A WriteTo ends with this call of the sink, which k items have already gone to. */
    ghost predicate Ends(verdicts: seq<Verdict>, k: nat, offered: nat, n: nat, stop: Option<Error>,
                         later: seq<Verdict>) {
      n == k + Taken(verdicts, offered) && stop == Refusal(verdicts) && later == Later(verdicts)
    }

    /** The second half of WriteTo, n items after state s. */
    method SendRest(b: Sink<T>, ghost s: State<T>, ghost r0: seq<T>, n: nat) returns (num: nat, e: Option<Error>)
      requires Valid() && s.Sound() && write == s.write && St().items == s.items && read <= write
      requires n <= |Offered(s)| && b.received == r0 + Offered(s)[..n] && HalfSent(s, St(), n)
      modifies this, b
      ensures num == Taken(old(b.verdicts), old(write - read)) && e == Refusal(old(b.verdicts))
      ensures b.verdicts == Later(old(b.verdicts))
      ensures Sent(s, r0, St(), b.received, n + num)
      ensures num == old(write - read) && (n != 0 || s.read < s.write) ==> n + num == |Offered(s)|
    {
      ghost var s1, r1 := St(), b.received;
      num, e := Send(b, write);
      SentSecond(s, r0, n, s1, r1, St(), b.received, num);
    }

    /**
     * Offers the unread items to a sink; EOF from it is not passed on. A sink that leaves some of the items
     * up to the end of the array must say so, since the source would go on with a slice that cannot be; only
     * if the cursors are equal can it leave all of them, and then a full ring loses them.
     */
    method WriteTo(b: Sink<T>) returns (n: nat, err: Option<Error>, ghost stop: Option<Error>)
      requires Valid()
      requires write <= read ==>
        TakesOrRefuses(b.verdicts, items.Length - read) || (read == write &&
          Taken(b.verdicts, items.Length - read) == 0)
      modifies this, b
      ensures Sent(old(St()), old(b.received), St(), b.received, n)
      ensures err == if stop == Some(EOF) then None else stop
      ensures old(read < write) ==> Ends(old(b.verdicts), 0, old(write - read), n, stop, b.verdicts)
      ensures old(write <= read && Refusal(b.verdicts) != None) ==>
        Ends(old(b.verdicts), 0, old(items.Length - read), n, stop, b.verdicts)
      ensures old(write <= read && Refusal(b.verdicts) == None) ==>
        var k := old(Taken(b.verdicts, items.Length - read));
        Ends(Later(old(b.verdicts)), k, if k == 0 then 0 else old(write), n, stop, b.verdicts)
      ensures stop == None && Conforming(old(b.verdicts)) ==> n == |old(Offered(St()))|
      ensures old(b.verdicts) == [] && old(Contents(St())) != [] ==>
        Valid() && b.received == old(b.received) + old(Contents(St())) && Contents(St()) == []
      ensures old(read == write && Taken(b.verdicts, items.Length - read) == 0) ==>
        n == 0 && Valid() && b.received == old(b.received) && Contents(St()) == []
    {
      ghost var s, r0 := St(), b.received;
      n := 0;
      NothingSent(s, r0);
      if read >= write {
        var e;
        n, e := SendEnd(b);
        if e != None {
          SentNothing(s, r0, St(), b.received, n);
          return n, if e == Some(EOF) then None else e, e;
        }
      }
      var num, e := SendRest(b, s, r0, n);
      n := n + num;
      SentAll(s, r0, St(), b.received, n);
      SentNothing(s, r0, St(), b.received, n);
      return n, if e == Some(EOF) then None else e, e;
    }
  }
}
