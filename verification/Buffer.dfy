/** The growable first-in first-out buffer and its growth policy. */
module Buffers {
  import opened Streams

  const SMALL_BUFFER_SIZE := 64
  const MIN_READ := 512

  // ---------- The growth policy ----------

  /** Where the unread items lie in the backing array: between off and len. */
  datatype Shape = Shape(isNil: bool, off: nat, len: nat, cap: nat) {
    ghost predicate Sound() {
      off <= len <= cap && (isNil ==> cap == 0)
    }

    function Unread(): int {
      len - off
    }
  }

  /** A grown buffer, the position at which to write, and how many items were moved to get there. */
  datatype Growth = Growth(shape: Shape, at: nat, moved: nat)

  /** grow: reslice, allocate a small buffer, slide down, or reallocate at the requested size. */
  function Grown(s: Shape, n: nat): (g: Growth)
    requires s.Sound()
    ensures g.shape.Sound() && g.at + n == g.shape.len && g.at - g.shape.off == s.Unread()
  {
    var m := s.Unread();
    var t := if m == 0 && s.off != 0 then s.(off := 0, len := 0) else s;
    if n <= t.cap - t.len then
      Growth(t.(len := t.len + n), t.len, 0)
    else if t.isNil && n <= SMALL_BUFFER_SIZE then
      Growth(Shape(false, 0, n, SMALL_BUFFER_SIZE), 0, 0)
    else if n <= t.cap / 2 - m then
      Growth(t.(off := 0, len := m + n), m, m)
    else
      Growth(Shape(false, 0, m + n, NewCapacity(m, t.off + n, t.cap - t.off)), m, m)
  }

  /** growSlice: room for n more items than the l there are, but at least twice the old capacity. */
  function NewCapacity(l: nat, n: nat, cap: nat): (c: nat)
    ensures l + n <= c && 2 * cap <= c && (c == l + n || c == 2 * cap)
  {
    if l + n < 2 * cap then 2 * cap else l + n
  }

  /** Write reslices if it can before it looks at anything else. */
  function Extended(s: Shape, n: nat): (g: Growth)
    requires s.Sound()
    ensures g.shape.Sound() && g.at + n == g.shape.len && g.at - g.shape.off == s.Unread()
  {
    if n <= s.cap - s.len then Growth(s.(len := s.len + n), s.len, 0) else Grown(s, n)
  }

  // ---------- Runs ----------

  /** What the operations do to the shape; Advance stands for every read, Reserve for Grow. */
  datatype Op = Write(n: nat) | Reserve(n: nat) | Advance(n: nat) | Back | Truncate(n: nat) | Reset

  predicate Legal(s: Shape, op: Op) {
    match op
    case Advance(n) => n <= s.Unread()
    case Back => 0 < s.off
    case Truncate(n) => 0 < n <= s.Unread()
    case _ => true
  }

  function After(s: Shape, op: Op): (t: Shape)
    requires s.Sound() && Legal(s, op)
    ensures t.Sound()
  {
    match op
    case Write(n) => Extended(s, n).shape
    case Reserve(n) => Grown(s, n).shape.(len := Grown(s, n).at)
    case Advance(n) => s.(off := s.off + n)
    case Back => s.(off := s.off - 1)
    case Truncate(n) => s.(len := s.off + n)
    case Reset => s.(off := 0, len := 0)
  }

  /** Items moved within or between backing arrays by one operation. */
  function Moved(s: Shape, op: Op): nat
    requires s.Sound()
  {
    match op
    case Write(n) => Extended(s, n).moved
    case Reserve(n) => Grown(s, n).moved
    case _ => 0
  }

  /** Room one operation asks for: for a Write, the items written. */
  function Asked(op: Op): nat {
    if op.Write? || op.Reserve? then op.n else 0
  }

  /** Items the buffer has to hold to carry out one operation. */
  function Needed(s: Shape, op: Op): nat
    requires s.Sound()
  {
    if op.Write? || op.Reserve? then s.Unread() + op.n else 0
  }

  ghost predicate LegalRun(s: Shape, ops: seq<Op>)
    decreases |ops|
  {
    s.Sound() && (ops == [] || (Legal(s, ops[0]) && LegalRun(After(s, ops[0]), ops[1..])))
  }

  ghost function Run(s: Shape, ops: seq<Op>): (t: Shape)
    requires LegalRun(s, ops)
    ensures t.Sound()
    decreases |ops|
  {
    if ops == [] then s else Run(After(s, ops[0]), ops[1..])
  }

  ghost function AllMoved(s: Shape, ops: seq<Op>): nat
    requires LegalRun(s, ops)
    decreases |ops|
  {
    if ops == [] then 0 else Moved(s, ops[0]) + AllMoved(After(s, ops[0]), ops[1..])
  }

  function AllAsked(ops: seq<Op>): nat {
    if ops == [] then 0 else Asked(ops[0]) + AllAsked(ops[1..])
  }

  ghost function Peak(s: Shape, ops: seq<Op>): nat
    requires LegalRun(s, ops)
    decreases |ops|
  {
    if ops == [] then 0
    else
      var rest := Peak(After(s, ops[0]), ops[1..]);
      if rest < Needed(s, ops[0]) then Needed(s, ops[0]) else rest
  }

  lemma {:induction false} RunMore(s: Shape, ops: seq<Op>, op: Op)
    requires LegalRun(s, ops) && Legal(Run(s, ops), op)
    ensures LegalRun(s, ops + [op]) && Run(s, ops + [op]) == After(Run(s, ops), op)
    ensures AllMoved(s, ops + [op]) == AllMoved(s, ops) + Moved(Run(s, ops), op)
    ensures AllAsked(ops + [op]) == AllAsked(ops) + Asked(op)
    decreases |ops|
  {
    var all := ops + [op];
    if ops == [] {
      assert all[1..] == [];
    } else {
      RunMore(After(s, ops[0]), ops[1..], op);
      assert all[0] == ops[0] && all[1..] == ops[1..] + [op];
    }
  }

  /** A run that has led from s0 to s, moved that many items and asked for that much room. */
  ghost predicate Ran(s0: Shape, ops: seq<Op>, s: Shape, moved: int, asked: int) {
    LegalRun(s0, ops) && Run(s0, ops) == s && AllMoved(s0, ops) == moved && AllAsked(ops) == asked
  }

  /** What ReadFrom is to the array that read these numbers of items: to grow by MIN_READ and to write, each time. */
  ghost function Rounds(counts: seq<nat>): seq<Op> {
    if counts == [] then []
    else Rounds(counts[..|counts| - 1]) + [Reserve(MIN_READ), Op.Write(counts[|counts| - 1])]
  }

  lemma OneMoreRound(counts: seq<nat>, m: nat)
    ensures Rounds(counts + [m]) == Rounds(counts) + [Reserve(MIN_READ), Op.Write(m)]
  {
    assert (counts + [m])[..|counts|] == counts;
  }

  /** One round of ReadFrom is to make room for MIN_READ items, and to write those that were read into it. */
  lemma RoundRan(s0: Shape, counts: seq<nat>, s: Shape, moved: int, asked: int, m: nat)
    requires Ran(s0, Rounds(counts), s, moved, asked)
    ensures s.Sound()
    ensures var roomy := After(s, Reserve(MIN_READ));
      m <= roomy.cap - roomy.len ==>
        Ran(s0, Rounds(counts + [m]), roomy.(len := roomy.len + m),
            moved + Moved(s, Reserve(MIN_READ)), asked + MIN_READ + m)
  {
    var ops := Rounds(counts);
    RunMore(s0, ops, Reserve(MIN_READ));
    RunMore(s0, ops + [Reserve(MIN_READ)], Op.Write(m));
    assert ops + [Reserve(MIN_READ)] + [Op.Write(m)] == ops + [Reserve(MIN_READ), Op.Write(m)];
    OneMoreRound(counts, m);
  }

  /** Moves that are paid for but not yet made. */
  function Credit(s: Shape): nat {
    if s.cap < 2 * s.len then 2 * s.len - s.cap else 0
  }

  /** Every reorganisation is paid for by the room asked for and the credit it uses up. */
  lemma GrownIsPaid(s: Shape, n: nat)
    requires s.Sound()
    ensures Grown(s, n).moved + Credit(Grown(s, n).shape) <= 2 * n + Credit(s)
    ensures Grown(s, n).moved + Credit(Grown(s, n).shape.(len := Grown(s, n).at)) <= 2 * n + Credit(s)
  {
  }

  lemma StepIsPaid(s: Shape, op: Op)
    requires s.Sound() && Legal(s, op)
    ensures Moved(s, op) + Credit(After(s, op)) <= 2 * Asked(op) + Credit(s)
  {
    match op
    case Write(n) => GrownIsPaid(s, n);
    case Reserve(n) => GrownIsPaid(s, n);
    case _ =>
  }

  /**
   * Over every run, the items moved by growing are at most twice the items written (and room reserved)
   * plus the items the buffer started with.
   */
  lemma {:induction false} AmortisedGrowth(s: Shape, ops: seq<Op>)
    requires LegalRun(s, ops)
    ensures AllMoved(s, ops) + Credit(Run(s, ops)) <= 2 * AllAsked(ops) + Credit(s)
    ensures AllMoved(s, ops) <= 2 * AllAsked(ops) + s.len
    decreases |ops|
  {
    if ops != [] {
      StepIsPaid(s, ops[0]);
      AmortisedGrowth(After(s, ops[0]), ops[1..]);
    }
  }

  /** What Grow promises: writes of no more than the room made move nothing, and stay in the same array. */
  lemma {:induction false} ReservedRoomSuffices(s: Shape, n: nat, ops: seq<Op>)
    requires s.Sound() && (forall i :: 0 <= i < |ops| ==> ops[i].Write?) && AllAsked(ops) <= n
    ensures var roomy := After(s, Reserve(n));
      && LegalRun(roomy, ops) && AllMoved(roomy, ops) == 0
      && Run(roomy, ops) == roomy.(len := roomy.len + AllAsked(ops))
  {
    WritesThatFit(After(s, Reserve(n)), ops);
  }

  lemma {:induction false} WritesThatFit(s: Shape, ops: seq<Op>)
    requires s.Sound() && (forall i :: 0 <= i < |ops| ==> ops[i].Write?) && AllAsked(ops) <= s.cap - s.len
    ensures LegalRun(s, ops) && AllMoved(s, ops) == 0 && Run(s, ops) == s.(len := s.len + AllAsked(ops))
    decreases |ops|
  {
    if ops != [] {
      WritesThatFit(After(s, ops[0]), ops[1..]);
    }
  }

  lemma StepCapacity(s: Shape, op: Op)
    requires s.Sound() && Legal(s, op)
    ensures var c := After(s, op).cap;
      s.cap <= c && (c == s.cap || c == SMALL_BUFFER_SIZE || c <= 4 * Needed(s, op))
  {
  }

  /** Over every run, the capacity stays within the largest of where it started, 64, and four times the peak need. */
  lemma {:induction false} CapacityBound(s: Shape, ops: seq<Op>)
    requires LegalRun(s, ops)
    ensures var c := Run(s, ops).cap;
      s.cap <= c && (c == s.cap || c <= SMALL_BUFFER_SIZE || c <= 4 * Peak(s, ops))
    decreases |ops|
  {
    if ops != [] {
      StepCapacity(s, ops[0]);
      CapacityBound(After(s, ops[0]), ops[1..]);
    }
  }

  // ---------- The buffer ----------

  /** The first n items of s do not satisfy delim. */
  ghost predicate NoneOf<T>(s: seq<T>, delim: T -> bool, n: nat)
    requires n <= |s|
  {
    forall i :: 0 <= i < n ==> !delim(s[i])
  }

  /**
   * The first n items of s are what ReadItems returns: they end in the first delimiter, or there is none and that
   * is an error.
   */
  ghost predicate LineRead<T>(s: seq<T>, delim: T -> bool, n: nat, err: Option<Error>)
    requires n <= |s|
  {
    match err
    case None => 0 < n && delim(s[n - 1]) && NoneOf(s, delim, n - 1)
    case Some(e) => e == EOF && n == |s| && NoneOf(s, delim, n)
  }

  /** A larger copy of data[off..len], with room for n more items. */
  method GrowSlice<T(0)>(data: array?<T>, off: nat, len: nat, n: nat) returns (b: array<T>)
    requires off <= len <= if data == null then 0 else data.Length
    ensures fresh(b) && b.Length == NewCapacity(len - off, n, (if data == null then 0 else data.Length) - off)
    ensures data != null ==> forall k :: 0 <= k < len - off ==> b[k] == data[off + k]
  {
    b := new T[NewCapacity(len - off, n, (if data == null then 0 else data.Length) - off)];
    if data != null {
      CopyToFront(b, data, off, len);
    }
  }

  /** The unread items are data[off..len]; the slots from len on are spare capacity. */
  class Buffer<T(0)> {
    var data: array?<T>
    var off: nat
    var len: nat
    var isReading: bool
    ghost var contents: seq<T>
    ghost var moved: nat

    constructor (data: array?<T>, len: nat)
      requires len <= if data == null then 0 else data.Length
      ensures Valid() && this.data == data && this.len == len && off == 0 && !isReading && moved == 0
      ensures data != null ==> contents == data[..len]
    {
      this.data, this.len := data, len;
      off, isReading, moved := 0, false, 0;
      contents := if data == null then [] else data[..len];
    }

    function Cap(): nat
      reads this
    {
      if data == null then 0 else data.Length
    }

    /** `contents` is what is unread. */
    ghost predicate Valid()
      reads this, data
    {
      && off <= len <= Cap() && |contents| == len - off
      && forall i :: 0 <= i < |contents| ==> data[off + i] == contents[i]
    }

    ghost function CurrentShape(): Shape
      reads this
    {
      Shape(data == null, off, len, Cap())
    }

    /** The last read can be undone, and would bring back x. */
    ghost predicate CanUnread(x: T)
      requires Valid()
      reads this, data
    {
      isReading && 0 < off && data[off - 1] == x
    }

    method Reset()
      requires Valid()
      modifies this`off, this`len, this`isReading, this`contents
      ensures Valid() && CurrentShape() == After(old(CurrentShape()), Op.Reset) && contents == [] && !isReading
    {
      off, len, isReading, contents := 0, 0, false, [];
    }

    /** Hands out the first n items; they stay where they are, just before off. */
    method Take(n: nat)
      requires Valid() && n <= len - off
      modifies this`off, this`contents
      ensures Valid() && off == old(off) + n && contents == old(contents)[n..]
      ensures forall i :: 0 <= i < n ==> data[off - n + i] == old(contents)[i]
    {
      off := off + n;
      contents := contents[n..];
    }

    method TryGrowByReslice(n: nat) returns (at: nat, ok: bool)
      requires off <= len <= Cap()
      modifies this`len
      ensures ok == (n <= Cap() - old(len))
      ensures ok ==> at == old(len) && len == old(len) + n
      ensures !ok ==> at == 0 && len == old(len)
    {
      if n <= Cap() - len {
        at, ok := len, true;
        len := len + n;
      } else {
        at, ok := 0, false;
      }
    }

    /** The unread items lie at off, and n unused slots follow them from `at` to len. */
    ghost predicate Roomy(at: nat, n: nat)
      reads this, data
    {
      && off <= at <= len <= Cap() && len == at + n && |contents| == at - off
      && forall i :: 0 <= i < |contents| ==> data[off + i] == contents[i]
    }

    /** Makes room for n more items and tells where to write them. */
    method MakeRoom(n: nat) returns (at: nat)
      requires Valid()
      modifies this`data, this`off, this`len, this`isReading, this`moved, this`contents, data
      ensures (data == old(data) || fresh(data)) && Roomy(at, n) && contents == old(contents)
      ensures var g := Grown(old(CurrentShape()), n);
        CurrentShape() == g.shape && at == g.at && moved == old(moved) + g.moved
      ensures isReading == (old(isReading) && !old(contents == [] && off != 0))
      ensures 0 < off ==> data == old(data) && data[..] == old(data[..])
    {
      var m := len - off;
      if m == 0 && off != 0 {
        Reset();
      }
      var i, ok := TryGrowByReslice(n);
      if ok {
        return i;
      }
      if data == null && n <= SMALL_BUFFER_SIZE {
        data := new T[SMALL_BUFFER_SIZE];
        len := n;
        return 0;
      }
      Reorganise(n);
      return m;
    }

    /** Slides the items down if that leaves half of the array free, and reallocates otherwise. */
    method Reorganise(n: nat)
      requires Valid() && Cap() - len < n
      modifies this`data, this`off, this`len, this`moved, data
      ensures (data == old(data) || fresh(data)) && Roomy(|contents|, n)
      ensures off == 0 && moved == old(moved) + |contents| && data != null
      ensures Cap() == if n <= old(Cap()) / 2 - |contents| then old(Cap())
                       else NewCapacity(|contents|, old(off) + n, old(Cap() - off))
    {
      var m := len - off;
      if n <= Cap() / 2 - m {
        CopyToFront(data, data, off, len);
      } else {
        data := GrowSlice(data, off, len, off + n);
      }
      moved := moved + m;
      off := 0;
      len := m + n;
    }

    /**
     * Makes sure that n more items can be written without another allocation. A read can still be undone
     * afterwards, unless that has emptied the buffer; the item it brings back is there as long as nothing was moved.
     */
    method Grow(n: nat)
      requires Valid()
      modifies this`data, this`off, this`len, this`isReading, this`moved, this`contents, data
      ensures Valid() && (data == old(data) || fresh(data))
      ensures CurrentShape() == After(old(CurrentShape()), Reserve(n)) &&
        moved == old(moved) + Moved(old(CurrentShape()), Reserve(n))
      ensures contents == old(contents) && n <= Cap() - len
      ensures isReading == (old(isReading) && !old(contents == [] && off != 0))
      ensures 0 < off ==> data == old(data) && data[..] == old(data[..])
    {
      var m := MakeRoom(n);
      len := m;
    }

    /** Room for n items at the end, found the way Write and WriteItem look for it. */
    method Extend(n: nat) returns (at: nat)
      requires Valid()
      modifies this`data, this`off, this`len, this`isReading, this`moved, this`contents, data
      ensures (data == old(data) || fresh(data)) && Roomy(at, n) && contents == old(contents) && !isReading
      ensures var g := Extended(old(CurrentShape()), n);
        CurrentShape() == g.shape && at == g.at && moved == old(moved) + g.moved
    {
      isReading := false;
      var m, ok := TryGrowByReslice(n);
      if !ok {
        m := MakeRoom(n);
      }
      isReading := false;
      return m;
    }

    /** Appends p. */
    method Write(p: seq<T>) returns (n: nat)
      requires Valid()
      modifies this`data, this`off, this`len, this`isReading, this`moved, this`contents, data
      ensures Valid() && (data == old(data) || fresh(data)) && !isReading && n == |p|
      ensures contents == old(contents) + p
      ensures CurrentShape() == After(old(CurrentShape()), Op.Write(|p|)) &&
        moved == old(moved) + Moved(old(CurrentShape()), Op.Write(|p|))
    {
      var m := Extend(|p|);
      if data != null {
        Store(data, m, p);
      }
      contents := contents + p;
      return |p|;
    }

    /** Appends one item. */
    method WriteItem(item: T)
      requires Valid()
      modifies this`data, this`off, this`len, this`isReading, this`moved, this`contents, data
      ensures Valid() && (data == old(data) || fresh(data)) && !isReading
      ensures contents == old(contents) + [item]
      ensures CurrentShape() == After(old(CurrentShape()), Op.Write(1)) &&
        moved == old(moved) + Moved(old(CurrentShape()), Op.Write(1))
    {
      var m := Extend(1);
      data[m] := item;
      contents := contents + [item];
    }

    /** Keeps only the first n unread items. */
    method Truncate(n: nat)
      requires Valid() && n <= len - off
      modifies this`off, this`len, this`isReading, this`contents
      ensures Valid() && !isReading && contents == old(contents)[..n]
      ensures CurrentShape() == After(old(CurrentShape()), if n == 0 then Op.Reset else Op.Truncate(n))
    {
      if n == 0 {
        Reset();
        return;
      }
      isReading := false;
      len := off + n;
      contents := contents[..n];
    }

    /** Reads up to p.Length items into p; EOF only if there are none and some are wanted. */
    method Read(p: array<T>) returns (n: nat, err: Option<Error>)
      requires Valid() && p != data
      modifies this`off, this`len, this`isReading, this`contents, p
      ensures Valid() && n <= p.Length && n <= |old(contents)| && (n < p.Length ==> n == |old(contents)|)
      ensures contents == old(contents)[n..] && forall i :: 0 <= i < n ==> p[i] == old(contents)[i]
      ensures forall i :: n <= i < p.Length ==> p[i] == old(p[i])
      ensures err == if old(contents) == [] && p.Length != 0 then Some(EOF) else None
      ensures isReading == (0 < n) && (0 < n ==> CanUnread(old(contents)[n - 1]))
      ensures CurrentShape() == After(old(CurrentShape()), if old(contents) == [] then Op.Reset else Advance(n))
    {
      isReading := false;
      if len <= off {
        Reset();
        if p.Length == 0 {
          return 0, None;
        }
        return 0, Some(EOF);
      }
      n := if p.Length < len - off then p.Length else len - off;
      CopyToFront(p, data, off, off + n);
      Take(n);
      if n > 0 {
        isReading := true;
      }
      return n, None;
    }

    /** The next n items, or all there are; they can be seen in the array just before off. */
    method Next(n: nat) returns (k: nat)
      requires Valid()
      modifies this`off, this`isReading, this`contents
      ensures Valid() && k == (if n < |old(contents)| then n else |old(contents)|)
      ensures contents == old(contents)[k..] && k <= off
      ensures forall i :: 0 <= i < k ==> data[off - k + i] == old(contents)[i]
      ensures isReading == (0 < k) && (0 < k ==> CanUnread(old(contents)[k - 1]))
      ensures CurrentShape() == After(old(CurrentShape()), Advance(k))
    {
      isReading := false;
      k := if n > len - off then len - off else n;
      Take(k);
      if k > 0 {
        isReading := true;
      }
    }

    /** Reads one item; EOF if there is none. */
    method ReadItem() returns (item: Option<T>, err: Option<Error>)
      requires Valid()
      modifies this`off, this`len, this`isReading, this`contents
      ensures Valid()
      ensures old(contents) == [] ==> item == None && err == Some(EOF) && contents == [] && !isReading
      ensures old(contents) != [] ==>
        && item == Some(old(contents)[0]) && err == None
        && contents == old(contents)[1..] && CanUnread(item.value)
      ensures CurrentShape() == After(old(CurrentShape()), if old(contents) == [] then Op.Reset else Advance(1))
    {
      if len <= off {
        Reset();
        return None, Some(EOF);
      }
      item := Some(data[off]);
      Take(1);
      isReading := true;
      err := None;
    }

    /** Undoes the last read of at least one item: the item it ended with comes first again. */
    method UnreadItem() returns (err: Option<Error>)
      requires Valid()
      modifies this`off, this`isReading, this`contents
      ensures Valid() && !isReading
      ensures err == if old(isReading) then None else Some(ErrUnreadItem)
      ensures old(isReading) && 0 < old(off) ==>
        && CurrentShape() == After(old(CurrentShape()), Back)
        && contents == [data[old(off) - 1]] + old(contents)
      ensures !old(isReading) || old(off) == 0 ==> CurrentShape() == old(CurrentShape()) && contents == old(contents)
    {
      if !isReading {
        return Some(ErrUnreadItem);
      }
      isReading := false;
      if off > 0 {
        off := off - 1;
        contents := [data[off]] + contents;
      }
      return None;
    }

    /** Counts the items through the first one that satisfies delim: the search of readSlice. */
    method Search(delim: T -> bool) returns (n: nat, err: Option<Error>)
      requires Valid()
      ensures n <= |contents| && LineRead(contents, delim, n, err)
    {
      var i := off;
      while i < len
        invariant off <= i <= len
        invariant NoneOf(contents, delim, i - off)
      {
        assert data[off + (i - off)] == contents[i - off];
        if delim(data[i]) {
          return i + 1 - off, None;
        }
        i := i + 1;
      }
      return len - off, Some(EOF);
    }

    /** Reads through the first item that satisfies delim, or all there is; the items can be seen just before off. */
    method ReadSlice(delim: T -> bool) returns (n: nat, err: Option<Error>)
      requires Valid()
      modifies this`off, this`isReading, this`contents
      ensures Valid() && isReading && n <= off && n <= |old(contents)|
      ensures contents == old(contents)[n..] && LineRead(old(contents), delim, n, err)
      ensures forall i :: 0 <= i < n ==> data[off - n + i] == old(contents)[i]
    {
      n, err := Search(delim);
      Take(n);
      isReading := true;
    }

    /** Reads through the first item that satisfies delim and returns a copy; EOF exactly if there is no such item. */
    method ReadItems(delim: T -> bool) returns (line: seq<T>, err: Option<Error>)
      requires Valid()
      modifies this`off, this`isReading, this`contents
      ensures Valid() && |line| <= |old(contents)| && line == old(contents)[..|line|] &&
        contents == old(contents)[|line|..]
      ensures LineRead(old(contents), delim, |line|, err)
      ensures isReading && (line != [] ==> CanUnread(line[|line| - 1]))
    {
      var n;
      n, err := ReadSlice(delim);
      line := if data == null then [] else data[off - n..off];
    }

    /** One round of ReadFrom: makes room and appends one answer of the source. */
    method ReadChunk(r: Source<T>) returns (m: nat, e: Option<Error>, ghost room: nat)
      requires Valid() && r.ending == AtEOF
      modifies this`data, this`off, this`len, this`isReading, this`moved, this`contents, data, r
      ensures Valid() && (data == old(data) || fresh(data)) && MIN_READ <= room && (isReading ==> old(isReading))
      ensures var a := Answer(old(r.script), room);
        && contents == old(contents) + a.items && m == |a.items| && e == a.err
        && r.script == a.rest
      ensures var roomy := After(old(CurrentShape()), Reserve(MIN_READ));
        && m <= room == roomy.cap - roomy.len && CurrentShape() == roomy.(len := roomy.len + m)
        && moved == old(moved) + Moved(old(CurrentShape()), Reserve(MIN_READ))
    {
      Grow(MIN_READ);
      room := data.Length - len;
      m, e := Fetch(r);
    }

    /** One read into all the spare capacity. */
    method Fetch(r: Source<T>) returns (m: nat, e: Option<Error>)
      requires Valid() && r.ending == AtEOF && data != null
      modifies this`len, this`contents, data, r
      ensures Valid()
      ensures var a := Answer(old(r.script), Cap() - old(len));
        && contents == old(contents) + a.items && len == old(len) + |a.items|
        && r.script == a.rest && e == a.err && m == |a.items|
    {
      ghost var items := Answer(r.script, data.Length - len).items;
      m, e := r.Read(data, len, data.Length);
      len := len + m;
      contents := contents + items;
    }

    /**
     * Appends what the source delivers up to its first error; EOF is not passed on. To the array that is a run
     * of growing by MIN_READ and writing what was read, in as many rounds as it takes.
     */
    method ReadFrom(r: Source<T>) returns (n: nat, err: Option<Error>, ghost counts: seq<nat>)
      requires Valid() && r.ending == AtEOF
      modifies this`data, this`off, this`len, this`isReading, this`moved, this`contents, data, r
      ensures Valid() && (data == old(data) || fresh(data)) && !isReading
      ensures var s := Deliver(old(r.script), 0, 0, EOF);
        && contents == old(contents) + s.items && n == |s.items|
        && err == NotEOF(s.stop)
        && r.script == s.rest
      ensures Ran(old(CurrentShape()), Rounds(counts), CurrentShape(), moved - old(moved), |counts| * MIN_READ + n)
    {
      isReading := false;
      n, counts := 0, [];
      ghost var asked := 0;
      ghost var start, goal, shape, moved0 := contents, Deliver(r.script, 0, 0, EOF), CurrentShape(), moved;
      ghost var got: seq<T> := [];
      assert start + got == start && got + goal.items == goal.items;
      while true
        invariant Valid() && (data == old(data) || fresh(data)) && !isReading
        invariant contents == start + got && n == |got| && Received(goal, got, r.script, 0, 0)
        invariant Ran(shape, Rounds(counts), CurrentShape(), moved - moved0, asked)
        invariant asked == |counts| * MIN_READ + n
        decreases |r.script|, Head(r.script)
      {
        ghost var news;
        var m, e;
        m, e, news := ReadRound(r, start, goal, got, shape, counts, moved0, asked);
        asked := asked + MIN_READ + m;
        n, got, counts := n + m, got + news, counts + [m];
        if e == Some(EOF) {
          return n, None, counts;
        }
        if e != None {
          return n, e, counts;
        }
      }
    }

    /** A round, seen as part of a ReadFrom that is to append the items of `goal` to `start` and has `got`. */
    method ReadRound(r: Source<T>, ghost start: seq<T>, ghost goal: Segment<T>, ghost got: seq<T>,
                     ghost shape: Shape, ghost counts: seq<nat>, ghost moved0: nat, ghost asked: int)
      returns (m: nat, e: Option<Error>, ghost news: seq<T>)
      requires Valid() && r.ending == AtEOF && contents == start + got && Received(goal, got, r.script, 0, 0)
      requires Ran(shape, Rounds(counts), CurrentShape(), moved - moved0, asked)
      modifies this`data, this`off, this`len, this`isReading, this`moved, this`contents, data, r
      ensures Valid() && (data == old(data) || fresh(data)) && contents == start + (got + news) && m == |news|
      ensures e == None ==> Received(goal, got + news, r.script, 0, 0) && Shorter(r.script, old(r.script))
      ensures e != None ==> goal.items == got + news && goal.stop == e.value && r.script == goal.rest
      ensures Ran(shape, Rounds(counts + [m]), CurrentShape(), moved - moved0, asked + MIN_READ + m)
      ensures isReading ==> old(isReading)
    {
      ghost var script, shape1, moved1 := r.script, CurrentShape(), moved;
      ghost var room;
      m, e, room := ReadChunk(r);
      news := Answer(script, room).items;
      RoundRan(shape, counts, shape1, moved1 - moved0, asked, m);
      ReceivedMore(goal, got, script, 0, 0, room);
      NoLimit(r.script, 1);
      ConcatAssociates(start, got, news);
      assert got + [] == got;
    }

    /** Hands the unread items to a sink. What it takes leaves the buffer; what it leaves stays. */
    method WriteTo(s: Sink<T>) returns (n: nat, err: Option<Error>)
      requires Valid()
      modifies this`off, this`len, this`isReading, this`contents, s
      ensures Valid() && !isReading && n <= |old(contents)|
      ensures s.received == old(s.received) + old(contents)[..n] && contents == old(contents)[n..]
      ensures old(contents) == [] ==> err == None && s.verdicts == old(s.verdicts)
      ensures old(contents) != [] ==>
        && n == Taken(old(s.verdicts), |old(contents)|)
        && err == Shortfall(old(s.verdicts), |old(contents)|) && s.verdicts == Later(old(s.verdicts))
      ensures CurrentShape() == After(old(CurrentShape()), if err == None then Op.Reset else Advance(n))
    {
      isReading := false;
      n := 0;
      var count := len - off;
      if count > 0 {
        assert data[off..len] == contents;
        var m, e := s.Write(data[off..len]);
        Take(m);
        n := m;
        if e != None {
          return n, e;
        }
        if m != count {
          return n, Some(ErrShortWrite);
        }
      }
      Reset();
      return n, None;
    }
  }
}
