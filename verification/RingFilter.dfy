/** The ring that hands every item written to a process function, and its lockstep with the ring buffer. */
module RingFilters {
  import opened Streams
  import opened RingBuffers

  /** A client's process function: it keeps what it was given, and answers with the errors it has ready. */
  class Processor<T> {
    var log: seq<T>
    var verdicts: seq<Option<Error>>

    constructor (verdicts: seq<Option<Error>>)
      ensures this.verdicts == verdicts && log == []
    {
      this.verdicts, log := verdicts, [];
    }

    method Process(p: seq<T>) returns (e: Option<Error>)
      modifies this
      ensures log == old(log) + p && e == NextOf(old(verdicts)) && verdicts == AfterNext(old(verdicts))
    {
      e := if verdicts == [] then None else verdicts[0];
      verdicts := if verdicts == [] then [] else verdicts[1..];
      log := log + p;
    }
  }

  /** The answer to the next call; without any left, success. */
  function NextOf(verdicts: seq<Option<Error>>): Option<Error> {
    if verdicts == [] then None else verdicts[0]
  }

  function AfterNext(verdicts: seq<Option<Error>>): seq<Option<Error>> {
    if verdicts == [] then [] else verdicts[1..]
  }

  /**
   * The answers used so far: all of them agree, but for the last one, which is `refused`. So an error is none but
   * the process function's own, and the first that it has returned.
   */
  ghost predicate Answered(before: seq<Option<Error>>, after: seq<Option<Error>>, refused: Option<Error>) {
    var used := |before| - |after|;
    && 0 <= used && after == before[used..]
    && (forall i :: 0 <= i < used ==> before[i] == if i == used - 1 then refused else None)
    && (refused != None ==> 0 < used)
  }

  lemma OneMoreAnswer(before: seq<Option<Error>>, now: seq<Option<Error>>)
    requires Answered(before, now, None)
    ensures Answered(before, AfterNext(now), NextOf(now))
  {
  }

  lemma OneAnswerBefore(before: seq<Option<Error>>, after: seq<Option<Error>>, refused: Option<Error>)
    requires NextOf(before) == None && Answered(AfterNext(before), after, refused)
    ensures Answered(before, after, refused)
  {
    if before != [] {
      assert forall i :: 0 < i < |before| ==> before[i] == before[1..][i - 1];
    }
  }

  class RingFilter<T(0)> {
    const items: array<T>
    const fn: Processor<T>
    var read: nat
    var write: nat
    var full: bool

    constructor (size: nat, fn: Processor<T>)
      requires 1 <= size
      ensures Valid() && items.Length == size && fresh(items) && this.fn == fn && Contents(St()) == []
      ensures read == write == 0 && !full
    {
      items, this.fn := new T[size], fn;
      read, write, full := 0, 0, false;
      new;
      LenIsDist(St());
    }

    ghost function St(): State<T>
      reads this, items
    {
      State(items[..], read, write, full)
    }

    ghost predicate Valid()
      reads this, items
    {
      St().Sound()
    }

    method WriteWithinBounds(p: seq<T>, end: nat) returns (n: nat, err: Option<Error>)
      requires Valid() && end == write + |p| < items.Length
      modifies this, items, fn
      ensures St() == WrittenWithinBounds(old(St()), p) && n == |p|
      ensures fn.log == old(fn.log) + p && err == NextOf(old(fn.verdicts)) && fn.verdicts == AfterNext(old(fn.verdicts))
    {
      Overwrite(items, write, p);
      err := fn.Process(p);
      if write < read && end >= read {
        full := true;
      }
      write := end;
      if full {
        read := end;
      }
      return |p|, err;
    }

    method WriteWrapped(p: seq<T>, end: nat) returns (n: nat, err: Option<Error>)
      requires Valid() && |p| < items.Length <= end == write + |p|
      modifies this, items, fn
      ensures St() == WrittenWrapped(old(St()), p) && n == |p|
      ensures fn.log == old(fn.log) + p && err == NextOf(old(fn.verdicts)) && fn.verdicts == AfterNext(old(fn.verdicts))
    {
      ModIsWrap(end, items.Length);
      var endWrapped := end % items.Length;
      Overwrite(items, write, p);
      err := fn.Process(p);
      if write < read && end >= read {
        full := true;
      }
      write := endWrapped;
      if full || endWrapped >= read {
        read := write;
        full := true;
      }
      return |p|, err;
    }

    /** Writes p like the ring buffer does, and hands all of it to the process function, whose error it returns. */
    method Write(p: seq<T>) returns (n: nat, err: Option<Error>)
      requires Valid()
      modifies this, items, fn
      ensures Valid() && St() == Written(old(St()), p)
      ensures fn.log == old(fn.log) + p && err == NextOf(old(fn.verdicts)) && fn.verdicts == AfterNext(old(fn.verdicts))
      ensures n == if |p| < items.Length then |p| else if err == None then items.Length else 0
    {
      if |p| < items.Length {
        WriteKeepsLast(St(), p);
        var end := write + |p|;
        if end < items.Length {
          n, err := WriteWithinBounds(p, end);
        } else {
          n, err := WriteWrapped(p, end);
        }
        return;
      }
      Store(items, 0, p[|p| - items.Length..]);
      assert items[..] == p[|p| - items.Length..];
      read := write;
      full := true;
      err := fn.Process(p);
      return if err != None then 0 else items.Length, err;
    }

    method WriteItem(item: T) returns (err: Option<Error>)
      requires Valid()
      modifies this, items, fn
      ensures Valid() && St() == WrittenItem(old(St()), item)
      ensures fn.log == old(fn.log) + [item]
      ensures err == NextOf(old(fn.verdicts)) && fn.verdicts == AfterNext(old(fn.verdicts))
    {
      WriteItemIsWrite(St(), item);
      var pos := (write + 1) % items.Length;
      if full {
        read := pos;
      } else if pos == read {
        full := true;
      }
      items[write] := item;
      write := pos;
      err := fn.Process([item]);
    }

    /** One read of the source to the write cursor. */
    method Fetch(b: Source<T>) returns (num: nat, e: Option<Error>)
      requires Valid() && b.ending == AtEOF
      modifies items, b
      ensures var a := Answer(old(b.script), items.Length - write);
        && items[..] == Overwritten(old(items[..]), write, a.items)
        && items[write..write + |a.items|] == a.items
        && num == |a.items| && e == a.err && b.script == a.rest
    {
      num, e := b.Read(items, write, items.Length);
    }

    /** One round of ReadFrom: the items read go to the process function before the write cursor moves. */
    method Round(b: Source<T>) returns (num: nat, e: Option<Error>, refused: Option<Error>)
      requires Valid() && b.ending == AtEOF
      modifies this, items, b, fn
      ensures var a := Answer(old(b.script), items.Length - old(write));
        && num == |a.items| && e == a.err && b.script == a.rest
        && fn.log == old(fn.log) + (if a.err == None then a.items else [])
        && St() == if refused != None then Refused(old(St()), a.items) else Streamed(old(St()), a.items, a.err != None)
      ensures if e != None then refused == None && fn.verdicts == old(fn.verdicts)
        else refused == NextOf(old(fn.verdicts)) && fn.verdicts == AfterNext(old(fn.verdicts))
    {
      num, e := Fetch(b);
      if write < read && write + num >= read {
        full := true;
      }
      refused := None;
      if e != None {
        assert fn.log + [] == fn.log;
        return;
      }
      if items.Length - (write - read) == num {
        full := true;
        read := write;
      }
      refused := PassOn(num);
    }

    /** The items read go to the process function; the cursors move unless it refuses them. */
    method PassOn(num: nat) returns (refused: Option<Error>)
      requires write < items.Length && write + num <= items.Length
      modifies this`read, this`write, fn
      ensures fn.log == old(fn.log) + items[old(write)..old(write) + num]
      ensures refused == NextOf(old(fn.verdicts)) && fn.verdicts == AfterNext(old(fn.verdicts))
      ensures if refused != None then read == old(read) && write == old(write)
        else write == (old(write) + num) % items.Length && read == if full then write else old(read)
    {
      refused := fn.Process(items[write..write + num]);
      if refused != None {
        return;
      }
      write := (write + num) % items.Length;
      if full {
        read := write;
      }
    }

    /** A round, seen as part of the ReadFrom that began with s0 and script0. */
    method Pump(b: Source<T>, ghost s0: State<T>, ghost script0: seq<Step<T>>, ghost got: seq<T>,
                ghost verdicts0: seq<Option<Error>>)
      returns (num: nat, e: Option<Error>, refused: Option<Error>, ghost news: seq<T>)
      requires Valid() && b.ending == AtEOF && s0.Sound() && InFlow(s0, script0, St(), b.script, got)
      requires Answered(verdicts0, fn.verdicts, None)
      modifies this, items, b, fn
      ensures num == |news| && (refused != None ==> e == None)
      ensures Answered(verdicts0, fn.verdicts, refused)
      ensures fn.log == old(fn.log) + (if e == None then news else [])
      ensures e == None && refused == None ==>
        InFlow(s0, script0, St(), b.script, got + news) && Shorter(b.script, old(b.script))
      ensures e != None ==> FlowEnded(s0, script0, LastRound(old(St()), news), St(), got, e, b.script)
      ensures refused != None ==> FlowRefused(s0, script0, LastRound(old(St()), news), St(), got, b.script)
      ensures PumpsOn(PumpedAll(old(St()), old(b.script), old(fn.verdicts)), St(), b.script, fn.verdicts,
                      e == None && refused == None, refused)
    {
      ghost var s, script, verdicts := St(), b.script, fn.verdicts;
      num, e, refused := Round(b);
      OneMoreAnswer(verdicts0, verdicts);
      PumpedRound(s, script, verdicts, St(), e, refused, b.script, fn.verdicts);
      news := Answer(script, s.Cap() - s.write).items;
      if refused == None {
        news := FlowRound(s0, script0, s, script, got, St(), e, b.script);
      } else {
        FlowIsRefused(s0, script0, s, script, got, St());
      }
    }

    /**
     * Takes everything the source delivers up to its first error, like the ring buffer, or up to the first
     * chunk that the process function refuses. That chunk is counted, and `last` is the round that read it.
     */
    method ReadFrom(b: Source<T>)
      returns (n: nat, err: Option<Error>, ghost got: seq<T>, ghost stop: Option<Error>, ghost last: LastRound<T>)
      requires Valid() && b.ending == AtEOF
      modifies this, items, b, fn
      ensures Answered(old(fn.verdicts), fn.verdicts, if stop == None then err else None)
      ensures PumpsOn(PumpedAll(old(St()), old(b.script), old(fn.verdicts)), St(), b.script, fn.verdicts, false,
                      if stop == None then err else None)
      ensures old(fn.verdicts) == [] ==> stop != None
      ensures stop != None ==>
        && FlowEnded(old(St()), old(b.script), last, St(), got, stop, b.script)
        && n == |got| && fn.log == old(fn.log) + got && err == if stop == Some(EOF) then None else stop
      ensures stop == None ==>
        && FlowRefused(old(St()), old(b.script), last, St(), got, b.script)
        && n == |got + last.items| && fn.log == old(fn.log) + (got + last.items) && err != None
      ensures Valid() <==> !last.RunsOver()
      ensures var d := Deliver(old(b.script), 0, 0, EOF);
        stop != None && !d.joined ==> KeepsLast(old(St()), d.items, St()) && n == |d.items|
    {
      n, got := 0, [];
      ghost var s0, script0, log0, verdicts0 := St(), b.script, fn.log, fn.verdicts;
      ghost var goal := PumpedAll(s0, script0, verdicts0);
      FlowStarts(s0, script0);
      while true
        invariant Valid() && InFlow(s0, script0, St(), b.script, got) && n == |got|
        invariant fn.log == log0 + got && Answered(verdicts0, fn.verdicts, None)
        invariant PumpsOn(goal, St(), b.script, fn.verdicts, true, None)
        decreases |b.script|, Head(b.script)
      {
        ghost var news, before := [], St();
        var num, e, refused;
        num, e, refused, news := Pump(b, s0, script0, got, verdicts0);
        last := LastRound(before, news);
        if e != None {
          FlowMeans(s0, script0, last, St(), got, e, b.script);
          return n, if e == Some(EOF) then None else e, got, e, last;
        }
        ConcatAssociates(log0, got, news);
        n := n + num;
        if refused != None {
          RefusedIsSoundIff(last);
          return n, refused, got, None, last;
        }
        got := got + news;
      }
    }
  }

  /** The state in which ReadFrom stops when the process function refuses the items of a round. */
  function Refused<T>(s: State<T>, d: seq<T>): State<T>
    requires s.Sound() && s.write + |d| <= s.Cap()
  {
    var full := s.full || (s.write < s.read <= s.write + |d|);
    if s.Cap() - (s.write - s.read) == |d| then State(Overwritten(s.items, s.write, d), s.write, s.write, true)
    else State(Overwritten(s.items, s.write, d), s.read, s.write, full)
  }

  /** Where a ReadFrom has ended: at an error of the source, or at a refusal. */
  datatype Pumped<T> = Pumped(state: State<T>, script: seq<Step<T>>, verdicts: seq<Option<Error>>,
                              refused: Option<Error>)

  /** ReadFrom: rounds until the source returns an error, with one call of the process function for every other one. */
  function PumpedAll<T>(s: State<T>, script: seq<Step<T>>, verdicts: seq<Option<Error>>): Pumped<T>
    requires s.Sound()
    decreases |script|, Head(script)
  {
    var a := Answer(script, s.Cap() - s.write);
    if a.err != None then Pumped(Streamed(s, a.items, true), a.rest, verdicts, None)
    else if NextOf(verdicts) != None then Pumped(Refused(s, a.items), a.rest, AfterNext(verdicts), NextOf(verdicts))
    else
      StreamedIsWritten(s, a.items);
      PumpedAll(Streamed(s, a.items, false), a.rest, AfterNext(verdicts))
  }

  /** The answers are used up to the first refusal; without one, ReadFrom ends like the ring buffer's. */
  lemma {:induction false} PumpedAllAnswers<T>(s: State<T>, script: seq<Step<T>>, verdicts: seq<Option<Error>>)
    requires s.Sound()
    ensures var r := PumpedAll(s, script, verdicts);
      && Answered(verdicts, r.verdicts, r.refused)
      && (r.refused == None ==> r.state == StreamedAll(s, script))
    decreases |script|, Head(script)
  {
    var a := Answer(script, s.Cap() - s.write);
    if a.err == None && NextOf(verdicts) == None {
      StreamedIsWritten(s, a.items);
      var t := Streamed(s, a.items, false);
      PumpedAllAnswers(t, a.rest, AfterNext(verdicts));
      OneAnswerBefore(verdicts, PumpedAll(t, a.rest, AfterNext(verdicts)).verdicts,
                      PumpedAll(t, a.rest, AfterNext(verdicts)).refused);
    } else if a.err == None {
      OneMoreAnswer(verdicts, verdicts);
    }
  }

  /** A ReadFrom that is to end as `goal` has come to state s, and either goes on or has ended. */
  ghost predicate PumpsOn<T>(goal: Pumped<T>, s: State<T>, script: seq<Step<T>>, verdicts: seq<Option<Error>>,
                             more: bool, refused: Option<Error>)
  {
    if more then s.Sound() && goal == PumpedAll(s, script, verdicts) else goal == Pumped(s, script, verdicts, refused)
  }

  lemma PumpedRound<T>(s: State<T>, script: seq<Step<T>>, verdicts: seq<Option<Error>>, t: State<T>,
                       e: Option<Error>, refused: Option<Error>, rest: seq<Step<T>>, later: seq<Option<Error>>)
    requires s.Sound()
    requires var a := Answer(script, s.Cap() - s.write);
      && e == a.err && rest == a.rest
      && t == if refused != None then Refused(s, a.items) else Streamed(s, a.items, e != None)
    requires if e != None then refused == None && later == verdicts
      else refused == NextOf(verdicts) && later == AfterNext(verdicts)
    ensures PumpsOn(PumpedAll(s, script, verdicts), t, rest, later, e == None && refused == None, refused)
  {
    if e == None && refused == None {
      StreamedIsWritten(s, Answer(script, s.Cap() - s.write).items);
    }
  }

  /**
   * How a ReadFrom ends at a refusal: `got` was kept, then the items of the last round were read and refused;
   * the source goes on where that round left it.
   */
  ghost predicate FlowRefused<T>(s0: State<T>, script0: seq<Step<T>>, last: LastRound<T>, s: State<T>, got: seq<T>,
                                 script: seq<Step<T>>)
    requires s0.Sound()
  {
    && last.Sound() && Flowed(s0, got, last.before) && s == Refused(last.before, last.items)
    && Received(Deliver(script0, 0, 0, EOF), got + last.items, script, 0, 0)
  }

  lemma FlowIsRefused<T>(s0: State<T>, script0: seq<Step<T>>, s: State<T>, script: seq<Step<T>>, got: seq<T>,
                         t: State<T>)
    requires s0.Sound() && InFlow(s0, script0, s, script, got)
    requires var a := Answer(script, s.Cap() - s.write);
      a.err == None && t == Refused(s, a.items)
    ensures var a := Answer(script, s.Cap() - s.write);
      FlowRefused(s0, script0, LastRound(s, a.items), t, got, a.rest)
  {
    var a := Answer(script, s.Cap() - s.write);
    ReceivedOn(Deliver(script0, 0, 0, EOF), got, script, s.Cap() - s.write, a.items, a.rest);
  }

  /** A refusal leaves a sound ring exactly if the refused items did not run over the read cursor. */
  lemma RefusedIsSoundIff<T>(last: LastRound<T>)
    requires last.Sound()
    ensures Refused(last.before, last.items).Sound() <==> !last.RunsOver()
  {
  }

  /**
   * What a refusal leaves in a sound ring: the refused items are not kept, except that those which fill up
   * the ring, or are read by a full one, come before the items held.
   */
  lemma RefusedLeaves<T>(last: LastRound<T>)
    requires last.Sound() && !last.RunsOver()
    ensures var s, d, t := last.before, last.items, Refused(last.before, last.items);
      && t.Sound()
      && Contents(t) ==
           if s.full then d + Contents(s)[|d|..]
           else if s.Cap() - (s.write - s.read) == |d| then d + Contents(s)
           else Contents(s)
  {
    var s, d := last.before, last.items;
    LenIsDist(s);
    if s.full {
      assert Refused(s, d) == Streamed(s, d, true);
      FailedRoundWhenFull(s, d);
    } else if s.Cap() - (s.write - s.read) == |d| {
      RefusedWhenFilled(s, d);
    } else {
      RefusedOutside(s, d);
    }
  }

  lemma RefusedWhenFilled<T>(s: State<T>, d: seq<T>)
    requires s.Sound() && !s.full && s.read == 0 && s.write + |d| == s.Cap()
    ensures Contents(Refused(s, d)) == d + Contents(s)
  {
    LenIsDist(s);
  }

  lemma RefusedOutside<T>(s: State<T>, d: seq<T>)
    requires s.Sound() && !s.full && s.write + |d| <= s.Cap() && !(s.write < s.read <= s.write + |d|)
    requires s.Cap() - (s.write - s.read) != |d|
    ensures Contents(Refused(s, d)) == Contents(s)
  {
    LenIsDist(s);
    LenIsDist(Refused(s, d));
  }

  // ---------- Lockstep ----------

  function AllItemsOf<T>(writings: seq<Writing<T>>): seq<T> {
    if writings == [] then [] else ItemsOf(writings[0]) + AllItemsOf(writings[1..])
  }

  /**
   * The same writes put a ring buffer and a ring filter of the same size through the same states, whatever
   * errors the process function returns, and that function is given all the items in order.
   */
  method RunBoth<T(0)>(b: RingBuffer<T>, f: RingFilter<T>, writings: seq<Writing<T>>)
    requires b.Valid() && b.St() == f.St() && b.items != f.items
    modifies b, b.items, f, f.items, f.fn
    ensures b.Valid() && f.Valid() && b.St() == f.St()
    ensures f.fn.log == old(f.fn.log) + AllItemsOf(writings)
  {
    for i := 0 to |writings|
      invariant b.Valid() && b.St() == f.St()
      invariant f.fn.log + AllItemsOf(writings[i..]) == old(f.fn.log) + AllItemsOf(writings)
    {
      ConcatAssociates(f.fn.log, ItemsOf(writings[i]), AllItemsOf(writings[i + 1..]));
      match writings[i]
      case WriteSlice(p) =>
        var _ := b.Write(p);
        var _, _ := f.Write(p);
      case WriteOne(x) =>
        b.WriteItem(x);
        var _ := f.WriteItem(x);
    }
  }
}
