/** The buffered reader and its delimiter-based operations. */
module Readers {
  import opened Streams
  import opened Lines

  // ---------- What lies ahead of a reader ----------

  /** What a reader holding `data` and perhaps a pending error has before it, up to the next stop. */
  function Ahead<T>(data: seq<T>, err: Option<Error>, script: seq<Step<T>>): Segment<T> {
    match err
    case Some(e) => Segment(data, e, true, script)
    case None =>
      var s := Deliver(script, 0, MAX_EMPTY_READS, EOF);
      s.(items := data + s.items)
  }

  /** The same items, stop and continuation; how the stop arrives is left open. */
  ghost predicate SameView<T>(a: Segment<T>, b: Segment<T>) {
    a.items == b.items && a.stop == b.stop && a.rest == b.rest
  }

  /** The reads of one fill: at most `tries`, until one of them brings items or an error. */
  function Fill<T>(script: seq<Step<T>>, room: nat, tries: nat): (r: Reply<T>)
    ensures |r.items| <= room
    decreases tries, |script|
  {
    if tries == 0 then
      Reply([], Some(ErrNoProgress), script)
    else
      var a := Answer(script, room);
      if a.err != None || a.items != [] then a
      else Fill(a.rest, room, tries - 1)
  }

  lemma {:induction false} FillConserves<T>(script: seq<Step<T>>, room: nat, tries: nat)
    ensures var f := Fill(script, room, tries);
      && f.items + AllItems(f.rest) == AllItems(script)
      && (f.err == None ==> f.items != [])
      && (f.items != [] && 0 < room ==> Shorter(f.rest, script))
    decreases tries
  {
    if tries != 0 {
      var a := Answer(script, room);
      AnswerConserves(script, room);
      if a.err == None && a.items == [] {
        FillConserves(a.rest, room, tries - 1);
        assert a.items + AllItems(a.rest) == AllItems(a.rest);
      }
    }
  }

  /** What a loop of fills waits for: a number of items, or the delimiter. */
  datatype Wanted<T> = AtLeast(n: int) | Delimiter(x: T)

  predicate Enough<T(==)>(want: Wanted<T>, data: seq<T>) {
    match want
    case AtLeast(n) => n <= |data|
    case Delimiter(x) => Index(data, x) < |data|
  }

  /**
   * How far the source is read by a loop that fills the buffer as long as what it waits for is not there, there is
   * no error, and the buffer is not full. Nothing is read ahead of that.
   */
  function ReadFor<T(==)>(want: Wanted<T>, data: seq<T>, err: Option<Error>, script: seq<Step<T>>,
                          size: nat): seq<Step<T>>
    decreases err == None, |script|, Head(script)
  {
    if Enough(want, data) || err != None || size <= |data| then script
    else
      var f := Fill(script, size - |data|, MAX_EMPTY_READS);
      FillConserves(script, size - |data|, MAX_EMPTY_READS);
      ReadFor(want, data + f.items, f.err, f.rest, size)
  }

  lemma ReadForMore<T>(want: Wanted<T>, data: seq<T>, script: seq<Step<T>>, size: nat, data': seq<T>,
                       err': Option<Error>, script': seq<Step<T>>)
    requires !Enough(want, data) && |data| < size
    requires var f := Fill(script, size - |data|, MAX_EMPTY_READS);
      data' == data + f.items && err' == f.err && script' == f.rest
    ensures ReadFor(want, data, None, script, size) == ReadFor(want, data', err', script', size)
  {
  }

  lemma {:induction false} FillSays<T>(script: seq<Step<T>>, room: nat, tries: nat)
    ensures var f := Fill(script, room, tries);
      && ErrorsOf(f.rest) <= ErrorsOf(script)
      && (f.err != None ==> SourceSays(script, f.err.value))
    decreases tries
  {
    if tries != 0 {
      var a := Answer(script, room);
      AnswerSays(script, room);
      if a.err == None && a.items == [] {
        FillSays(a.rest, room, tries - 1);
      }
    }
  }

  lemma {:induction false} FillWithinSegment<T>(script: seq<Step<T>>, room: nat, tries: nat)
    requires 0 < room && 1 <= tries <= MAX_EMPTY_READS
    ensures var f := Fill(script, room, tries);
      var s := Deliver(script, MAX_EMPTY_READS - tries, MAX_EMPTY_READS, EOF);
      match f.err
      case Some(e) => s == Segment(f.items, e, f.items != [], f.rest)
      case None =>
        var later := Deliver(f.rest, 0, MAX_EMPTY_READS, EOF);
        s == later.(items := f.items + later.items)
    decreases tries
  {
    var a := Answer(script, room);
    AnswerConserves(script, room);
    AnswerWithinSegment(script, room, MAX_EMPTY_READS - tries, MAX_EMPTY_READS, EOF);
    if a.err == None && a.items == [] && tries != 1 {
      FillWithinSegment(a.rest, room, tries - 1);
    }
  }

  /** Filling the buffer does not change what lies ahead, it only learns about it. */
  lemma FillKeepsAhead<T>(data: seq<T>, script: seq<Step<T>>, room: nat)
    requires 0 < room
    ensures var f := Fill(script, room, MAX_EMPTY_READS);
      var before, after := Ahead(data, None, script), Ahead(data + f.items, f.err, f.rest);
      && SameView(before, after)
      && (before.joined ==> after.joined)
      && (f.err != None && f.items != [] ==> before.joined)
      && (f.err == None ==> before == after)
  {
    FillWithinSegment(script, room, MAX_EMPTY_READS);
    var f := Fill(script, room, MAX_EMPTY_READS);
    if f.err == None {
      var later := Deliver(f.rest, 0, MAX_EMPTY_READS, EOF).items;
      assert data + (f.items + later) == data + f.items + later;
    }
  }

  /** How ReadSlice ends: after n items that end in the delimiter, with a full buffer, or at the stop. */
  datatype Cut = AtDelim(n: nat) | AtFull | AtStop

  function CutOf<T(==)>(a: Segment<T>, delim: T, size: nat): (c: Cut)
    ensures c.AtDelim? ==> 0 < c.n <= |a.items| && c.n <= size
    ensures c.AtFull? ==> size <= |a.items|
  {
    var i := Index(a.items, delim);
    if i < |a.items| && i < size then AtDelim(i + 1)
    else if |a.items| < size || (|a.items| == size && a.joined) then AtStop
    else AtFull
  }

  function CutLength<T>(a: Segment<T>, c: Cut, size: nat): nat {
    match c
    case AtDelim(n) => n
    case AtFull => size
    case AtStop => |a.items|
  }

  function Dropped<T>(a: Segment<T>, n: nat): Segment<T>
    requires n <= |a.items|
  {
    a.(items := a.items[n..])
  }

  /** Nothing but a stop that was learnt of in the meantime, and that cannot matter to a buffer of this size. */
  ghost predicate Agrees<T>(now: Segment<T>, then_: Segment<T>, size: nat) {
    SameView(now, then_) && (now.joined != then_.joined ==> |now.items| < size)
  }

  /** ReadSlice returned `line` and `e` when `a` lay ahead, and left the reader with `data`, `err` and `script`. */
  ghost predicate Sliced<T>(a: Segment<T>, delim: T, size: nat, line: seq<T>, e: Option<Error>,
                            data: seq<T>, err: Option<Error>, script: seq<Step<T>>)
  {
    var c := CutOf(a, delim, size);
    && line == a.items[..CutLength(a, c, size)]
    && match c
       case AtDelim(n) => e == None && SameView(Ahead(data, err, script), Dropped(a, n))
       case AtFull => e == Some(ErrBufferFull) && data == [] && SameView(Ahead(data, err, script), Dropped(a, size))
       case AtStop => e == Some(a.stop) && data == [] && err == None && script == a.rest
  }

  lemma CutAtLine<T>(data: seq<T>, err: Option<Error>, script: seq<Step<T>>, a: Segment<T>, delim: T, size: nat)
    requires Index(data, delim) < |data| <= size
    requires Agrees(Ahead(data, err, script), a, size)
    ensures var n := Index(data, delim) + 1;
      Sliced(a, delim, size, data[..n], None, data[n..], err, script)
  {
    var n := Index(data, delim) + 1;
    IndexAhead(data, err, script, delim);
    AheadDrops(data, err, script, n);
    SlicedAtDelim(a, delim, size, n, data[..n], data[n..], err, script);
  }

  lemma SlicedAtDelim<T>(a: Segment<T>, delim: T, size: nat, n: nat, line: seq<T>,
                         data: seq<T>, err: Option<Error>, script: seq<Step<T>>)
    requires n == Index(a.items, delim) + 1 <= |a.items| && n <= size && line == a.items[..n]
    requires SameView(Ahead(data, err, script), Dropped(a, n))
    ensures Sliced(a, delim, size, line, None, data, err, script)
  {
    assert CutOf(a, delim, size) == AtDelim(n);
  }

  lemma IndexAhead<T>(data: seq<T>, err: Option<Error>, script: seq<Step<T>>, delim: T)
    requires Index(data, delim) < |data|
    ensures var i, a := Index(data, delim), Ahead(data, err, script);
      Index(a.items, delim) == i < |a.items| && a.items[..i + 1] == data[..i + 1]
  {
    if err == None {
      var later := Deliver(script, 0, MAX_EMPTY_READS, EOF).items;
      IndexOfConcat(data, later, delim);
      SliceOfConcat(data, later, Index(data, delim) + 1);
    }
  }

  lemma CutAtPendingError<T>(data: seq<T>, e: Error, script: seq<Step<T>>, a: Segment<T>, delim: T, size: nat)
    requires delim !in data && |data| <= size
    requires Agrees(Ahead(data, Some(e), script), a, size)
    ensures Sliced(a, delim, size, data, Some(e), [], None, script)
  {
    assert data[..|data|] == data;
  }

  lemma CutWhenFull<T>(data: seq<T>, script: seq<Step<T>>, a: Segment<T>, delim: T, size: nat)
    requires delim !in data && |data| == size
    requires Agrees(Ahead(data, None, script), a, size)
    ensures Sliced(a, delim, size, data, Some(ErrBufferFull), [], None, script)
  {
    var s := Deliver(script, 0, MAX_EMPTY_READS, EOF);
    DeliverConserves(script, 0, MAX_EMPTY_READS, EOF);
    IndexOfConcat(data, s.items, delim);
    SliceOfConcat(data, s.items, size);
    assert data[..size] == data && data[size..] == [];
  }

  lemma FillAgrees<T>(data: seq<T>, script: seq<Step<T>>, size: nat)
    requires |data| < size
    ensures var f := Fill(script, size - |data|, MAX_EMPTY_READS);
      Agrees(Ahead(data + f.items, f.err, f.rest), Ahead(data, None, script), size)
  {
    FillKeepsAhead(data, script, size - |data|);
  }

  lemma FillLosesNothing<T>(data: seq<T>, script: seq<Step<T>>, size: nat)
    requires |data| < size
    ensures var f := Fill(script, size - |data|, MAX_EMPTY_READS);
      && (data + f.items) + AllItems(f.rest) == data + AllItems(script)
      && (f.err == None ==> f.items != [])
      && SameView(Ahead(data + f.items, f.err, f.rest), Ahead(data, None, script))
  {
    var f := Fill(script, size - |data|, MAX_EMPTY_READS);
    FillConserves(script, size - |data|, MAX_EMPTY_READS);
    FillAgrees(data, script, size);
    ConcatAssociates(data, f.items, AllItems(f.rest));
  }

  /** A search that starts where an earlier one found nothing finds the first delimiter of all. */
  lemma SearchOn<T>(data: seq<T>, s: nat, delim: T)
    requires s <= |data| && delim !in data[..s]
    ensures Index(data, delim) == s + Index(data[s..], delim)
    ensures Index(data, delim) == |data| ==> delim !in data
  {
    TakeDrop(data, s);
    IndexOfConcat(data[..s], data[s..], delim);
    if Index(data, delim) == |data| {
      NotFound(data, delim);
    }
  }

  lemma AheadStartsWith<T>(data: seq<T>, err: Option<Error>, script: seq<Step<T>>)
    ensures data <= Ahead(data, err, script).items
  {
  }

  lemma AheadDrops<T>(data: seq<T>, err: Option<Error>, script: seq<Step<T>>, k: nat)
    requires k <= |data|
    ensures k <= |Ahead(data, err, script).items|
    ensures Ahead(data[k..], err, script) == Dropped(Ahead(data, err, script), k)
  {
    if err == None {
      SliceOfConcat(data, Deliver(script, 0, MAX_EMPTY_READS, EOF).items, k);
    }
  }

  /** What follows the first n items of s. */
  ghost predicate IsRest<T>(r: seq<T>, s: seq<T>, n: nat) {
    n + |r| == |s| && forall i :: 0 <= i < |r| ==> r[i] == s[n + i]
  }

  /** After `gone` items: what lies ahead or, if a pending error was skipped over, just what is unread. */
  ghost predicate SkippedTo<T>(a: Segment<T>, all: seq<T>, ordinary: bool, gone: nat, view: Segment<T>,
                               unread: seq<T>) {
    if ordinary then gone <= |a.items| && SameView(view, Dropped(a, gone))
    else IsRest(unread, all, gone)
  }

  /**
   * Discard(n) returned `discarded` and `e`: it is short only with an error, and it went exactly as far
   * as the items ahead go or, if a pending error was skipped over, at least lost nothing else.
   */
  ghost predicate Discarded<T>(a: Segment<T>, all: seq<T>, ordinary: bool, n: nat, discarded: nat, e: Option<Error>,
                               data: seq<T>, err: Option<Error>, script: seq<Step<T>>)
  {
    && discarded <= n && (e == None <==> discarded == n)
    && if !ordinary then IsRest(data + AllItems(script), all, discarded)
       else if n <= |a.items| then discarded == n && SameView(Ahead(data, err, script), Dropped(a, n))
       else discarded == |a.items| && e == Some(a.stop) && data == [] && err == None && script == a.rest
  }

  /** The error that is pending after a fill: the one that it met, or else the one before. */
  function PendingAfter<T>(pending: Error, f: Reply<T>): Option<Error> {
    if f.err != None then f.err else Some(pending)
  }

  /**
   * Discard(n) with `pending` and nothing held: one fill, and then what it brought is skipped, or the error is
   * taken.
   */
  ghost predicate DiscardedPast<T>(pending: Error, script: seq<Step<T>>, size: nat, n: nat, discarded: nat,
                                   e: Option<Error>, data': seq<T>, err': Option<Error>, script': seq<Step<T>>)
  {
    var f := Fill(script, size, MAX_EMPTY_READS);
    && discarded == Least(n, |f.items|) && script' == f.rest
    && if discarded == n then e == None && IsRest(data', f.items, n) && err' == PendingAfter(pending, f)
       else e == PendingAfter(pending, f) && data' == [] && err' == None
  }

  /** One round of Discard: of the `count` items held, or those a fill brings if there are none, `skip` are skipped. */
  ghost predicate SkipStep<T>(count: nat, err: Option<Error>, script: seq<Step<T>>, size: nat, remain: nat, skip: nat,
                              count': nat, err': Option<Error>, script': seq<Step<T>>)
  {
    if count == 0 then
      var f := Fill(script, size, MAX_EMPTY_READS);
      && skip == Least(remain, |f.items|) && count' == |f.items| - skip && script' == f.rest
      && err' == if f.err != None then f.err else err
    else
      skip == Least(remain, count) && count' == count - skip && script' == script && err' == err
  }

  /** How far the source is read by a Discard of `remain` items: not beyond the fill that brings the last of them. */
  function SkipFor<T>(remain: nat, count: nat, err: Option<Error>, script: seq<Step<T>>, size: nat): seq<Step<T>>
    decreases remain
  {
    if remain == 0 then script
    else if count != 0 then
      if remain <= count || err != None then script else SkipFor(remain - count, 0, None, script, size)
    else
      var f := Fill(script, size, MAX_EMPTY_READS);
      FillConserves(script, size, MAX_EMPTY_READS);
      if remain <= |f.items| || err != None || f.err != None then f.rest
      else SkipFor(remain - |f.items|, 0, None, f.rest, size)
  }

  lemma SkipForMore<T>(remain: nat, count: nat, err: Option<Error>, script: seq<Step<T>>, size: nat, skip: nat,
                       count': nat, err': Option<Error>, script': seq<Step<T>>)
    requires 0 < remain && SkipStep(count, err, script, size, remain, skip, count', err', script')
    ensures skip <= remain
    ensures SkipFor(remain, count, err, script, size) ==
      if skip == remain || err' != None then script' else SkipFor(remain - skip, count', err', script', size)
  {
  }

  lemma {:induction false} FillShortens<T>(script: seq<Step<T>>, room: nat, tries: nat)
    requires script != [] && 0 < room && 0 < tries
    ensures Shorter(Fill(script, room, tries).rest, script)
    decreases tries
  {
    var a := Answer(script, room);
    if a.err == None && a.items == [] && 1 < tries && a.rest != [] {
      FillShortens(a.rest, room, tries - 1);
    }
  }

  /**
   * Such a Discard stops at the pending error, as if it had looked, exactly if that is EOF and the source has
   * ended.
   */
  lemma DiscardedPastLooksIff<T>(pending: Error, script: seq<Step<T>>, size: nat, n: nat, discarded: nat,
                                 e: Option<Error>, data': seq<T>, err': Option<Error>, script': seq<Step<T>>)
    requires 0 < n && 0 < size
    requires DiscardedPast(pending, script, size, n, discarded, e, data', err', script')
    ensures (discarded == 0 && e == Some(pending) && data' == [] && err' == None && script' == script)
      <==> pending == EOF && script == []
  {
    if script != [] {
      FillShortens(script, size, MAX_EMPTY_READS);
    }
  }

  /** What lies ahead, and what comes after its stop, is everything unread. */
  lemma AheadConserves<T>(data: seq<T>, err: Option<Error>, script: seq<Step<T>>)
    ensures var a := Ahead(data, err, script);
      a.items + AllItems(a.rest) == data + AllItems(script)
  {
    if err == None {
      DeliverConserves(script, 0, MAX_EMPTY_READS, EOF);
      var s := Deliver(script, 0, MAX_EMPTY_READS, EOF);
      ConcatAssociates(data, s.items, AllItems(s.rest));
    }
  }

  /** In every case Discard takes exactly the next `discarded` items off what is unread. */
  lemma DiscardConserves<T>(data: seq<T>, err: Option<Error>, script: seq<Step<T>>, n: nat, discarded: nat,
                            e: Option<Error>, data': seq<T>, err': Option<Error>, script': seq<Step<T>>)
    requires Discarded(Ahead(data, err, script), data + AllItems(script), err == None || data != [], n, discarded, e,
      data', err', script')
    ensures discarded <= |data + AllItems(script)|
    ensures data' + AllItems(script') == (data + AllItems(script))[discarded..]
  {
    if err == None || data != [] {
      var a := Ahead(data, err, script);
      AheadConserves(data, err, script);
      AheadConserves(data', err', script');
      SliceOfConcat(a.items, AllItems(a.rest), discarded);
      assert [] + AllItems(script') == AllItems(script');
      assert a.items[|a.items|..] == [];
    } else {
      SuffixIs(data + AllItems(script), discarded, data' + AllItems(script'));
    }
  }

  /** Skipping k of the items held. */
  lemma SkipTakes<T>(a: Segment<T>, all: seq<T>, ordinary: bool, data: seq<T>, err: Option<Error>, script: seq<Step<T>>,
                     k: nat)
    requires k <= |data| && data + AllItems(script) == all
    requires ordinary ==> SameView(Ahead(data, err, script), a)
    ensures SkippedTo(a, all, ordinary, k, Ahead(data[k..], err, script), data[k..] + AllItems(script))
  {
    if ordinary {
      AheadDrops(data, err, script, k);
    } else {
      RestOfConcat(data, AllItems(script), k);
    }
  }

  lemma RestOfConcat<T>(s: seq<T>, t: seq<T>, k: nat)
    requires k <= |s|
    ensures IsRest(s[k..] + t, s + t, k)
  {
  }

  lemma RestOfAll<T>(s: seq<T>, k: nat)
    requires k <= |s|
    ensures forall t: seq<T> :: IsRest(s, t, 0) ==> IsRest(s[k..], t, k)
  {
  }

  lemma SkippedEnough<T>(a: Segment<T>, all: seq<T>, ordinary: bool, n: nat, data: seq<T>, err: Option<Error>,
                         script: seq<Step<T>>)
    requires SkippedTo(a, all, ordinary, n, Ahead(data, err, script), data + AllItems(script))
    ensures Discarded(a, all, ordinary, n, n, None, data, err, script)
  {
  }

  lemma SkippedToError<T>(a: Segment<T>, all: seq<T>, ordinary: bool, n: nat, gone: nat, e: Error, script: seq<Step<T>>)
    requires gone < n
    requires SkippedTo(a, all, ordinary, gone, Ahead([], Some(e), script), [] + AllItems(script))
    ensures Discarded(a, all, ordinary, n, gone, Some(e), [], None, script)
  {
  }

  lemma SkippedFurther<T>(a: Segment<T>, all: seq<T>, ordinary: bool, gone: nat, view: Segment<T>, unread: seq<T>,
                          skip: nat, view': Segment<T>, unread': seq<T>)
    requires SkippedTo(a, all, ordinary, gone, view, unread)
    requires SkippedTo(view, unread, ordinary, skip, view', unread')
    ensures SkippedTo(a, all, ordinary, gone + skip, view', unread')
  {
    if ordinary {
      SliceOfSlice(a.items, gone, skip);
    } else {
      assert forall i :: 0 <= i < |unread'| ==> unread'[i] == unread[skip + i] == all[gone + (skip + i)];
    }
  }

  lemma LastItem<T>(s: seq<T>)
    requires s != []
    ensures s == s[..|s| - 1] + [s[|s| - 1]]
  {
  }

  function Least(a: nat, b: nat): nat {
    if a < b then a else b
  }

  function Most(a: nat, b: nat): nat {
    if a < b then b else a
  }

  // ---------- Reading on through full-buffer errors ----------

  /** What lies ahead for loops that take ErrBufferFull, even from the source, as a reason to read on. */
  function Through<T>(data: seq<T>, err: Option<Error>, script: seq<Step<T>>): Segment<T>
    decreases |script| + if err.Some? then 1 else 0
  {
    var a := Ahead(data, err, script);
    if a.stop != ErrBufferFull then a
    else
      assert |a.rest| < |script| || err.Some? by { DeliverConserves(script, 0, MAX_EMPTY_READS, EOF); }
      var t := Through([], None, a.rest);
      t.(items := a.items + t.items)
  }

  /** A source that never itself returns ErrBufferFull. */
  ghost predicate NeverFull<T>(script: seq<Step<T>>) {
    forall i :: 0 <= i < |script| ==> script[i].err != Some(ErrBufferFull)
  }

  lemma {:induction false} NeverFullStop<T>(script: seq<Step<T>>, empties: nat, limit: nat)
    requires NeverFull(script)
    ensures Deliver(script, empties, limit, EOF).stop != ErrBufferFull
    decreases |script|
  {
    if script != [] {
      assert script[0].err != Some(ErrBufferFull);
      if script[0].err == None {
        if script[0].items != [] {
          NeverFullStop(script[1..], 0, limit);
        } else if empties + 1 != limit {
          NeverFullStop(script[1..], empties + 1, limit);
        }
      }
    }
  }

  /** With such a source, reading on through full buffers sees the same as reading to the first stop. */
  lemma ThroughIsAhead<T>(data: seq<T>, script: seq<Step<T>>)
    requires NeverFull(script)
    ensures Through(data, None, script) == Ahead(data, None, script)
  {
    NeverFullStop(script, 0, MAX_EMPTY_READS);
  }

  /**
   * One call of ReadSlice as a fragment of what lies ahead: through the delimiter, up to a full buffer
   * with more to come, or up to the stop. The sizes of buffer and chunks only decide where fragments end.
   */
  ghost predicate Fragment<T>(t: Segment<T>, delim: T, line: seq<T>, e: Option<Error>,
                              data: seq<T>, err: Option<Error>, script: seq<Step<T>>)
  {
    var t' := Through(data, err, script);
    if e == None then
      var n := Index(t.items, delim) + 1;
      n <= |t.items| && line == t.items[..n] && SameView(t', Dropped(t, n))
    else if e == Some(ErrBufferFull) then
      delim !in line && t.items == line + t'.items && t'.stop == t.stop && t'.rest == t.rest
    else
      && delim !in line && line == t.items && e == Some(t.stop)
      && data == [] && err == None && script == t.rest
  }

  lemma ThroughExtends<T>(data: seq<T>, more: seq<T>, err: Option<Error>, script: seq<Step<T>>)
    ensures Ahead(data + more, err, script) == Ahead(more, err, script).(items := data + Ahead(more, err, script).items)
    ensures Through(data + more, err, script).items == data + Through(more, err, script).items
    ensures Through(data + more, err, script).stop == Through(more, err, script).stop
    ensures Through(data + more, err, script).rest == Through(more, err, script).rest
  {
    if err == None {
      var s := Deliver(script, 0, MAX_EMPTY_READS, EOF).items;
      assert (data + more) + s == data + (more + s);
    }
    var a, b := Ahead(more, err, script), Ahead(data + more, err, script);
    if a.stop == ErrBufferFull {
      var t := Through([], None, a.rest).items;
      assert (data + a.items) + t == data + (a.items + t);
    }
  }

  lemma SliceIsFragment<T>(data: seq<T>, err: Option<Error>, script: seq<Step<T>>, delim: T, size: nat,
                           line: seq<T>, e: Option<Error>, data': seq<T>, err': Option<Error>, script': seq<Step<T>>)
    requires Sliced(Ahead(data, err, script), delim, size, line, e, data', err', script')
    ensures Fragment(Through(data, err, script), delim, line, e, data', err', script')
  {
    var a := Ahead(data, err, script);
    match CutOf(a, delim, size)
    case AtDelim(n) =>
      ThroughFindsLine(data, err, script, delim);
      ThroughOfDropped(data, err, script, data', err', script', n);
    case AtFull =>
      FullIsFragment(data, err, script, delim, size, data', err', script');
    case AtStop =>
      assert a.items[..|a.items|] == a.items;
      NotFound(a.items, delim);
  }

  lemma FullIsFragment<T>(data: seq<T>, err: Option<Error>, script: seq<Step<T>>, delim: T, size: nat,
                          data': seq<T>, err': Option<Error>, script': seq<Step<T>>)
    requires var a := Ahead(data, err, script);
      size <= Index(a.items, delim) && SameView(Ahead(data', err', script'), Dropped(a, size))
    ensures Fragment(Through(data, err, script), delim, Ahead(data, err, script).items[..size], Some(ErrBufferFull),
                     data', err', script')
  {
    var a, t := Ahead(data, err, script), Through(data, err, script);
    ThroughOfDropped(data, err, script, data', err', script', size);
    ThroughStartsWith(data, err, script, size);
    TakeDrop(t.items, size);
    PrefixWithout(a.items, size, delim);
  }

  lemma ThroughStartsWith<T>(data: seq<T>, err: Option<Error>, script: seq<Step<T>>, k: nat)
    requires k <= |Ahead(data, err, script).items|
    ensures k <= |Through(data, err, script).items|
    ensures Through(data, err, script).items[..k] == Ahead(data, err, script).items[..k]
  {
    var a := Ahead(data, err, script);
    if a.stop == ErrBufferFull {
      SliceOfConcat(a.items, Through([], None, a.rest).items, k);
    }
  }

  lemma PrefixWithout<T>(items: seq<T>, size: nat, delim: T)
    requires size <= Index(items, delim)
    ensures delim !in items[..size]
  {
    var i := Index(items, delim);
    assert items[..i][..size] == items[..size];
  }

  lemma ThroughFindsLine<T>(data: seq<T>, err: Option<Error>, script: seq<Step<T>>, delim: T)
    requires Index(Ahead(data, err, script).items, delim) < |Ahead(data, err, script).items|
    ensures var a, t := Ahead(data, err, script), Through(data, err, script);
      var i := Index(a.items, delim);
      Index(t.items, delim) == i < |t.items| && t.items[..i + 1] == a.items[..i + 1]
  {
    var a := Ahead(data, err, script);
    if a.stop == ErrBufferFull {
      var more := Through([], None, a.rest).items;
      IndexOfConcat(a.items, more, delim);
      SliceOfConcat(a.items, more, Index(a.items, delim) + 1);
    }
  }

  lemma ThroughOfDropped<T>(data: seq<T>, err: Option<Error>, script: seq<Step<T>>,
                            data': seq<T>, err': Option<Error>, script': seq<Step<T>>, n: nat)
    requires n <= |Ahead(data, err, script).items|
    requires SameView(Ahead(data', err', script'), Dropped(Ahead(data, err, script), n))
    ensures n <= |Through(data, err, script).items|
    ensures SameView(Through(data', err', script'), Dropped(Through(data, err, script), n))
  {
    var a := Ahead(data, err, script);
    if a.stop == ErrBufferFull {
      SliceOfConcat(a.items, Through([], None, a.rest).items, n);
    }
  }

  /** Reading a fragment makes progress even if the fragment is empty. */
  lemma SliceProgress<T>(data: seq<T>, err: Option<Error>, script: seq<Step<T>>, delim: T, size: nat,
                         line: seq<T>, data': seq<T>, err': Option<Error>, script': seq<Step<T>>)
    requires Sliced(Ahead(data, err, script), delim, size, line, Some(ErrBufferFull), data', err', script')
    ensures data' == []
    ensures |line| == size || Pending(script', err') < Pending(script, err)
  {
    DeliverConserves(script, 0, MAX_EMPTY_READS, EOF);
  }

  function Pending<T>(script: seq<Step<T>>, err: Option<Error>): nat {
    |script| + if err.Some? then 1 else 0
  }

  /** `line` is what comes before the delimiter at i, as it is handed out, and `rest` is what comes after it. */
  ghost predicate ClosedLine<T>(t: Segment<T>, i: nat, excluded: Option<T>, line: seq<T>, rest: Segment<T>)
    requires i < |t.items|
  {
    line == DropExcluded(t.items[..i], excluded) && SameView(rest, Dropped(t, i + 1))
  }

  /**
   * One call of ReadLine: a prefix of the line with more of it to come, or its end. A prefix never
   * keeps an excluded item that the delimiter may turn out to follow.
   */
  ghost predicate LinePart<T>(t: Segment<T>, delim: T, excluded: Option<T>, line: seq<T>, isPrefix: bool,
                              e: Option<Error>, data: seq<T>, err: Option<Error>, script: seq<Step<T>>)
  {
    var t' := Through(data, err, script);
    var i := Index(t.items, delim);
    if isPrefix then
      && e == None && delim !in line
      && t.items == line + t'.items && t'.stop == t.stop && t'.rest == t.rest
      && (line != [] && excluded == Some(line[|line| - 1]) ==> t'.items != [] && t'.items[0] != delim)
    else if i < |t.items| then
      e == None && ClosedLine(t, i, excluded, line, t')
    else
      && line == t.items && e == (if line == [] then Some(t.stop) else None)
      && data == [] && err == None && script == t.rest
  }

  /** Takes the delimiter and one excluded item before it off the end of a fragment. */
  function Trimmed<T(==)>(raw: seq<T>, delim: T, excluded: Option<T>): seq<T> {
    if raw == [] || raw[|raw| - 1] != delim then raw
    else if 1 < |raw| && excluded == Some(raw[|raw| - 2]) then raw[..|raw| - 2]
    else raw[..|raw| - 1]
  }

  lemma LineCloses<T>(t: Segment<T>, delim: T, excluded: Option<T>, raw: seq<T>, e: Option<Error>,
                      data: seq<T>, err: Option<Error>, script: seq<Step<T>>)
    requires Fragment(t, delim, raw, e, data, err, script) && e != Some(ErrBufferFull)
    ensures LinePart(t, delim, excluded, Trimmed(raw, delim, excluded), false, if raw == [] then e else None, data,
      err, script)
  {
    var i := Index(t.items, delim);
    if e == None {
      assert raw[..i] == t.items[..i];
      assert 0 < i ==> raw[..i][..i - 1] == raw[..i - 1];
    } else {
      assert i == |t.items|;
    }
  }

  /**
   * How much of the line ReadLine hands out, and whether that is called a prefix: as much as ReadSlice finds, a
   * full buffer if the delimiter is not within it, but without its line end, or an item that may belong to it.
   */
  ghost predicate LineCut<T>(a: Segment<T>, delim: T, excluded: Option<T>, size: nat, line: seq<T>, isPrefix: bool) {
    var c := CutOf(a, delim, size);
    var raw := a.items[..CutLength(a, c, size)];
    && isPrefix == (c.AtFull? || (c.AtStop? && a.stop == ErrBufferFull))
    && line == if isPrefix then DropExcluded(raw, excluded) else Trimmed(raw, delim, excluded)
  }

  lemma SliceCuts<T>(a: Segment<T>, delim: T, excluded: Option<T>, size: nat, raw: seq<T>, e: Option<Error>,
                     data: seq<T>, err: Option<Error>, script: seq<Step<T>>)
    requires Sliced(a, delim, size, raw, e, data, err, script)
    ensures if e == Some(ErrBufferFull) then LineCut(a, delim, excluded, size, DropExcluded(raw, excluded), true)
      else LineCut(a, delim, excluded, size, Trimmed(raw, delim, excluded), false)
  {
  }

  /**
   * With a source that does not return ErrBufferFull itself, a prefix is a sign that the line with its delimiter
   * does not fit the buffer, and is as long as the buffer, or one shorter if it ended in the excluded item.
   */
  lemma PrefixFillsBuffer<T>(a: Segment<T>, delim: T, excluded: Option<T>, size: nat, line: seq<T>, isPrefix: bool)
    requires LineCut(a, delim, excluded, size, line, isPrefix) && a.stop != ErrBufferFull && 0 < size
    ensures isPrefix <==> size <= Index(a.items, delim) && (size < |a.items| || !a.joined)
    ensures isPrefix ==> line == a.items[..size] || line + [a.items[size - 1]] == a.items[..size]
    ensures isPrefix ==> (|line| == size <==> excluded != Some(a.items[size - 1]))
  {
    if isPrefix {
      LastItem(a.items[..size]);
    }
  }

  /** A line that fits is handed out whole, without the delimiter and an excluded item before it. */
  lemma LineThatFits<T>(a: Segment<T>, delim: T, excluded: Option<T>, size: nat, line: seq<T>, isPrefix: bool)
    requires LineCut(a, delim, excluded, size, line, isPrefix)
    requires Index(a.items, delim) < |a.items| && Index(a.items, delim) < size
    ensures !isPrefix && line == DropExcluded(a.items[..Index(a.items, delim)], excluded)
  {
    var i := Index(a.items, delim);
    TakeDrop(a.items[..i + 1], i);
    assert a.items[..i + 1][..i] == a.items[..i];
    assert 0 < i ==> a.items[..i][..i - 1] == a.items[..i + 1][..i - 1];
  }

  lemma LineGoesOn<T>(t: Segment<T>, delim: T, excluded: Option<T>, raw: seq<T>,
                      data: seq<T>, err: Option<Error>, script: seq<Step<T>>)
    requires Fragment(t, delim, raw, Some(ErrBufferFull), data, err, script)
    requires raw == [] || excluded != Some(raw[|raw| - 1])
    ensures LinePart(t, delim, excluded, raw, true, None, data, err, script)
  {
  }

  /** The excluded item at the end of a prefix is pushed back, so that the next fragment starts with it. */
  lemma LinePushesBack<T>(t: Segment<T>, delim: T, excluded: Option<T>, raw: seq<T>,
                          data: seq<T>, err: Option<Error>, script: seq<Step<T>>)
    requires Fragment(t, delim, raw, Some(ErrBufferFull), data, err, script)
    requires raw != []
    ensures var k := |raw| - 1;
      LinePart(t, delim, excluded, raw[..k], true, None, [raw[k]] + data, err, script)
  {
    var k := |raw| - 1;
    ThroughExtends([raw[k]], data, err, script);
    LastItem(raw);
    ConcatAssociates(raw[..k], [raw[k]], Through(data, err, script).items);
  }

  /** What ReadItems returns: through the first delimiter, or everything up to the stop together with the error. */
  ghost predicate Collected<T>(t: Segment<T>, delim: T, line: seq<T>, e: Option<Error>,
                               data: seq<T>, err: Option<Error>, script: seq<Step<T>>)
  {
    var i := Index(t.items, delim);
    && (e == None <==> line != [] && line[|line| - 1] == delim)
    && if i < |t.items| then
         e == None && line == t.items[..i + 1] && SameView(Through(data, err, script), Dropped(t, i + 1))
       else
         line == t.items && e == Some(t.stop) && data == [] && err == None && script == t.rest
  }

  lemma FragmentsComplete<T>(all: Segment<T>, done: seq<T>, now: Segment<T>, delim: T, line: seq<T>, e: Option<Error>,
                             data: seq<T>, err: Option<Error>, script: seq<Step<T>>)
    requires all.items == done + now.items && all.stop == now.stop && all.rest == now.rest
    requires delim !in done && e != Some(ErrBufferFull)
    requires Fragment(now, delim, line, e, data, err, script)
    ensures Collected(all, delim, done + line, e, data, err, script)
  {
    if e == None {
      LineComplete(all, done, now, delim, line, data, err, script);
    } else {
      IndexAfter(done, now.items, delim);
      assert Index(now.items, delim) == |now.items|;
      assert delim !in done + line;
    }
  }

  lemma LineComplete<T>(all: Segment<T>, done: seq<T>, now: Segment<T>, delim: T, line: seq<T>,
                        data: seq<T>, err: Option<Error>, script: seq<Step<T>>)
    requires all.items == done + now.items && all.stop == now.stop && all.rest == now.rest
    requires delim !in done
    requires Fragment(now, delim, line, None, data, err, script)
    ensures Collected(all, delim, done + line, None, data, err, script)
  {
    var n := Index(now.items, delim) + 1;
    IndexAfter(done, now.items, delim);
    DroppedAfter(all, done, now, n);
    CollectedThrough(all, |done| + n, delim, done + line, data, err, script);
  }

  lemma CollectedThrough<T>(t: Segment<T>, k: nat, delim: T, line: seq<T>,
                            data: seq<T>, err: Option<Error>, script: seq<Step<T>>)
    requires k == Index(t.items, delim) + 1 <= |t.items| && line == t.items[..k]
    requires SameView(Through(data, err, script), Dropped(t, k))
    ensures Collected(t, delim, line, None, data, err, script)
  {
    assert line[k - 1] == t.items[k - 1] == delim;
  }

  /**
   * `done` has been read off `all`, no delimiter among it, and `now` is left; what `done` ends in cannot belong to
   * the delimiter.
   */
  ghost predicate Reassembling<T>(all: Segment<T>, done: seq<T>, now: Segment<T>, delim: T, excluded: Option<T>) {
    && all.items == done + now.items && all.stop == now.stop && all.rest == now.rest
    && delim !in done
    && (done != [] && excluded == Some(done[|done| - 1]) && now.items != [] ==> now.items[0] != delim)
  }

  lemma PrefixReassembles<T>(all: Segment<T>, done: seq<T>, now: Segment<T>, delim: T, excluded: Option<T>,
                             line: seq<T>, data: seq<T>, err: Option<Error>, script: seq<Step<T>>)
    requires Reassembling(all, done, now, delim, excluded)
    requires LinePart(now, delim, excluded, line, true, None, data, err, script)
    ensures Reassembling(all, done + line, Through(data, err, script), delim, excluded)
  {
    var t' := Through(data, err, script);
    ConcatAssociates(done, line, t'.items);
    if line == [] {
      assert done + line == done && line + t'.items == t'.items;
    }
  }

  lemma LastReassembles<T>(all: Segment<T>, done: seq<T>, now: Segment<T>, delim: T, excluded: Option<T>, line: seq<T>,
                           e: Option<Error>, data: seq<T>, err: Option<Error>, script: seq<Step<T>>)
    requires Reassembling(all, done, now, delim, excluded)
    requires LinePart(now, delim, excluded, line, false, e, data, err, script)
    ensures WholeLine(all, delim, excluded, done + line, e, data, err, script)
  {
    IndexAfter(done, now.items, delim);
    if Index(now.items, delim) < |now.items| {
      LineOfWhole(all, done, now, delim, excluded, line, Through(data, err, script));
    }
  }

  lemma IndexAfter<T>(done: seq<T>, now: seq<T>, delim: T)
    requires delim !in done
    ensures Index(done + now, delim) == |done| + Index(now, delim)
  {
    IndexOfConcat(done, now, delim);
    assert Index(done, delim) == |done|;
  }

  lemma DroppedAfter<T>(all: Segment<T>, done: seq<T>, now: Segment<T>, n: nat)
    requires all.items == done + now.items && all.stop == now.stop && all.rest == now.rest && n <= |now.items|
    ensures all.items[..|done| + n] == done + now.items[..n]
    ensures SameView(Dropped(all, |done| + n), Dropped(now, n))
  {
    SlicePastConcat(done, now.items, n);
  }

  lemma LineOfWhole<T>(all: Segment<T>, done: seq<T>, now: Segment<T>, delim: T, excluded: Option<T>, line: seq<T>,
                       rest: Segment<T>)
    requires Reassembling(all, done, now, delim, excluded) && Index(now.items, delim) < |now.items|
    requires ClosedLine(now, Index(now.items, delim), excluded, line, rest)
    ensures Index(all.items, delim) < |all.items|
    ensures ClosedLine(all, Index(all.items, delim), excluded, done + line, rest)
  {
    var k := Index(now.items, delim);
    IndexAfter(done, now.items, delim);
    DroppedAfter(all, done, now, k);
    DroppedAfter(all, done, now, k + 1);
    LineAcross(done, now.items[..k], excluded);
  }

  lemma LineAcross<T>(done: seq<T>, line: seq<T>, excluded: Option<T>)
    requires line != [] || done == [] || excluded != Some(done[|done| - 1])
    ensures DropExcluded(done + line, excluded) == done + DropExcluded(line, excluded)
  {
    if line == [] {
      assert done + line == done && done + DropExcluded(line, excluded) == done;
    } else {
      DropExcludedOfConcat(done, line, excluded);
    }
  }

  lemma DropExcludedOfConcat<T>(s: seq<T>, t: seq<T>, excluded: Option<T>)
    requires t != []
    ensures DropExcluded(s + t, excluded) == s + DropExcluded(t, excluded)
  {
    assert (s + t)[..|s + t| - 1] == s + t[..|t| - 1];
  }

  /** The fragments of one line put together again: the line itself, or the items up to the stop. */
  ghost predicate WholeLine<T>(t: Segment<T>, delim: T, excluded: Option<T>, line: seq<T>, e: Option<Error>,
                               data: seq<T>, err: Option<Error>, script: seq<Step<T>>)
  {
    var i := Index(t.items, delim);
    if i < |t.items| then
      e == None && ClosedLine(t, i, excluded, line, Through(data, err, script))
    else
      && line == t.items && (e == None || e == Some(t.stop)) && (line == [] ==> e == Some(t.stop))
      && data == [] && err == None && script == t.rest
  }

  // ---------- Draining ----------

  /**
   * What WriteTo gets out of a source: it reads on past any error that comes along with items, and
   * stops at the first error that comes alone.
   */
  function Drain<T>(script: seq<Step<T>>, empties: nat): Segment<T>
    decreases |script|
  {
    if script == [] then
      Segment([], EOF, false, [])
    else
      var Chunk(d, err) := script[0];
      if d != [] then
        var s := Drain(script[1..], 0);
        s.(items := d + s.items)
      else if err != None then
        Segment([], err.value, false, script[1..])
      else if empties + 1 == MAX_EMPTY_READS then
        Segment([], ErrNoProgress, false, script[1..])
      else
        Drain(script[1..], empties + 1)
  }

  lemma {:induction false} DrainShortens<T>(script: seq<Step<T>>, empties: nat)
    ensures script != [] ==> |Drain(script, empties).rest| < |script|
    decreases |script|
  {
    if script != [] {
      DrainShortens(script[1..], 0);
      DrainShortens(script[1..], empties + 1);
    }
  }

  /** The stop comes alone, or nothing comes after it and it is EOF. */
  predicate EndsCleanly<T(==)>(a: Segment<T>) {
    !a.joined || (a.rest == [] && a.stop == EOF)
  }

  /** Draining is reading to the first stop exactly if that stop comes alone, or is EOF and ends the source. */
  lemma {:induction false} DrainIsDeliverIff<T>(script: seq<Step<T>>, empties: nat)
    ensures var s := Deliver(script, empties, MAX_EMPTY_READS, EOF);
      SameView(Drain(script, empties), s) <==> EndsCleanly(s)
    decreases |script|
  {
    if script != [] {
      var Chunk(d, err) := script[0];
      if d != [] && err == None {
        DrainIsDeliverIff(script[1..], 0);
        SameAfter(d, Drain(script[1..], 0), Deliver(script[1..], 0, MAX_EMPTY_READS, EOF));
      } else if d != [] {
        DrainShortens(script[1..], 0);
        SameAfter(d, Drain(script[1..], 0), Segment([], err.value, true, script[1..]));
        assert d + [] == d;
      } else if err == None && empties + 1 != MAX_EMPTY_READS {
        DrainIsDeliverIff(script[1..], empties + 1);
      }
    }
  }

  lemma SameAfter<T>(d: seq<T>, a: Segment<T>, b: Segment<T>)
    ensures SameView(a.(items := d + a.items), b.(items := d + b.items)) <==> SameView(a, b)
  {
    assert (d + a.items)[|d|..] == a.items && (d + b.items)[|d|..] == b.items;
  }

  /** Two segments that give the same items, report and continuation are the same. */
  lemma SameOutcome<T>(r0: seq<T>, a: Segment<T>, b: Segment<T>)
    ensures (r0 + a.items == r0 + b.items && NotEOF(a.stop) == NotEOF(b.stop) && a.rest == b.rest) <==> SameView(a, b)
  {
    assert (r0 + a.items)[|r0|..] == a.items && (r0 + b.items)[|r0|..] == b.items;
  }

  /** What WriteTo gets out of a reader: the items held, then whatever draining the source brings. */
  function Drained<T>(data: seq<T>, script: seq<Step<T>>): Segment<T> {
    Drain(script, 0).(items := data + Drain(script, 0).items)
  }

  /** The same, for a reader that holds items and perhaps a pending error, over which draining reads on. */
  lemma DrainedIsAheadIff<T>(data: seq<T>, err: Option<Error>, script: seq<Step<T>>)
    ensures var a := Ahead(data, err, script);
      SameView(Drained(data, script), a) <==> EndsCleanly(a)
  {
    match err
    case None =>
      DrainIsDeliverIff(script, 0);
      SameAfter(data, Drain(script, 0), Deliver(script, 0, MAX_EMPTY_READS, EOF));
    case Some(e) =>
      DrainShortens(script, 0);
      SameAfter(data, Drain(script, 0), Segment([], e, true, script));
      assert data + [] == data;
  }

  lemma AnswerWithinDrain<T>(script: seq<Step<T>>, room: nat, empties: nat)
    requires 0 < room
    ensures var a := Answer(script, room);
      var s := Drain(script, empties);
      if a.items != [] then s == Drain(a.rest, 0).(items := a.items + Drain(a.rest, 0).items)
      else if a.err != None then s == Segment([], a.err.value, false, a.rest)
      else if empties + 1 == MAX_EMPTY_READS then s == Segment([], ErrNoProgress, false, a.rest)
      else s == Drain(a.rest, empties + 1)
  {
    if script != [] && room < |script[0].items| {
      var d := script[0].items;
      var rest := [Chunk(d[room..], script[0].err)] + script[1..];
      assert rest[1..] == script[1..];
      TakeDrop(d, room);
      ConcatAssociates(d[..room], d[room..], Drain(script[1..], 0).items);
    }
  }

  lemma {:induction false} FillWithinDrain<T>(script: seq<Step<T>>, room: nat, tries: nat)
    requires 0 < room && 1 <= tries <= MAX_EMPTY_READS
    ensures var f := Fill(script, room, tries);
      var s := Drain(script, MAX_EMPTY_READS - tries);
      if f.items != [] then s == Drain(f.rest, 0).(items := f.items + Drain(f.rest, 0).items)
      else f.err != None && s == Segment([], f.err.value, false, f.rest)
    decreases tries
  {
    var a := Answer(script, room);
    AnswerWithinDrain(script, room, MAX_EMPTY_READS - tries);
    if a.err == None && a.items == [] && tries != 1 {
      FillWithinDrain(a.rest, room, tries - 1);
    }
  }

  /** n items of `all` have reached the sink, and the others are unread. */
  ghost predicate Passed<T>(r0: seq<T>, all: seq<T>, n: nat, received: seq<T>, unread: seq<T>) {
    n <= |all| && received == r0 + all[..n] && unread == all[n..]
  }

  lemma PassedFurther<T>(r0: seq<T>, all: seq<T>, n: nat, received: seq<T>, data: seq<T>, more: seq<T>, k: nat)
    requires k <= |data| && Passed(r0, all, n, received, data + more)
    ensures Passed(r0, all, n + k, received + data[..k], data[k..] + more)
  {
    SliceOfConcat(data, more, k);
    SliceOfSlice(all, n, k);
    assert all[..n + k] == all[..n] + all[n..n + k];
    ConcatAssociates(r0, all[..n], all[n..n + k]);
  }

  /** A sink that takes everything has received, or is about to, what draining was to give. */
  ghost predicate Draining<T>(r0: seq<T>, goal: Segment<T>, received: seq<T>, data: seq<T>, err: Option<Error>,
                              script: seq<Step<T>>) {
    if data == [] then
      received == r0 + goal.items && err == Some(goal.stop) && script == goal.rest
    else
      var d := Drain(script, 0);
      received + (data + d.items) == r0 + goal.items && d.stop == goal.stop && d.rest == goal.rest
  }

  lemma DrainStep<T>(r0: seq<T>, goal: Segment<T>, received: seq<T>, data: seq<T>, before: seq<Step<T>>,
                     data': seq<T>, err': Option<Error>, after: seq<Step<T>>)
    requires var d := Drain(before, 0);
      received + (data + d.items) == r0 + goal.items && d.stop == goal.stop && d.rest == goal.rest
    requires Drain(before, 0) ==
      if data' != [] then Drain(after, 0).(items := data' + Drain(after, 0).items)
      else Segment([], Drain(before, 0).stop, false, after)
    requires data' == [] ==> err' == Some(Drain(before, 0).stop)
    ensures Draining(r0, goal, received + data, data', err', after)
  {
    var d := Drain(before, 0).items;
    ConcatAssociates(received, data, d);
    if data' == [] {
      assert (received + data) + [] == received + data;
    }
  }

  // ---------- The reader ----------

  /** Slices into the buffer are returned as their bounds, since later reads overwrite what they show. */
  class Reader<T(==, 0)> {
    const buf: array<T>
    const rd: Source<T>
    const delim: T
    const excluded: Option<T>
    var r: nat
    var w: nat
    var err: Option<Error>
    ghost var held: seq<T>

    constructor (rd: Source<T>, size: nat, delim: T, excluded: Option<T>)
      requires 1 <= size && rd.ending == AtEOF
      ensures Valid() && this.rd == rd && buf.Length == size && fresh(buf)
      ensures this.delim == delim && this.excluded == excluded && held == [] && err == None
    {
      this.rd, this.delim, this.excluded := rd, delim, excluded;
      buf := new T[size];
      r, w, err, held := 0, 0, None, [];
    }

    /** `held` is what has been read but not yet handed out: buf[r..w]. */
    ghost predicate Valid()
      reads this, buf
    {
      && r <= w <= buf.Length && 1 <= buf.Length && rd.ending == AtEOF
      && |held| == w - r && forall i :: 0 <= i < |held| ==> buf[r + i] == held[i]
    }

    ghost function View(): Segment<T>
      requires Valid()
      reads this, rd, buf
    {
      Ahead(held, err, rd.script)
    }

    /** Everything not yet handed out, whatever errors lie in between. */
    ghost function Unread(): seq<T>
      requires Valid()
      reads this, rd, buf
    {
      held + AllItems(rd.script)
    }

    /** What the next fill is going to find. */
    ghost function NextFill(): Reply<T>
      requires Valid()
      reads this, rd, buf
    {
      Fill(rd.script, buf.Length - (w - r), MAX_EMPTY_READS)
    }

    /** Where the source is going to be read to by a loop that waits for `want`. */
    ghost function NeedsToRead(want: Wanted<T>): seq<Step<T>>
      reads this, rd, buf
    {
      ReadFor(want, held, err, rd.script, buf.Length)
    }

    /** Slides the data to the front. */
    method Slide()
      requires Valid()
      modifies this`r, this`w, buf
      ensures Valid() && r == 0 && w == old(w - r) && held == old(held) && NextFill() == old(NextFill())
    {
      if r > 0 {
        CopyToFront(buf, buf, r, w);
        w := w - r;
        r := 0;
      }
    }

    /** One read into the free end of the buffer. */
    method Fetch() returns (n: nat, e: Option<Error>)
      requires Valid()
      modifies this`held, this`w, rd, buf
      ensures Valid()
      ensures var a := Answer(old(rd.script), buf.Length - old(w));
        && held == old(held) + a.items && w == old(w) + |a.items|
        && rd.script == a.rest && e == a.err && n == |a.items|
    {
      ghost var items := Answer(rd.script, buf.Length - w).items;
      n, e := rd.Read(buf, w, buf.Length);
      w := w + n;
      held := held + items;
    }

    /** Slides the data to the front and reads into the free end until items or an error arrive. */
    method FillBuffer()
      requires Valid() && w - r < buf.Length
      modifies this`held, this`r, this`w, this`err, rd, buf
      ensures Valid() && r == 0
      ensures var f := old(NextFill());
        && held == old(held) + f.items
        && rd.script == f.rest
        && err == if f.err != None then f.err else old(err)
    {
      Slide();
      ReadSome();
    }

    /** The read loop of a fill. */
    method ReadSome()
      requires Valid() && r == 0
      modifies this`held, this`w, this`err, rd, buf
      ensures Valid()
      ensures var f := old(NextFill());
        && held == old(held) + f.items
        && rd.script == f.rest
        && err == if f.err != None then f.err else old(err)
    {
      ghost var data, goal := held, NextFill();
      var i := MAX_EMPTY_READS;
      while i > 0
        invariant 0 <= i <= MAX_EMPTY_READS
        invariant Valid() && w == old(w) && err == old(err) && held == data
        invariant goal == Fill(rd.script, buf.Length - w, i)
        decreases i
      {
        ghost var a := Answer(rd.script, buf.Length - w);
        assert goal == if a.err != None || a.items != [] then a else Fill(a.rest, buf.Length - w, i - 1);
        var n, e := Fetch();
        if e != None {
          err := e;
          return;
        }
        if n > 0 {
          return;
        }
        assert data + [] == data;
        i := i - 1;
      }
      err := Some(ErrNoProgress);
      assert goal == Reply([], Some(ErrNoProgress), rd.script);
      assert data + [] == data;
    }

    method ReadErr() returns (e: Option<Error>)
      modifies this`err
      ensures e == old(err) && err == None
    {
      e := err;
      err := None;
    }

    /** One more fill of a reader that has no error pending: what lies ahead stays the same. */
    method FillMore(ghost want: Wanted<T>)
      requires Valid() && w - r < buf.Length && err == None && !Enough(want, held)
      modifies this`held, this`r, this`w, this`err, rd, buf
      ensures Valid() && r == 0 && Agrees(View(), old(View()), buf.Length)
      ensures NeedsToRead(want) == old(NeedsToRead(want))
      ensures old(held) <= held
      ensures err == None ==> Shorter(rd.script, old(rd.script)) && old(held) < held
    {
      ghost var data, script := held, rd.script;
      FillBuffer();
      FillConserves(script, buf.Length - |data|, MAX_EMPTY_READS);
      FillAgrees(data, script, buf.Length);
      ReadForMore(want, data, script, buf.Length, held, err, rd.script);
    }

    /** Hands out the first n buffered items as a view. */
    method Take(n: nat) returns (lo: nat, hi: nat)
      requires Valid() && n <= w - r
      modifies this`held, this`r
      ensures Valid() && lo == old(r) && hi == lo + n == r
      ensures buf[lo..hi] == old(held)[..n] && held == old(held)[n..]
    {
      lo, hi := r, r + n;
      r := r + n;
      held := held[n..];
    }

    /** The search loop of ReadSlice: fills until the delimiter is found, an error is pending, or the buffer is full. */
    method SearchFor(delim: T) returns (i: nat)
      requires Valid()
      modifies this`held, this`r, this`w, this`err, rd, buf
      ensures Valid() && Agrees(View(), old(View()), buf.Length)
      ensures i == Index(held, delim)
      ensures i == w - r ==> delim !in held && (err != None || w - r == buf.Length)
      ensures rd.script == old(NeedsToRead(Delimiter(delim)))
      ensures old(Index(held, delim) < |held|) ==> rd.script == old(rd.script) && err == old(err)
    {
      var s := 0;
      while true
        invariant old(Index(held, delim) < |held|) ==>
          held == old(held) && rd.script == old(rd.script) && err == old(err)
        invariant Valid() && Agrees(View(), old(View()), buf.Length)
        invariant s <= w - r && delim !in held[..s]
        invariant NeedsToRead(Delimiter(delim)) == old(NeedsToRead(Delimiter(delim)))
        decreases err == None, |rd.script|, Head(rd.script)
      {
        i := SearchFrom(s, delim);
        if i < w - r || err != None || w - r >= buf.Length {
          return;
        }
        s := w - r;
        ghost var data := held;
        FillMore(Delimiter(delim));
        assert held[..s] == data;
      }
    }

    /** Searches the buffered items but for the first s, which are known not to be the delimiter. */
    method SearchFrom(s: nat, delim: T) returns (i: nat)
      requires Valid() && s <= w - r && delim !in held[..s]
      ensures i == Index(held, delim) && (i == w - r ==> delim !in held)
    {
      SearchOn(held, s, delim);
      assert buf[r + s..w] == held[s..];
      i := s + Index(buf[r + s..w], delim);
    }

    /**
     * Reads through the next delimiter. The line is the view buf[lo..hi]; its bounds end at the read
     * position, so the next fill may overwrite it. The outcome is a function of what lies ahead; a line that is
     * buffered already is handed out without reading the source.
     */
    method ReadSlice(delim: T) returns (lo: nat, hi: nat, e: Option<Error>)
      requires Valid()
      modifies this`held, this`r, this`w, this`err, rd, buf
      ensures Valid() && lo <= hi == r
      ensures Sliced(old(View()), delim, buf.Length, buf[lo..hi], e, held, err, rd.script)
      ensures rd.script == old(NeedsToRead(Delimiter(delim)))
      ensures old(Index(held, delim) < |held|) ==> rd.script == old(rd.script) && err == old(err)
    {
      ghost var goal := View();
      var i := SearchFor(delim);
      if i < w - r {
        lo, hi := TakeLine(delim, i, goal);
        return lo, hi, None;
      }
      lo, hi, e := TakeRest(delim, goal);
    }

    method TakeLine(delim: T, i: nat, ghost goal: Segment<T>) returns (lo: nat, hi: nat)
      requires Valid() && i == Index(held, delim) < w - r && Agrees(View(), goal, buf.Length)
      modifies this`held, this`r
      ensures Valid() && lo <= hi == r
      ensures Sliced(goal, delim, buf.Length, buf[lo..hi], None, held, err, rd.script)
    {
      ghost var data := held;
      lo, hi := Take(i + 1);
      CutAtLine(data, err, rd.script, goal, delim, buf.Length);
    }

    /** All there is, with the pending error or because the buffer is full. */
    method TakeRest(delim: T, ghost goal: Segment<T>) returns (lo: nat, hi: nat, e: Option<Error>)
      requires Valid() && delim !in held && (err != None || w - r == buf.Length) && Agrees(View(), goal, buf.Length)
      modifies this`held, this`r, this`err
      ensures Valid() && lo <= hi == r
      ensures Sliced(goal, delim, buf.Length, buf[lo..hi], e, held, err, rd.script)
    {
      ghost var data, pending := held, err;
      assert data[..w - r] == data && data[w - r..] == [];
      lo, hi := Take(w - r);
      if err != None {
        e := ReadErr();
        CutAtPendingError(data, pending.value, rd.script, goal, delim, buf.Length);
      } else {
        e := Some(ErrBufferFull);
        CutWhenFull(data, rd.script, goal, delim, buf.Length);
      }
    }

    /** ReadSlice, seen as a fragment of everything that a loop over full buffers will read. */
    method ReadFragment(delim: T) returns (lo: nat, hi: nat, e: Option<Error>)
      requires Valid()
      modifies this`held, this`r, this`w, this`err, rd, buf
      ensures Valid() && lo <= hi == r
      ensures Fragment(old(Through(held, err, rd.script)), delim, buf[lo..hi], e, held, err, rd.script)
      ensures Sliced(old(View()), delim, buf.Length, buf[lo..hi], e, held, err, rd.script)
      ensures rd.script == old(NeedsToRead(Delimiter(delim)))
      ensures old(Index(held, delim) < |held|) ==> rd.script == old(rd.script) && err == old(err)
      ensures e == Some(ErrBufferFull) ==>
        held == [] && (hi - lo == buf.Length || Pending(rd.script, err) < old(Pending(rd.script, err)))
    {
      ghost var d0, e0, s0 := held, err, rd.script;
      lo, hi, e := ReadSlice(delim);
      if e == Some(ErrBufferFull) {
        SliceProgress(d0, e0, s0, delim, buf.Length, buf[lo..hi], held, err, rd.script);
      }
      SliceIsFragment(d0, e0, s0, delim, buf.Length, buf[lo..hi], e, held, err, rd.script);
    }

    /** Puts the last item of a full-buffer fragment back if it may belong to the end of the line. */
    method PushBack(lo: nat, hi: nat, ghost t: Segment<T>) returns (end: nat)
      requires Valid() && lo <= hi == r && held == []
      requires Fragment(t, delim, buf[lo..hi], Some(ErrBufferFull), held, err, rd.script)
      modifies this`held, this`r
      ensures Valid() && lo <= end <= hi <= end + 1 && buf[lo..end] == DropExcluded(buf[lo..hi], excluded)
      ensures LinePart(t, delim, excluded, buf[lo..end], true, None, held, err, rd.script)
    {
      ghost var raw := buf[lo..hi];
      end := hi;
      assert lo < hi ==> raw[|raw| - 1] == buf[hi - 1];
      if lo < hi && excluded == Some(buf[hi - 1]) {
        Rewind();
        end := hi - 1;
        assert buf[lo..end] == raw[..|raw| - 1] == DropExcluded(raw, excluded);
        LinePushesBack(t, delim, excluded, raw, [], err, rd.script);
      } else {
        LineGoesOn(t, delim, excluded, raw, held, err, rd.script);
      }
    }

    /** Makes the last item handed out the next one again. */
    method Rewind()
      requires Valid() && 0 < r
      modifies this`held, this`r
      ensures Valid() && r == old(r) - 1 && held == [buf[r]] + old(held)
    {
      r := r - 1;
      held := [buf[r]] + held;
    }

    /** Reads part of a line, or all of it; never with both items and an error. */
    method ReadLine() returns (lo: nat, hi: nat, isPrefix: bool, e: Option<Error>)
      requires Valid()
      modifies this`held, this`r, this`w, this`err, rd, buf
      ensures Valid() && lo <= hi <= buf.Length
      ensures LinePart(old(Through(held, err, rd.script)), delim, excluded, buf[lo..hi], isPrefix, e, held, err,
        rd.script)
      ensures isPrefix && 2 <= buf.Length ==> lo < hi || Pending(rd.script, err) < old(Pending(rd.script, err))
      ensures LineCut(old(View()), delim, excluded, buf.Length, buf[lo..hi], isPrefix)
      ensures rd.script == old(NeedsToRead(Delimiter(delim)))
      ensures old(Index(held, delim) < |held|) ==> rd.script == old(rd.script) && err == old(err)
    {
      ghost var t, a := Through(held, err, rd.script), View();
      lo, hi, e := ReadFragment(delim);
      hi, isPrefix, e := HandOut(lo, hi, e, t, a);
    }

    /** What ReadLine makes of a fragment when t lies ahead, and a up to the first stop. */
    method HandOut(lo: nat, hi0: nat, e0: Option<Error>, ghost t: Segment<T>, ghost a: Segment<T>)
      returns (hi: nat, isPrefix: bool, e: Option<Error>)
      requires Valid() && lo <= hi0 == r && (e0 == Some(ErrBufferFull) ==> held == [])
      requires Fragment(t, delim, buf[lo..hi0], e0, held, err, rd.script)
      requires Sliced(a, delim, buf.Length, buf[lo..hi0], e0, held, err, rd.script)
      modifies this`held, this`r
      ensures Valid() && lo <= hi <= hi0 && (isPrefix <==> e0 == Some(ErrBufferFull))
      ensures LinePart(t, delim, excluded, buf[lo..hi], isPrefix, e, held, err, rd.script)
      ensures LineCut(a, delim, excluded, buf.Length, buf[lo..hi], isPrefix)
      ensures isPrefix ==> hi0 - 1 <= hi
    {
      SliceCuts(a, delim, excluded, buf.Length, buf[lo..hi0], e0, held, err, rd.script);
      if e0 == Some(ErrBufferFull) {
        hi := PushBack(lo, hi0, t);
        return hi, true, None;
      }
      LineCloses(t, delim, excluded, buf[lo..hi0], e0, held, err, rd.script);
      hi, e := Close(lo, hi0, e0);
      return hi, false, e;
    }

    /** The end of ReadLine: a line that is not empty is stripped of its end, and of the error. */
    method Close(lo: nat, hi: nat, e0: Option<Error>) returns (end: nat, e: Option<Error>)
      requires lo <= hi <= buf.Length
      ensures lo <= end <= hi && buf[lo..end] == Trimmed(buf[lo..hi], delim, excluded)
      ensures e == if buf[lo..hi] == [] then e0 else None
    {
      if lo == hi {
        return hi, e0;
      }
      end := TrimEnd(lo, hi);
      return end, None;
    }

    method TrimEnd(lo: nat, hi: nat) returns (end: nat)
      requires lo < hi <= buf.Length
      ensures lo <= end <= hi && buf[lo..end] == Trimmed(buf[lo..hi], delim, excluded)
    {
      end := hi;
      if buf[hi - 1] == delim {
        var drop := 1;
        if hi - lo > 1 && excluded == Some(buf[hi - 2]) {
          drop := 2;
        }
        end := hi - drop;
        assert buf[lo..hi][..hi - lo - drop] == buf[lo..end];
      }
    }

    /**
     * Collects the fragments up to the next delimiter. The last one is still a view; the others have
     * been copied, because each further read may overwrite the buffer.
     */
    method CollectFragments(delim: T) returns (full: seq<seq<T>>, lo: nat, hi: nat, total: nat, e: Option<Error>)
      requires Valid()
      modifies this`held, this`r, this`w, this`err, rd, buf
      ensures Valid() && lo <= hi <= buf.Length
      ensures total == |Flatten(full)| + (hi - lo)
      ensures Collected(old(Through(held, err, rd.script)), delim, Flatten(full) + buf[lo..hi], e, held, err, rd.script)
    {
      ghost var all := Through(held, err, rd.script);
      full, total := [], 0;
      while true
        invariant Valid() && total == |Flatten(full)|
        invariant delim !in Flatten(full)
        invariant var t := Through(held, err, rd.script);
          all.items == Flatten(full) + t.items && all.stop == t.stop && all.rest == t.rest
        decreases |Through(held, err, rd.script).items|, Pending(rd.script, err)
      {
        ghost var t := Through(held, err, rd.script);
        lo, hi, e := ReadFragment(delim);
        if e != Some(ErrBufferFull) {
          total := total + (hi - lo);
          FragmentsComplete(all, Flatten(full), t, delim, buf[lo..hi], e, held, err, rd.script);
          return;
        }
        var copied := buf[lo..hi];
        ConcatAssociates(Flatten(full), copied, Through(held, err, rd.script).items);
        FlattenAppend(full, copied);
        full := full + [copied];
        total := total + |copied|;
      }
    }

    /** Reads through the next delimiter, however many buffers that takes. */
    method ReadItems(delim: T) returns (line: array<T>, e: Option<Error>)
      requires Valid()
      modifies this`held, this`r, this`w, this`err, rd, buf
      ensures Valid() && fresh(line)
      ensures Collected(old(Through(held, err, rd.script)), delim, line[..], e, held, err, rd.script)
    {
      var full, lo, hi, n, err1 := CollectFragments(delim);
      line := Assemble(full, buf, lo, hi, n);
      e := err1;
    }

    /** Fills until n items, a full buffer or an error are there: the loop of Peek. */
    method FillFor(n: int)
      requires Valid()
      modifies this`held, this`r, this`w, this`err, rd, buf
      ensures Valid() && SameView(View(), old(View()))
      ensures w - r >= n || w - r == buf.Length || err != None
      ensures rd.script == old(NeedsToRead(AtLeast(n)))
      ensures n <= |old(held)| ==> held == old(held) && rd.script == old(rd.script) && err == old(err)
    {
      while w - r < n && w - r < buf.Length && err == None
        invariant Valid() && SameView(View(), old(View()))
        invariant NeedsToRead(AtLeast(n)) == old(NeedsToRead(AtLeast(n)))
        invariant n <= |old(held)| ==> held == old(held) && rd.script == old(rd.script) && err == old(err)
        decreases err == None, |rd.script|, Head(rd.script)
      {
        FillMore(AtLeast(n));
      }
    }

    /**
     * Shows the next n items without taking them. With fewer of them ahead it shows those and takes
     * the error; with a buffer that is too small it shows what fits and leaves any error pending.
     */
    method Peek(n: int) returns (lo: nat, hi: nat, e: Option<Error>)
      requires Valid()
      modifies this`held, this`r, this`w, this`err, rd, buf
      ensures Valid() && lo == r && lo <= hi <= w
      ensures n < 0 ==> lo == hi && e == Some(ErrNegativeCount) && View() == old(View())
      ensures 0 <= n ==> var a := old(View());
        && hi - lo == Least(Least(n, buf.Length), |a.items|)
        && (forall k :: 0 <= k < hi - lo ==> buf[lo + k] == a.items[k])
        && if buf.Length < n then e == Some(ErrBufferFull) && SameView(View(), a)
           else if n <= |a.items| then e == None && SameView(View(), a)
           else e == Some(a.stop) && held == a.items && err == None && rd.script == a.rest
      ensures rd.script == old(NeedsToRead(AtLeast(n)))
      ensures n <= |old(held)| ==> held == old(held) && rd.script == old(rd.script) && err == old(err)
    {
      if n < 0 {
        return r, r, Some(ErrNegativeCount);
      }
      ghost var a := View();
      FillFor(n);
      ghost var data := held;
      AheadStartsWith(data, err, rd.script);
      lo := r;
      if n > buf.Length {
        hi, e := w, Some(ErrBufferFull);
      } else {
        hi, e := r + n, None;
        if w - r < n {
          hi := w;
          e := ReadErr();
        }
      }
    }

    /**
     * Skips the next n items, or all there are before an error. An error that is pending while the
     * buffer is empty is not looked at before reading on: then there is one fill in any case.
     */
    method Discard(n: int) returns (discarded: nat, e: Option<Error>)
      requires Valid()
      modifies this`held, this`r, this`w, this`err, rd, buf
      ensures Valid()
      ensures n < 0 ==> discarded == 0 && e == Some(ErrNegativeCount)
      ensures n < 0 ==> View() == old(View()) && Unread() == old(Unread())
      ensures 0 <= n ==> Discarded(old(View()), old(Unread()), old(err) == None || old(held) != [], n, discarded, e,
        held, err, rd.script)
      ensures 0 < n && old(held) == [] && old(err) != None ==>
        DiscardedPast(old(err).value, old(rd.script), buf.Length, n, discarded, e, held, err, rd.script)
      ensures 0 <= n <= |old(held)| ==> discarded == n && e == None && rd.script == old(rd.script) && err == old(err)
      ensures 0 <= n ==> rd.script == old(SkipFor(n, w - r, err, rd.script, buf.Length))
    {
      if n < 0 {
        return 0, Some(ErrNegativeCount);
      }
      if n == 0 {
        assert SkippedTo(View(), Unread(), true, 0, View(), Unread());
        SkippedEnough(View(), Unread(), true, 0, held, err, rd.script);
        return 0, None;
      }
      discarded, e := SkipAll(n, View(), Unread(), err == None || held != []);
    }

    /** The loop of Discard. */
    method SkipAll(n: nat, ghost a: Segment<T>, ghost all: seq<T>, ghost ordinary: bool)
      returns (discarded: nat, e: Option<Error>)
      requires Valid() && 0 < n
      requires SkippedTo(a, all, ordinary, 0, View(), Unread()) && (ordinary <==> err == None || held != [])
      modifies this`held, this`r, this`w, this`err, rd, buf
      ensures Valid()
      ensures Discarded(a, all, ordinary, n, discarded, e, held, err, rd.script)
      ensures !ordinary ==>
        DiscardedPast(old(err).value, old(rd.script), buf.Length, n, discarded, e, held, err, rd.script)
      ensures n <= |old(held)| ==> discarded == n && e == None && rd.script == old(rd.script) && err == old(err)
      ensures rd.script == old(SkipFor(n, w - r, err, rd.script, buf.Length))
    {
      ghost var pending, script, enough := err, rd.script, n <= |held|;
      var remain := n;
      while true
        invariant Valid() && 0 < remain <= n
        invariant SkippedTo(a, all, ordinary, n - remain, View(), Unread())
        invariant ordinary <==> err == None || held != []
        invariant !ordinary || enough ==> remain == n && err == pending && rd.script == script
        invariant enough ==> n <= |held|
        invariant SkipFor(remain, w - r, err, rd.script, buf.Length) ==
          old(SkipFor(n, w - r, err, rd.script, buf.Length))
        decreases remain
      {
        var done;
        remain, done := SkipRound(n, remain, a, all, ordinary);
        if done {
          discarded, e := SkipEnd(n, remain, a, all, ordinary, pending, script);
          return;
        }
      }
    }

    /** One round of it; it is the last one if all items are skipped or an error is pending. */
    method SkipRound(n: nat, remain0: nat, ghost a: Segment<T>, ghost all: seq<T>, ghost ordinary: bool)
      returns (remain: nat, done: bool)
      requires Valid() && 0 < remain0 <= n && (ordinary <==> err == None || held != [])
      requires SkippedTo(a, all, ordinary, n - remain0, View(), Unread())
      modifies this`held, this`r, this`w, this`err, rd, buf
      ensures Valid() && remain <= remain0 && SkippedTo(a, all, ordinary, n - remain, View(), Unread())
      ensures !done ==> 0 < remain < remain0 && ordinary && err == None
      ensures done && remain != 0 ==> err != None && held == []
      ensures !ordinary ==> done && SkippedPast(old(err).value, old(rd.script), remain0, remain0 - remain)
      ensures remain0 <= |old(held)| ==> done && remain == 0 && rd.script == old(rd.script) && err == old(err)
      ensures old(SkipFor(remain0, w - r, err, rd.script, buf.Length)) ==
        if done then rd.script else SkipFor(remain, w - r, err, rd.script, buf.Length)
    {
      var skip := SkipOn(remain0, a, all, ordinary, n - remain0);
      remain := remain0 - skip;
      done := remain == 0 || err != None;
    }

    method SkipEnd(n: nat, remain: nat, ghost a: Segment<T>, ghost all: seq<T>, ghost ordinary: bool,
                   ghost pending: Option<Error>, ghost script: seq<Step<T>>) returns (discarded: nat, e: Option<Error>)
      requires Valid() && remain <= n && (remain != 0 ==> err != None && held == [])
      requires SkippedTo(a, all, ordinary, n - remain, View(), Unread())
      requires !ordinary ==> pending.Some? && SkippedPast(pending.value, script, n, n - remain)
      modifies this`err
      ensures Valid() && Discarded(a, all, ordinary, n, discarded, e, held, err, rd.script)
      ensures !ordinary ==> DiscardedPast(pending.value, script, buf.Length, n, discarded, e, held, err, rd.script)
      ensures remain == 0 ==> discarded == n && e == None && err == old(err)
    {
      if remain == 0 {
        SkippedEnough(a, all, ordinary, n, held, err, rd.script);
        return n, None;
      }
      discarded := n - remain;
      e := ReadErr();
      SkippedToError(a, all, ordinary, n, discarded, e.value, rd.script);
    }

    /** One round of it, after `gone` items. */
    method SkipOn(remain: nat, ghost a: Segment<T>, ghost all: seq<T>, ghost ordinary: bool, ghost gone: nat)
      returns (skip: nat)
      requires Valid() && 0 < remain && (ordinary ==> err == None || held != [])
      requires SkippedTo(a, all, ordinary, gone, View(), Unread())
      modifies this`held, this`r, this`w, this`err, rd, buf
      ensures Valid() && skip <= remain && (skip < remain ==> held == [])
      ensures err == None ==> 0 < skip && old(err) == None
      ensures SkippedTo(a, all, ordinary, gone + skip, View(), Unread())
      ensures old(held) == [] && old(err) != None ==> SkippedPast(old(err).value, old(rd.script), remain, skip)
      ensures remain <= |old(held)| ==> skip == remain && rd.script == old(rd.script) && err == old(err)
      ensures old(SkipFor(remain, w - r, err, rd.script, buf.Length)) ==
        if skip == remain || err != None then rd.script else SkipFor(remain - skip, w - r, err, rd.script, buf.Length)
    {
      ghost var v, u, count, e0, script := View(), Unread(), w - r, err, rd.script;
      skip := Skip(remain, ordinary);
      SkipForMore(remain, count, e0, script, buf.Length, skip, w - r, err, rd.script);
      SkippedFurther(a, all, ordinary, gone, v, u, skip, View(), Unread());
    }

    /** One round of Discard: skips buffered items, after reading some if there are none. */
    method Skip(remain: nat, ghost ordinary: bool) returns (skip: nat)
      requires Valid() && 0 < remain && (ordinary ==> err == None || held != [])
      modifies this`held, this`r, this`w, this`err, rd, buf
      ensures Valid() && skip <= remain && (skip < remain ==> held == [])
      ensures err == None ==> 0 < skip && old(err) == None
      ensures SkippedTo(old(View()), old(Unread()), ordinary, skip, View(), Unread())
      ensures old(held) == [] && old(err) != None ==> SkippedPast(old(err).value, old(rd.script), remain, skip)
      ensures remain <= |old(held)| ==> skip == remain && rd.script == old(rd.script) && err == old(err)
      ensures SkipStep(old(w - r), old(err), old(rd.script), buf.Length, remain, skip, w - r, err, rd.script)
    {
      ghost var a, all := View(), Unread();
      skip := w - r;
      if skip == 0 {
        FillAny();
        skip := w - r;
      }
      if skip > remain {
        skip := remain;
      }
      ghost var data := held;
      var _, _ := Take(skip);
      SkipTakes(a, all, ordinary, data, err, rd.script, skip);
      RestOfAll(data, skip);
    }

    /** After the one round of a Discard that began with `pending` and nothing held. */
    ghost predicate SkippedPast(pending: Error, script: seq<Step<T>>, remain: nat, skip: nat)
      reads this, rd, buf
    {
      var f := Fill(script, buf.Length, MAX_EMPTY_READS);
      && skip == Least(remain, |f.items|) && IsRest(held, f.items, skip)
      && rd.script == f.rest && err == PendingAfter(pending, f)
    }

    /** A fill whatever the state of the error: no item is lost. */
    method FillAny()
      requires Valid() && w - r < buf.Length
      modifies this`held, this`r, this`w, this`err, rd, buf
      ensures Valid() && Unread() == old(Unread()) && old(held) <= held
      ensures var f := old(NextFill());
        |held| == |old(held)| + |f.items| && rd.script == f.rest && err == if f.err != None then f.err else old(err)
      ensures err == None ==> old(err) == None && old(held) < held
      ensures old(err) == None ==> SameView(View(), old(View()))
      ensures old(held) == [] && old(err) != None ==> SkippedPast(old(err).value, old(rd.script), 0, 0)
    {
      ghost var data, script := held, rd.script;
      FillBuffer();
      FillLosesNothing(data, script, buf.Length);
    }

    /** Reads into p, with at most one read of the source; large reads into an empty buffer bypass it. */
    method Read(p: array<T>) returns (n: nat, e: Option<Error>)
      requires Valid() && p != buf
      modifies this`held, this`r, this`w, this`err, rd, buf, p
      ensures Valid() && n <= p.Length
      ensures p[..n] + Unread() == old(Unread())
      ensures forall i :: n <= i < p.Length ==> p[i] == old(p[i])
      ensures p.Length == 0 ==> held == old(held) && rd.script == old(rd.script)
      ensures p.Length == 0 ==> if old(held) != [] then e == None && err == old(err) else e == old(err) && err == None
      ensures 0 < p.Length && old(held) != [] ==>
        n == Least(p.Length, |old(held)|) && e == None && rd.script == old(rd.script) && err == old(err)
      ensures 0 < p.Length && old(held) == [] && old(err) != None ==> n == 0 && e == old(err) && err == None
      ensures 0 < p.Length && old(held) == [] && old(err) == None ==>
        var a := Answer(old(rd.script), Most(p.Length, buf.Length));
        && rd.script == a.rest && n == Least(p.Length, |a.items|)
        && if n == 0 || buf.Length <= p.Length then e == a.err && err == None else e == None && err == a.err
    {
      if p.Length == 0 {
        assert p[..0] == [];
        if w - r > 0 {
          return 0, None;
        }
        e := ReadErr();
        return 0, e;
      }
      if r == w {
        if err != None {
          e := ReadErr();
          assert p[..0] + Unread() == Unread();
          return 0, e;
        }
        assert Unread() == AllItems(rd.script);
        if p.Length >= buf.Length {
          n, e := Bypass(p);
          assert Unread() == AllItems(rd.script);
          return;
        }
        var count := ReadFresh();
        if count == 0 {
          e := ReadErr();
          assert p[..0] + Unread() == Unread();
          return 0, e;
        }
      }
      n := CopyOut(p);
      e := None;
    }

    /** Reads from the source straight into p. */
    method Bypass(p: array<T>) returns (n: nat, e: Option<Error>)
      requires Valid() && p != buf && held == [] && err == None
      modifies rd, p
      ensures Valid() && held == [] && n <= p.Length && forall i :: n <= i < p.Length ==> p[i] == old(p[i])
      ensures p[..n] + AllItems(rd.script) == AllItems(old(rd.script))
      ensures var a := Answer(old(rd.script), p.Length);
        rd.script == a.rest && n == |a.items| && e == a.err
    {
      ghost var script := rd.script;
      n, e := rd.Read(p, 0, p.Length);
      assert p[..0] == [];
      AnswerConserves(script, p.Length);
    }

    /** One read into the empty buffer. */
    method ReadFresh() returns (n: nat)
      requires Valid() && held == [] && err == None
      modifies this`held, this`r, this`w, this`err, rd, buf
      ensures Valid() && |held| == n
      ensures held + AllItems(rd.script) == AllItems(old(rd.script))
      ensures var a := Answer(old(rd.script), buf.Length);
        rd.script == a.rest && n == |a.items| && err == a.err
    {
      ghost var script := rd.script;
      r, w := 0, 0;
      var count, e := Fetch();
      n, err := count, e;
      AnswerConserves(script, buf.Length);
    }

    /** Hands out as many buffered items as p can take. */
    method CopyOut(p: array<T>) returns (n: nat)
      requires Valid() && p != buf
      modifies this`held, this`r, p
      ensures Valid() && n == Least(p.Length, old(w - r)) && p[..n] == old(held)[..n] && held == old(held)[n..]
      ensures p[..n] + Unread() == old(Unread()) && forall i :: n <= i < p.Length ==> p[i] == old(p[i])
    {
      ghost var data := held;
      n := Least(p.Length, w - r);
      CopyToFront(p, buf, r, r + n);
      assert forall k :: 0 <= k < n ==> p[..][k] == data[k];
      PrefixIs(p[..], data, n);
      r := r + n;
      held := held[n..];
      TakeDrop(data, n);
      ConcatAssociates(data[..n], data[n..], AllItems(rd.script));
    }

    /** Reads one item, or takes the error. */
    method ReadItem() returns (item: Option<T>, e: Option<Error>)
      requires Valid()
      modifies this`held, this`r, this`w, this`err, rd, buf
      ensures Valid()
      ensures var a := old(View());
        if a.items != [] then item == Some(a.items[0]) && e == None && SameView(View(), Dropped(a, 1))
        else item == None && e == Some(a.stop) && held == [] && err == None && rd.script == a.rest
      ensures rd.script == old(NeedsToRead(AtLeast(1)))
      ensures old(held) != [] ==> rd.script == old(rd.script) && err == old(err)
    {
      while r == w
        invariant NeedsToRead(AtLeast(1)) == old(NeedsToRead(AtLeast(1)))
        invariant old(held) != [] ==> held == old(held) && rd.script == old(rd.script) && err == old(err)
        invariant Valid() && SameView(View(), old(View()))
        decreases err == None, |rd.script|, Head(rd.script)
      {
        if err != None {
          e := ReadErr();
          return None, e;
        }
        FillMore(AtLeast(1));
      }
      ghost var data := held;
      AheadDrops(data, err, rd.script, 1);
      item, e := Some(buf[r]), None;
      r := r + 1;
      held := held[1..];
    }

    /** Writes the buffered items to a sink. */
    method WriteBuf(s: Sink<T>) returns (n: nat, e: Option<Error>)
      requires Valid()
      modifies this`held, this`r, s
      ensures Valid() && n == Taken(old(s.verdicts), |old(held)|) && e == Refusal(old(s.verdicts))
      ensures s.received == old(s.received) + old(held)[..n] && held == old(held)[n..]
      ensures s.verdicts == Later(old(s.verdicts))
      ensures Conforming(old(s.verdicts)) ==> Conforming(s.verdicts) && (e == None ==> n == |old(held)|)
    {
      assert buf[r..w] == held;
      n, e := s.Write(buf[r..w]);
      r := r + n;
      held := held[n..];
    }

    /** A fill in WriteTo, which does not look at an error that comes with items. */
    method FillToDrain()
      requires Valid() && w - r < buf.Length
      modifies this`held, this`r, this`w, this`err, rd, buf
      ensures Valid() && Unread() == old(Unread())
      ensures ErrorsOf(rd.script) <= old(ErrorsOf(rd.script))
      ensures held == [] ==> err.Some? && SourceSays(old(rd.script), err.value)
      ensures old(held) == [] ==>
        var before := Drain(old(rd.script), 0);
        if held != [] then before == Drained(held, rd.script)
        else before == Segment([], before.stop, false, rd.script) && err == Some(before.stop)
    {
      ghost var data, script, room := held, rd.script, buf.Length - (w - r);
      FillBuffer();
      FillConserves(script, room, MAX_EMPTY_READS);
      FillSays(script, room, MAX_EMPTY_READS);
      FillWithinDrain(script, room, MAX_EMPTY_READS);
      ghost var f := Fill(script, room, MAX_EMPTY_READS);
      ConcatAssociates(data, f.items, AllItems(f.rest));
      assert data == [] ==> held == f.items;
    }

    /**
     * Copies everything to a sink. After the first offer it must not leave the buffer full without an error,
     * because the source panics at filling a full buffer. What the sink received is what the reader lost. The error
     * is the sink's, which ends the copying at once, or else what the source stopped at once all was passed on. A
     * sink that keeps to its contract and refuses nothing gets the drained stream, which is what lies ahead
     * exactly if that ends cleanly.
     */
    method WriteTo(s: Sink<T>) returns (n: nat, e: Option<Error>, ghost refusal: Option<Error>)
      requires Valid() && (Progressing(Later(s.verdicts)) || |Unread()| < buf.Length)
      modifies this`held, this`r, this`w, this`err, rd, buf, s
      ensures Valid() && n <= |old(Unread())|
      ensures s.received == old(s.received) + old(Unread())[..n] && Unread() == old(Unread())[n..]
      ensures Refusing(old(s.verdicts), s.verdicts, refusal)
      ensures if refusal != None then e == refusal
        else held == [] && err == None && (e != None ==> SourceSays(old(rd.script), e.value))
      ensures refusal == None && Conforming(old(s.verdicts)) ==>
        var d := Drained(old(held), old(rd.script));
        s.received == old(s.received) + d.items && e == NotEOF(d.stop) && rd.script == d.rest
      ensures refusal == None && Conforming(old(s.verdicts)) ==>
        var a := old(View());
        (s.received == old(s.received) + a.items && e == NotEOF(a.stop) && rd.script == a.rest) <==> EndsCleanly(a)
    {
      ghost var r0, all, accepting, v0 := s.received, Unread(), Conforming(s.verdicts), s.verdicts;
      ghost var data, pending, script0 := held, err, rd.script;
      ghost var goal := Drained(held, rd.script);
      n, e := PassOn(s, r0, all, 0, v0);
      refusal := e;
      if e == None {
        n, e, refusal := PassAll(s, r0, all, n, accepting, goal, data, v0);
      }
      if accepting && refusal == None {
        DrainedIsAheadIff(data, pending, script0);
        SameOutcome(r0, goal, Ahead(data, pending, script0));
      }
    }

    /** The sink takes something of each offer, or what it has not taken cannot fill the buffer. */
    ghost predicate Drainable(verdicts: seq<Verdict>)
      requires Valid()
      reads this, rd, buf
    {
      Progressing(verdicts) || |Unread()| < buf.Length
    }

    /** The rest of WriteTo, once what was held has been passed on. */
    method PassAll(s: Sink<T>, ghost r0: seq<T>, ghost all: seq<T>, done: nat, ghost accepting: bool,
                   ghost goal: Segment<T>, ghost data: seq<T>, ghost v0: seq<Verdict>)
      returns (n: nat, e: Option<Error>, ghost refusal: Option<Error>)
      requires Valid() && Drainable(s.verdicts) && Passed(r0, all, done, s.received, Unread())
      requires Refusing(v0, s.verdicts, None)
      requires accepting ==>
        Conforming(s.verdicts) && held == [] && goal == Drained(data, rd.script) && s.received == r0 + data
      modifies this`held, this`r, this`w, this`err, rd, buf, s
      ensures Valid() && Passed(r0, all, n, s.received, Unread()) && Refusing(v0, s.verdicts, refusal)
      ensures if refusal != None then e == refusal
        else held == [] && err == None && (e != None ==> SourceSays(old(rd.script), e.value))
      ensures accepting && refusal == None ==>
        s.received == r0 + goal.items && e == NotEOF(goal.stop) && rd.script == goal.rest
    {
      n, e, refusal := done, None, None;
      ghost var script0 := rd.script;
      if w - r < buf.Length {
        FillToDrain();
        if accepting {
          DrainStep(r0, goal, r0, data, script0, held, err, rd.script);
        }
      }
      while r < w
        invariant Valid() && Drainable(s.verdicts) && Passed(r0, all, n, s.received, Unread())
        invariant Refusing(v0, s.verdicts, None) && Sourced(script0)
        invariant accepting ==> Conforming(s.verdicts) && Draining(r0, goal, s.received, held, err, rd.script)
        decreases |s.verdicts|, |Unread()|
      {
        n, e := PassOneMore(s, r0, all, n, accepting, goal, v0, script0);
        if e != None {
          refusal := e;
          return;
        }
      }
      if err == Some(EOF) {
        err := None;
      }
      e := ReadErr();
    }

    /** The source had script0, and when nothing is held it has said why. */
    ghost predicate Sourced(script0: seq<Step<T>>)
      reads this, rd
    {
      ErrorsOf(rd.script) <= ErrorsOf(script0) && (held == [] ==> err.Some? && SourceSays(script0, err.value))
    }

    /** One round of its loop. */
    method PassOneMore(s: Sink<T>, ghost r0: seq<T>, ghost all: seq<T>, done: nat, ghost accepting: bool,
                       ghost goal: Segment<T>, ghost v0: seq<Verdict>, ghost script0: seq<Step<T>>)
      returns (n: nat, e: Option<Error>)
      requires Valid() && r < w && Drainable(s.verdicts) && Passed(r0, all, done, s.received, Unread())
      requires Refusing(v0, s.verdicts, None) && Sourced(script0)
      requires accepting ==> Conforming(s.verdicts) && Draining(r0, goal, s.received, held, err, rd.script)
      modifies this`held, this`r, this`w, this`err, rd, buf, s
      ensures Valid() && Drainable(s.verdicts) && Passed(r0, all, n, s.received, Unread())
      ensures Refusing(v0, s.verdicts, e) && (e == None ==> Sourced(script0))
      ensures |s.verdicts| <= |old(s.verdicts)|
      ensures e == None ==> |s.verdicts| < |old(s.verdicts)| || |Unread()| < |old(Unread())|
      ensures accepting && e == None ==>
        Conforming(s.verdicts) && Draining(r0, goal, s.received, held, err, rd.script)
    {
      ghost var now, received := held, s.received;
      n, e := PassOn(s, r0, all, done, v0);
      if e != None {
        return;
      }
      ghost var script := rd.script;
      FillToDrain();
      if accepting {
        DrainStep(r0, goal, received, now, script, held, err, rd.script);
      }
    }

    method PassOn(s: Sink<T>, ghost r0: seq<T>, ghost all: seq<T>, done: nat, ghost v0: seq<Verdict>)
      returns (n: nat, e: Option<Error>)
      requires Valid() && Passed(r0, all, done, s.received, Unread()) && Refusing(v0, s.verdicts, None)
      modifies this`held, this`r, s
      ensures Valid() && Passed(r0, all, n, s.received, Unread()) && Refusing(v0, s.verdicts, e)
      ensures s.verdicts == Later(old(s.verdicts)) && |held| <= |old(held)| && |Unread()| <= |old(Unread())|
      ensures e == None && old(held) != [] && old(Progressing(s.verdicts)) ==> |held| < |old(held)|
      ensures old(Conforming(s.verdicts)) && e == None ==>
        Conforming(s.verdicts) && held == [] && s.received == old(s.received) + old(held)
    {
      ghost var data, received := held, s.received;
      RefusingLater(v0, s.verdicts);
      var m, e1 := WriteBuf(s);
      n, e := done + m, e1;
      PassedFurther(r0, all, done, received, data, AllItems(rd.script), m);
      assert data[..|data|] == data;
    }
  }

  /** Copies full pieces and a last fragment into one new buffer. */
  method Assemble<T(0)>(full: seq<seq<T>>, buf: array<T>, lo: nat, hi: nat, total: nat) returns (line: array<T>)
    requires lo <= hi <= buf.Length && total == |Flatten(full)| + (hi - lo)
    ensures fresh(line) && line[..] == Flatten(full) + buf[lo..hi]
  {
    line := new T[total];
    var n := 0;
    ghost var done: seq<T> := [];
    assert full[..0] == [];
    for i := 0 to |full|
      invariant n == |done| && done == Flatten(full[..i]) && |done| + |Flatten(full[i..])| + (hi - lo) == total
      invariant forall k :: 0 <= k < n ==> line[k] == done[k]
    {
      FlattenStep(full, i);
      Store(line, n, full[i]);
      n := n + |full[i]|;
      done := done + full[i];
    }
    assert full[..|full|] == full;
    Store(line, n, buf[lo..hi]);
    assert forall k :: 0 <= k < total ==> line[k] == (done + buf[lo..hi])[k];
  }

  /** Calls ReadLine until it has a whole line: what a caller does who joins the parts. */
  method ReadWholeLine<T(==, 0)>(b: Reader<T>) returns (line: seq<T>, e: Option<Error>)
    requires b.Valid() && 2 <= b.buf.Length
    modifies b`held, b`r, b`w, b`err, b.rd, b.buf
    ensures b.Valid()
    ensures WholeLine(old(Through(b.held, b.err, b.rd.script)), b.delim, b.excluded, line, e, b.held, b.err,
      b.rd.script)
  {
    ghost var all := Through(b.held, b.err, b.rd.script);
    line := [];
    while true
      invariant b.Valid()
      invariant Reassembling(all, line, Through(b.held, b.err, b.rd.script), b.delim, b.excluded)
      decreases |Through(b.held, b.err, b.rd.script).items|, Pending(b.rd.script, b.err)
    {
      ghost var t := Through(b.held, b.err, b.rd.script);
      var lo, hi, isPrefix, err := b.ReadLine();
      var part := b.buf[lo..hi];
      if !isPrefix {
        LastReassembles(all, line, t, b.delim, b.excluded, part, err, b.held, b.err, b.rd.script);
        line, e := line + part, err;
        return;
      }
      PrefixReassembles(all, line, t, b.delim, b.excluded, part, b.held, b.err, b.rd.script);
      line := line + part;
    }
  }
}
