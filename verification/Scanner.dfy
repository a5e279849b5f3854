/** The line scanner: a pull loop over a sliding and growing buffer. */
module Scanners {
  import opened Streams
  import opened Lines

  const START_BUF_SIZE := 4096

  /** What is still to come from a scanner: the tokens up to the first failing Scan, and its sticky error then. */
  datatype Outcome<T> = Outcome(tokens: seq<seq<T>>, err: Error)

  function Before<T>(token: seq<T>, o: Outcome<T>): Outcome<T> {
    o.(tokens := [token] + o.tokens)
  }

  /**
   * The outcome on a stream segment for a buffer that may grow to `max` items. `joined` says that
   * the stop arrives together with the last item, so it is known before the buffer counts as full.
   */
  function Scanned<T(==)>(items: seq<T>, stop: Error, joined: bool, max: nat, delim: T, excluded: Option<T>): Outcome<T>
    decreases |items|
  {
    var i := Index(items, delim);
    if i < |items| then
      if i < max then
        Before(DropExcluded(items[..i], excluded), Scanned(items[i + 1..], stop, joined, max, delim, excluded))
      else
        Outcome([], ErrTooLong)
    else if max < |items| || (max == |items| && !joined) then
      Outcome([], ErrTooLong)
    else if items == [] then
      Outcome([], stop)
    else
      Outcome([DropExcluded(items, excluded)], stop)
  }

  /** A line that fits comes first, and then what comes after it. */
  lemma ScannedAtDelim<T>(items: seq<T>, stop: Error, joined: bool, max: nat, delim: T, excluded: Option<T>,
                          line: seq<T>, rest: seq<T>)
    requires var i := Index(items, delim);
      i < |items| && i < max && line == items[..i] && rest == items[i + 1..]
    ensures Scanned(items, stop, joined, max, delim, excluded) ==
            Before(DropExcluded(line, excluded), Scanned(rest, stop, joined, max, delim, excluded))
  {
  }

  // ---------- What the outcome means ----------

  /** Number of leading lines that fit. */
  function Fitting<T>(ls: seq<seq<T>>, max: nat): (k: nat)
    ensures k <= |ls|
    ensures forall i :: 0 <= i < k ==> |ls[i]| <= max
    ensures k < |ls| ==> max < |ls[k]|
  {
    if ls == [] || max < |ls[0]| then 0 else 1 + Fitting(ls[1..], max)
  }

  /** The outcome in terms of the line split alone: the leading lines that fit, then why the scan ends. */
  function ByLines<T(==)>(ls: seq<seq<T>>, tail: seq<T>, stop: Error, joined: bool, max: nat,
                          excluded: Option<T>): Outcome<T> {
    var k := Fitting(ls, max);
    if k < |ls| || max < |tail| || (max == |tail| && !joined) then
      Outcome(StripAll(ls[..k], excluded), ErrTooLong)
    else
      Outcome(StripAll(ls, excluded) + (if tail == [] then [] else [DropExcluded(tail, excluded)]), stop)
  }

  lemma ByLinesStep<T>(l: seq<T>, ls: seq<seq<T>>, tail: seq<T>, stop: Error, joined: bool, max: nat,
                       excluded: Option<T>)
    requires |l| <= max
    ensures ByLines([l] + ls, tail, stop, joined, max, excluded) ==
            Before(Strip(l, excluded), ByLines(ls, tail, stop, joined, max, excluded))
  {
    var k := Fitting(ls, max);
    assert ([l] + ls)[1..] == ls;
    assert ([l] + ls)[..k + 1] == [l] + ls[..k];
    StripAllCons(l, ls, excluded);
    StripAllCons(l, ls[..k], excluded);
  }

  lemma {:induction false} ScannedByLines<T>(items: seq<T>, stop: Error, joined: bool, max: nat, delim: T,
                                             excluded: Option<T>)
    ensures Scanned(items, stop, joined, max, delim, excluded) ==
            ByLines(RawLines(items, delim), Tail(items, delim), stop, joined, max, excluded)
    decreases |items|
  {
    var i := Index(items, delim);
    if i < |items| && i < max {
      var first, rest := items[..i + 1], items[i + 1..];
      ScannedByLines(rest, stop, joined, max, delim, excluded);
      assert first[..i] == items[..i];
      ByLinesStep(first, RawLines(rest, delim), Tail(rest, delim), stop, joined, max, excluded);
    }
  }

  lemma StripAllCons<T>(l: seq<T>, ls: seq<seq<T>>, excluded: Option<T>)
    ensures StripAll([l] + ls, excluded) == [Strip(l, excluded)] + StripAll(ls, excluded)
  {
  }

  /** Every line with its delimiter fits, and a last unterminated line is strictly shorter. */
  ghost predicate Fits<T>(items: seq<T>, max: nat, delim: T) {
    && (forall l :: l in RawLines(items, delim) ==> |l| <= max)
    && |Tail(items, delim)| < max
  }

  /** However readers cut and end the same items, a scanner whose buffer fits the lines sees exactly those lines. */
  lemma ChunkingIsInvisible<T>(script: seq<Step<T>>, end: Error, max: nat, delim: T, excluded: Option<T>)
    requires Fits(Deliver(script, 0, MAX_EMPTY_READS + 1, end).items, max, delim)
    ensures var s := Deliver(script, 0, MAX_EMPTY_READS + 1, end);
      Scanned(s.items, s.stop, s.joined, max, delim, excluded) == Outcome(LinesOf(s.items, delim, excluded), s.stop)
  {
    var s := Deliver(script, 0, MAX_EMPTY_READS + 1, end);
    ScannedByLines(s.items, s.stop, s.joined, max, delim, excluded);
    var ls := RawLines(s.items, delim);
    assert forall i :: 0 <= i < |ls| ==> ls[i] in ls;
  }

  /** Lines that fit, then a delimited line that does not: exactly the former are delivered, then the scan fails. */
  lemma OverlongLineStops<T>(fit: seq<seq<T>>, long: seq<T>, after: seq<T>, stop: Error, joined: bool,
                             max: nat, delim: T, excluded: Option<T>)
    requires forall l :: l in fit ==> Delimited(l, delim) && |l| <= max
    requires Delimited(long, delim) && max < |long|
    ensures Scanned(Flatten(fit) + long + after, stop, joined, max, delim, excluded) ==
            Outcome(StripAll(fit, excluded), ErrTooLong)
  {
    SplitAround(fit, long, after, delim);
    ScannedByLines(Flatten(fit) + long + after, stop, joined, max, delim, excluded);
    ByLinesOverlong(fit, long, RawLines(after, delim), Tail(Flatten(fit) + long + after, delim), stop, joined, max,
      excluded);
  }

  lemma {:induction false} ByLinesOverlong<T>(fit: seq<seq<T>>, long: seq<T>, more: seq<seq<T>>, tail: seq<T>,
                                              stop: Error, joined: bool, max: nat, excluded: Option<T>)
    requires forall l :: l in fit ==> |l| <= max
    requires max < |long|
    ensures ByLines(fit + [long] + more, tail, stop, joined, max, excluded) ==
            Outcome(StripAll(fit, excluded), ErrTooLong)
    decreases |fit|
  {
    if fit == [] {
      assert fit + [long] + more == [long] + more;
      assert Fitting([long] + more, max) == 0;
    } else {
      var l, rest := fit[0], fit[1..];
      assert l in fit;
      ByLinesOverlong(rest, long, more, tail, stop, joined, max, excluded);
      assert fit + [long] + more == [l] + (rest + [long] + more);
      ByLinesStep(l, rest + [long] + more, tail, stop, joined, max, excluded);
      StripAllCons(l, rest, excluded);
      assert fit == [l] + rest;
    }
  }

  lemma SplitAround<T>(fit: seq<seq<T>>, l: seq<T>, after: seq<T>, delim: T)
    requires forall k :: k in fit ==> Delimited(k, delim)
    requires Delimited(l, delim)
    ensures RawLines(Flatten(fit) + l + after, delim) == fit + [l] + RawLines(after, delim)
  {
    var more, tail := RawLines(after, delim), Tail(after, delim);
    SplitIsLossless(after, delim);
    FlattenAround(fit, l, more, tail);
    SplitIsUnique(fit + [l] + more, tail, delim);
  }

  lemma FlattenAround<T>(fit: seq<seq<T>>, l: seq<T>, more: seq<seq<T>>, tail: seq<T>)
    ensures Flatten(fit + [l] + more) + tail == Flatten(fit) + l + (Flatten(more) + tail)
  {
    FlattenConcat(fit + [l], more);
    FlattenConcat(fit, [l]);
    assert Flatten([l]) == l + Flatten([]);
  }

  /**
   * An unterminated last line that exactly fills the largest buffer is the one case where the way
   * the source ends matters: it is delivered if and only if the stop comes along with its last item.
   */
  lemma FullUnterminatedLine<T>(items: seq<T>, stop: Error, joined: bool, max: nat, delim: T, excluded: Option<T>)
    requires delim !in items && |items| == max && items != []
    ensures Scanned(items, stop, joined, max, delim, excluded) ==
            if joined then Outcome([DropExcluded(items, excluded)], stop) else Outcome([], ErrTooLong)
  {
    assert items[..|items|] == items;
    IndexIs(items, delim, |items|);
  }

  /** Whether a stop is joined does not matter to items that cannot fill the buffer. */
  lemma {:induction false} StopBeforeFull<T>(items: seq<T>, stop: Error, max: nat, delim: T, excluded: Option<T>)
    ensures |items| < max ==>
      Scanned(items, stop, false, max, delim, excluded) == Scanned(items, stop, true, max, delim, excluded)
    decreases |items|
  {
    var i := Index(items, delim);
    if i < |items| < max {
      StopBeforeFull(items[i + 1..], stop, max, delim, excluded);
      ScannedAtDelim(items, stop, false, max, delim, excluded, items[..i], items[i + 1..]);
      ScannedAtDelim(items, stop, true, max, delim, excluded, items[..i], items[i + 1..]);
    }
  }

  /** The error that a scanner meets when the source's script is used up. */
  function EndOf(ending: Ending): Error {
    if ending == AtEOF then EOF else ErrBadReadCount
  }

  /** The outcome of a scanner that holds `data`, has met `err`, and is `loop` empty answers into a read. */
  function Coming<T(==)>(data: seq<T>, err: Option<Error>, script: seq<Step<T>>, loop: nat, end: Error,
                         max: nat, delim: T, excluded: Option<T>): Outcome<T> {
    match err
    case Some(e) => Scanned(data, e, true, max, delim, excluded)
    case None =>
      var s := Deliver(script, loop, MAX_EMPTY_READS + 1, end);
      Scanned(data + s.items, s.stop, s.joined, max, delim, excluded)
  }

  /** No single read changes what is coming, as long as there was room for it. */
  lemma ReadChangesNothing<T>(data: seq<T>, script: seq<Step<T>>, room: nat, loop: nat, end: Error, max: nat,
                              delim: T, excluded: Option<T>)
    requires (script != [] || end == EOF) && 0 < room && |data| + room <= max
    ensures var a := Answer(script, room);
      Coming(data, None, script, loop, end, max, delim, excluded) ==
      if a.err != None then Coming(data + a.items, a.err, a.rest, 0, end, max, delim, excluded)
      else if a.items != [] then Coming(data + a.items, None, a.rest, 0, end, max, delim, excluded)
      else if loop == MAX_EMPTY_READS then Coming(data, Some(ErrNoProgress), a.rest, 0, end, max, delim, excluded)
      else Coming(data, None, a.rest, loop + 1, end, max, delim, excluded)
  {
    var a := Answer(script, room);
    AnswerWithinSegment(script, room, loop, MAX_EMPTY_READS + 1, end);
    if a.err != None {
      StopBeforeFull(data + a.items, a.err.value, max, delim, excluded);
    } else if a.items != [] {
      var later := Deliver(a.rest, 0, MAX_EMPTY_READS + 1, end).items;
      assert data + (a.items + later) == (data + a.items) + later;
    } else if loop == MAX_EMPTY_READS {
      StopBeforeFull(data, ErrNoProgress, max, delim, excluded);
      assert data + [] == data;
    }
  }

  lemma MiscountIsStop<T>(data: seq<T>, loop: nat, max: nat, delim: T, excluded: Option<T>)
    requires |data| < max
    ensures Coming(data, None, [], loop, ErrBadReadCount, max, delim, excluded) ==
            Coming(data, Some(ErrBadReadCount), [], 0, ErrBadReadCount, max, delim, excluded)
  {
    StopBeforeFull(data, ErrBadReadCount, max, delim, excluded);
    assert data + [] == data;
  }

  /** A full buffer without delimiter at its largest size, and no stop yet: too long. */
  lemma FullIsTooLong<T>(data: seq<T>, script: seq<Step<T>>, loop: nat, end: Error, max: nat, delim: T,
                         excluded: Option<T>)
    requires delim !in data && |data| == max
    ensures Coming(data, None, script, loop, end, max, delim, excluded) == Outcome([], ErrTooLong)
  {
    var s := Deliver(script, loop, MAX_EMPTY_READS + 1, end);
    DeliverConserves(script, loop, MAX_EMPTY_READS + 1, end);
    IndexIs(data, delim, |data|) by { assert data[..|data|] == data; }
    IndexOfConcat(data, s.items, delim);
  }

  /** What ScanLines finds in the buffered data is what comes first, or there is no delimiter among them. */
  lemma NextToken<T>(data: seq<T>, err: Option<Error>, script: seq<Step<T>>, end: Error, max: nat, delim: T,
                     excluded: Option<T>)
    requires |data| <= max
    ensures var (advance, token) := ScanLines(data, delim, excluded, err != None);
      match token
      case Some(t) => Coming(data, err, script, 0, end, max, delim, excluded) ==
        Before(t, Coming(data[advance..], err, script, 0, end, max, delim, excluded))
      case None =>
        && advance == 0
        && delim !in data
        && (err != None ==> Coming(data, err, script, 0, end, max, delim, excluded) == Outcome([], err.value))
  {
    var i := Index(data, delim);
    if i == |data| {
      NotFound(data, delim);
      LastToken(data, excluded, delim);
    } else if err == None {
      var s := Deliver(script, 0, MAX_EMPTY_READS + 1, end);
      NextLineBefore(data, s.items, s.stop, s.joined, max, delim, excluded);
    } else {
      ScannedAtDelim(data, err.value, true, max, delim, excluded, data[..i], data[i + 1..]);
    }
  }

  /** A delimiter in the buffered data ends the next token, whatever comes later. */
  lemma NextLineBefore<T>(data: seq<T>, later: seq<T>, stop: Error, joined: bool, max: nat, delim: T,
                          excluded: Option<T>)
    requires |data| <= max && Index(data, delim) < |data|
    ensures var i := Index(data, delim);
      Scanned(data + later, stop, joined, max, delim, excluded) ==
      Before(DropExcluded(data[..i], excluded), Scanned(data[i + 1..] + later, stop, joined, max, delim, excluded))
  {
    var i := Index(data, delim);
    LineInConcat(data, later, delim);
    ScannedAtDelim(data + later, stop, joined, max, delim, excluded, data[..i], data[i + 1..] + later);
  }

  lemma LineInConcat<T>(data: seq<T>, later: seq<T>, delim: T)
    requires Index(data, delim) < |data|
    ensures var i := Index(data, delim);
      && Index(data + later, delim) == i
      && (data + later)[..i] == data[..i] && (data + later)[i + 1..] == data[i + 1..] + later
  {
    IndexOfConcat(data, later, delim);
  }

  /** Without a delimiter, what is left at a stop is the last token, unless nothing is left. */
  lemma LastToken<T>(data: seq<T>, excluded: Option<T>, delim: T)
    requires Index(data, delim) == |data|
    ensures data[..|data|] == data && Index(data[|data|..], delim) == 0
  {
  }

  // ---------- The scanner ----------

  /** ScanLines: how far to advance and the token found, if any. It never fails. */
  function ScanLines<T(==)>(data: seq<T>, delim: T, excluded: Option<T>, atEOF: bool): (r: (nat, Option<seq<T>>))
    ensures r.0 <= |data|
    ensures r.1.Some? ==> 0 < r.0
  {
    if atEOF && data == [] then (0, None)
    else
      var i := Index(data, delim);
      if i < |data| then (i + 1, Some(DropExcluded(data[..i], excluded)))
      else if atEOF then (|data|, Some(DropExcluded(data, excluded)))
      else (0, None)
  }

  class Scanner<T(==, 0)> {
    const r: Source<T>
    const delim: T
    const excluded: Option<T>
    var maxTokenSize: int
    var token: Option<seq<T>>
    var buf: array<T>
    var start: nat
    var end: nat
    var err: Option<Error>
    var empties: nat
    var scanCalled: bool
    ghost var held: seq<T>

    /** `held` is what has been read but not yet handed out: buf[start..end]. */
    ghost predicate Valid()
      reads this, buf
    {
      && start <= end <= buf.Length && |held| == end - start
      && forall i :: 0 <= i < |held| ==> buf[start + i] == held[i]
    }

    /** The largest size the buffer can reach. */
    ghost function Max(): nat
      reads this
    {
      if maxTokenSize < buf.Length then buf.Length else maxTokenSize
    }

    /** The tokens and the final error that successive Scan calls are still going to produce. */
    ghost function Remaining(): Outcome<T>
      requires Valid()
      reads this, r, buf
    {
      RemainingAfter(0)
    }

    /** The same, in the midst of a read that has met `loop` empty answers. */
    ghost function RemainingAfter(loop: nat): Outcome<T>
      requires Valid()
      reads this, r, buf
    {
      Coming(held, err, r.script, loop, EndOf(r.ending), Max(), delim, excluded)
    }

    constructor (r: Source<T>, delim: T, excluded: Option<T>, maxTokenSize: int)
      ensures Valid() && this.r == r && this.delim == delim && this.excluded == excluded
      ensures this.maxTokenSize == maxTokenSize && buf.Length == 0 && start == end == 0 && held == [] &&
        err == None && fresh(buf)
      ensures !scanCalled
    {
      this.r, this.delim, this.excluded, this.maxTokenSize := r, delim, excluded, maxTokenSize;
      buf := new T[0];
      start, end, err, token, empties, scanCalled, held := 0, 0, None, None, 0, false, [];
    }

    /** Sets the initial buffer and the largest size it may grow to. */
    method Buffer(buf: array<T>, max: int)
      requires Valid() && !scanCalled && start == end == 0
      modifies this`buf, this`maxTokenSize
      ensures Valid() && held == [] && this.buf == buf && maxTokenSize == max
      ensures Max() == if max < buf.Length then buf.Length else max
    {
      this.buf := buf;
      maxTokenSize := max;
    }

    method SetErr(e: Error)
      modifies this`err
      ensures err == if old(err) == None || old(err) == Some(EOF) then Some(e) else old(err)
    {
      if err == None || err == Some(EOF) {
        err := Some(e);
      }
    }

    method Advance(n: int) returns (legal: bool)
      requires Valid()
      modifies this`err, this`start, this`held
      ensures Valid() && legal == (0 <= n <= old(end - start))
      ensures legal ==> held == old(held)[n..] && err == old(err)
      ensures !legal ==> held == old(held)
      ensures !legal ==> err == if old(err) != None && old(err) != Some(EOF) then old(err)
        else Some(if n < 0 then ErrNegativeAdvance else ErrAdvanceTooFar)
    {
      if n < 0 {
        SetErr(ErrNegativeAdvance);
        return false;
      }
      if n > end - start {
        SetErr(ErrAdvanceTooFar);
        return false;
      }
      start := start + n;
      held := held[n..];
      return true;
    }

    /** One read into the free end of the buffer, unless the source answers with an impossible count. */
    method Fetch() returns (sane: bool, n: nat, e: Option<Error>)
      requires Valid() && end < buf.Length
      modifies this`end, this`held, r, buf
      ensures Valid() && sane == !old(r.Miscounts())
      ensures !sane ==> held == old(held) && r.script == []
      ensures sane ==>
        var a := Answer(old(r.script), buf.Length - old(end));
        held == old(held) + a.items && n == |a.items| && e == a.err && r.script == a.rest && end == old(end) + n
    {
      ghost var items := Answer(r.script, buf.Length - end).items;
      var count, answer := r.Read(buf, end, buf.Length);
      if count < 0 || buf.Length - end < count {
        return false, 0, None;
      }
      end := end + count;
      held := held + items;
      return true, count, answer;
    }

    /** One answer of the source; tells whether it was empty, so that another read is due. */
    method ReadOnce(ghost loop: nat) returns (empty: bool)
      requires Valid() && err == None && end < buf.Length
      modifies this`end, this`held, this`err, this`empties, r, buf
      ensures Valid() && (empty ==> err == None && end == old(end))
      ensures err == None ==> Shorter(r.script, old(r.script))
      ensures old(RemainingAfter(loop)) ==
        if !empty then Remaining()
        else if loop == MAX_EMPTY_READS then
          Coming(held, Some(ErrNoProgress), r.script, 0, EndOf(r.ending), Max(), delim, excluded)
        else RemainingAfter(loop + 1)
    {
      ghost var data, script, room := held, r.script, buf.Length - end;
      var sane, n, e := Fetch();
      if !sane {
        SetErr(ErrBadReadCount);
        MiscountIsStop(data, loop, Max(), delim, excluded);
        return false;
      }
      empty := Note(n, e);
      ReadChangesNothing(data, script, room, loop, EndOf(r.ending), Max(), delim, excluded);
      assert data + [] == data;
    }

    /** Takes note of an answer of n items and perhaps an error; tells whether it was empty. */
    method Note(n: nat, e: Option<Error>) returns (empty: bool)
      requires err == None
      modifies this`err, this`empties
      ensures err == e && (empty <==> n == 0 && e == None)
    {
      if e != None {
        SetErr(e.value);
        return false;
      }
      if n > 0 {
        empties := 0;
        return false;
      }
      return true;
    }

    /** Reads until some items or an error arrive, but not forever: the read loop of Scan. */
    method Refill()
      requires Valid() && err == None && end < buf.Length
      modifies this`end, this`held, this`err, this`empties, r, buf
      ensures Valid() && Remaining() == old(Remaining())
      ensures err == None ==> Shorter(r.script, old(r.script))
    {
      ghost var goal := Remaining();
      var loop := 0;
      while true
        invariant 0 <= loop <= MAX_EMPTY_READS
        invariant Valid() && err == None && end == old(end)
        invariant RemainingAfter(loop) == goal
        invariant loop != 0 ==> Shorter(r.script, old(r.script))
        decreases |r.script|, Head(r.script)
      {
        var empty := ReadOnce(loop);
        if !empty {
          return;
        }
        loop := loop + 1;
        if loop > MAX_EMPTY_READS {
          SetErr(ErrNoProgress);
          return;
        }
      }
    }

    /** Moves the data to the front if space is needed or plenty of it is free there. */
    method Shift()
      requires Valid()
      modifies this`start, this`end, buf
      ensures Valid() && held == old(held)
      ensures end == buf.Length ==> start == 0
      ensures start == if old(start > 0 && (end == buf.Length || start > buf.Length / 2)) then 0 else old(start)
    {
      if start > 0 && (end == buf.Length || start > buf.Length / 2) {
        CopyToFront(buf, buf, start, end);
        end := end - start;
        start := 0;
      }
    }

    /** Moves the data to a buffer twice as large, within the limit. */
    method Enlarge()
      requires Valid() && buf.Length < maxTokenSize
      modifies this`start, this`end, this`buf
      ensures Valid() && held == old(held) && fresh(buf)
      ensures start == 0 && old(buf.Length) < buf.Length && Max() == old(Max())
      ensures var doubled := if old(buf.Length) == 0 then START_BUF_SIZE else 2 * old(buf.Length);
        buf.Length == if doubled < maxTokenSize then doubled else maxTokenSize
    {
      var newSize := buf.Length * 2;
      if newSize == 0 {
        newSize := START_BUF_SIZE;
      }
      if newSize > maxTokenSize {
        newSize := maxTokenSize;
      }
      var newBuf := new T[newSize];
      CopyToFront(newBuf, buf, start, end);
      buf := newBuf;
      end := end - start;
      start := 0;
    }

    /** Makes sure that something can be read, or fails when the buffer is full and cannot grow. */
    method MakeRoom() returns (room: bool)
      requires Valid() && err == None && delim !in held
      modifies this`start, this`end, this`buf, this`err, buf
      ensures Valid() && (buf == old(buf) || fresh(buf)) && Max() == old(Max())
      ensures room ==> err == None && end < buf.Length && held == old(held)
      ensures !room ==> err == Some(ErrTooLong) && old(Remaining()) == Outcome([], ErrTooLong)
      ensures !room ==> held == old(held) && |held| == Max()
      ensures buf != old(buf) ==> |held| == old(buf.Length)
    {
      Shift();
      if end == buf.Length {
        if buf.Length >= maxTokenSize {
          FullIsTooLong(held, r.script, 0, EndOf(r.ending), Max(), delim, excluded);
          SetErr(ErrTooLong);
          return false;
        }
        Enlarge();
      }
      return true;
    }

    /** Takes a token off the buffered data if there is one. */
    method TakeToken() returns (found: bool)
      requires Valid()
      modifies this`start, this`held, this`token, this`empties, this`err
      ensures Valid() && err == old(err)
      ensures found ==> token.Some? && Before(token.value, Remaining()) == old(Remaining())
      ensures !found ==> held == old(held) && token == if held == [] && err == None then old(token) else None
      ensures !found ==> delim !in held
      ensures !found && err != None ==> Remaining() == Outcome([], err.value)
    {
      if end > start || err != None {
        var advance := Split();
        if token != None {
          if err == None || advance > 0 {
            empties := 0;
          } else {
            assert false;
          }
          return true;
        }
      }
      return false;
    }

    /** Calls the split function on the buffered data and advances past what it has used. */
    method Split() returns (advance: nat)
      requires Valid()
      modifies this`start, this`held, this`token, this`err
      ensures Valid() && err == old(err)
      ensures token.Some? ==> 0 < advance && Before(token.value, Remaining()) == old(Remaining())
      ensures token == None ==> held == old(held)
      ensures token == None ==> delim !in held
      ensures token == None && err != None ==> Remaining() == Outcome([], err.value)
    {
      ghost var data := held;
      assert buf[start..end] == held;
      var (n, t) := ScanLines(buf[start..end], delim, excluded, err != None);
      advance := n;
      var legal := Advance(advance);
      if !legal {
        assert false;
      }
      token := t;
      NextToken(data, err, r.script, EndOf(r.ending), Max(), delim, excluded);
    }

    /** After a Scan that has failed: nothing is held, or else the too long line that fills the buffer. */
    ghost predicate Stopped()
      reads this, buf
    {
      Valid() && err.Some? && (held != [] ==> err == Some(ErrTooLong) && |held| == Max() && delim !in held)
    }

    /**
     * Finds the next token. Whatever the source does, the tokens and the final error are those of
     * Remaining(): a Scan takes the first token off it, and fails exactly when there is none left.
     */
    method Scan() returns (ok: bool)
      requires Valid()
      modifies this, r, buf
      ensures Valid() && (buf == old(buf) || fresh(buf)) && Max() == old(Max())
      ensures ok ==> token.Some? && Before(token.value, Remaining()) == old(Remaining())
      ensures !ok ==> err.Some? && old(Remaining()) == Outcome([], err.value)
      ensures !ok ==> Stopped() && token == if old(err) == None && Max() == 0 then old(token) else None
      ensures !ok && held == [] ==> start == end == 0
      ensures old(delim in held) ==> ok && r.script == old(r.script) && buf == old(buf)
      ensures scanCalled && maxTokenSize == old(maxTokenSize)
    {
      scanCalled := true;
      while true
        invariant scanCalled && maxTokenSize == old(maxTokenSize)
        invariant old(delim in held) ==> held == old(held) && r.script == old(r.script) && buf == old(buf)
        invariant old(err) == None && Max() == 0 ==> err == None && token == old(token)
        invariant Valid() && (buf == old(buf) || fresh(buf)) && Max() == old(Max())
        invariant Remaining() == old(Remaining())
        decreases err == None, |r.script|, Head(r.script)
      {
        var found := TakeToken();
        if found {
          return true;
        }
        if err != None {
          start, end, held := 0, 0, [];
          return false;
        }
        var room := ReadMore();
        if !room {
          return false;
        }
      }
    }

    /** What Scan does when there is no token in the buffered data: makes room and reads, unless that cannot be. */
    method ReadMore() returns (room: bool)
      requires Valid() && err == None && delim !in held
      modifies this`start, this`end, this`held, this`buf, this`err, this`empties, r, buf
      ensures Valid() && (buf == old(buf) || fresh(buf)) && Max() == old(Max())
      ensures room ==> Remaining() == old(Remaining()) && 0 < Max()
      ensures room ==> err != None || Shorter(r.script, old(r.script))
      ensures !room ==> err == Some(ErrTooLong) && old(Remaining()) == Outcome([], ErrTooLong)
      ensures !room ==> held == old(held) && |held| == Max()
    {
      room := MakeRoom();
      if room {
        Refill();
      }
    }
  }

  /** The documented use: call Scan until it fails. All tokens come out in order, none lost and none repeated. */
  method ScanAll<T(==, 0)>(s: Scanner<T>) returns (tokens: seq<seq<T>>)
    requires s.Valid()
    modifies s, s.r, s.buf
    ensures s.Valid() && s.err.Some? && old(s.Remaining()) == Outcome(tokens, s.err.value)
  {
    tokens := [];
    var more := true;
    while more
      invariant s.Valid() && (s.buf == old(s.buf) || fresh(s.buf))
      invariant more ==> old(s.Remaining()) == Outcome(tokens + s.Remaining().tokens, s.Remaining().err)
      invariant !more ==> s.err.Some? && old(s.Remaining()) == Outcome(tokens, s.err.value)
      decreases more, if more then |s.Remaining().tokens| else 0
    {
      ghost var before := s.Remaining();
      more := s.Scan();
      if more {
        ConcatAssociates(tokens, [s.token.value], s.Remaining().tokens);
        tokens := tokens + [s.token.value];
      } else {
        assert tokens + [] == tokens;
      }
    }
  }

  /** A new scanner over any source, with any initial buffer and limit, run to its end. */
  method ScanStream<T(==, 0)>(script: seq<Step<T>>, ending: Ending, size: nat, max: int, delim: T, excluded: Option<T>)
    returns (tokens: seq<seq<T>>, stop: Error)
    ensures var s := Deliver(script, 0, MAX_EMPTY_READS + 1, EndOf(ending));
      var limit := if max < size then size else max;
      && Outcome(tokens, stop) == Scanned(s.items, s.stop, s.joined, limit, delim, excluded)
      && (Fits(s.items, limit, delim) ==> tokens == LinesOf(s.items, delim, excluded) && stop == s.stop)
  {
    var source := new Source(script, ending);
    var scanner := new Scanner(source, delim, excluded, max);
    var buf := new T[size];
    scanner.Buffer(buf, max);
    ghost var s := Deliver(script, 0, MAX_EMPTY_READS + 1, EndOf(ending));
    assert scanner.held + s.items == s.items;
    tokens := ScanAll(scanner);
    stop := scanner.err.value;
    if Fits(s.items, if max < size then size else max, delim) {
      ChunkingIsInvisible(script, EndOf(ending), if max < size then size else max, delim, excluded);
    }
  }

  /** What is held when a stop is known, without a delimiter in it, is one more token unless it is nothing. */
  lemma HeldAtStop<T>(data: seq<T>, stop: Error, max: nat, delim: T, excluded: Option<T>)
    requires delim !in data && |data| <= max
    ensures Scanned(data, stop, true, max, delim, excluded) ==
            Outcome(if data == [] then [] else [DropExcluded(data, excluded)], stop)
  {
    assert data[..|data|] == data;
    IndexIs(data, delim, |data|);
  }

  /**
   * Scanning on after a Scan that has failed: the next Scan fails as well exactly if the buffer was left empty.
   * After a line that was too long it hands out the full buffer as a token, and only the one after it fails.
   */
  method ScanOn<T(==, 0)>(s: Scanner<T>) returns (ok: bool)
    requires s.Stopped()
    modifies s, s.r, s.buf
    ensures s.Valid() && (ok <==> old(s.held) != [])
    ensures ok ==> s.token == Some(DropExcluded(old(s.held), s.excluded)) && s.Remaining() == Outcome([], ErrTooLong)
    ensures !ok ==> s.Stopped() && s.err == old(s.err)
  {
    if s.held == [] {
      HeldAtStop(s.held, s.err.value, s.Max(), s.delim, s.excluded);
    } else {
      HeldAtStop(s.held, ErrTooLong, s.Max(), s.delim, s.excluded);
    }
    ghost var coming := s.Remaining().tokens;
    ok := s.Scan();
    if ok {
      assert |coming| == 1 + |s.Remaining().tokens| && coming[0] == s.token.value;
    }
  }
}
