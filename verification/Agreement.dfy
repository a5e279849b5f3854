/** The scanner and the line-reading reader produce the same lines. */
module Agreement {
  import opened Streams
  import opened Lines
  import opened Scanners
  import opened Readers
  import opened Writers

  /** A source that never goes quiet for as long as the smaller limit looks the same under the larger one. */
  lemma {:induction false} PatienceDoesNotMatter<T>(script: seq<Step<T>>, empties: nat)
    requires empties < MAX_EMPTY_READS
    requires Deliver(script, empties, MAX_EMPTY_READS, EOF).stop != ErrNoProgress
    ensures Deliver(script, empties, MAX_EMPTY_READS + 1, EOF) == Deliver(script, empties, MAX_EMPTY_READS, EOF)
    decreases |script|
  {
    if script != [] && script[0].err == None {
      if script[0].items != [] {
        PatienceDoesNotMatter(script[1..], 0);
      } else {
        PatienceDoesNotMatter(script[1..], empties + 1);
      }
    }
  }

  /** The first line with its delimiter comes first among the lines, and then those of the rest. */
  lemma FirstLineOf<T>(s: seq<T>, delim: T, excluded: Option<T>, first: seq<T>, rest: seq<T>)
    requires var i := Index(s, delim);
      i < |s| && first == s[..i + 1] && rest == s[i + 1..]
    ensures LinesOf(s, delim, excluded) == [Strip(first, excluded)] + LinesOf(rest, delim, excluded)
    ensures Tail(s, delim) == Tail(rest, delim)
  {
    RawLinesStep(s, delim, first, rest);
    LinesCons(first, RawLines(rest, delim), Tail(rest, delim), excluded);
  }

  lemma StripOfFirst<T>(s: seq<T>, i: nat, excluded: Option<T>)
    requires i < |s|
    ensures Strip(s[..i + 1], excluded) == DropExcluded(s[..i], excluded)
  {
    assert s[..i + 1][..i] == s[..i];
  }

  lemma RawLinesStep<T>(s: seq<T>, delim: T, first: seq<T>, rest: seq<T>)
    requires var i := Index(s, delim);
      i < |s| && first == s[..i + 1] && rest == s[i + 1..]
    ensures RawLines(s, delim) == [first] + RawLines(rest, delim) && Tail(s, delim) == Tail(rest, delim)
  {
  }

  lemma LinesCons<T>(first: seq<T>, ls: seq<seq<T>>, tail: seq<T>, excluded: Option<T>)
    ensures var last := if tail == [] then [] else [DropExcluded(tail, excluded)];
      StripAll([first] + ls, excluded) + last == [Strip(first, excluded)] + (StripAll(ls, excluded) + last)
  {
    StripAllCons(first, ls, excluded);
    ConcatAssociates([Strip(first, excluded)], StripAll(ls, excluded),
                     if tail == [] then [] else [DropExcluded(tail, excluded)]);
  }

  lemma NoLineOf<T>(s: seq<T>, delim: T, excluded: Option<T>)
    requires Index(s, delim) == |s| && Tail(s, delim) == []
    ensures s == [] && LinesOf(s, delim, excluded) == []
  {
  }

  /** `lines` have been read, and the lines of `now` are left. */
  ghost predicate LinesLeft<T>(all: Segment<T>, lines: seq<seq<T>>, now: Segment<T>, delim: T, excluded: Option<T>) {
    && LinesOf(all.items, delim, excluded) == lines + LinesOf(now.items, delim, excluded)
    && Tail(now.items, delim) == [] && now.stop == all.stop
  }

  lemma LineRead<T>(all: Segment<T>, lines: seq<seq<T>>, now: Segment<T>, delim: T, excluded: Option<T>,
                    line: seq<T>, e: Option<Error>, data: seq<T>, err: Option<Error>, script: seq<Step<T>>)
    requires LinesLeft(all, lines, now, delim, excluded)
    requires WholeLine(now, delim, excluded, line, e, data, err, script)
    ensures e == None ==>
      && LinesLeft(all, lines + [line], Through(data, err, script), delim, excluded)
      && |Through(data, err, script).items| < |now.items|
    ensures e != None ==> lines == LinesOf(all.items, delim, excluded) && e == Some(all.stop)
  {
    var i := Index(now.items, delim);
    if i < |now.items| {
      StripOfFirst(now.items, i, excluded);
      FirstLineOf(now.items, delim, excluded, now.items[..i + 1], now.items[i + 1..]);
      ConcatAssociates(lines, [line], LinesOf(now.items[i + 1..], delim, excluded));
    } else {
      NoLineOf(now.items, delim, excluded);
      assert lines + [] == lines;
    }
  }

  /** Reads whole lines until there are none left before a stop. */
  method ReadAllLines<T(==, 0)>(b: Reader<T>) returns (lines: seq<seq<T>>, stop: Error)
    requires b.Valid() && 2 <= b.buf.Length
    requires Tail(Through(b.held, b.err, b.rd.script).items, b.delim) == []
    modifies b`held, b`r, b`w, b`err, b.rd, b.buf
    ensures b.Valid()
    ensures var t := old(Through(b.held, b.err, b.rd.script));
      lines == LinesOf(t.items, b.delim, b.excluded) && stop == t.stop
  {
    ghost var all := Through(b.held, b.err, b.rd.script);
    lines := [];
    assert [] + LinesOf(all.items, b.delim, b.excluded) == LinesOf(all.items, b.delim, b.excluded);
    while true
      invariant b.Valid()
      invariant LinesLeft(all, lines, Through(b.held, b.err, b.rd.script), b.delim, b.excluded)
      decreases |Through(b.held, b.err, b.rd.script).items|
    {
      ghost var now := Through(b.held, b.err, b.rd.script);
      var line, e := ReadWholeLine(b);
      LineRead(all, lines, now, b.delim, b.excluded, line, e, b.held, b.err, b.rd.script);
      if e != None {
        return lines, e.value;
      }
      lines := lines + [line];
    }
  }

  /**
   * On a stream of delimited lines that fit the scanner, Scan and ReadLine give the same lines and the same stop,
   * whatever the buffers and chunks.
   */
  method ScanAndReadLines<T(==, 0)>(script: seq<Step<T>>, scanSize: nat, max: int, readSize: nat, delim: T,
                                    excluded: Option<T>)
    returns (tokens: seq<seq<T>>, lines: seq<seq<T>>, scanStop: Error, readStop: Error)
    requires 2 <= readSize && NeverFull(script)
    requires var s := Deliver(script, 0, MAX_EMPTY_READS, EOF);
      && s.stop != ErrNoProgress && Tail(s.items, delim) == []
      && Fits(s.items, if max < scanSize then scanSize else max, delim)
    ensures tokens == lines == LinesOf(Deliver(script, 0, MAX_EMPTY_READS, EOF).items, delim, excluded)
    ensures scanStop == readStop == Deliver(script, 0, MAX_EMPTY_READS, EOF).stop
  {
    PatienceDoesNotMatter(script, 0);
    tokens, scanStop := ScanStream(script, AtEOF, scanSize, max, delim, excluded);
    var source := new Source(script);
    var reader := new Reader(source, readSize, delim, excluded);
    ThroughIsAhead([], script);
    ghost var items := Deliver(script, 0, MAX_EMPTY_READS, EOF).items;
    assert [] + items == items;
    lines, readStop := ReadAllLines(reader);
  }

  lemma ChunkIsDelivered<T>(items: seq<T>)
    ensures Deliver([Chunk(items, None)], 0, MAX_EMPTY_READS, EOF) == Segment(items, EOF, false, [])
  {
    assert [Chunk(items, None)][1..] == [];
    assert items + [] == items;
  }

  lemma TerminatedFit<T>(ls: seq<seq<T>>, delim: T, x: T, max: nat)
    requires x != delim && 0 < max
    requires forall i :: 0 <= i < |ls| ==> delim !in ls[i] && |ls[i]| + 2 <= max
    ensures var all := Flatten(Terminated(ls, [x, delim]));
      Fits(all, max, delim) && Tail(all, delim) == [] && LinesOf(all, delim, Some(x)) == ls
  {
    var all := Flatten(Terminated(ls, [x, delim]));
    MarkedLinesComeBack(ls, delim, x);
    TerminatedSplits(ls, [], [x, delim], delim, Some(x));
    assert all + [] == all;
  }

  /** With a sink that takes everything, Write does so as well. */
  method WriteAll<T(0)>(w: Writer<T>, p: seq<T>)
    requires w.Valid() && w.err == None && w.wr.verdicts == []
    modifies w`n, w`err, w`held, w`accepted, w.buf, w.wr
    ensures w.Valid() && w.err == None && w.wr.verdicts == [] && w.accepted == old(w.accepted) + p
  {
    var n, e := w.Write(p);
    assert p[..|p|] == p;
  }

  /** Writes every line and its end-of-line marker through a buffered writer to a sink that takes everything. */
  method WriteLines<T(==, 0)>(ls: seq<seq<T>>, end: seq<T>, size: nat) returns (written: seq<T>)
    requires 1 <= size
    ensures written == Flatten(Terminated(ls, end))
  {
    var sink := new Sink<T>([]);
    var w := new Writer<T>(sink, size);
    ghost var all := Terminated(ls, end);
    for i := 0 to |ls|
      invariant w.Valid() && w.err == None && sink.verdicts == [] && fresh(w.buf)
      invariant w.accepted == Flatten(all[..i])
    {
      FlattenStep(all, i);
      WriteAll(w, ls[i] + end);
    }
    var e := w.Flush();
    assert all[..|ls|] == all;
    assert sink.received + [] == sink.received;
    written := sink.received;
  }

  /** Lines that are written with a marker after each come back from the scanner and the reader as they were. */
  method WriteAndReadBack<T(==, 0)>(ls: seq<seq<T>>, delim: T, x: T, writeSize: nat, scanSize: nat, max: int,
                                    readSize: nat)
    returns (tokens: seq<seq<T>>, lines: seq<seq<T>>, scanStop: Error, readStop: Error)
    requires x != delim && 1 <= writeSize && 2 <= readSize
    requires var limit := if max < scanSize then scanSize else max;
      0 < limit && forall i :: 0 <= i < |ls| ==> delim !in ls[i] && |ls[i]| + 2 <= limit
    ensures tokens == lines == ls && scanStop == readStop == EOF
  {
    var written := WriteLines(ls, [x, delim], writeSize);
    ChunkIsDelivered(written);
    TerminatedFit(ls, delim, x, if max < scanSize then scanSize else max);
    tokens, lines, scanStop, readStop :=
      ScanAndReadLines([Chunk(written, None)], scanSize, max, readSize, delim, Some(x));
  }
}
