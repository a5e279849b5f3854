/** Splitting a sequence of items into delimited lines. */
module Lines {
  import opened Streams

  /** The first position of x in s, or |s|. */
  function Index<T(==)>(s: seq<T>, x: T): (i: nat)
    ensures i <= |s| && x !in s[..i]
    ensures i < |s| ==> s[i] == x
  {
    if s == [] || s[0] == x then 0
    else
      assert forall k :: 0 < k < |s| ==> s[k] == s[1..][k - 1];
      1 + Index(s[1..], x)
  }

  lemma IndexIs<T>(s: seq<T>, x: T, i: nat)
    requires i <= |s| && x !in s[..i] && (i < |s| ==> s[i] == x)
    ensures Index(s, x) == i
  {
    var k := Index(s, x);
    assert forall j :: 0 <= j < i ==> s[..i][j] == s[j];
    assert forall j :: 0 <= j < k ==> s[..k][j] == s[j];
  }

  lemma NotFound<T>(s: seq<T>, x: T)
    requires Index(s, x) == |s|
    ensures x !in s
  {
    assert s[..|s|] == s;
  }

  lemma TakeDrop<T>(s: seq<T>, k: nat)
    requires k <= |s|
    ensures s == s[..k] + s[k..]
    ensures 0 < k ==> s[..k][..k - 1] == s[..k - 1]
  {
  }

  /** The first position in s + t, when it is known for s. */
  lemma IndexOfConcat<T>(s: seq<T>, t: seq<T>, x: T)
    ensures Index(s + t, x) == if Index(s, x) < |s| then Index(s, x) else |s| + Index(t, x)
  {
    var i := if Index(s, x) < |s| then Index(s, x) else |s| + Index(t, x);
    if Index(s, x) < |s| {
      assert (s + t)[..i] == s[..i];
    } else {
      assert s == s[..|s|];
      assert (s + t)[..i] == s + t[..Index(t, x)];
    }
    IndexIs(s + t, x, i);
  }

  /** Drops one trailing excluded item, if one is configured. */
  function DropExcluded<T(==)>(data: seq<T>, excluded: Option<T>): seq<T> {
    if data != [] && excluded == Some(data[|data| - 1]) then data[..|data| - 1] else data
  }

  /** The delimited lines of s, each with its delimiter. */
  function RawLines<T(==)>(s: seq<T>, delim: T): seq<seq<T>>
    decreases |s|
  {
    var i := Index(s, delim);
    if i == |s| then [] else [s[..i + 1]] + RawLines(s[i + 1..], delim)
  }

  /** What follows the last delimiter of s. */
  function Tail<T(==)>(s: seq<T>, delim: T): seq<T>
    decreases |s|
  {
    var i := Index(s, delim);
    if i == |s| then s else Tail(s[i + 1..], delim)
  }

  function Flatten<T>(ls: seq<seq<T>>): seq<T> {
    if ls == [] then [] else ls[0] + Flatten(ls[1..])
  }

  lemma {:induction false} FlattenConcat<T>(a: seq<seq<T>>, b: seq<seq<T>>)
    ensures Flatten(a + b) == Flatten(a) + Flatten(b)
    decreases |a|
  {
    if a == [] {
      assert a + b == b;
    } else {
      FlattenConcat(a[1..], b);
      assert (a + b)[1..] == a[1..] + b;
    }
  }

  lemma FlattenAppend<T>(ls: seq<seq<T>>, l: seq<T>)
    ensures Flatten(ls + [l]) == Flatten(ls) + l
  {
    FlattenConcat(ls, [l]);
    assert Flatten([l]) == l + Flatten([]) == l;
  }

  lemma FlattenStep<T>(ls: seq<seq<T>>, i: nat)
    requires i < |ls|
    ensures Flatten(ls[..i + 1]) == Flatten(ls[..i]) + ls[i]
    ensures Flatten(ls[i..]) == ls[i] + Flatten(ls[i + 1..])
  {
    FlattenAppend(ls[..i], ls[i]);
    assert ls[..i + 1] == ls[..i] + [ls[i]];
  }

  /** The delimiter is the last item of l and occurs nowhere else in it. */
  predicate Delimited<T(==)>(l: seq<T>, delim: T) {
    l != [] && l[|l| - 1] == delim && delim !in l[..|l| - 1]
  }

  lemma FirstLine<T>(s: seq<T>, delim: T)
    requires Index(s, delim) < |s|
    ensures var i := Index(s, delim);
      && Delimited(s[..i + 1], delim)
      && s == s[..i + 1] + s[i + 1..]
      && RawLines(s, delim)[0] == s[..i + 1]
      && RawLines(s, delim)[1..] == RawLines(s[i + 1..], delim)
  {
    TakeDrop(s, Index(s, delim) + 1);
  }

  lemma {:induction false} SplitIsLossless<T>(s: seq<T>, delim: T)
    ensures Flatten(RawLines(s, delim)) + Tail(s, delim) == s
    ensures forall l :: l in RawLines(s, delim) ==> Delimited(l, delim)
    ensures delim !in Tail(s, delim)
    decreases |s|
  {
    var i := Index(s, delim);
    if i < |s| {
      var first, rest := s[..i + 1], s[i + 1..];
      FirstLine(s, delim);
      SplitIsLossless(rest, delim);
      ConcatAssociates(first, Flatten(RawLines(rest, delim)), Tail(rest, delim));
    } else {
      assert s == s[..|s|];
    }
  }

  /** There is only one way to cut a sequence into delimited lines and a rest without delimiter. */
  lemma {:induction false} SplitIsUnique<T>(ls: seq<seq<T>>, tail: seq<T>, delim: T)
    requires forall l :: l in ls ==> Delimited(l, delim)
    requires delim !in tail
    ensures RawLines(Flatten(ls) + tail, delim) == ls
    ensures Tail(Flatten(ls) + tail, delim) == tail
    decreases |ls|
  {
    if ls == [] {
      assert Flatten(ls) + tail == tail;
      assert tail == tail[..|tail|];
      IndexIs(tail, delim, |tail|);
    } else {
      var l := ls[0];
      var rest := Flatten(ls[1..]) + tail;
      var s := Flatten(ls) + tail;
      assert l in ls;
      assert s == l + rest;
      assert s[..|l| - 1] == l[..|l| - 1];
      IndexIs(s, delim, |l| - 1);
      assert s[..|l|] == l && s[|l|..] == rest;
      SplitIsUnique(ls[1..], tail, delim);
      assert ls == [l] + ls[1..];
    }
  }

  /** A delimited line as it is handed to the client. */
  function Strip<T(==)>(l: seq<T>, excluded: Option<T>): seq<T> {
    if l == [] then [] else DropExcluded(l[..|l| - 1], excluded)
  }

  function StripAll<T(==)>(ls: seq<seq<T>>, excluded: Option<T>): (r: seq<seq<T>>)
    ensures |r| == |ls|
  {
    seq(|ls|, i requires 0 <= i < |ls| => Strip(ls[i], excluded))
  }

  /** The lines of a whole stream: every delimited line, then a last unterminated one if it is not empty. */
  function LinesOf<T(==)>(s: seq<T>, delim: T, excluded: Option<T>): seq<seq<T>> {
    StripAll(RawLines(s, delim), excluded) +
    (if Tail(s, delim) == [] then [] else [DropExcluded(Tail(s, delim), excluded)])
  }

  // ---------- Lines written out ----------

  /** What is dropped is one trailing item, exactly if it is the excluded one. */
  lemma ExcludedIsDropped<T>(l: seq<T>, x: T, excluded: Option<T>)
    ensures DropExcluded(l + [x], excluded) == if excluded == Some(x) then l else l + [x]
    ensures DropExcluded([], excluded) == []
  {
  }

  /** The lines with an end-of-line marker after each of them. */
  function Terminated<T>(ls: seq<seq<T>>, end: seq<T>): (r: seq<seq<T>>)
    ensures |r| == |ls|
  {
    seq(|ls|, i requires 0 <= i < |ls| => ls[i] + end)
  }

  predicate EndsIn<T(==)>(l: seq<T>, excluded: Option<T>) {
    l != [] && excluded == Some(l[|l| - 1])
  }

  lemma StripsItsEnd<T>(l: seq<T>, end: seq<T>, delim: T, excluded: Option<T>)
    requires end == [delim] || (excluded.Some? && end == [excluded.value, delim])
    ensures Strip(l + end, excluded) == if end == [delim] && EndsIn(l, excluded) then l[..|l| - 1] else l
  {
    assert (l + end)[..|l + end| - 1] == l + end[..|end| - 1];
    if end == [delim] {
      assert l + end[..0] == l;
    } else {
      ExcludedIsDropped(l, excluded.value, excluded);
      assert end[..1] == [excluded.value];
    }
  }

  /** Written-out lines are split where they were put together, whatever the marker. */
  lemma TerminatedSplits<T>(ls: seq<seq<T>>, tail: seq<T>, end: seq<T>, delim: T, excluded: Option<T>)
    requires (forall i :: 0 <= i < |ls| ==> delim !in ls[i]) && delim !in tail
    requires end == [delim] || (excluded.Some? && excluded != Some(delim) && end == [excluded.value, delim])
    ensures RawLines(Flatten(Terminated(ls, end)) + tail, delim) == Terminated(ls, end)
    ensures Tail(Flatten(Terminated(ls, end)) + tail, delim) == tail
  {
    forall l | l in Terminated(ls, end)
      ensures Delimited(l, delim)
    {
      var i :| 0 <= i < |ls| && l == ls[i] + end;
      assert l[..|l| - 1] == ls[i] + end[..|end| - 1];
    }
    SplitIsUnique(Terminated(ls, end), tail, delim);
  }

  lemma LinesOfTerminated<T>(ls: seq<seq<T>>, end: seq<T>, delim: T, excluded: Option<T>)
    requires forall i :: 0 <= i < |ls| ==> delim !in ls[i]
    requires end == [delim] || (excluded.Some? && excluded != Some(delim) && end == [excluded.value, delim])
    ensures LinesOf(Flatten(Terminated(ls, end)), delim, excluded) == StripAll(Terminated(ls, end), excluded)
  {
    var all := Flatten(Terminated(ls, end));
    var back := StripAll(Terminated(ls, end), excluded);
    TerminatedSplits(ls, [], end, delim, excluded);
    assert all + [] == all && back + [] == back;
  }

  /** Lines that end in the excluded item and the delimiter come back as they were. */
  lemma MarkedLinesComeBack<T>(ls: seq<seq<T>>, delim: T, x: T)
    requires x != delim && forall i :: 0 <= i < |ls| ==> delim !in ls[i]
    ensures LinesOf(Flatten(Terminated(ls, [x, delim])), delim, Some(x)) == ls
  {
    LinesOfTerminated(ls, [x, delim], delim, Some(x));
    forall i | 0 <= i < |ls|
      ensures Strip(Terminated(ls, [x, delim])[i], Some(x)) == ls[i]
    {
      StripsItsEnd(ls[i], [x, delim], delim, Some(x));
    }
  }

  /** Lines that end in the delimiter alone come back exactly if none of them ends in the excluded item itself. */
  lemma PlainLinesComeBackIff<T>(ls: seq<seq<T>>, delim: T, excluded: Option<T>)
    requires forall i :: 0 <= i < |ls| ==> delim !in ls[i]
    ensures LinesOf(Flatten(Terminated(ls, [delim])), delim, excluded) == ls
      <==> forall i :: 0 <= i < |ls| ==> !EndsIn(ls[i], excluded)
  {
    var back := StripAll(Terminated(ls, [delim]), excluded);
    LinesOfTerminated(ls, [delim], delim, excluded);
    forall i | 0 <= i < |ls|
      ensures back[i] == ls[i] <==> !EndsIn(ls[i], excluded)
    {
      StripsItsEnd(ls[i], [delim], delim, excluded);
    }
    if i :| 0 <= i < |ls| && EndsIn(ls[i], excluded) {
      assert back[i] != ls[i];
    } else {
      assert back == ls;
    }
  }

  /** A last line without delimiter comes back as well, but for an excluded item at its end. */
  lemma LastLineComesBack<T>(ls: seq<seq<T>>, tail: seq<T>, end: seq<T>, delim: T, excluded: Option<T>)
    requires (forall i :: 0 <= i < |ls| ==> delim !in ls[i]) && delim !in tail && tail != []
    requires end == [delim] || (excluded.Some? && excluded != Some(delim) && end == [excluded.value, delim])
    ensures var all := Flatten(Terminated(ls, end));
      LinesOf(all + tail, delim, excluded) ==
      LinesOf(all, delim, excluded) + [if EndsIn(tail, excluded) then tail[..|tail| - 1] else tail]
  {
    var all := Flatten(Terminated(ls, end));
    TerminatedSplits(ls, tail, end, delim, excluded);
    LinesOfTerminated(ls, end, delim, excluded);
    LastOfTail(tail, excluded);
  }

  lemma LastOfTail<T>(tail: seq<T>, excluded: Option<T>)
    requires tail != []
    ensures DropExcluded(tail, excluded) == if EndsIn(tail, excluded) then tail[..|tail| - 1] else tail
  {
    ExcludedIsDropped(tail[..|tail| - 1], tail[|tail| - 1], excluded);
    assert tail == tail[..|tail| - 1] + [tail[|tail| - 1]];
  }
}
