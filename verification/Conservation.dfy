/**
 * Over any mix of its operations a buffered reader hands out the stream as it is: nothing lost, repeated or
 * reordered.
 */
module Conservation {
  import opened Streams
  import opened Lines
  import opened Readers

  /** A client's calls. */
  datatype Use<T> = PeekAt(n: int) | DiscardUpTo(n: int) | ReadUpTo(k: nat) | ReadOne | SliceThrough(delim: T)

  /** Taking k items off what lies ahead takes them off what is unread. */
  lemma TakenIsGone<T>(data: seq<T>, err: Option<Error>, script: seq<Step<T>>, k: nat,
                       data': seq<T>, err': Option<Error>, script': seq<Step<T>>)
    requires var a := Ahead(data, err, script);
      k <= |a.items| && SameView(Ahead(data', err', script'), Dropped(a, k))
    ensures Ahead(data, err, script).items[..k] + (data' + AllItems(script')) == data + AllItems(script)
  {
    var a := Ahead(data, err, script);
    AheadConserves(data, err, script);
    AheadConserves(data', err', script');
    TakeDrop(a.items, k);
    ConcatAssociates(a.items[..k], a.items[k..], AllItems(a.rest));
  }

  /** Taking all of it, and the stop. */
  lemma AllTaken<T>(data: seq<T>, err: Option<Error>, script: seq<Step<T>>)
    ensures var a := Ahead(data, err, script);
      a.items[..|a.items|] + ([] + AllItems(a.rest)) == data + AllItems(script)
  {
    var a := Ahead(data, err, script);
    AheadConserves(data, err, script);
    assert a.items[..|a.items|] == a.items && [] + AllItems(a.rest) == AllItems(a.rest);
  }

  lemma SliceConserves<T>(data: seq<T>, err: Option<Error>, script: seq<Step<T>>, delim: T, size: nat,
                          line: seq<T>, e: Option<Error>, data': seq<T>, err': Option<Error>, script': seq<Step<T>>)
    requires Sliced(Ahead(data, err, script), delim, size, line, e, data', err', script')
    ensures line + (data' + AllItems(script')) == data + AllItems(script)
  {
    match CutOf(Ahead(data, err, script), delim, size)
    case AtDelim(n) => TakenIsGone(data, err, script, n, data', err', script');
    case AtFull => TakenIsGone(data, err, script, size, data', err', script');
    case AtStop => AllTaken(data, err, script);
  }

  lemma PeekConserves<T>(data: seq<T>, err: Option<Error>, script: seq<Step<T>>,
                         data': seq<T>, err': Option<Error>, script': seq<Step<T>>)
    requires var a := Ahead(data, err, script);
      || SameView(Ahead(data', err', script'), a)
      || (data' == a.items && script' == a.rest)
    ensures data' + AllItems(script') == data + AllItems(script)
  {
    AheadConserves(data, err, script);
    AheadConserves(data', err', script');
  }

  /** What a call gave its client: items, or just how many were skipped. */
  datatype Given<T> = Items(items: seq<T>) | Skipped(count: nat)

  /** Of `before`, the given items were the next ones or were skipped, and `after` is left. */
  predicate GoesOn<T(==)>(before: seq<T>, g: Given<T>, after: seq<T>) {
    match g
    case Items(items) => before == items + after
    case Skipped(count) => count <= |before| && after == before[count..]
  }

  /** The same for all that a run gave, in order. */
  predicate GoOn<T(==)>(before: seq<T>, gs: seq<Given<T>>, after: seq<T>)
    decreases |gs|
  {
    if gs == [] then before == after
    else
      match gs[0]
      case Items(items) =>
        |items| <= |before| && items == before[..|items|] && GoOn(before[|items|..], gs[1..], after)
      case Skipped(count) =>
        count <= |before| && GoOn(before[count..], gs[1..], after)
  }

  lemma {:induction false} OneMoreGiven<T>(before: seq<T>, gs: seq<Given<T>>, middle: seq<T>, g: Given<T>,
                                           after: seq<T>)
    requires GoOn(before, gs, middle) && GoesOn(middle, g, after)
    ensures GoOn(before, gs + [g], after)
    decreases |gs|
  {
    if gs == [] {
      assert [g][1..] == [];
      if g.Items? {
        TakeDrop(before, |g.items|);
        SliceOfConcat(g.items, after, |g.items|);
        assert g.items[..|g.items|] == g.items && g.items[|g.items|..] + after == after;
      }
      assert gs + [g] == [g];
    } else {
      var n := if gs[0].Items? then |gs[0].items| else gs[0].count;
      OneMoreGiven(before[n..], gs[1..], middle, g, after);
      assert (gs + [g])[1..] == gs[1..] + [g];
    }
  }

  /** How far a run has gone. */
  function Length<T>(gs: seq<Given<T>>): nat
    decreases |gs|
  {
    if gs == [] then 0 else (if gs[0].Items? then |gs[0].items| else gs[0].count) + Length(gs[1..])
  }

  /** Everything given is where it was in the stream: item j of a call that came after n items is item n + j. */
  lemma {:induction false} GivenInPlace<T>(before: seq<T>, gs: seq<Given<T>>, after: seq<T>, i: nat)
    requires GoOn(before, gs, after) && i < |gs|
    ensures Length(gs) <= |before| && after == before[Length(gs)..]
    ensures gs[i].Items? ==>
      var n := Length(gs[..i]);
      n + |gs[i].items| <= |before| && gs[i].items == before[n..n + |gs[i].items|]
    decreases |gs|
  {
    var k := if gs[0].Items? then |gs[0].items| else gs[0].count;
    if |gs| == 1 {
      assert gs[..i] == [] && Length(gs[1..]) == 0;
    } else {
      GivenInPlace(before[k..], gs[1..], after, if i == 0 then 0 else i - 1);
      SliceOfSlice(before, k, Length(gs[1..]));
      if i == 0 {
        assert gs[..i] == [];
      } else {
        assert gs[..i][0] == gs[0] && gs[..i][1..] == gs[1..][..i - 1];
        if gs[i].Items? {
          SliceOfSlice(before, k, Length(gs[1..][..i - 1]));
          SliceWithin(before, k, Length(gs[1..][..i - 1]), |gs[i].items|);
        }
      }
    }
  }

  lemma SliceWithin<T>(s: seq<T>, k: nat, i: nat, n: nat)
    requires k + i + n <= |s|
    ensures s[k..][i..i + n] == s[k + i..k + i + n]
  {
  }

  /** One call: what it returns to the client is what comes next, and the rest is still unread. */
  method UseOnce<T(==, 0)>(b: Reader<T>, use: Use<T>) returns (g: Given<T>)
    requires b.Valid()
    modifies b`held, b`r, b`w, b`err, b.rd, b.buf
    ensures b.Valid() && GoesOn(old(b.Unread()), g, b.Unread())
    ensures g.Skipped? <==> use.DiscardUpTo?
    ensures use.PeekAt? ==> g == Items([])
  {
    ghost var data, err, script := b.held, b.err, b.rd.script;
    match use
    case PeekAt(n) =>
      var _, _, _ := b.Peek(n);
      g := Items([]);
      PeekConserves(data, err, script, b.held, b.err, b.rd.script);
      assert [] + b.Unread() == b.Unread();
    case DiscardUpTo(n) =>
      var k, e := b.Discard(n);
      g := Skipped(k);
      if n < 0 {
        assert b.Unread()[0..] == b.Unread();
      } else {
        DiscardConserves(data, err, script, n, k, e, b.held, b.err, b.rd.script);
      }
    case ReadUpTo(k) =>
      var p := new T[k];
      var n, _ := b.Read(p);
      g := Items(p[..n]);
    case ReadOne =>
      var item, _ := b.ReadItem();
      match item {
        case None =>
          AllTaken(data, err, script);
          g := Items([]);
        case Some(x) =>
          TakenIsGone(data, err, script, 1, b.held, b.err, b.rd.script);
          g := Items([x]);
      }
    case SliceThrough(delim) =>
      var lo, hi, e := b.ReadSlice(delim);
      SliceConserves(data, err, script, delim, b.buf.Length, b.buf[lo..hi], e, b.held, b.err, b.rd.script);
      g := Items(b.buf[lo..hi]);
  }

  /** A whole run hands out the stream as it is, except for what was skipped, and the rest is unread. */
  method UseAll<T(==, 0)>(b: Reader<T>, uses: seq<Use<T>>) returns (gs: seq<Given<T>>)
    requires b.Valid()
    modifies b`held, b`r, b`w, b`err, b.rd, b.buf
    ensures b.Valid() && |gs| == |uses| && GoOn(old(b.Unread()), gs, b.Unread())
    ensures forall i :: 0 <= i < |uses| ==> (gs[i].Skipped? <==> uses[i].DiscardUpTo?)
  {
    gs := [];
    for i := 0 to |uses|
      invariant b.Valid() && |gs| == i && GoOn(old(b.Unread()), gs, b.Unread())
      invariant forall k :: 0 <= k < i ==> (gs[k].Skipped? <==> uses[k].DiscardUpTo?)
    {
      ghost var middle := b.Unread();
      var g := UseOnce(b, uses[i]);
      OneMoreGiven(old(b.Unread()), gs, middle, g, b.Unread());
      gs := gs + [g];
    }
  }
}
