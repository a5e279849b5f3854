/** The underlying item streams that buffered readers and writers sit on. */
module Streams {

  datatype Option<+T> = None | Some(value: T)

  datatype Error =
    | EOF
    | ErrNoProgress
    | ErrShortWrite
    | ErrBufferFull
    | ErrNegativeCount
    | ErrTooLong
    | ErrNegativeAdvance
    | ErrAdvanceTooFar
    | ErrBadReadCount
    | ErrUnreadItem
    | ErrOther(code: int)

  /** Empty reads in a row after which readers give up. */
  const MAX_EMPTY_READS := 100

  // ---------- Sources ----------

  /** One answer a source has ready: some items and perhaps an error. */
  datatype Step<T> = Chunk(items: seq<T>, err: Option<Error>)

  /** What one Read call returns when the caller offers room for a number of items. */
  datatype Reply<T> = Reply(items: seq<T>, err: Option<Error>, rest: seq<Step<T>>)

  /** Items left of the first step. */
  function Head<T>(script: seq<Step<T>>): nat {
    if script == [] then 0 else |script[0].items|
  }

  /** Progress of a source: fewer steps, or fewer items left of the first one. */
  predicate Shorter<T>(a: seq<Step<T>>, b: seq<Step<T>>) {
    |a| < |b| || (|a| == |b| && Head(a) < Head(b))
  }

  /**
   * A script stands for every behaviour a reader may show: any chunk sizes, any runs of empty
   * reads, errors with or without items, and more items after an error. A chunk that is larger
   * than the room offered is handed out over several reads. After its last step a source is at EOF.
   */
  function Answer<T>(script: seq<Step<T>>, room: nat): (r: Reply<T>)
    ensures |r.items| <= room
    ensures 0 < room && script != [] ==> Shorter(r.rest, script)
    ensures script == [] ==> r.items == [] && r.err != None
  {
    if script == [] then
      Reply([], Some(EOF), [])
    else
      var d := script[0].items;
      if |d| <= room then
        Reply(d, script[0].err, script[1..])
      else
        Reply(d[..room], None, [Chunk(d[room..], script[0].err)] + script[1..])
  }

  /** The errors a source has ready. */
  ghost function ErrorsOf<T>(script: seq<Step<T>>): set<Error> {
    set i | 0 <= i < |script| && script[i].err.Some? :: script[i].err.value
  }

  /** An error that a source may answer with, or what its reader says of it in the end. */
  ghost predicate SourceSays<T>(script: seq<Step<T>>, e: Error) {
    e in ErrorsOf(script) || e == EOF || e == ErrNoProgress
  }

  lemma AnswerSays<T>(script: seq<Step<T>>, room: nat)
    ensures var r := Answer(script, room);
      && ErrorsOf(r.rest) <= ErrorsOf(script)
      && (r.err != None ==> SourceSays(script, r.err.value))
  {
    var r := Answer(script, room);
    if script != [] {
      assert forall i :: 0 < i < |r.rest| && |r.rest| == |script| ==> r.rest[i] == script[i];
      assert r.err == None || r.err == script[0].err;
    }
  }

  /** Every item a source still holds, before and after any errors. */
  function AllItems<T>(script: seq<Step<T>>): seq<T> {
    if script == [] then []
    else script[0].items + AllItems(script[1..])
  }

  lemma AnswerConserves<T>(script: seq<Step<T>>, room: nat)
    ensures var r := Answer(script, room);
      r.items + AllItems(r.rest) == AllItems(script)
  {
    if script != [] && room < |script[0].items| {
      var d := script[0].items;
      var rest := [Chunk(d[room..], script[0].err)] + script[1..];
      assert rest[1..] == script[1..];
      assert d == d[..room] + d[room..];
    }
  }

  /** A stretch of a stream up to its first stop; joined when the stop came along with the last item. */
  datatype Segment<T> = Segment(items: seq<T>, stop: Error, joined: bool, rest: seq<Step<T>>)

  /**
   * What a loop sees that reads until the first error and gives up after `limit` empty reads in a
   * row, `empties` of which are already behind it. A limit of 0 means never giving up. `end` is how
   * the source answers once its script is used up.
   */
  function Deliver<T>(script: seq<Step<T>>, empties: nat, limit: nat, end: Error): Segment<T>
    decreases |script|
  {
    if script == [] then
      Segment([], end, false, [])
    else
      var Chunk(d, err) := script[0];
      if err != None then
        Segment(d, err.value, d != [], script[1..])
      else if d != [] then
        var s := Deliver(script[1..], 0, limit, end);
        s.(items := d + s.items)
      else if empties + 1 == limit then
        Segment([], ErrNoProgress, false, script[1..])
      else
        Deliver(script[1..], empties + 1, limit, end)
  }

  /** One read, seen against the segment it is part of: the cut the source makes never shows. */
  lemma AnswerWithinSegment<T>(script: seq<Step<T>>, room: nat, empties: nat, limit: nat, end: Error)
    requires 0 < room && (script != [] || end == EOF)
    ensures var r := Answer(script, room);
      var s := Deliver(script, empties, limit, end);
      match r.err
      case Some(e) => s == Segment(r.items, e, r.items != [], r.rest)
      case None =>
        if r.items != [] then
          var later := Deliver(r.rest, 0, limit, end);
          s == later.(items := r.items + later.items)
        else if empties + 1 == limit then s == Segment([], ErrNoProgress, false, r.rest)
        else s == Deliver(r.rest, empties + 1, limit, end)
  {
    if script != [] && room < |script[0].items| {
      var d := script[0].items;
      var rest := [Chunk(d[room..], script[0].err)] + script[1..];
      assert rest[1..] == script[1..];
      assert d == d[..room] + d[room..];
      if script[0].err == None {
        var t := Deliver(script[1..], 0, limit, end).items;
        assert d + t == d[..room] + (d[room..] + t);
      }
    }
  }

  lemma {:induction false} DeliverConserves<T>(script: seq<Step<T>>, empties: nat, limit: nat, end: Error)
    ensures var s := Deliver(script, empties, limit, end);
      && s.items + AllItems(s.rest) == AllItems(script)
      && (script != [] ==> |s.rest| < |script|)
      && (s.joined ==> s.items != [])
    decreases |script|
  {
    if script != [] && script[0].err == None {
      var d := script[0].items;
      if d != [] {
        DeliverConserves(script[1..], 0, limit, end);
        var s := Deliver(script[1..], 0, limit, end);
        ConcatAssociates(d, s.items, AllItems(s.rest));
      } else if empties + 1 != limit {
        DeliverConserves(script[1..], empties + 1, limit, end);
      }
    }
  }

  /** How a loop reports its stop: EOF is not passed on. */
  function NotEOF(stop: Error): (e: Option<Error>)
    ensures e == None <==> stop == EOF
    ensures e != None ==> e.value == stop
  {
    if stop == EOF then None else Some(stop)
  }

  /** Of the segment `goal`, `got` has been read, and the rest is what the script delivers. */
  ghost predicate Received<T>(goal: Segment<T>, got: seq<T>, script: seq<Step<T>>, empties: nat, limit: nat) {
    var s := Deliver(script, empties, limit, EOF);
    goal == s.(items := got + s.items)
  }

  lemma ReceivedMore<T>(goal: Segment<T>, got: seq<T>, script: seq<Step<T>>, empties: nat, limit: nat, room: nat)
    requires Received(goal, got, script, empties, limit) && 0 < room
    ensures var a := Answer(script, room);
      match a.err
      case Some(e) =>
        goal.items == got + a.items && goal.stop == e && goal.rest == a.rest && (goal.joined <==> a.items != [])
      case None =>
        if a.items != [] then Received(goal, got + a.items, a.rest, 0, limit)
        else if empties + 1 == limit then
          goal.items == got && goal.stop == ErrNoProgress && goal.rest == a.rest && !goal.joined
        else Received(goal, got, a.rest, empties + 1, limit)
  {
    var a := Answer(script, room);
    AnswerWithinSegment(script, room, empties, limit, EOF);
    ConcatAssociates(got, a.items, Deliver(a.rest, 0, limit, EOF).items);
    assert got + [] == got;
  }

  /** A loop without a limit does not care how many empty reads are behind it. */
  lemma {:induction false} NoLimit<T>(script: seq<Step<T>>, empties: nat)
    ensures Deliver(script, empties, 0, EOF) == Deliver(script, 0, 0, EOF)
    decreases |script|
  {
    if script != [] && script[0] == Chunk([], None) {
      NoLimit(script[1..], empties + 1);
      NoLimit(script[1..], 1);
    }
  }

  lemma ReceivedOn<T>(goal: Segment<T>, got: seq<T>, script: seq<Step<T>>, room: nat, d: seq<T>, rest: seq<Step<T>>)
    requires Received(goal, got, script, 0, 0) && 0 < room && Answer(script, room) == Reply(d, None, rest)
    ensures Received(goal, got + d, rest, 0, 0)
  {
    ReceivedMore(goal, got, script, 0, 0, room);
    NoLimit(rest, 1);
    assert got + [] == got;
  }

  /** How a source answers when its script is used up: with EOF, or with a count that cannot be. */
  datatype Ending = AtEOF | Negative | Excessive

  /** A reader over a client-provided stream. */
  class Source<T> {
    const ending: Ending
    var script: seq<Step<T>>

    constructor (script: seq<Step<T>>, ending: Ending := AtEOF)
      ensures this.script == script && this.ending == ending
    {
      this.script, this.ending := script, ending;
    }

    predicate Miscounts()
      reads this
    {
      script == [] && ending != AtEOF
    }

    /** Reads into p[from..to]; what lies there past the items delivered stays as it was. */
    method Read(p: array<T>, from: nat, to: nat) returns (n: int, err: Option<Error>)
      requires from <= to <= p.Length
      modifies this, p
      ensures old(Miscounts()) ==>
        (n < 0 || to - from < n) && err == None && script == []
      ensures !old(Miscounts()) ==>
        var r := Answer(old(script), to - from);
        && n == |r.items| && err == r.err && script == r.rest
        && (forall k :: from <= k < from + n ==> p[k] == r.items[k - from])
        && (forall k :: from + n <= k < to ==> p[k] == old(p[k]))
      ensures forall k :: 0 <= k < from || to <= k < p.Length ==> p[k] == old(p[k])
    {
      var room := to - from;
      if script == [] {
        match ending
        case AtEOF => return 0, Some(EOF);
        case Negative => return -1, None;
        case Excessive => return room + 1, None;
      }
      var Chunk(d, e) := script[0];
      if |d| <= room {
        n, err, script := |d|, e, script[1..];
      } else {
        n, err, script := room, None, [Chunk(d[room..], e)] + script[1..];
      }
      forall i | 0 <= i < n {
        p[from + i] := d[i];
      }
    }
  }

  // ---------- Sinks ----------

  /** A sink's answer to one Write call: all taken, some taken with an error, or some taken without saying so. */
  datatype Verdict = TakeAll | Fail(quota: nat, err: Error) | Short(quota: nat)

  function Taken(verdicts: seq<Verdict>, offered: nat): (n: nat)
    ensures n <= offered
  {
    if verdicts == [] || verdicts[0].TakeAll? || offered < verdicts[0].quota then offered else verdicts[0].quota
  }

  function Refusal(verdicts: seq<Verdict>): Option<Error> {
    if verdicts == [] || !verdicts[0].Fail? then None else Some(verdicts[0].err)
  }

  function Later(verdicts: seq<Verdict>): seq<Verdict> {
    if verdicts == [] then [] else verdicts[1..]
  }

  /** What a caller reports of a call that was to take everything. */
  function Shortfall(verdicts: seq<Verdict>, offered: nat): Option<Error> {
    if Refusal(verdicts) != None then Refusal(verdicts)
    else if Taken(verdicts, offered) < offered then Some(ErrShortWrite)
    else None
  }

  /** The verdicts that are left after k calls. */
  function AfterCalls(verdicts: seq<Verdict>, k: nat): seq<Verdict> {
    if k <= |verdicts| then verdicts[k..] else []
  }

  lemma OneMoreCall(verdicts: seq<Verdict>, k: nat)
    ensures AfterCalls(verdicts, k + 1) == Later(AfterCalls(verdicts, k))
  {
  }

  /**
   * Whose fault an error is: it is the answer of the last sink call, to refuse or to take too little, and no call
   * before it was refused. Without an error none was refused at all.
   */
  ghost predicate Blamed(before: seq<Verdict>, after: seq<Verdict>, err: Option<Error>) {
    var used := |before| - |after|;
    && 0 <= used && after == before[used..]
    && (forall i :: 0 <= i < (if err == None then used else used - 1) ==> !before[i].Fail?)
    && (err != None ==> 0 < used && Fails(before[used - 1], err.value))
  }

  /** The verdict refuses with this error, or falls short without saying so. */
  predicate Fails(v: Verdict, e: Error) {
    match v
    case TakeAll => false
    case Fail(_, err) => e == err
    case Short(_) => e == ErrShortWrite
  }

  /** The same for callers that look at refusals only: a last call was refused with `refusal`, or none was. */
  ghost predicate Refusing(before: seq<Verdict>, after: seq<Verdict>, refusal: Option<Error>) {
    var used := |before| - |after|;
    && 0 <= used && after == before[used..]
    && (forall i :: 0 <= i < (if refusal == None then used else used - 1) ==> !before[i].Fail?)
    && (refusal != None ==> 0 < used && before[used - 1].Fail? && before[used - 1].err == refusal.value)
  }

  lemma RefusingLater(before: seq<Verdict>, now: seq<Verdict>)
    requires Refusing(before, now, None)
    ensures Refusing(before, Later(now), Refusal(now))
  {
  }

  lemma NoneBlamed(verdicts: seq<Verdict>)
    ensures Blamed(verdicts, verdicts, None)
  {
  }

  /** One more call, which passes its refusal on, or else perhaps falls short. */
  lemma BlamedLater(before: seq<Verdict>, now: seq<Verdict>, offered: nat, err: Option<Error>)
    requires Blamed(before, now, None)
    requires err == Refusal(now) || err == Shortfall(now, offered)
    ensures Blamed(before, Later(now), err)
  {
  }

  /** The sink keeps to its contract: a short write comes with an error. */
  ghost predicate Conforming(verdicts: seq<Verdict>) {
    forall i :: 0 <= i < |verdicts| ==> !verdicts[i].Short?
  }

  /** The sink takes some of what it is offered, or returns an error. */
  ghost predicate Progressing(verdicts: seq<Verdict>) {
    forall i :: 0 <= i < |verdicts| ==> verdicts[i].Short? ==> 0 < verdicts[i].quota
  }

  /** The sink keeps to its contract at least in its answer to the next call, which offers this many items. */
  predicate TakesOrRefuses(verdicts: seq<Verdict>, offered: nat) {
    Taken(verdicts, offered) == offered || Refusal(verdicts) != None
  }

  /** A writer that keeps what it has received; past its last verdict it takes everything. */
  class Sink<T> {
    var received: seq<T>
    var verdicts: seq<Verdict>

    constructor (verdicts: seq<Verdict>)
      ensures this.verdicts == verdicts && received == []
    {
      this.verdicts, received := verdicts, [];
    }

    method Write(p: seq<T>) returns (n: nat, err: Option<Error>)
      modifies this
      ensures n == Taken(old(verdicts), |p|) && err == Refusal(old(verdicts))
      ensures received == old(received) + p[..n]
      ensures verdicts == Later(old(verdicts))
      ensures Conforming(old(verdicts)) ==> Conforming(verdicts) && (err == None ==> n == |p|)
    {
      n, err := |p|, None;
      if verdicts != [] {
        var v := verdicts[0];
        if !v.TakeAll? && v.quota <= |p| {
          n := v.quota;
        }
        if v.Fail? {
          err := Some(v.err);
        }
        verdicts := verdicts[1..];
      }
      received := received + p[..n];
    }
  }

  lemma ConcatAssociates<T>(a: seq<T>, b: seq<T>, c: seq<T>)
    ensures (a + b) + c == a + (b + c)
  {
  }

  lemma SliceOfConcat<T>(s: seq<T>, t: seq<T>, k: nat)
    requires k <= |s|
    ensures (s + t)[..k] == s[..k]
    ensures (s + t)[k..] == s[k..] + t
  {
  }

  lemma SlicePastConcat<T>(s: seq<T>, t: seq<T>, k: nat)
    requires k <= |t|
    ensures (s + t)[..|s| + k] == s + t[..k]
    ensures (s + t)[|s| + k..] == t[k..]
  {
  }

  lemma SliceOfSlice<T>(s: seq<T>, i: nat, k: nat)
    requires i + k <= |s|
    ensures s[i..][k..] == s[i + k..]
    ensures s[i..][..k] == s[i..i + k]
  {
  }

  lemma SuffixIs<T>(s: seq<T>, n: nat, r: seq<T>)
    requires n + |r| == |s| && forall i :: 0 <= i < |r| ==> r[i] == s[n + i]
    ensures r == s[n..]
  {
  }

  lemma PrefixIs<T>(s: seq<T>, t: seq<T>, n: nat)
    requires n <= |s| && n <= |t| && forall i :: 0 <= i < n ==> s[i] == t[i]
    ensures s[..n] == t[..n]
  {
  }

  lemma SliceIs<T>(s: seq<T>, at: nat, r: seq<T>, n: nat)
    requires at + n <= |s| && n <= |r| && forall i :: 0 <= i < n ==> r[i] == s[at + i]
    ensures r[..n] == s[at..at + n]
  {
  }

  lemma PrefixIsJoined<T>(s: seq<T>, t: seq<T>, at: nat, r: seq<T>, n: nat, m: nat)
    requires at + m <= |t| && n + m <= |r| && s == r[..n] && forall i :: n <= i < n + m ==> r[i] == t[at + (i - n)]
    ensures s + t[at..at + m] == r[..n + m]
  {
  }

  // ---------- Copying within and between buffers ----------

  /** Go's copy from p[lo..hi] to the front of q; the two ranges may overlap. */
  method CopyToFront<T>(q: array<T>, p: array<T>, lo: nat, hi: nat)
    requires lo <= hi <= p.Length && hi - lo <= q.Length
    modifies q
    ensures forall k :: 0 <= k < hi - lo ==> q[k] == old(p[lo + k])
    ensures forall k :: hi - lo <= k < q.Length ==> q[k] == old(q[k])
  {
    forall i | 0 <= i < hi - lo {
      q[i] := p[lo + i];
    }
  }

  /** Go's copy from a slice of values to q[at..]. */
  method Store<T>(q: array<T>, at: nat, p: seq<T>)
    requires at + |p| <= q.Length
    modifies q
    ensures forall k :: at <= k < at + |p| ==> q[k] == p[k - at]
    ensures forall k :: 0 <= k < at || at + |p| <= k < q.Length ==> q[k] == old(q[k])
  {
    forall i | 0 <= i < |p| {
      q[at + i] := p[i];
    }
  }
}
