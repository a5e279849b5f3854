/** The buffered writer. */
module Writers {
  import opened Streams

  class Writer<T(0)> {
    const buf: array<T>
    const wr: Sink<T>
    var n: nat
    var err: Option<Error>
    ghost var held: seq<T>
    ghost var accepted: seq<T>

    constructor (wr: Sink<T>, size: nat)
      requires 1 <= size
      ensures Valid() && this.wr == wr && buf.Length == size && fresh(buf)
      ensures held == [] && err == None && accepted == wr.received
    {
      this.wr, buf := wr, new T[size];
      n, err, held, accepted := 0, None, [], wr.received;
    }

    /**
     * Conservation, at every point and whatever errors have come up: the items the sink has received,
     * followed by those in the buffer, are the items whose writing has been reported.
     */
    ghost predicate Valid()
      reads this, buf, wr
    {
      && n <= buf.Length && 1 <= buf.Length && |held| == n
      && (forall i :: 0 <= i < n ==> buf[i] == held[i])
      && wr.received + held == accepted
    }

    function Available(): int
      reads this
    {
      buf.Length - n
    }

    /** Passes the buffered items on. What the sink does not take stays buffered, and its error sticks. */
    method Flush() returns (e: Option<Error>)
      requires Valid()
      modifies this`n, this`err, this`held, buf, wr
      ensures Valid() && e == err
      ensures e == None ==> held == []
      ensures old(err) != None || old(n) == 0 ==>
        err == old(err) && held == old(held) && wr.received == old(wr.received) && wr.verdicts == old(wr.verdicts)
      ensures old(err) == None && old(n) != 0 ==>
        && wr.verdicts == Later(old(wr.verdicts))
        && held == old(held)[Taken(old(wr.verdicts), old(n))..]
        && err == Shortfall(old(wr.verdicts), old(n))
      ensures Blamed(old(wr.verdicts), wr.verdicts, if old(err) == None then err else None)
    {
      NoneBlamed(wr.verdicts);
      if err != None {
        return err;
      }
      if n == 0 {
        return None;
      }
      assert buf[0..n] == held;
      BlamedLater(wr.verdicts, wr.verdicts, n, Shortfall(wr.verdicts, n));
      ghost var r0 := wr.received;
      var m, e1 := wr.Write(buf[0..n]);
      Passes(r0, held, m);
      if m < n && e1 == None {
        e1 := Some(ErrShortWrite);
      }
      held := held[m..];
      if e1 != None {
        if m > 0 && m < n {
          CopyToFront(buf, buf, m, n);
        }
        n := n - m;
        err := e1;
        return e1;
      }
      n := 0;
      return None;
    }

    /** Fills the buffer with as much of p as it takes. */
    method Append(p: seq<T>) returns (m: nat)
      requires Valid()
      modifies this`n, this`held, this`accepted, buf
      ensures Valid() && m <= |p| && (m < |p| ==> n == buf.Length) && m <= buf.Length - old(n)
      ensures accepted == old(accepted) + p[..m] && n == old(n) + m && held == old(held) + p[..m]
    {
      m := if |p| < buf.Length - n then |p| else buf.Length - n;
      Store(buf, n, p[..m]);
      n := n + m;
      ConcatAssociates(wr.received, held, p[..m]);
      held := held + p[..m];
      accepted := accepted + p[..m];
    }

    /** Hands p to the sink directly; only for an empty buffer. */
    method Direct(p: seq<T>) returns (m: nat)
      requires Valid() && n == 0 && err == None
      modifies this`err, this`accepted, wr
      ensures Valid() && m == Taken(old(wr.verdicts), |p|) && err == Refusal(old(wr.verdicts))
      ensures accepted == old(accepted) + p[..m] && wr.verdicts == Later(old(wr.verdicts))
    {
      assert wr.received == accepted;
      var e;
      m, e := wr.Write(p);
      err := e;
      accepted := accepted + p[..m];
      assert wr.received + held == accepted;
    }

    /**
     * Writes p. The prefix reported is exactly what has been accepted, and it is short only with an error, which
     * is the fault of the sink. How much the sink is offered when is as in Pushed.
     */
    method Write(p: seq<T>) returns (nn: nat, e: Option<Error>)
      requires Valid()
      modifies this`n, this`err, this`held, this`accepted, buf, wr
      ensures Valid() && nn <= |p| && accepted == old(accepted) + p[..nn]
      ensures e == err && (e == None ==> nn == |p|)
      ensures old(err) != None ==>
        && e == old(err) && nn == 0 && held == old(held)
        && wr.received == old(wr.received) && wr.verdicts == old(wr.verdicts)
      ensures old(err) == None ==>
        && Blamed(old(wr.verdicts), wr.verdicts, err)
        && Pushing(nn, n, err, wr.verdicts) == Pushed(buf.Length, old(n), |p|, old(wr.verdicts))
    {
      nn := 0;
      assert p[..0] == [] && accepted + [] == accepted;
      ghost var a0, v0, goal := accepted, wr.verdicts, Pushed(buf.Length, n, |p|, wr.verdicts);
      NoneBlamed(v0);
      while |p| - nn > Available() && err == None
        invariant Valid()
        invariant old(err) != None ==>
          && err == old(err) && nn == 0 && held == old(held) && accepted == a0
          && wr.received == old(wr.received) && wr.verdicts == v0
        invariant old(err) == None ==> Writing(a0, p, v0, goal, nn)
        decreases |wr.verdicts|, |p| - nn, n
      {
        nn := PushSome(p, nn, a0, v0, goal);
      }
      if err != None {
        return nn, err;
      }
      var m := Append(p[nn..]);
      Reported(a0, p, nn, m);
      nn := nn + m;
      return nn, None;
    }

    /** A Write of p has accepted nn items, and has come as far as it is to come with the verdicts used so far. */
    ghost predicate Writing(a0: seq<T>, p: seq<T>, v0: seq<Verdict>, goal: Pushing, nn: nat)
      requires Valid()
      reads this, buf, wr
    {
      && nn <= |p| && accepted == a0 + p[..nn] && Blamed(v0, wr.verdicts, err)
      && UnderWay(goal, buf.Length, |p|, Pushing(nn, n, err, wr.verdicts))
    }

    /** One round of it. */
    method PushSome(p: seq<T>, nn0: nat, ghost a0: seq<T>, ghost v0: seq<Verdict>, ghost goal: Pushing)
      returns (nn: nat)
      requires Valid() && err == None && Writing(a0, p, v0, goal, nn0) && Available() < |p| - nn0
      modifies this`n, this`err, this`held, this`accepted, buf, wr
      ensures Valid() && nn0 <= nn && Writing(a0, p, v0, goal, nn)
      ensures old(wr.verdicts) != [] ==> |wr.verdicts| < |old(wr.verdicts)|
      ensures old(wr.verdicts) == [] ==> wr.verdicts == [] && (nn0 < nn || n < old(n))
    {
      ghost var now := Pushing(nn0, n, err, wr.verdicts);
      var m := PushMost(p[nn0..], v0);
      GoesOn(goal, buf.Length, |p|, now, Pushing(m, n, err, wr.verdicts));
      Reported(a0, p, nn0, m);
      nn := nn0 + m;
    }

    /** For more than the buffer has room for: a sink call, directly from p if nothing is buffered. */
    method PushMost(p: seq<T>, ghost v0: seq<Verdict>) returns (m: nat)
      requires Valid() && err == None && Available() < |p| && Blamed(v0, wr.verdicts, None)
      modifies this`n, this`err, this`held, this`accepted, buf, wr
      ensures Valid() && m <= |p| && accepted == old(accepted) + p[..m]
      ensures Blamed(v0, wr.verdicts, err)
      ensures PushStep(buf.Length, old(n), |p|, old(wr.verdicts), Pushing(m, n, err, wr.verdicts))
      ensures old(wr.verdicts) != [] ==> |wr.verdicts| < |old(wr.verdicts)|
      ensures old(wr.verdicts) == [] ==> wr.verdicts == [] && (0 < m || n < old(n))
    {
      ghost var now := wr.verdicts;
      if n == 0 {
        m := Direct(p);
        BlamedLater(v0, now, |p|, err);
      } else {
        m := Append(p);
        var _ := Flush();
        BlamedLater(v0, now, buf.Length, err);
      }
    }

    /** Writes one item, or reports why it cannot: only a full buffer is flushed for it, and only that can fail. */
    method WriteItem(c: T) returns (e: Option<Error>)
      requires Valid()
      modifies this`n, this`err, this`held, this`accepted, buf, wr
      ensures Valid() && e == err
      ensures accepted == old(accepted) + if e == None then [c] else []
      ensures old(err) == None && old(n) < buf.Length ==> e == None && wr.verdicts == old(wr.verdicts)
      ensures old(err) == None && old(n) == buf.Length ==>
        && e == Shortfall(old(wr.verdicts), buf.Length) && wr.verdicts == Later(old(wr.verdicts))
        && held == if e == None then [c] else old(held)[Taken(old(wr.verdicts), buf.Length)..]
      ensures old(err) == None ==> Blamed(old(wr.verdicts), wr.verdicts, e)
      ensures old(err) != None ==>
        e == old(err) && held == old(held) && wr.received == old(wr.received) && wr.verdicts == old(wr.verdicts)
    {
      NoneBlamed(wr.verdicts);
      if err != None {
        return err;
      }
      if Available() <= 0 {
        var e1 := Flush();
        if e1 != None {
          return err;
        }
      }
      var _ := Append([c]);
      return None;
    }

    /** One read of the source into the free end of the buffer. */
    method Fetch(r: Source<T>) returns (m: nat, e: Option<Error>)
      requires Valid() && r.ending == AtEOF && n < buf.Length
      modifies this`n, this`held, this`accepted, buf, r
      ensures Valid()
      ensures var a := Answer(old(r.script), buf.Length - old(n));
        && accepted == old(accepted) + a.items && m == |a.items| && n == old(n) + m
        && e == a.err && r.script == a.rest
      ensures accepted + AllItems(r.script) == old(accepted) + AllItems(old(r.script))
    {
      FetchConserves(accepted, r.script, buf.Length - n);
      ghost var items := Answer(r.script, buf.Length - n).items;
      m, e := r.Read(buf, n, buf.Length);
      n := n + m;
      ConcatAssociates(wr.received, held, items);
      held := held + items;
      accepted := accepted + items;
    }

    /** Reads until items or an error arrive, or for `MAX_EMPTY_READS` empty reads. */
    method FetchSome(r: Source<T>, ghost goal: Segment<T>, ghost base: seq<T>, ghost got0: seq<T>)
      returns (m: nat, e: Option<Error>, quiet: bool, ghost got: seq<T>)
      requires Valid() && r.ending == AtEOF && n < buf.Length
      requires accepted == base + got0 && Received(goal, got0, r.script, 0, MAX_EMPTY_READS)
      modifies this`n, this`held, this`accepted, buf, r
      ensures Valid() && accepted == base + got && |got| == |got0| + m
      ensures accepted + AllItems(r.script) == old(accepted) + AllItems(old(r.script))
      ensures n == old(n) + m && (e == None && !quiet ==> 0 < m)
      ensures quiet ==> m == 0 && goal == Segment(got, ErrNoProgress, false, r.script)
      ensures !quiet && e == None ==>
        Received(goal, got, r.script, 0, MAX_EMPTY_READS) && Shorter(r.script, old(r.script))
      ensures !quiet && e != None ==> goal == Segment(got, e.value, m != 0, r.script)
    {
      got := got0;
      var nr := 0;
      while nr < MAX_EMPTY_READS
        invariant 0 <= nr <= MAX_EMPTY_READS && Valid() && n == old(n) && got == got0
        invariant accepted == base + got && wr.received == old(wr.received)
        invariant accepted + AllItems(r.script) == old(accepted) + AllItems(old(r.script))
        invariant nr < MAX_EMPTY_READS ==> Received(goal, got, r.script, nr, MAX_EMPTY_READS)
        invariant nr == MAX_EMPTY_READS ==> goal == Segment(got, ErrNoProgress, false, r.script)
        invariant if nr == 0 then r.script == old(r.script) else Shorter(r.script, old(r.script))
      {
        ghost var script, room := r.script, buf.Length - n;
        m, e := Fetch(r);
        ghost var items := Answer(script, room).items;
        ReceivedMore(goal, got, script, nr, MAX_EMPTY_READS, room);
        ConcatAssociates(base, got, items);
        if m != 0 || e != None {
          return m, e, false, got + items;
        }
        assert got + [] == got;
        nr := nr + 1;
      }
      return 0, None, true, got;
    }

    /**
     * Accepts what the source delivers up to its first error; EOF is not passed on. The buffer is flushed whenever
     * more is to be read into a full one, or it is full at EOF, and only that can fail; where it does, the source
     * has been read just as far as items have been accepted.
     */
    method ReadFrom(r: Source<T>) returns (count: nat, e: Option<Error>, ghost flushes: nat)
      requires Valid() && r.ending == AtEOF
      modifies this`n, this`err, this`held, this`accepted, buf, wr, r
      ensures Valid()
      ensures old(err) != None ==>
        && count == 0 && e == old(err) && err == old(err) && accepted == old(accepted)
        && wr.received == old(wr.received) && wr.verdicts == old(wr.verdicts) && r.script == old(r.script)
      ensures old(err) == None ==>
        Copied(Deliver(old(r.script), 0, MAX_EMPTY_READS, EOF), old(accepted), old(n), old(wr.verdicts), count, flushes,
               e, r.script)
      ensures accepted + AllItems(r.script) == old(accepted) + AllItems(old(r.script))
    {
      if err != None {
        return 0, err, 0;
      }
      ghost var all, n0, v0 := accepted + AllItems(r.script), n, wr.verdicts;
      ghost var base, goal, got: seq<T> := accepted, Deliver(r.script, 0, MAX_EMPTY_READS, EOF), [];
      count, flushes := 0, 0;
      assert base + [] == base && [] + goal.items == goal.items;
      NoneBlamed(v0);
      while true
        invariant Valid() && err == None && Copying(base, got, n0, v0, flushes)
        invariant accepted + AllItems(r.script) == all && count == |got|
        invariant Received(goal, got, r.script, 0, MAX_EMPTY_READS)
        decreases |r.script|, Head(r.script)
      {
        if Available() == 0 {
          var e1 := FlushFull(base, got, n0, v0, flushes);
          flushes := flushes + 1;
          if e1 != None {
            CopyFails(goal, base, got, n0, v0, flushes, r.script);
            return count, e1, flushes;
          }
        }
        var m, quiet;
        ghost var more;
        m, e, quiet, more := FetchSome(r, goal, base, got);
        got := more;
        if quiet {
          CopyEnds(goal, base, got, n0, v0, flushes, Some(ErrNoProgress), r.script);
          return count, Some(ErrNoProgress), flushes;
        }
        count := count + m;
        if e != None {
          break;
        }
      }
      e, flushes := Finish(e, base, got, n0, v0, flushes);
      CopyEnds(goal, base, got, n0, v0, flushes, e, r.script);
    }

    /**
     * A ReadFrom that was to accept the items of s has ended with e. Without an error of its own the writer has
     * accepted all of them, and what it still holds is less than a full buffer, unless an error came along with the
     * last ones; otherwise it was the last flush that failed.
     */
    ghost predicate Copied(s: Segment<T>, base: seq<T>, n0: nat, v0: seq<Verdict>, count: nat, flushes: nat,
                           e: Option<Error>, script: seq<Step<T>>)
      requires Valid()
      reads this, buf, wr
    {
      && count <= |s.items| && Copying(base, s.items[..count], n0, v0, flushes)
      && if err == None then
           && count == |s.items| && script == s.rest && e == NotEOF(s.stop)
           && if s.joined && s.stop != EOF then 0 < n else n < buf.Length
         else
           && e == err && n == buf.Length - Taken(AfterCalls(v0, flushes - 1), buf.Length)
           && StoppedAt(s, count, script)
    }

    lemma CopyFails(s: Segment<T>, base: seq<T>, got: seq<T>, n0: nat, v0: seq<Verdict>, flushes: nat,
                    script: seq<Step<T>>)
      requires Valid() && err != None && Copying(base, got, n0, v0, flushes)
      requires n == buf.Length - Taken(AfterCalls(v0, flushes - 1), buf.Length)
      requires Received(s, got, script, 0, MAX_EMPTY_READS)
      ensures Copied(s, base, n0, v0, |got|, flushes, err, script)
    {
      assert s.items[..|got|] == got;
    }

    lemma CopyEnds(s: Segment<T>, base: seq<T>, got: seq<T>, n0: nat, v0: seq<Verdict>, flushes: nat,
                   e: Option<Error>, script: seq<Step<T>>)
      requires Valid() && Copying(base, got, n0, v0, flushes)
      requires got == s.items && script == s.rest
      requires err == None ==> e == NotEOF(s.stop)
      requires err == None ==> if s.joined && s.stop != EOF then 0 < n else n < buf.Length
      requires err != None ==> s.stop == EOF && e == err
      requires err != None ==> n == buf.Length - Taken(AfterCalls(v0, flushes - 1), buf.Length)
      ensures Copied(s, base, n0, v0, |got|, flushes, e, script)
    {
      assert s.items[..|got|] == got;
    }

    /** The end of ReadFrom, at an error of the source: a buffer that is just full is flushed at EOF. */
    method Finish(stop: Option<Error>, ghost base: seq<T>, ghost got: seq<T>, ghost n0: nat, ghost v0: seq<Verdict>,
                  ghost flushes0: nat) returns (e: Option<Error>, ghost flushes: nat)
      requires Valid() && err == None && stop.Some? && Copying(base, got, n0, v0, flushes0)
      modifies this`n, this`err, this`held, buf, wr
      ensures Valid() && Copying(base, got, n0, v0, flushes)
      ensures err == None ==> e == NotEOF(stop.value)
      ensures err == None ==> n == if stop == Some(EOF) && old(n) == buf.Length then 0 else old(n)
      ensures err != None ==> stop == Some(EOF) && e == err && 0 < flushes
      ensures err != None ==> n == buf.Length - Taken(AfterCalls(v0, flushes - 1), buf.Length)
    {
      e, flushes := stop, flushes0;
      if e == Some(EOF) {
        if Available() == 0 {
          e := FlushFull(base, got, n0, v0, flushes);
          flushes := flushes + 1;
        } else {
          e := None;
        }
      }
    }

    /**
     * A ReadFrom has accepted `got`, and has passed a full buffer on with every flush, but for a last one that
     * failed.
     */
    ghost predicate Copying(base: seq<T>, got: seq<T>, n0: nat, v0: seq<Verdict>, flushes: nat)
      requires Valid()
      reads this, buf, wr
    {
      && accepted == base + got && Flushed(buf.Length, v0, wr.verdicts, flushes, err)
      && Blamed(v0, wr.verdicts, err)
      && n0 + |got| == flushes * buf.Length + if err == None then n else 0
    }

    /** Flush, for a full buffer. */
    method FlushFull(ghost base: seq<T>, ghost got: seq<T>, ghost n0: nat, ghost v0: seq<Verdict>,
                     ghost flushes: nat) returns (e: Option<Error>)
      requires Valid() && err == None && n == buf.Length && Copying(base, got, n0, v0, flushes)
      modifies this`n, this`err, this`held, buf, wr
      ensures Valid() && e == err && Copying(base, got, n0, v0, flushes + 1)
      ensures n == buf.Length - Taken(old(wr.verdicts), buf.Length) && (e == None ==> n == 0)
      ensures old(wr.verdicts) == AfterCalls(v0, flushes)
    {
      ghost var now := wr.verdicts;
      e := Flush();
      FlushedMore(buf.Length, v0, now, flushes, err);
      BlamedLater(v0, now, buf.Length, err);
    }
  }

  /** A number of sink calls, each for a full buffer: all of it was taken, or the last call failed with `err`. */
  ghost predicate Flushed(size: nat, before: seq<Verdict>, after: seq<Verdict>, calls: nat, err: Option<Error>) {
    && after == AfterCalls(before, calls) && (err != None ==> 0 < calls)
    && forall i :: 0 <= i < calls ==>
         Shortfall(AfterCalls(before, i), size) == if i + 1 == calls then err else None
  }

  lemma FlushedMore(size: nat, before: seq<Verdict>, now: seq<Verdict>, calls: nat, err: Option<Error>)
    requires Flushed(size, before, now, calls, None) && err == Shortfall(now, size)
    ensures Flushed(size, before, Later(now), calls + 1, err)
    ensures (calls + 1) * size == calls * size + size
  {
    OneMoreCall(before, calls);
  }

  /** The source goes on after `count` items of the segment; that its end is next may have been read as well. */
  ghost predicate StoppedAt<T>(s: Segment<T>, count: nat, script: seq<Step<T>>) {
    count <= |s.items| &&
    (Received(s, s.items[..count], script, 0, MAX_EMPTY_READS) ||
     (count == |s.items| && s.stop == EOF && script == s.rest))
  }

  /** A Write under way: items accepted, items buffered, the error met, and the verdicts that are left. */
  datatype Pushing = Pushing(count: nat, n: nat, err: Option<Error>, verdicts: seq<Verdict>)

  function Further(m: nat, r: Pushing): Pushing {
    r.(count := m + r.count)
  }

  /** Writing k items to a buffer that holds n: as long as they do not fit, a sink call takes all there are. */
  function Pushed(size: nat, n: nat, k: nat, verdicts: seq<Verdict>): (r: Pushing)
    requires n <= size && 0 < size
    decreases |verdicts|, k, n
  {
    if k <= size - n then Pushing(k, n + k, None, verdicts)
    else if n == 0 then
      var m := Taken(verdicts, k);
      if Refusal(verdicts) != None then Pushing(m, 0, Refusal(verdicts), Later(verdicts))
      else Further(m, Pushed(size, 0, k - m, Later(verdicts)))
    else
      var e := Shortfall(verdicts, size);
      if e != None then Pushing(size - n, size - Taken(verdicts, size), e, Later(verdicts))
      else Further(size - n, Pushed(size, 0, k - (size - n), Later(verdicts)))
  }

  /** A Write of k items that is to end as `goal` has come as far as `now`. */
  ghost predicate UnderWay(goal: Pushing, size: nat, k: nat, now: Pushing) {
    now.count <= k && now.n <= size && 0 < size &&
    goal == if now.err != None then now else Further(now.count, Pushed(size, now.n, k - now.count, now.verdicts))
  }

  /** One sink call of it: for all k items if nothing is buffered, or else for the buffer, filled up. */
  ghost predicate PushStep(size: nat, n: nat, k: nat, verdicts: seq<Verdict>, r: Pushing) {
    && r.verdicts == Later(verdicts)
    && if n == 0 then r.count == Taken(verdicts, k) && r.n == 0 && r.err == Refusal(verdicts)
       else r.count == size - n && r.n == size - Taken(verdicts, size) && r.err == Shortfall(verdicts, size)
  }

  lemma StepPushes(size: nat, n: nat, k: nat, verdicts: seq<Verdict>, r: Pushing)
    requires n <= size && 0 < size && size - n < k && PushStep(size, n, k, verdicts, r)
    ensures UnderWay(Pushed(size, n, k, verdicts), size, k, r)
  {
  }

  lemma GoesOn(goal: Pushing, size: nat, k: nat, now: Pushing, more: Pushing)
    requires UnderWay(goal, size, k, now) && now.err == None && size - now.n < k - now.count
    requires PushStep(size, now.n, k - now.count, now.verdicts, more)
    ensures UnderWay(goal, size, k, Further(now.count, more))
  {
    StepPushes(size, now.n, k - now.count, now.verdicts, more);
  }

  /** With a sink that takes everything no Write fails; what it leaves buffered then depends on the counts alone. */
  lemma {:induction false} PushedAll(size: nat, n: nat, k: nat)
    requires n <= size && 0 < size
    ensures var rest := if n == 0 then k else k - (size - n);
      Pushed(size, n, k, []) ==
        Pushing(k, if k <= size - n then n + k else if rest <= size then rest else 0, None, [])
    decreases k, n
  {
    if size - n < k {
      PushedAll(size, 0, if n == 0 then 0 else k - (size - n));
    }
  }

  lemma FetchConserves<T>(accepted: seq<T>, script: seq<Step<T>>, room: nat)
    ensures var a := Answer(script, room);
      (accepted + a.items) + AllItems(a.rest) == accepted + AllItems(script)
  {
    var a := Answer(script, room);
    AnswerConserves(script, room);
    ConcatAssociates(accepted, a.items, AllItems(a.rest));
  }

  lemma Passes<T>(received: seq<T>, held: seq<T>, m: nat)
    requires m <= |held|
    ensures (received + held[..m]) + held[m..] == received + held
  {
  }

  lemma Reported<T>(accepted: seq<T>, p: seq<T>, n: nat, m: nat)
    requires n <= |p| && m <= |p| - n
    ensures (accepted + p[..n]) + p[n..][..m] == accepted + p[..n + m]
  {
  }
}
