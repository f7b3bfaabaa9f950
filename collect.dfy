/**
  What one `poll` of an aggregating future does to the body it drains, as a
  function of the events the body yields. `poll` consumes events greedily
  until one makes it break: a data chunk the length check rejects, a body
  error, the end of the stream, or a body that is not ready.
 */
module Collect {
  import opened Chunks

  /** What `poll_data` on the body yields next. */
  datatype Event<E> = Data(bytes: seq<Byte>) | BodyError(error: E) | End | NotReady

  /** The failures of the length-checked collector. */
  datatype AggregateError<E> = Body(error: E) | ContentLength

  /**
    The length check a collector applies after tallying a chunk: none (the
    collector of src/aggregate.rs), the comparison as the code writes it, or
    the over-length check (`used > content_len`) that the error variant
    `AggregateError::ContentLength` and the field `content_len` suggest.
   */
  datatype Guard = NoCheck | AsWritten | Intended

  /** Whether the guard fails once `used` bytes have been tallied against `contentLen`. */
  predicate Rejects(g: Guard, contentLen: nat, used: nat)
  {
    match g
    case NoCheck => false
    case AsWritten => contentLen > used
    case Intended => used > contentLen
  }

  /** Why a poll broke out of its loop. */
  datatype Stop<E> = Failed(reason: AggregateError<E>) | Finished | Suspended

  /** The outcome of one poll and the state it leaves: the body's remaining events, the tally, the chunks pushed. */
  datatype Pumped<E> = Pumped(stop: Stop<E>, rest: seq<Event<E>>, used: nat, chunks: seq<seq<Byte>>)

  /** A rejected empty chunk is never pushed, so it does not stand in the collector's way. */
  lemma RejectedEmptyChunk<E>(b: seq<Event<E>>)
    requires b == [Data([]), End]
    ensures PushesNonEmpty(AsWritten, 10, b, 0)
    ensures Pump(AsWritten, 10, b, 0, []) == Pumped(Failed(ContentLength), b[1..], 0, [])
  {
  }

  /**
    Every data chunk a collector under guard `g` would push, over any number
    of polls up to the end of the body, is non-empty: the `debug_assert!` in
    `push`. An empty chunk that the guard rejects is never pushed, and the
    events after the end are never polled.
   */
  ghost predicate PushesNonEmpty<E>(g: Guard, contentLen: nat, body: seq<Event<E>>, used: nat)
    decreases |body|
  {
    if |body| == 0 then true
    else match body[0]
      case Data(d) =>
        (Rejects(g, contentLen, used + |d|) || |d| > 0) && PushesNonEmpty(g, contentLen, body[1..], used + |d|)
      case End => true
      case _ => PushesNonEmpty(g, contentLen, body[1..], used)
  }

  /** Without a length check the tally plays no part in which chunks are pushed. */
  lemma {:induction false} PushesNonEmptyNoCheck<E>(body: seq<Event<E>>, used: nat, used': nat)
    ensures PushesNonEmpty(NoCheck, 0, body, used) == PushesNonEmpty(NoCheck, 0, body, used')
    decreases |body|
  {
    if |body| > 0 {
      match body[0]
      case Data(d) => PushesNonEmptyNoCheck(body[1..], used + |d|, used' + |d|);
      case End =>
      case BodyError(_) => PushesNonEmptyNoCheck(body[1..], used, used');
      case NotReady => PushesNonEmptyNoCheck(body[1..], used, used');
    }
  }

  /**
    One poll: tally each data chunk, break on a rejected tally without
    pushing that chunk, push it otherwise and go on. A body with no events
    left has ended.
   */
  ghost function Pump<E>(g: Guard, contentLen: nat, body: seq<Event<E>>, used: nat, chunks: seq<seq<Byte>>): Pumped<E>
    decreases |body|
  {
    if |body| == 0 then Pumped(Finished, [], used, chunks)
    else match body[0]
      case Data(d) =>
        if Rejects(g, contentLen, used + |d|) then Pumped(Failed(ContentLength), body[1..], used + |d|, chunks)
        else Pump(g, contentLen, body[1..], used + |d|, chunks + [d])
      case BodyError(e) => Pumped(Failed(Body(e)), body[1..], used, chunks)
      case End => Pumped(Finished, body[1..], used, chunks)
      case NotReady => Pumped(Suspended, body[1..], used, chunks)
  }

  /** The payloads of the data events at the front of the body, in order. */
  function Run<E>(body: seq<Event<E>>): (r: seq<seq<Byte>>)
    ensures |r| <= |body|
    decreases |body|
  {
    if |body| == 0 || !body[0].Data? then [] else [body[0].bytes] + Run(body[1..])
  }

  /** The body from its first event that is not data on. */
  function AfterRun<E>(body: seq<Event<E>>): (r: seq<Event<E>>)
    ensures |r| == 0 || !r[0].Data?
    decreases |body|
  {
    if |body| == 0 || !body[0].Data? then body else AfterRun(body[1..])
  }

  /** A leading data event heads the run and is skipped on the way to the break. */
  lemma RunDataStep<E>(body: seq<Event<E>>)
    requires |body| > 0 && body[0].Data?
    ensures Run(body) == [body[0].bytes] + Run(body[1..])
    ensures AfterRun(body) == AfterRun(body[1..])
  {
  }

  /** How a poll ends at an event that is not data; an exhausted body has ended. */
  function StopAt<E>(after: seq<Event<E>>): Stop<E>
    requires |after| == 0 || !after[0].Data?
  {
    if |after| == 0 then Finished
    else match after[0]
      case BodyError(e) => Failed(Body(e))
      case End => Finished
      case NotReady => Suspended
  }

  /** The events left once the breaking event has been consumed. */
  function RestAt<E>(after: seq<Event<E>>): seq<Event<E>>
  {
    if |after| == 0 then [] else after[1..]
  }

  /** Every tally along the run passes the guard. */
  predicate TallyOk(g: Guard, contentLen: nat, used: nat, run: seq<seq<Byte>>)
    decreases |run|
  {
    |run| == 0 || (!Rejects(g, contentLen, used + |run[0]|) && TallyOk(g, contentLen, used + |run[0]|, run[1..]))
  }

  /**
    A poll consumes events from the front only, at least one when there is
    one; the tally never goes down and chunks are only ever appended.
   */
  lemma {:induction false} PumpProgress<E>(g: Guard, contentLen: nat, body: seq<Event<E>>, used: nat, chunks: seq<seq<Byte>>)
    ensures var p := Pump(g, contentLen, body, used, chunks);
      && |p.rest| <= |body| && p.rest == body[|body| - |p.rest|..]
      && (|body| > 0 ==> |p.rest| < |body|)
      && used <= p.used && chunks <= p.chunks
    decreases |body|
  {
    if |body| > 0 && body[0].Data? {
      var d := body[0].bytes;
      if Rejects(g, contentLen, used + |d|) {
        PumpRejectStep(g, contentLen, body, used, chunks);
      } else {
        PumpDataStep(g, contentLen, body, used, chunks);
        PumpProgress(g, contentLen, body[1..], used + |d|, chunks + [d]);
        var p := Pump(g, contentLen, body[1..], used + |d|, chunks + [d]);
        assert body[1..][|body| - 1 - |p.rest|..] == body[|body| - |p.rest|..];
        assert p.chunks[..|chunks|] == (chunks + [d])[..|chunks|] == chunks;
      }
    }
  }

  /** An accepted data chunk is pushed and the poll goes on with the next event. */
  lemma PumpDataStep<E>(g: Guard, contentLen: nat, body: seq<Event<E>>, used: nat, chunks: seq<seq<Byte>>)
    requires |body| > 0 && body[0].Data?
    requires !Rejects(g, contentLen, used + |body[0].bytes|)
    ensures Pump(g, contentLen, body, used, chunks)
         == Pump(g, contentLen, body[1..], used + |body[0].bytes|, chunks + [body[0].bytes])
  {
  }

  /** A rejected data chunk ends the poll with `ContentLength`, counted but not pushed. */
  lemma PumpRejectStep<E>(g: Guard, contentLen: nat, body: seq<Event<E>>, used: nat, chunks: seq<seq<Byte>>)
    requires |body| > 0 && body[0].Data?
    requires Rejects(g, contentLen, used + |body[0].bytes|)
    ensures Pump(g, contentLen, body, used, chunks)
         == Pumped(Failed(ContentLength), body[1..], used + |body[0].bytes|, chunks)
  {
  }

  /**
    When every tally passes, a poll pushes the whole run of data chunks in
    arrival order, adds all their lengths to the tally, and breaks on the
    first event after them.
   */
  lemma {:induction false} PumpAccepted<E>(g: Guard, contentLen: nat, body: seq<Event<E>>, used: nat, chunks: seq<seq<Byte>>)
    requires TallyOk(g, contentLen, used, Run(body))
    ensures Pump(g, contentLen, body, used, chunks)
         == Pumped(StopAt(AfterRun(body)), RestAt(AfterRun(body)), used + TotalLength(Run(body)), chunks + Run(body))
    decreases |body|
  {
    if |body| > 0 && body[0].Data? {
      var d, rest := body[0].bytes, body[1..];
      var r := Run(rest);
      assert Run(body) == [d] + r;
      assert !Rejects(g, contentLen, used + |d|) && TallyOk(g, contentLen, used + |d|, r) by {
        assert ([d] + r)[0] == d && ([d] + r)[1..] == r;
      }
      assert TotalLength([d] + r) == |d| + TotalLength(r) by {
        assert ([d] + r)[0] == d && ([d] + r)[1..] == r;
      }
      assert AfterRun(body) == AfterRun(rest);
      assert chunks + [d] + r == chunks + ([d] + r);
      PumpDataStep(g, contentLen, body, used, chunks);
      PumpAccepted(g, contentLen, rest, used + |d|, chunks + [d]);
    } else {
      assert Run(body) == [] && AfterRun(body) == body;
      assert chunks + [] == chunks;
    }
  }

  /** How many chunks at the front of the run pass the guard before the first one that fails. */
  function Accepted(g: Guard, contentLen: nat, used: nat, run: seq<seq<Byte>>): (k: nat)
    ensures k <= |run|
    decreases |run|
  {
    if |run| == 0 || Rejects(g, contentLen, used + |run[0]|) then 0
    else 1 + Accepted(g, contentLen, used + |run[0]|, run[1..])
  }

  /**
    The accepted chunks pass the guard; the run fails the guard exactly when
    the accepted chunks stop short of its end, and then the chunk right after
    them is the one whose tally fails.
   */
  lemma {:induction false} AcceptedPrefix(g: Guard, contentLen: nat, used: nat, run: seq<seq<Byte>>)
    ensures TallyOk(g, contentLen, used, run[..Accepted(g, contentLen, used, run)])
    ensures Accepted(g, contentLen, used, run) < |run| <==> !TallyOk(g, contentLen, used, run)
    ensures Accepted(g, contentLen, used, run) < |run|
        ==> Rejects(g, contentLen, used + TotalLength(run[..Accepted(g, contentLen, used, run) + 1]))
    decreases |run|
  {
    var k := Accepted(g, contentLen, used, run);
    if |run| == 0 {
      assert run[..k] == [];
    } else if Rejects(g, contentLen, used + |run[0]|) {
      assert run[..k] == [];
      assert run[..1] == [run[0]] && [run[0]][1..] == [];
    } else {
      var d, r := run[0], run[1..];
      AcceptedPrefix(g, contentLen, used + |d|, r);
      var j := Accepted(g, contentLen, used + |d|, r);
      assert k == j + 1;
      assert run[..k][0] == d && run[..k][1..] == r[..j];
      if j < |r| {
        assert run[..k + 1][0] == d && run[..k + 1][1..] == r[..j + 1];
      }
    }
  }

  /**
    When some tally fails, a poll fails with `ContentLength` at the first
    chunk whose tally fails: the accepted chunks before it have been pushed,
    its length is in the tally, it is not pushed, and the body has consumed it.
   */
  lemma {:induction false} PumpRejected<E>(g: Guard, contentLen: nat, body: seq<Event<E>>, used: nat, chunks: seq<seq<Byte>>)
    requires Accepted(g, contentLen, used, Run(body)) < |Run(body)|
    ensures var k := Accepted(g, contentLen, used, Run(body));
      Pump(g, contentLen, body, used, chunks)
      == Pumped(Failed(ContentLength), body[k + 1..], used + TotalLength(Run(body)[..k + 1]), chunks + Run(body)[..k])
    decreases |body|
  {
    assert |body| > 0 && body[0].Data?;
    RunDataStep(body);
    var d, r := body[0].bytes, Run(body[1..]);
    AcceptedCons(g, contentLen, used, d, r);
    if Rejects(g, contentLen, used + |d|) {
      PumpRejectStep(g, contentLen, body, used, chunks);
      ConsPrefix(d, r, 0);
      assert chunks + Run(body)[..0] == chunks;
    } else {
      var j := Accepted(g, contentLen, used + |d|, r);
      PumpDataStep(g, contentLen, body, used, chunks);
      PumpRejected(g, contentLen, body[1..], used + |d|, chunks + [d]);
      ConsPrefix(d, r, j);
      ConsPrefix(d, r, j + 1);
      assert body[1..][j + 1..] == body[j + 2..];
      assert chunks + [d] + r[..j] == chunks + ([d] + r[..j]);
    }
  }

  /** The count of accepted chunks of a run, unfolded at its first chunk. */
  lemma AcceptedCons(g: Guard, contentLen: nat, used: nat, d: seq<Byte>, r: seq<seq<Byte>>)
    ensures Accepted(g, contentLen, used, [d] + r)
         == if Rejects(g, contentLen, used + |d|) then 0 else 1 + Accepted(g, contentLen, used + |d|, r)
  {
    assert ([d] + r)[0] == d && ([d] + r)[1..] == r;
  }

  /** A prefix of a run that starts with `d` is `d` followed by a prefix of the rest. */
  lemma ConsPrefix(d: seq<Byte>, r: seq<seq<Byte>>, n: nat)
    requires n <= |r|
    ensures ([d] + r)[..n + 1] == [d] + r[..n]
    ensures TotalLength([d] + r[..n]) == |d| + TotalLength(r[..n])
  {
    assert ([d] + r[..n])[0] == d && ([d] + r[..n])[1..] == r[..n];
  }

  /** The length of a non-empty prefix, split after its first chunk. */
  lemma PrefixLengthShift(run: seq<seq<Byte>>, k: nat)
    requires 1 <= k <= |run|
    ensures TotalLength(run[..k]) == |run[0]| + TotalLength(run[1..][..k - 1])
  {
    assert run[..k][0] == run[0] && run[..k][1..] == run[1..][..k - 1];
  }

  /** The guard holds after every chunk's tally. */
  ghost predicate EveryTallyOk(g: Guard, contentLen: nat, used: nat, run: seq<seq<Byte>>)
  {
    forall k :: 1 <= k <= |run| ==> !Rejects(g, contentLen, used + TotalLength(run[..k]))
  }

  /** Every tally passing implies the same of the tallies after the first chunk. */
  lemma EveryTallyOkTail(g: Guard, contentLen: nat, used: nat, run: seq<seq<Byte>>)
    requires |run| > 0 && EveryTallyOk(g, contentLen, used, run)
    ensures !Rejects(g, contentLen, used + |run[0]|)
    ensures EveryTallyOk(g, contentLen, used + |run[0]|, run[1..])
  {
    PrefixLengthShift(run, 1);
    assert !Rejects(g, contentLen, used + TotalLength(run[..1]));
    forall j | 1 <= j <= |run[1..]|
      ensures !Rejects(g, contentLen, used + |run[0]| + TotalLength(run[1..][..j]))
    {
      PrefixLengthShift(run, j + 1);
      assert !Rejects(g, contentLen, used + TotalLength(run[..j + 1]));
    }
  }

  /** The converse step: the first tally and the later ones together are every tally. */
  lemma EveryTallyOkCons(g: Guard, contentLen: nat, used: nat, run: seq<seq<Byte>>)
    requires |run| > 0 && !Rejects(g, contentLen, used + |run[0]|)
    requires EveryTallyOk(g, contentLen, used + |run[0]|, run[1..])
    ensures EveryTallyOk(g, contentLen, used, run)
  {
    forall k | 1 <= k <= |run|
      ensures !Rejects(g, contentLen, used + TotalLength(run[..k]))
    {
      PrefixLengthShift(run, k);
      if k > 1 {
        assert !Rejects(g, contentLen, used + |run[0]| + TotalLength(run[1..][..k - 1]));
      }
    }
  }

  /** The guard holds along the run exactly when it holds after every chunk. */
  lemma {:induction false} TallyOkEveryPrefix(g: Guard, contentLen: nat, used: nat, run: seq<seq<Byte>>)
    ensures TallyOk(g, contentLen, used, run) <==> EveryTallyOk(g, contentLen, used, run)
    decreases |run|
  {
    if |run| > 0 {
      TallyOkEveryPrefix(g, contentLen, used + |run[0]|, run[1..]);
      if EveryTallyOk(g, contentLen, used, run) {
        EveryTallyOkTail(g, contentLen, used, run);
      }
      if TallyOk(g, contentLen, used, run) {
        EveryTallyOkCons(g, contentLen, used, run);
      }
    }
  }

  /** Once the tally has reached `contentLen`, the comparison as written never fails again. */
  lemma {:induction false} AsWrittenPassesOnceReached(contentLen: nat, used: nat, run: seq<seq<Byte>>)
    requires contentLen <= used
    ensures TallyOk(AsWritten, contentLen, used, run)
    decreases |run|
  {
    if |run| > 0 {
      AsWrittenPassesOnceReached(contentLen, used + |run[0]|, run[1..]);
    }
  }

  /**
    With the comparison as written, the first chunk alone decides: the run
    passes exactly when the first chunk already brings the tally to at least
    `contentLen`.
   */
  lemma {:induction false} AsWrittenFirstChunkDecides(contentLen: nat, used: nat, run: seq<seq<Byte>>)
    requires |run| > 0
    ensures TallyOk(AsWritten, contentLen, used, run) <==> contentLen <= used + |run[0]|
  {
    if contentLen <= used + |run[0]| {
      AsWrittenPassesOnceReached(contentLen, used + |run[0]|, run[1..]);
    }
  }

  /** With the over-length check, the run passes exactly when its total stays within `contentLen`. */
  lemma {:induction false} IntendedWithinLength(contentLen: nat, used: nat, run: seq<seq<Byte>>)
    ensures TallyOk(Intended, contentLen, used, run) <==> |run| == 0 || used + TotalLength(run) <= contentLen
    decreases |run|
  {
    if |run| > 0 {
      IntendedWithinLength(contentLen, used + |run[0]|, run[1..]);
      assert TotalLength(run) == |run[0]| + TotalLength(run[1..]);
      assert TallyOk(Intended, contentLen, used, run)
         <==> used + |run[0]| <= contentLen && TallyOk(Intended, contentLen, used + |run[0]|, run[1..]);
    }
  }

  /** The run is exactly the payloads of the body's leading data events. */
  lemma {:induction false} RunIsLeadingData<E>(body: seq<Event<E>>)
    ensures forall i :: 0 <= i < |Run(body)| ==> body[i] == Data(Run(body)[i])
    ensures |Run(body)| < |body| ==> !body[|Run(body)|].Data?
    decreases |body|
  {
    if |body| > 0 && body[0].Data? {
      RunIsLeadingData(body[1..]);
      var r := Run(body[1..]);
      assert Run(body) == [body[0].bytes] + r;
      forall i | 0 <= i < |Run(body)| ensures body[i] == Data(Run(body)[i]) {
        if i > 0 {
          assert body[i] == body[1..][i - 1];
        }
      }
      if |Run(body)| < |body| {
        assert body[|Run(body)|] == body[1..][|r|];
      }
    }
  }

  /**
    A poll without a length check pushes the whole run of data chunks and
    breaks on the first other event: the collector of src/aggregate.rs.
   */
  lemma {:induction false} PumpNoCheck<E>(contentLen: nat, body: seq<Event<E>>, used: nat, chunks: seq<seq<Byte>>)
    ensures Pump(NoCheck, contentLen, body, used, chunks)
         == Pumped(StopAt(AfterRun(body)), RestAt(AfterRun(body)), used + TotalLength(Run(body)), chunks + Run(body))
  {
    NoCheckAccepts(contentLen, used, Run(body));
    PumpAccepted(NoCheck, contentLen, body, used, chunks);
  }

  /** Without a check every run passes. */
  lemma {:induction false} NoCheckAccepts(contentLen: nat, used: nat, run: seq<seq<Byte>>)
    ensures TallyOk(NoCheck, contentLen, used, run)
    decreases |run|
  {
    if |run| > 0 {
      NoCheckAccepts(contentLen, used + |run[0]|, run[1..]);
    }
  }

  /**
    The comparison as written rejects a body that delivers just the declared
    length in two chunks (4 then 6 of 10): it fails after the first chunk and
    pushes nothing.
   */
  lemma AsWrittenRejectsExactLength<E>(a: seq<Byte>, b: seq<Byte>)
    requires |a| == 4 && |b| == 6
    ensures Pump<E>(AsWritten, 10, [Data(a), Data(b), End], 0, [])
         == Pumped(Failed(ContentLength), [Data(b), End], 4, [])
  {
  }

  /** The comparison as written accepts a body longer than declared (12 of 10). */
  lemma AsWrittenAcceptsOverLength<E>(a: seq<Byte>)
    requires |a| == 12
    ensures Pump<E>(AsWritten, 10, [Data(a), End], 0, []) == Pumped(Finished, [], 12, [a])
  {
  }

  /** The over-length check accepts 4 then 6 of 10 and keeps both chunks in order. */
  lemma IntendedAcceptsExactLength<E>(a: seq<Byte>, b: seq<Byte>)
    requires |a| == 4 && |b| == 6
    ensures Pump<E>(Intended, 10, [Data(a), Data(b), End], 0, []) == Pumped(Finished, [], 10, [a, b])
    ensures Concat([a, b]) == a + b
  {
    var body: seq<Event<E>> := [Data(a), Data(b), End];
    assert body[1..] == [Data(b), End] && body[1..][1..] == [End];
    assert [] + [a] == [a];
    assert Pump(Intended, 10, body, 0, []) == Pump(Intended, 10, body[1..], 4, [a]);
    assert Pump(Intended, 10, body[1..], 4, [a]) == Pump(Intended, 10, body[1..][1..], 10, [a] + [b]);
    assert [a] + [b] == [a, b];
    assert [a, b][1..] == [b];
    assert [b][1..] == [];
    assert Concat([b]) == b + Concat([]);
  }

  /** The over-length check rejects 6 then 6 of 10 after the second chunk, which it does not push. */
  lemma IntendedRejectsOverLength<E>(a: seq<Byte>, b: seq<Byte>)
    requires |a| == 6 && |b| == 6
    ensures Pump<E>(Intended, 10, [Data(a), Data(b), End], 0, []) == Pumped(Failed(ContentLength), [End], 12, [a])
  {
  }
}
