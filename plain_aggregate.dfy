/**
  The collector of src/aggregate.rs: a future that drains a body into an
  `Aggregate` with no length check, and returns a body error unwrapped.
 */
module PlainAggregate {
  import opened StdTypes
  import opened Chunks
  import opened Collect
  import opened Aggregates

  class AggregateFuture<E> {
    /** The events the body has still to yield, in order. */
    var body: seq<Event<E>>
    /** The buffer being filled; taken once, when the body ends. */
    var buf: Option<Aggregate>

    ghost predicate Valid()
      reads this, if buf.Some? then {buf.value} else {}
    {
      buf.Some? ==> PushesNonEmpty(NoCheck, 0, body, 0) && buf.value.Valid()
    }

    constructor (body: seq<Event<E>>)
      requires PushesNonEmpty(NoCheck, 0, body, 0)
      ensures Valid() && this.body == body
      ensures buf.Some? && fresh(buf.value) && buf.value.bufs == []
    {
      var agg := new Aggregate();
      this.body := body;
      buf := Some(agg);
    }

    /** The next event of the body; a body with no events left has ended. */
    method PollData() returns (event: Event<E>)
      modifies this
      ensures |old(body)| == 0 ==> event == End && body == []
      ensures |old(body)| > 0 ==> event == old(body)[0] && body == old(body)[1..]
      ensures buf == old(buf)
    {
      if |body| == 0 {
        event := End;
      } else {
        event := body[0];
        body := body[1..];
      }
    }

    /**
      Drains the body until an event makes it break: every data chunk is
      pushed in arrival order, a body error is returned as it is, the end of
      the body hands over the buffer, and a body that is not ready suspends.
     */
    method Poll() returns (p: Poll<Result<Aggregate, E>>)
      requires Valid() && buf.Some?
      modifies this, buf.value
      ensures Valid() && old(buf).value.Valid()
      ensures old(buf).value.bufs == old(buf.value.bufs) + Run(old(body))
      ensures old(buf).value.Content() == old(buf.value.Content()) + Concat(Run(old(body)))
      ensures body == RestAt(AfterRun(old(body)))
      ensures match StopAt(AfterRun(old(body)))
        case Finished => p == Ready(Ok(old(buf).value)) && buf == None
        case Failed(e) => e.Body? && p == Ready(Err(e.error)) && buf == old(buf)
        case Suspended => p == Pending && buf == old(buf)
    {
      var agg := buf.value;
      ghost var start, pushed := body, agg.bufs;
      while true
        invariant buf == Some(agg) && agg.Valid() && PushesNonEmpty(NoCheck, 0, body, 0)
        invariant AfterRun(body) == AfterRun(start)
        invariant agg.bufs + Run(body) == pushed + Run(start)
        decreases |body|
      {
        ghost var before := body;
        var event := PollData();
        match event
        case Data(data) =>
          assert before[0] == event && |data| > 0;
          PushesNonEmptyNoCheck(body, |data|, 0);
          RunDataStep(before);
          ghost var was := agg.bufs;
          match buf {
            case Some(b) => b.Push(data);
            case None =>
          }
          assert was + [data] + Run(body) == was + ([data] + Run(body));
        case BodyError(error) =>
          p := Ready(Err(error));
          break;
        case End =>
          var done := buf.value;
          buf := None;
          p := Ready(Ok(done));
          break;
        case NotReady =>
          p := Pending;
          break;
      }
      ConcatJoin(pushed, Run(start));
    }
  }
}
