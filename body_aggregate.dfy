/**
  The length-checked collector of src/body/aggregate.rs: a future that drains
  a body into an `Aggregate`, tallying every data chunk against the declared
  content length before pushing it.
 */
module BodyAggregate {
  import opened StdTypes
  import opened Collect
  import opened Aggregates

  class AggregateFuture<E> {
    /** The events the body has still to yield, in order. */
    var body: seq<Event<E>>
    /** The buffer being filled; taken once, when the body ends. */
    var bufs: Option<Aggregate>
    const contentLen: nat
    /** The running tally of data bytes seen. */
    var used: nat

    ghost predicate Valid()
      reads this, if bufs.Some? then {bufs.value} else {}
    {
      bufs.Some? ==> PushesNonEmpty(AsWritten, contentLen, body, used) && bufs.value.Valid()
    }

    constructor (body: seq<Event<E>>, contentLen: nat)
      requires PushesNonEmpty(AsWritten, contentLen, body, 0)
      ensures Valid()
      ensures this.body == body && this.contentLen == contentLen && used == 0
      ensures bufs.Some? && fresh(bufs.value) && bufs.value.bufs == []
    {
      var agg := new Aggregate();
      this.body := body;
      bufs := Some(agg);
      this.contentLen := contentLen;
      used := 0;
    }

    /** The next event of the body; a body with no events left has ended. */
    method PollData() returns (event: Event<E>)
      modifies this
      ensures |old(body)| == 0 ==> event == End && body == []
      ensures |old(body)| > 0 ==> event == old(body)[0] && body == old(body)[1..]
      ensures used == old(used) && bufs == old(bufs)
    {
      if |body| == 0 {
        event := End;
      } else {
        event := body[0];
        body := body[1..];
      }
    }

    /**
      Drains the body until an event makes it break. A data chunk first goes
      into the tally and is pushed only if `contentLen > used` is false; a
      body error fails with `Body`; the end of the body hands over the buffer;
      a body that is not ready suspends.
     */
    method Poll() returns (p: Poll<Result<Aggregate, AggregateError<E>>>)
      requires Valid() && bufs.Some?
      modifies this, bufs.value
      ensures Valid() && old(bufs).value.Valid()
      ensures var q := Pump(AsWritten, contentLen, old(body), old(used), old(bufs.value.bufs));
        && body == q.rest && used == q.used && old(bufs).value.bufs == q.chunks
        && match q.stop
           case Finished => p == Ready(Ok(old(bufs).value)) && bufs == None
           case Failed(e) => p == Ready(Err(e)) && bufs == old(bufs)
           case Suspended => p == Pending && bufs == old(bufs)
    {
      var agg := bufs.value;
      ghost var q := Pump(AsWritten, contentLen, body, used, agg.bufs);
      while true
        invariant bufs == Some(agg) && agg.Valid() && PushesNonEmpty(AsWritten, contentLen, body, used)
        invariant Pump(AsWritten, contentLen, body, used, agg.bufs) == q
        decreases |body|
      {
        ghost var before := body;
        var event := PollData();
        match event
        case Data(data) =>
          ghost var tally := used;
          assert before[0] == event;
          used := used + |data|;
          if contentLen > used {
            PumpRejectStep(AsWritten, contentLen, before, tally, agg.bufs);
            p := Ready(Err(ContentLength));
            break;
          }
          PumpDataStep(AsWritten, contentLen, before, tally, agg.bufs);
          match bufs {
            case Some(buf) => buf.Push(data);
            case None =>
          }
        case BodyError(error) =>
          assert q == Pumped(Failed(Body(error)), body, used, agg.bufs);
          p := Ready(Err(Body(error)));
          break;
        case End =>
          assert q == Pumped(Finished, body, used, agg.bufs);
          var done := bufs.value;
          bufs := None;
          p := Ready(Ok(done));
          break;
        case NotReady =>
          assert q == Pumped(Suspended, body, used, agg.bufs);
          p := Pending;
          break;
      }
    }
  }
}
