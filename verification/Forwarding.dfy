/** Forwarding any of the three streams into any of the three sinks, end to end. */
module Forwarding {
  import opened Bytes
  import opened Storage
  import opened Blocking
  import opened Sinks
  import opened Streams

  /** How far a transfer is from its end, in the order of significance. */
  datatype Progress = Progress(undelivered: nat, stage: nat, streamWait: Wait, sinkWait: Wait)

  predicate Before(a: Progress, b: Progress) {
    || a.undelivered < b.undelivered
    || (a.undelivered == b.undelivered &&
        (a.stage < b.stage ||
         (a.stage == b.stage &&
          (Shorter(a.streamWait, b.streamWait) ||
           (a.streamWait == b.streamWait && Shorter(a.sinkWait, b.sinkWait))))))
  }

  /** Closer to the end however long the sink may take. */
  predicate Sooner(a: Progress, b: Progress) {
    || a.undelivered < b.undelivered
    || (a.undelivered == b.undelivered
        && (a.stage < b.stage || (a.stage == b.stage && Shorter(a.streamWait, b.streamWait))))
  }

  /** Closer to the end, but for how long the sink may take. */
  predicate NoLater(a: Progress, b: Progress) {
    Before(a, b) || a.(sinkWait := b.sinkWait) == b
  }

  function Stage(item: Option<bytes>, held: Option<bytes>): nat {
    (if item.Some? then 2 else 0) + if held.Some? then 1 else 0
  }

  /**
   * Nothing is lost or doubled: `whole` is in the sink, on the way, and in the
   * stream. The sink was empty and in RAM at first.
   */
  ghost predicate Carrying(v: View, item: Option<bytes>, rest: bytes, whole: bytes, tune: Tunables) {
    && whole == Received(v) + (HeldBytes(item) + rest)
    && Absorbing(v, Received(v), true, tune)
  }

  /** Flushing keeps what is carried, as does sending the item; it fails only if the whole is too long. */
  lemma CarriedOn(v: View, item: Option<bytes>, rest: bytes, whole: bytes, tune: Tunables)
    requires Carrying(v, item, rest, whole, tune)
    ensures match Flushed(v, tune)
            case Ok(w) =>
              && Carrying(w, item, rest, whole, tune)
              && (item.Some? ==> Carrying(w.(held := item), None, rest, whole, tune))
            case Err(e) => e.BodyTooLong? && |whole| > tune.maxBody
  {
    FlushedWhole(v, tune);
    if Flushed(v, tune).Ok? {
      var w := Flushed(v, tune).value;
      StillAbsorbing(v, w, Received(v), true, tune);
      assert Received(w) == Received(v) by {
        assert w.content + [] == w.content;
      }
      assert [] + rest == rest;
      Associative(Received(v), HeldBytes(item), rest);
    }
  }

  lemma TakenOn(v: View, chunk: bytes, rest: bytes, whole: bytes, tune: Tunables)
    requires Carrying(v, None, chunk + rest, whole, tune)
    ensures Carrying(v, Some(chunk), rest, whole, tune)
  {
    assert [] + (chunk + rest) == chunk + rest;
  }

  /** poll_ready and, if the sink is ready, start_send. */
  method Push(sink: AnySink, buf: bytes, cx: Context) returns (r: Poll<Result<(), FutioError>>)
    requires sink.Valid()
    modifies sink.Repr()
    ensures r.Pending? || r.value.Ok? ==>
              sink.Valid()
    ensures r.Pending? ==>
              && sink.TheView() == old(sink.TheView()) && sink.WillWake(cx)
              && Shorter(sink.TheWait(), old(sink.TheWait()))
    ensures r.Ready? && r.value.Ok? ==>
              && Flushed(old(sink.TheView()), sink.Tune()).Ok?
              && sink.TheView() == Flushed(old(sink.TheView()), sink.Tune()).value.(held := Some(buf))
    ensures r.Ready? && r.value.Err? ==>
              Sinks.FailedFor(r.value.error, old(sink.TheView()), sink.Tune(), sink.MayFail(), sink.Cancels())
  {
    r := sink.PollFlush(cx);
    if r.Ready? && r.value.Ok? {
      sink.StartSend(buf);
    }
  }

  /** The future that StreamExt::forward makes: one item may be between the stream and the sink. */
  class Forward {
    const stream: AnyStream
    const sink: AnySink
    var item: Option<bytes>

    constructor (stream: AnyStream, sink: AnySink)
      requires stream.Valid() && sink.Valid() && stream.Repr() + stream.Files() !! sink.Repr()
      ensures this.stream == stream && this.sink == sink && item.None? && Valid()
    {
      this.stream, this.sink, this.item := stream, sink, None;
    }

    ghost function Footprint(): set<object> {
      stream.Repr() + stream.Files() + sink.Repr()
    }

    ghost predicate Valid()
      reads Footprint()
    {
      && stream.Repr() + stream.Files() !! sink.Repr()
      && this !in Footprint()
      && stream.Valid() && sink.Valid()
    }

    ghost predicate Carries(whole: bytes)
      requires Valid()
      reads this, Footprint()
    {
      Carrying(sink.TheView(), item, stream.Undelivered(), whole, sink.Tune())
    }

    ghost function TheProgress(): Progress
      requires Valid()
      reads this, Footprint()
    {
      Progress(|stream.Undelivered()|, Stage(item, sink.TheView().held), stream.TheWait(), sink.TheWait())
    }

    /** What happens to the sink does not touch the stream. */
    twostate lemma SinkMoved()
      requires old(Valid()) && sink.Valid()
      requires forall o | o in stream.Repr() + stream.Files() :: unchanged(o)
      ensures Valid()
      ensures stream.Undelivered() == old(stream.Undelivered()) && stream.TheWait() == old(stream.TheWait())
      ensures forall cx :: stream.WillWake(cx) == old(stream.WillWake(cx))
    {
    }

    /** poll_ready and start_send, which leave the stream alone. */
    method PushItem(cx: Context) returns (r: Poll<Result<(), FutioError>>)
      requires Valid() && item.Some?
      modifies sink.Repr()
      ensures r.Pending? || r.value.Ok? ==>
                && Valid()
                && stream.Undelivered() == old(stream.Undelivered()) && stream.TheWait() == old(stream.TheWait())
      ensures r.Pending? ==>
                && sink.TheView() == old(sink.TheView()) && sink.WillWake(cx)
                && Shorter(sink.TheWait(), old(sink.TheWait()))
      ensures r.Ready? && r.value.Ok? ==>
                && Flushed(old(sink.TheView()), sink.Tune()).Ok?
                && sink.TheView() == Flushed(old(sink.TheView()), sink.Tune()).value.(held := item)
      ensures r.Ready? && r.value.Err? ==>
                Sinks.FailedFor(r.value.error, old(sink.TheView()), sink.Tune(), sink.MayFail(), sink.Cancels())
    {
      r := Push(sink, item.value, cx);
      if r.Pending? || r.value.Ok? {
        SinkMoved();
      }
    }

    /** The item on the way becomes the buffer that is held. */
    method SendItem(cx: Context, ghost whole: bytes) returns (r: Poll<Result<(), FutioError>>)
      requires Valid() && Carries(whole) && item.Some?
      modifies this, sink.Repr()
      ensures r.Pending? || r.value.Ok? ==>
                && Valid() && Carries(whole)
                && Before(TheProgress(), old(TheProgress()))
      ensures r.Pending? ==> sink.WillWake(cx)
      ensures r.Ready? && r.value.Ok? ==> item.None?
      ensures r.Ready? && r.value.Err? ==> Explained(r.value.error, whole, sink.Tune(), sink.MayFail(), sink.Cancels())
    {
      CarriedOn(sink.TheView(), item, stream.Undelivered(), whole, sink.Tune());
      r := PushItem(cx);
      if r.Ready? && r.value.Ok? {
        item := None;
      }
    }

    /** poll_flush or poll_close: nothing is held any more, once it is ready. */
    method FlushSink(cx: Context, ghost whole: bytes) returns (r: Poll<Result<(), FutioError>>)
      requires Valid() && Carries(whole)
      modifies sink.Repr()
      ensures r.Pending? || r.value.Ok? ==>
                && Valid() && Carries(whole)
                && NoLater(TheProgress(), old(TheProgress()))
      ensures r.Pending? ==> sink.WillWake(cx) && Before(TheProgress(), old(TheProgress()))
      ensures r.Pending? || r.value.Ok? ==>
                stream.Undelivered() == old(stream.Undelivered())
                    && forall cx :: stream.WillWake(cx) == old(stream.WillWake(cx))
      ensures r.Ready? && r.value.Ok? ==> sink.Free()
      ensures r.Ready? && r.value.Err? ==> Explained(r.value.error, whole, sink.Tune(), sink.MayFail(), sink.Cancels())
    {
      ghost var v, rest := sink.TheView(), stream.Undelivered();
      CarriedOn(v, item, rest, whole, sink.Tune());
      r := sink.PollFlush(cx);
      if r.Pending? || r.value.Ok? {
        SinkMoved();
      }
    }

    /** What happens to the stream does not touch the sink. */
    twostate lemma StreamMoved()
      requires old(Valid()) && stream.Valid()
      requires forall o | o in sink.Repr() :: unchanged(o)
      ensures Valid()
      ensures sink.TheView() == old(sink.TheView()) && sink.TheWait() == old(sink.TheWait())
    {
    }

    /** poll_next, which leaves the sink alone. */
    method PollStream(cx: Context) returns (r: Poll<Option<Item>>)
      requires Valid()
      modifies stream.Repr()
      ensures !IsError(r) ==>
                && Valid()
                && Yielded(Chunk(r), old(stream.Undelivered()), stream.Undelivered())
                && sink.TheView() == old(sink.TheView()) && sink.TheWait() == old(sink.TheWait())
      ensures IsError(r) ==> ByFault(r.value.value.error, stream.MayFail(), stream.Cancels())
      ensures r.Pending? ==> stream.WillWake(cx) && Shorter(stream.TheWait(), old(stream.TheWait()))
      ensures r == Ready(None) ==> stream.TheWait() == old(stream.TheWait())
    {
      r := stream.PollNext(cx);
      if !IsError(r) {
        StreamMoved();
      }
    }

    /** The item that was polled is on the way, or there is none. */
    method TakeItem(cx: Context, ghost whole: bytes) returns (r: Poll<Result<(), FutioError>>)
      requires Valid() && Carries(whole) && item.None?
      modifies this, stream.Repr()
      ensures r.Pending? || r.value.Ok? ==> Valid() && Carries(whole)
      ensures r.Pending? ==>
                && item.None? && stream.WillWake(cx) && Shorter(stream.TheWait(), old(stream.TheWait()))
                && TheProgress().(streamWait := old(TheProgress()).streamWait) == old(TheProgress())
      ensures r.Ready? && r.value.Ok? ==>
                if item.Some? then |stream.Undelivered()| < |old(stream.Undelivered())|
                else stream.Undelivered() == [] && TheProgress() == old(TheProgress())
      ensures r.Ready? && r.value.Err? ==> ByFault(r.value.error, stream.MayFail(), stream.Cancels())
    {
      var next := PollStream(cx);
      if IsError(next) {
        return Ready(Err(next.value.value.error));
      }
      match Chunk(next) {
        case Pending => return Pending;
        case Ready(None) => return Ready(Ok(()));
        case Ready(Some(chunk)) =>
          TakenOn(sink.TheView(), chunk, stream.Undelivered(), whole, sink.Tune());
          item := Some(chunk);
          return Ready(Ok(()));
      }
    }

    /**
     * What this task waits for will wake it: the sink, or the stream with
     * nothing more to do for the sink, as all it was given is flushed.
     */
    ghost predicate WillWake(cx: Context)
      requires Valid()
      reads this, Footprint()
    {
      sink.WillWake(cx) || (stream.WillWake(cx) && item.None? && sink.Free())
    }

    /** The body in the sink is the whole, in RAM if it is small enough. */
    ghost predicate Complete(whole: bytes)
      requires Valid()
      reads Footprint()
    {
      && stream.Undelivered() == [] && sink.Free() && |whole| <= sink.Tune().maxBody
      && sink.TheView() == View(whole, |whole| <= sink.Tune().maxBodyRam, None)
    }

    ghost predicate Expected(e: FutioError, whole: bytes) {
      Explained(e, whole, sink.Tune(), sink.MayFail() || stream.MayFail(), sink.Cancels() || stream.Cancels())
    }

    /** What is on the way goes into the sink, and the next item is on the way. */
    method Round(cx: Context, ghost whole: bytes) returns (step: Step)
      requires Valid() && Carries(whole)
      modifies this, stream.Repr(), sink.Repr()
      ensures step.Failed? ==> Expected(step.error, whole)
      ensures !step.Failed? ==>
                Valid() && Carries(whole)
      ensures step.Moved? ==> |stream.Undelivered()| < |old(stream.Undelivered())|
      ensures step.SinkBusy? ==> sink.WillWake(cx) && Before(TheProgress(), old(TheProgress()))
      ensures step.StreamBusy? ==> item.None? && stream.WillWake(cx) && Sooner(TheProgress(), old(TheProgress()))
      ensures step.AtEnd? ==>
                item.None? && stream.Undelivered() == []
                    && (TheProgress() == old(TheProgress()) || Before(TheProgress(), old(TheProgress())))
    {
      if item.Some? {
        var sent := SendItem(cx, whole);
        if sent.Pending? {
          return SinkBusy;
        }
        if sent.value.Err? {
          return Failed(sent.value.error);
        }
      }
      var taken := TakeItem(cx, whole);
      if taken.Pending? {
        return StreamBusy;
      }
      if taken.value.Err? {
        return Failed(taken.value.error);
      }
      return if item.Some? then Moved else AtEnd;
    }

    /** After the last round: poll_flush if the stream is pending, poll_close if it is at its end. */
    method Rest(cx: Context, step: Step, ghost whole: bytes) returns (r: Poll<Result<(), FutioError>>)
      requires Valid() && Carries(whole) && (step.SinkBusy? || step.StreamBusy? || step.AtEnd?)
      requires if step.SinkBusy? then sink.WillWake(cx)
               else item.None? && if step.StreamBusy? then stream.WillWake(cx) else stream.Undelivered() == []
      modifies sink.Repr()
      ensures r.Pending? ==>
                && Valid() && Carries(whole) && WillWake(cx)
                && if step.SinkBusy? then TheProgress() == old(TheProgress())
                   else if step.StreamBusy? then NoLater(TheProgress(), old(TheProgress()))
                   else Before(TheProgress(), old(TheProgress()))
      ensures r.Ready? && r.value.Ok? ==> Valid() && Complete(whole)
      ensures r.Ready? && r.value.Err? ==> Expected(r.value.error, whole)
    {
      if step.SinkBusy? {
        return Pending;
      }
      r := FlushSink(cx, whole);
      if r.Ready? && r.value.Ok? {
        if step.StreamBusy? {
          return Pending;
        }
        assert Received(sink.TheView()) + ([] + []) == sink.TheView().content + [] == sink.TheView().content;
      }
    }

    /**
     * One poll of the future. It is pending only if the stream or the sink
     * will wake this task, and then the end is closer. It is ready when the
     * body in the sink is the whole.
     */
    method Poll(cx: Context, ghost whole: bytes) returns (r: Poll<Result<(), FutioError>>)
      requires Valid() && Carries(whole)
      modifies this, stream.Repr(), sink.Repr()
      ensures r.Pending? ==>
                && Valid() && Carries(whole) && WillWake(cx) && Before(TheProgress(), old(TheProgress()))
      ensures r.Ready? && r.value.Ok? ==> Valid() && Complete(whole)
      ensures r.Ready? && r.value.Err? ==> Expected(r.value.error, whole)
      decreases |stream.Undelivered()|
    {
      var step := Round(cx, whole);
      if step.Failed? {
        return Ready(Err(step.error));
      }
      if step.Moved? {
        r := Poll(cx, whole);
      } else {
        r := Rest(cx, step, whole);
      }
    }
  }

  /**
   * How a round ends: with another to follow, with the sink or the stream
   * pending, with the stream at its end, or with an error.
   */
  datatype Step = Moved | SinkBusy | StreamBusy | AtEnd | Failed(error: FutioError)

  /** A task that awaits the transfer: every poll that is pending brings the end closer. */
  method Await(forward: Forward, ghost whole: bytes, ghost p: Progress) returns (r: Result<(), FutioError>)
    requires forward.Valid() && forward.Carries(whole) && p == forward.TheProgress()
    modifies forward, forward.stream.Repr(), forward.sink.Repr()
    ensures r.Ok? ==> forward.Valid() && forward.Complete(whole)
    ensures r.Err? ==> forward.Expected(r.error, whole)
    decreases p.undelivered, p.stage, p.streamWait.idle, p.streamWait.pendings, p.sinkWait.idle, p.sinkWait.pendings
  {
    var cx: Context :| true;
    var polled := forward.Poll(cx, whole);
    if polled.Ready? {
      return polled.value;
    }
    r := Await(forward, whole, forward.TheProgress());
  }

  /** Which of the three adaptors. */
  datatype Kind = Plain | Permit | Dispatch

  method OpenStream(kind: Kind, image: BodyImage, tune: Tunables, mayFail: bool, schedule: Schedule)
    returns (stream: AnyStream)
    requires image.Valid() && tune.Valid()
    ensures stream.Valid() && fresh(stream.Repr()) && stream.Files() <= image.Files()
    ensures stream.Undelivered() == image.Content() && stream.MayFail() == mayFail
    ensures stream.Cancels() ==> CanCancel(schedule)
  {
    match kind
    case Plain =>
      var s := new AsyncBodyImage(image, tune, Always, mayFail);
      stream := AnyStream.OfPlain(s);
    case Permit =>
      var s := new PermitBodyImage(image, tune, mayFail, schedule);
      stream := AnyStream.OfPermit(s);
    case Dispatch =>
      var s := new DispatchBodyImage(image, tune, mayFail, schedule);
      stream := AnyStream.OfDispatch(s);
  }

  /** Over an empty body in RAM. */
  method OpenSink(kind: Kind, tune: Tunables, schedule: Schedule) returns (sink: AnySink)
    requires tune.Valid()
    ensures sink.Valid() && fresh(sink.Repr()) && sink.TheView() == View([], true, None) && sink.Tune() == tune
    ensures sink.MayFail() == tune.tempDir.Faulty? && (sink.Cancels() ==> CanCancel(schedule))
  {
    var body := new BodySink.Empty();
    match kind
    case Plain =>
      var s := new AsyncBodySink(body, tune, Always);
      sink := AnySink.OfPlain(s);
    case Permit =>
      var s := new PermitBodySink(body, tune, schedule);
      sink := AnySink.OfPermit(s);
    case Dispatch =>
      var s := new DispatchBodySink(body, tune, schedule);
      sink := AnySink.OfDispatch(s);
  }

  /** All of a stream into a sink that starts empty and in RAM. */
  method ForwardAll(stream: AnyStream, sink: AnySink) returns (r: Result<BodySink, FutioError>)
    requires stream.Valid() && sink.Valid() && stream.Repr() + stream.Files() !! sink.Repr()
    requires sink.TheView() == View([], true, None)
    modifies stream.Repr(), sink.Repr()
    ensures var whole := old(stream.Undelivered());
            match r
            case Ok(body) =>
              && body == sink.Inner().body && body.Valid() && body.Content() == whole && |whole| <= sink.Tune().maxBody
              && (body.IsRam() <==> |whole| <= sink.Tune().maxBodyRam)
            case Err(e) =>
              Explained(e, whole, sink.Tune(), sink.MayFail() || stream.MayFail(), sink.Cancels() || stream.Cancels())
  {
    ghost var whole := stream.Undelivered();
    var forward := new Forward(stream, sink);
    assert [] + ([] + whole) == whole;
    var done := Await(forward, whole, forward.TheProgress());
    if done.Err? {
      return Err(done.error);
    }
    var body := sink.IntoInner();
    return Ok(body);
  }

  method OpenBoth(from: Kind, to: Kind, image: BodyImage, streamTune: Tunables, sinkTune: Tunables, mayFail: bool,
                  streamSchedule: Schedule, sinkSchedule: Schedule)
    returns (stream: AnyStream, sink: AnySink)
    requires image.Valid() && streamTune.Valid() && sinkTune.Valid()
    ensures stream.Valid() && sink.Valid() && stream.Repr() + stream.Files() !! sink.Repr()
            && fresh(stream.Repr() + sink.Repr())
    ensures stream.Undelivered() == image.Content() && sink.TheView() == View([], true, None) && sink.Tune() == sinkTune
    ensures stream.MayFail() || sink.MayFail() ==> mayFail || sinkTune.tempDir.Faulty?
    ensures stream.Cancels() || sink.Cancels() ==> CanCancel(streamSchedule) || CanCancel(sinkSchedule)
  {
    sink := OpenSink(to, sinkTune, sinkSchedule);
    stream := OpenStream(from, image, streamTune, mayFail, streamSchedule);
  }

  /**
   * End to end: an image of any kind through any of the three streams into
   * any of the three sinks, over an empty body in RAM. Without faults and
   * cancellations, for every schedule and every chunking, the transfer
   * succeeds exactly when the content is not too long, with that content.
   */
  method Transfer(from: Kind, to: Kind, image: BodyImage, streamTune: Tunables, sinkTune: Tunables, mayFail: bool,
                  streamSchedule: Schedule, sinkSchedule: Schedule)
    returns (r: Result<BodySink, FutioError>)
    requires image.Valid() && streamTune.Valid() && sinkTune.Valid()
    ensures r.Ok? ==>
              && r.value.Valid() && r.value.Content() == image.Content() && image.len <= sinkTune.maxBody
              && (r.value.IsRam() <==> image.len <= sinkTune.maxBodyRam)
    ensures r.Err? ==>
              Explained(r.error, image.Content(), sinkTune, sinkTune.tempDir.Faulty? || mayFail,
                        CanCancel(streamSchedule) || CanCancel(sinkSchedule))
    ensures !mayFail && !CanCancel(streamSchedule) && !CanCancel(sinkSchedule) && sinkTune.tempDir.Reliable? ==>
              (r.Ok? <==> image.len <= sinkTune.maxBody)
  {
    var stream, sink := OpenBoth(from, to, image, streamTune, sinkTune, mayFail, streamSchedule, sinkSchedule);
    r := ForwardAll(stream, sink);
  }
}
