/** The asynchronous sinks: a body that is written buffer by buffer, with blocking writes arbitrated from above. */
module Sinks {
  import opened Bytes
  import opened Storage
  import opened Blocking

  /** What there is to know of a sink: the body so far, where it is, and the buffer that is held. */
  datatype View = View(content: bytes, ram: bool, held: Option<bytes>)

  function HeldBytes(held: Option<bytes>): bytes {
    if held.Some? then held.value else []
  }

  /** All that has been sent. */
  function Received(v: View): bytes {
    v.content + HeldBytes(v.held)
  }

  /** The body with one more buffer: refused if too long, in RAM while it was and is small enough. */
  function Absorb(content: bytes, ram: bool, buf: bytes, tune: Tunables): Result<View, BodyError> {
    var len := |content| + |buf|;
    if buf == [] then Ok(View(content, ram, None))
    else if len > tune.maxBody then Err(BodyTooLong(len))
    else Ok(View(content + buf, ram && len <= tune.maxBodyRam, None))
  }

  /** Nothing is held any more. */
  function Flushed(v: View, tune: Tunables): Result<View, BodyError> {
    if v.held.Some? then Absorb(v.content, v.ram, v.held.value, tune) else Ok(v)
  }

  /** Writing the buffer is a blocking operation: it goes to a file, and perhaps the whole body before it. */
  predicate NeedsBlocking(content: bytes, ram: bool, buf: bytes, tune: Tunables) {
    && buf != [] && |content| + |buf| <= tune.maxBody
    && !(ram && |content| + |buf| <= tune.maxBodyRam)
  }

  /** That is, exactly when the buffer is accepted and does not end up in RAM. */
  lemma BlockingExactly(content: bytes, ram: bool, buf: bytes, tune: Tunables)
    ensures NeedsBlocking(content, ram, buf, tune) <==>
            buf != [] && Absorb(content, ram, buf, tune).Ok? && !Absorb(content, ram, buf, tune).value.ram
  {
  }

  predicate HoldsBlocking(v: View, tune: Tunables) {
    v.held.Some? && NeedsBlocking(v.content, v.ram, v.held.value, tune)
  }

  class AsyncBodySink {
    const body: BodySink
    const tune: Tunables
    const arbiter: Arbiter
    var buf: Option<bytes>
    /** Some file the sink writes to may fail. */
    ghost const mayFail: bool

    constructor (body: BodySink, tune: Tunables, permission: Permission)
      requires tune.Valid() && body.Valid()
      ensures this.body == body && this.tune == tune && buf == None && Valid()
      ensures fresh(arbiter) && arbiter.state == permission
      ensures mayFail == (tune.tempDir.Faulty? || (body.state.FsWrite? && body.state.dir.Faulty?))
    {
      this.body, this.tune, this.buf := body, tune, None;
      this.mayFail := tune.tempDir.Faulty? || (body.state.FsWrite? && body.state.dir.Faulty?);
      this.arbiter := new Arbiter(permission);
    }

    function TheView(): View
      reads this, body
    {
      View(body.Content(), body.IsRam(), buf)
    }

    ghost predicate Valid()
      reads body
    {
      && tune.Valid() && body.Valid()
      && (tune.tempDir.Faulty? || (body.state.FsWrite? && body.state.dir.Faulty?) ==> mayFail)
    }

    /** One buffer. It is returned if it needs blocking that is not allowed. */
    method PollSend(buf: bytes) returns (r: Result<Option<bytes>, FutioError>)
      requires Valid()
      modifies body, arbiter
      ensures var content, ram := old(body.Content()), old(body.IsRam());
              var blocking := NeedsBlocking(content, ram, buf, tune);
              && arbiter.state == (if !blocking then old(arbiter.state)
                                   else if Allows(old(arbiter.state)) then Used(old(arbiter.state)) else Requested)
              && match r
                 case Ok(Some(b)) =>
                   && b == buf && blocking && !Allows(old(arbiter.state))
                   && Valid() && body.Content() == content && body.IsRam() == ram
                 case Ok(None) =>
                   && Valid() && (blocking ==> Allows(old(arbiter.state)))
                   && Absorb(content, ram, buf, tune) == Ok(View(body.Content(), body.IsRam(), None))
                 case Err(Body(e)) => Absorb(content, ram, buf, tune) == Err(e)
                     || (e == BodyError.Io && mayFail && blocking && Allows(old(arbiter.state)))
                 case Err(OpCanceled) => false
      ensures r.Err? && r.error.Body? && r.error.error.BodyTooLong? ==> body.Content() == old(body.Content())
    {
      if |buf| == 0 {
        return Ok(None);
      }
      var newLen := body.len + |buf|;
      if newLen > tune.maxBody {
        return Err(Body(BodyTooLong(newLen)));
      }
      if body.IsRam() && newLen <= tune.maxBodyRam {
        var pushed := body.WriteAll(buf);
        return Ok(None);
      }
      var allowed := arbiter.CanBlock();
      if !allowed {
        return Ok(Some(buf));
      }
      if body.IsRam() {
        var back := body.WriteBack(tune.tempDir);
        if back.Err? {
          return Err(Body(back.error));
        }
      }
      var wrote := body.WriteAll(buf);
      return if wrote.Ok? then Ok(None) else Err(Body(wrote.error));
    }

    /** Pending only for want of permission, and then nothing has changed but the request for it. */
    method PollFlushImpl() returns (r: Poll<Result<(), FutioError>>)
      requires Valid()
      modifies this`buf, body, arbiter
      ensures var v := old(TheView());
              var blocking := HoldsBlocking(v, tune);
              && arbiter.state == (if !blocking then old(arbiter.state)
                                   else if Allows(old(arbiter.state)) then Used(old(arbiter.state)) else Requested)
              && match r
                 case Pending => Valid() && blocking && !Allows(old(arbiter.state)) && TheView() == v
                 case Ready(Ok(_)) => Valid() && (blocking ==> Allows(old(arbiter.state)))
                     && Flushed(v, tune) == Ok(TheView())
                 case Ready(Err(Body(e))) => Flushed(v, tune) == Err(e)
                     || (e == BodyError.Io && mayFail && blocking && Allows(old(arbiter.state)))
                 case Ready(Err(OpCanceled)) => false
    {
      if buf.None? {
        return Ready(Ok(()));
      }
      var taken := buf.value;
      buf := None;
      var sent := PollSend(taken);
      match sent {
        case Ok(None) => return Ready(Ok(()));
        case Ok(Some(b)) =>
          buf := Some(b);
          return Pending;
        case Err(e) => return Ready(Err(e));
      }
    }

    /** The assertion that nothing is held is the caller's to meet, with a successful poll_ready before. */
    method Send(buf: bytes)
      requires this.buf.None?
      modifies this`buf
      ensures this.buf == Some(buf)
    {
      this.buf := Some(buf);
    }

    method IntoInner() returns (body: BodySink)
      ensures body == this.body
    {
      body := this.body;
    }
  }

  /** What polling any of the three sinks does, whatever the schedule: nothing yet, or all there is to do. */
  predicate Polled(pending: bool, before: View, after: View, tune: Tunables) {
    if pending then HoldsBlocking(before, tune) && after == before else Flushed(before, tune) == Ok(after)
  }

  /** Why polling fails: the body would be too long, a file fails, or the blocking operation is canceled. */
  predicate FailedFor(e: FutioError, before: View, tune: Tunables, mayFail: bool, cancels: bool) {
    || (Flushed(before, tune).Err? && e == Body(Flushed(before, tune).error))
    || (HoldsBlocking(before, tune) && ByFault(e, mayFail, cancels))
  }

  /** Some error the schedule and the file system allow. */
  predicate ByFault(e: FutioError, mayFail: bool, cancels: bool) {
    (e == Body(BodyError.Io) && mayFail) || (e == OpCanceled && cancels)
  }

  /** A flush that is allowed to block: all there is to do, or an error of it. */
  predicate FlushedOr(r: Result<(), FutioError>, before: View, after: View, tune: Tunables, mayFail: bool) {
    match r
    case Ok(_) => Flushed(before, tune) == Ok(after)
    case Err(Body(e)) =>
      Flushed(before, tune) == Err(e) || (e == BodyError.Io && mayFail && HoldsBlocking(before, tune))
    case Err(OpCanceled) => false
  }

  /**
   * What a poll does, by what becomes of the operation that decides it:
   * nothing while that is pending, nothing and an error if it is canceled, and
   * a flush if it is granted, or if there is none as the flush needs none.
   */
  predicate Decided(fate: Option<Fate>, r: Poll<Result<(), FutioError>>, before: View, after: View, tune: Tunables,
                    mayFail: bool)
  {
    if fate.Some? && fate.value.pendings > 0 then r.Pending? && after == before
    else if fate.Some? && fate.value.outcome.Canceled? then r == Ready(Err(OpCanceled)) && after == before
    else r.Ready? && FlushedOr(r.value, before, after, tune, mayFail)
  }

  class PermitBodySink {
    const sink: AsyncBodySink
    /** What becomes of the permits that the sink requests, and how many it has. */
    const schedule: Schedule
    var taken: nat
    var permit: Option<Operation>
    ghost const Repr: set<object>

    constructor (body: BodySink, tune: Tunables, schedule: Schedule)
      requires tune.Valid() && body.Valid()
      ensures Valid() && fresh(Repr - {body}) && sink.body == body && sink.tune == tune
      ensures this.schedule == schedule && taken == 0
      ensures sink.buf.None? && permit.None?
      ensures sink.mayFail == (tune.tempDir.Faulty? || (body.state.FsWrite? && body.state.dir.Faulty?))
    {
      this.schedule, this.taken, this.permit := schedule, 0, None;
      var sink := new AsyncBodySink(body, tune, Void);
      this.sink := sink;
      this.Repr := {this, sink, body, sink.arbiter};
    }

    /** A permit is outstanding exactly while blocking is requested, and then the held buffer really needs it. */
    ghost predicate Valid()
      reads this, Repr
      ensures Valid() ==> this in Repr
    {
      && {this, sink, sink.body, sink.arbiter} <= Repr
      && sink.Valid()
      && (permit.None? ==> sink.arbiter.state.Void?)
      && (permit.Some? ==>
            && LastTaken(permit, schedule, taken)
            && sink.arbiter.state.Requested? && HoldsBlocking(sink.TheView(), sink.tune))
    }

    method PollFlush(cx: Context) returns (r: Poll<Result<(), FutioError>>)
      requires Valid()
      modifies Repr
      ensures r.Pending? || r.value.Ok? ==>
                && Valid()
                && Polled(r.Pending?, old(sink.TheView()), sink.TheView(), sink.tune)
      ensures r.Ready? && r.value.Err?
              ==> FailedFor(r.value.error, old(sink.TheView()), sink.tune, sink.mayFail, CanCancel(schedule))
      ensures var v := old(sink.TheView());
              var needed := HoldsBlocking(v, sink.tune);
              var fate := Deciding(old(permit), needed, schedule, old(taken));
              && taken == TakenAfter(old(permit), needed, old(taken))
              && Decided(fate, r, v, sink.TheView(), sink.tune, sink.mayFail)
              && (r.Pending? ==> permit == Some(Operation(Nearer(fate.value), Some(cx))))
      ensures r.Pending? ==> Shorter(WaitFor(permit), old(WaitFor(permit)))
      ensures r.Ready? && r.value.Ok? ==> permit.None?
      decreases if permit.None? then 1 else 0
    {
      if permit.Some? {
        var polled, next := permit.value.Poll(cx);
        match polled {
          case Pending =>
            permit := Some(next);
            return Pending;
          case Ready(Canceled) => return Ready(Err(OpCanceled));
          case Ready(Granted) => permit := None;
        }
        sink.arbiter.Set(Once);
        r := sink.PollFlushImpl();
        assert sink.arbiter.state == Void;
      } else {
        r := sink.PollFlushImpl();
        if r.Pending? && sink.arbiter.state.Requested? {
          permit, taken := Some(Operation(schedule(taken), None)), taken + 1;
          r := PollFlush(cx);
        }
      }
    }

    method StartSend(buf: bytes)
      requires Valid() && sink.buf.None?
      modifies sink`buf
      ensures Valid() && sink.TheView() == old(sink.TheView()).(held := Some(buf))
    {
      sink.Send(buf);
    }
  }

  /** The sink is here (None only while it is being handed over), or inside a dispatched operation. */
  datatype DispatchState = Sink(here: Option<AsyncBodySink>) | Dispatch(op: Operation, moved: AsyncBodySink)

  class DispatchBodySink {
    /** What becomes of the operations that the sink dispatches, and how many it has. */
    const schedule: Schedule
    var taken: nat
    var state: DispatchState
    /** The sink, wherever it is. */
    ghost const sink: AsyncBodySink
    ghost const Repr: set<object>

    constructor (body: BodySink, tune: Tunables, schedule: Schedule)
      requires tune.Valid() && body.Valid()
      ensures Valid() && fresh(Repr - {body}) && sink.body == body && sink.tune == tune
      ensures this.schedule == schedule && taken == 0
      ensures state.Sink? && sink.buf.None?
      ensures sink.mayFail == (tune.tempDir.Faulty? || (body.state.FsWrite? && body.state.dir.Faulty?))
    {
      this.schedule, this.taken := schedule, 0;
      var sink := new AsyncBodySink(body, tune, Void);
      this.state, this.sink := Sink(Some(sink)), sink;
      this.Repr := {this, sink, body, sink.arbiter};
    }

    function Outstanding(): Option<Operation>
      reads this
    {
      if state.Sink? then None else Some(state.op)
    }

    /** A dispatched sink was granted one blocking operation, and its held buffer needs it. */
    ghost predicate Valid()
      reads this, Repr
      ensures Valid() ==> this in Repr
    {
      && {this, sink, sink.body, sink.arbiter} <= Repr
      && (if state.Sink? then state.here == Some(sink) else state.moved == sink)
      && sink.Valid()
      && (state.Sink? ==> sink.arbiter.state.Void?)
      && (state.Dispatch? ==>
            && LastTaken(Some(state.op), schedule, taken)
            && sink.arbiter.state.Once? && HoldsBlocking(sink.TheView(), sink.tune))
    }

    method PollFlush(cx: Context) returns (r: Poll<Result<(), FutioError>>)
      requires Valid()
      modifies Repr
      ensures r.Pending? || r.value.Ok? ==>
                && Valid()
                && Polled(r.Pending?, old(sink.TheView()), sink.TheView(), sink.tune)
      ensures r.Ready? && r.value.Err? ==>
                FailedFor(r.value.error, old(sink.TheView()), sink.tune, sink.mayFail, CanCancel(schedule))
      ensures var v := old(sink.TheView());
              var needed := HoldsBlocking(v, sink.tune);
              var fate := Deciding(old(Outstanding()), needed, schedule, old(taken));
              && taken == TakenAfter(old(Outstanding()), needed, old(taken))
              && Decided(fate, r, v, sink.TheView(), sink.tune, sink.mayFail)
              && (r.Pending? ==> Outstanding() == Some(Operation(Nearer(fate.value), Some(cx))))
      ensures r.Pending? ==> Shorter(WaitFor(Outstanding()), old(WaitFor(Outstanding())))
      ensures r.Ready? && r.value.Ok? ==> state.Sink?
      decreases if state.Sink? then 1 else 0
    {
      match state {
        case Sink(here) =>
          var ob := here.value;
          r := ob.PollFlushImpl();
          if r.Pending? && ob.arbiter.state.Requested? {
            HandOver(ob);
            r := PollFlush(cx);
          }
        case Dispatch(op, ob) =>
          var polled, next := op.Poll(cx);
          match polled {
            case Pending =>
              state := Dispatch(next, ob);
              return Pending;
            case Ready(Canceled) => return Ready(Err(OpCanceled));
            case Ready(Granted) =>
          }
          // What the dispatched closure has done meanwhile
          r := ob.PollFlushImpl();
          assert ob.arbiter.state == Void;
          state := Sink(Some(ob));
      }
    }

    /** Grants the sink one blocking operation and dispatches it. */
    method HandOver(ob: AsyncBodySink)
      requires state == Sink(Some(ob)) && ob == sink && ob.Valid() && {this, ob, ob.body, ob.arbiter} <= Repr
      requires ob.arbiter.state.Requested? && HoldsBlocking(ob.TheView(), ob.tune)
      modifies this, ob.arbiter
      ensures Valid() && taken == old(taken) + 1
      ensures state == Dispatch(Operation(schedule(old(taken)), None), ob)
    {
      ob.arbiter.Set(Once);
      state := Sink(None);
      state, taken := Dispatch(Operation(schedule(taken), None), ob), taken + 1;
    }

    /** The panic while dispatched is the caller's to avoid, with a successful poll_ready before. */
    method StartSend(buf: bytes)
      requires Valid() && state.Sink? && sink.buf.None?
      modifies sink`buf
      ensures Valid() && sink.TheView() == old(sink.TheView()).(held := Some(buf))
    {
      state.here.value.Send(buf);
    }

    method IntoInner() returns (body: BodySink)
      requires Valid() && state.Sink?
      ensures body == sink.body
    {
      body := state.here.value.IntoInner();
    }
  }

  /** Any of the three. The plain sink's arbiter is lenient. */
  datatype AnySink =
    | OfPlain(plain: AsyncBodySink)
    | OfPermit(permitted: PermitBodySink)
    | OfDispatch(dispatched: DispatchBodySink)
  {
    /** The sink inside. */
    ghost function Inner(): AsyncBodySink {
      match this
      case OfPlain(s) => s
      case OfPermit(s) => s.sink
      case OfDispatch(s) => s.sink
    }

    ghost function Tune(): Tunables {
      Inner().tune
    }

    ghost predicate MayFail() {
      Inner().mayFail
    }

    ghost function Repr(): set<object> {
      match this
      case OfPlain(s) => {s, s.body, s.arbiter}
      case OfPermit(s) => {s} + s.Repr
      case OfDispatch(s) => {s} + s.Repr
    }

    ghost predicate Valid()
      reads Repr()
      ensures Valid() ==> {Inner(), Inner().body} <= Repr()
    {
      match this
      case OfPlain(s) => s.Valid() && s.arbiter.state.Always?
      case OfPermit(s) => s.Valid()
      case OfDispatch(s) => s.Valid()
    }

    ghost function TheView(): View
      requires Valid()
      reads Repr()
    {
      Inner().TheView()
    }

    ghost predicate Cancels() {
      match this
      case OfPlain(_) => false
      case OfPermit(s) => CanCancel(s.schedule)
      case OfDispatch(s) => CanCancel(s.schedule)
    }

    /** What becomes of the operations; the plain sink has none. */
    function TheSchedule(): Schedule {
      match this
      case OfPlain(_) => (i: nat) => Fate(0, Granted)
      case OfPermit(s) => s.schedule
      case OfDispatch(s) => s.schedule
    }

    /** How many operations have come to their end. */
    function Used(): nat
      reads Repr()
    {
      match this
      case OfPlain(_) => 0
      case OfPermit(s) => Ended(s.permit, s.taken)
      case OfDispatch(s) => Ended(s.Outstanding(), s.taken)
    }

    /** What decides a poll; the plain sink blocks without asking. */
    ghost function Fated(): Option<Fate>
      reads Repr(), Inner(), Inner().body
    {
      match this
      case OfPlain(_) => None
      case OfPermit(s) => Deciding(s.permit, HoldsBlocking(s.sink.TheView(), s.sink.tune), s.schedule, s.taken)
      case OfDispatch(s) =>
        Deciding(s.Outstanding(), HoldsBlocking(s.sink.TheView(), s.sink.tune), s.schedule, s.taken)
    }

    function Outstanding(): Option<Operation>
      reads Repr()
    {
      match this
      case OfPlain(s) => None
      case OfPermit(s) => s.permit
      case OfDispatch(s) => s.Outstanding()
    }

    /** How long the outstanding operation may still take. */
    function TheWait(): (w: Wait)
      requires Valid()
      reads Repr()
    {
      WaitFor(Outstanding())
    }

    /** Nothing held, nothing dispatched: start_send meets its assertion and into_inner gives the body back. */
    ghost predicate Free()
      requires Valid()
      reads Repr()
    {
      TheView().held.None? && Outstanding().None?
    }

    /** The outstanding operation will wake the task that polled last. */
    predicate WillWake(cx: Context)
      requires Valid()
      reads Repr()
    {
      Outstanding().Some? && Outstanding().value.waker == Some(cx)
    }

    /** poll_ready, poll_flush and poll_close, which are all the same. */
    method PollFlush(cx: Context) returns (r: Poll<Result<(), FutioError>>)
      requires Valid()
      modifies Repr()
      ensures r.Pending? || r.value.Ok? ==>
                && Valid()
                && Polled(r.Pending?, old(TheView()), TheView(), Tune())
      ensures r.Ready? && r.value.Err? ==> FailedFor(r.value.error, old(TheView()), Tune(), MayFail(), Cancels())
      ensures old(Fated()).Some? <==> !OfPlain? && HoldsBlocking(old(TheView()), Tune())
      ensures old(Fated()).Some? ==> old(Fated()).value.outcome == TheSchedule()(old(Used())).outcome
      ensures Decided(old(Fated()), r, old(TheView()), Inner().TheView(), Tune(), MayFail())
      ensures r.Pending? ==> Fated() == Some(Nearer(old(Fated()).value)) && Used() == old(Used())
      ensures r.Ready? && r.value.Ok? ==> Used() == old(Used()) + if old(Fated()).Some? then 1 else 0
      ensures r.Pending? ==> WillWake(cx) && Shorter(TheWait(), old(TheWait()))
      ensures r.Ready? && r.value.Ok? ==> Free()
      ensures OfPlain? ==> r.Ready?
    {
      match this
      case OfPlain(s) => r := s.PollFlushImpl();
      case OfPermit(s) => r := s.PollFlush(cx);
      case OfDispatch(s) => r := s.PollFlush(cx);
    }

    method StartSend(buf: bytes)
      requires Valid() && Free()
      modifies Inner()`buf
      ensures Valid()
      ensures TheView() == old(TheView()).(held := Some(buf)) && TheWait() == old(TheWait()) && Used() == old(Used())
    {
      match this
      case OfPlain(s) => s.Send(buf);
      case OfPermit(s) => s.StartSend(buf);
      case OfDispatch(s) => s.StartSend(buf);
    }

    method IntoInner() returns (body: BodySink)
      requires Valid() && Free()
      ensures body == Inner().body
    {
      match this
      case OfPlain(s) => body := s.IntoInner();
      case OfPermit(s) => body := s.sink.IntoInner();
      case OfDispatch(s) => body := s.IntoInner();
    }
  }

  // Runs

  /** The body is within the limits that the sink keeps it in. */
  predicate Fits(v: View, tune: Tunables) {
    |v.content| <= tune.maxBody && (v.ram ==> |v.content| <= tune.maxBodyRam)
  }

  /** Flushing takes up all that was received, exactly when that is not too long. */
  lemma FlushedWhole(v: View, tune: Tunables)
    requires Fits(v, tune)
    ensures if |Received(v)| > tune.maxBody then Flushed(v, tune) == Err(BodyTooLong(|Received(v)|))
            else Flushed(v, tune) == Ok(View(Received(v), v.ram && |Received(v)| <= tune.maxBodyRam, None))
  {
    assert v.content + [] == v.content;
  }

  /** A flush that needs blocking, of a sink that asks for it, uses the next operation: granted if it succeeds. */
  ghost predicate Spent(sink: AnySink, used: nat, r: Result<(), FutioError>, before: View)
    reads sink.Repr()
  {
    var asks := Asks(before, sink.Tune(), sink.OfPlain?);
    match r
    case Ok(_) =>
      && sink.Used() == used + (if asks then 1 else 0)
      && (asks ==> sink.TheSchedule()(used).outcome.Granted?)
    case Err(e) => e == OpCanceled <==> asks && sink.TheSchedule()(used).outcome.Canceled?
  }

  /** A task that polls until it is woken no more: every wait is finite. */
  method Flush(sink: AnySink) returns (r: Result<(), FutioError>)
    requires sink.Valid()
    modifies sink.Repr()
    ensures r.Ok? ==>
              && sink.Valid() && sink.Free()
              && Polled(false, old(sink.TheView()), sink.TheView(), sink.Tune())
    ensures r.Err? ==> FailedFor(r.error, old(sink.TheView()), sink.Tune(), sink.MayFail(), sink.Cancels())
    ensures Spent(sink, old(sink.Used()), r, old(sink.TheView()))
  {
    while true
      invariant sink.Valid()
      invariant sink.TheView() == old(sink.TheView()) && sink.Used() == old(sink.Used())
      decreases sink.TheWait().idle, sink.TheWait().pendings
    {
      var cx: Context :| true;
      var polled := sink.PollFlush(cx);
      if polled.Ready? {
        return polled.value;
      }
    }
  }

  datatype Call = DoPoll(cx: Context) | DoSend(buf: bytes)

  /** All that a sequence of calls may leave in a sink that has received `total` and was in RAM at first if `ram`. */
  ghost predicate Absorbing(v: View, total: bytes, ram: bool, tune: Tunables) {
    && Received(v) == total && Fits(v, tune)
    && v.ram == (ram && |v.content| <= tune.maxBodyRam)
  }

  lemma StillAbsorbing(v: View, w: View, total: bytes, ram: bool, tune: Tunables)
    requires Absorbing(v, total, ram, tune) && Flushed(v, tune) == Ok(w)
    ensures Absorbing(w, total, ram, tune) && w == View(total, ram && |total| <= tune.maxBodyRam, None)
  {
    FlushedWhole(v, tune);
    assert total + [] == total;
  }

  /** Why a sink that has received `total` may report an error. */
  predicate Explained(e: FutioError, total: bytes, tune: Tunables, mayFail: bool, cancels: bool) {
    (e.Body? && e.error.BodyTooLong? && |total| > tune.maxBody) || ByFault(e, mayFail, cancels)
  }

  /**
   * What one call does to a sink, and to the caller's leave to send: a poll
   * gives it when it is ready, and a send uses it up. Without leave a send is
   * not made. A lenient sink is always ready.
   */
  ghost predicate StepOf(call: Call, v: View, w: View, ready: bool, readyNow: bool, tune: Tunables, lenient: bool) {
    match call
    case DoPoll(_) => Polled(!readyNow, v, w, tune) && (lenient ==> readyNow)
    case DoSend(buf) => !readyNow && w == if ready then v.(held := Some(buf)) else v
  }

  /**
   * The run of a sink over some calls: its view, and whether the caller may
   * send, before the first call and after each.
   */
  ghost predicate IsRun(calls: seq<Call>, views: seq<View>, ready: seq<bool>, tune: Tunables, lenient: bool) {
    && |views| == |ready| == |calls| + 1 && !ready[0]
    && forall i | 0 <= i < |calls| :: StepOf(calls[i], views[i], views[i + 1], ready[i], ready[i + 1], tune, lenient)
  }

  /** The buffers of the first `n` calls that were sent. */
  function SentBy(calls: seq<Call>, ready: seq<bool>, n: nat): seq<bytes>
    requires n <= |calls| && n <= |ready|
  {
    if n == 0 then []
    else SentBy(calls, ready, n - 1) + if calls[n - 1].DoSend? && ready[n - 1] then [calls[n - 1].buf] else []
  }

  /** A poll that finds this asks for an operation, unless the sink is lenient. */
  predicate Asks(v: View, tune: Tunables, lenient: bool) {
    !lenient && HoldsBlocking(v, tune)
  }

  /** How many of the first `n` calls wrote a buffer that needed an operation of the schedule. */
  function Operations(calls: seq<Call>, views: seq<View>, ready: seq<bool>, tune: Tunables, lenient: bool, n: nat): nat
    requires n <= |calls| && n < |views| && n < |ready|
  {
    if n == 0 then 0
    else Operations(calls, views, ready, tune, lenient, n - 1) +
         if calls[n - 1].DoPoll? && ready[n] && Asks(views[n - 1], tune, lenient) then 1 else 0
  }

  /** With leave to send nothing is held. */
  lemma {:induction false} ReadyIsFree(calls: seq<Call>, views: seq<View>, ready: seq<bool>, tune: Tunables,
                                       lenient: bool, n: nat)
    requires IsRun(calls, views, ready, tune, lenient) && n <= |calls|
    ensures ready[n] ==> views[n].held.None?
  {
    if n > 0 {
      assert StepOf(calls[n - 1], views[n - 1], views[n], ready[n - 1], ready[n], tune, lenient);
    }
  }

  /** At every point of every run the body and the held buffer are all that was sent, in order, within the limits. */
  lemma {:induction false} RunReceives(calls: seq<Call>, views: seq<View>, ready: seq<bool>, tune: Tunables,
                                       lenient: bool, n: nat)
    requires IsRun(calls, views, ready, tune, lenient) && n <= |calls|
    requires Fits(views[0], tune) && views[0].held.None?
    ensures Absorbing(views[n], views[0].content + Flatten(SentBy(calls, ready, n)), views[0].ram, tune)
  {
    var first := views[0];
    if n == 0 {
      assert first.content + [] == first.content;
    } else {
      RunReceives(calls, views, ready, tune, lenient, n - 1);
      var sent, v, w := SentBy(calls, ready, n - 1), views[n - 1], views[n];
      var total := first.content + Flatten(sent);
      assert StepOf(calls[n - 1], v, w, ready[n - 1], ready[n], tune, lenient);
      assert sent + [] == sent && v.content + [] == v.content;
      if calls[n - 1].DoPoll? {
        if ready[n] {
          StillAbsorbing(v, w, total, first.ram, tune);
        }
      } else if ready[n - 1] {
        ReadyIsFree(calls, views, ready, tune, lenient, n - 1);
        FlattenOne(sent, calls[n - 1].buf);
        Associative(first.content, Flatten(sent), calls[n - 1].buf);
      }
    }
  }

  /**
   * One call. A caller sends only when the last poll_ready was successful and
   * it has not sent since; then neither assertion nor panic is reached.
   */
  method DriveOne(sink: AnySink, call: Call, ready: bool) returns (r: Result<(), FutioError>, readyNow: bool)
    requires sink.Valid() && (ready ==> sink.Free())
    modifies sink.Repr()
    ensures r.Ok? ==>
              && sink.Valid() && (readyNow ==> sink.Free())
              && StepOf(call, old(sink.TheView()), sink.TheView(), ready, readyNow, sink.Tune(), sink.OfPlain?)
    ensures r.Err? ==>
              && call.DoPoll?
              && FailedFor(r.error, old(sink.TheView()), sink.Tune(), sink.MayFail(), sink.Cancels())
    ensures r.Err? || (call.DoPoll? && readyNow) ==> Spent(sink, old(sink.Used()), r, old(sink.TheView()))
    ensures r.Ok? && !(call.DoPoll? && readyNow) ==> sink.Used() == old(sink.Used())
  {
    r, readyNow := Ok(()), false;
    match call {
      case DoPoll(cx) =>
        var polled := sink.PollFlush(cx);
        if polled.Ready? {
          r, readyNow := polled.value, polled.value.Ok?;
        }
      case DoSend(buf) =>
        if ready {
          sink.StartSend(buf);
        }
    }
  }

  /** An error is explained by what was received before the call that failed. */
  lemma FailureExplained(e: FutioError, v: View, total: bytes, ram: bool, tune: Tunables, mayFail: bool, cancels: bool)
    requires Absorbing(v, total, ram, tune) && FailedFor(e, v, tune, mayFail, cancels)
    ensures Explained(e, total, tune, mayFail, cancels)
  {
    FlushedWhole(v, tune);
  }

  /** The calls that were made up to the last view, what they sent, and that at every point it is what was received. */
  ghost predicate RunOf(calls: seq<Call>, views: seq<View>, ready: seq<bool>, sent: seq<bytes>, tune: Tunables,
                        lenient: bool)
  {
    && 0 < |views| <= |calls| + 1
    && var made := |views| - 1;
       && IsRun(calls[..made], views, ready, tune, lenient)
       && sent == SentBy(calls, ready, made)
       && forall i | 0 <= i <= made :: Received(views[i]) == views[0].content + Flatten(SentBy(calls, ready, i))
  }

  /**
   * Any calls a caller may make of any of the three sinks, under any schedule
   * of its permits or dispatches, and then a close. The calls are made one by
   * one, up to an error if there is one, and at every point the body and the
   * held buffer are what was sent. Without a fault the body ends as the
   * concatenation of all that was sent, or the run ends with an error just
   * when that is too long. Every buffer that is written to a file uses the
   * next operation of the schedule, and only when it has been granted.
   */
  method Drive(sink: AnySink, calls: seq<Call>)
    returns (r: Result<(), FutioError>, sent: seq<bytes>, ghost views: seq<View>, ghost ready: seq<bool>)
    requires sink.Valid() && Fits(sink.TheView(), sink.Tune()) && sink.Free()
    modifies sink.Repr()
    ensures RunOf(calls, views, ready, sent, sink.Tune(), sink.OfPlain?) && views[0] == old(sink.TheView())
    ensures var made, total, tune := |views| - 1, views[0].content + Flatten(sent), sink.Tune();
            match r
            case Ok(_) =>
              && made == |calls| && sink.Valid() && sink.Free() && |total| <= tune.maxBody
              && sink.TheView() == View(total, views[0].ram && |total| <= tune.maxBodyRam, None)
            case Err(e) =>
              && (made < |calls| ==> calls[made].DoPoll?)
              && FailedFor(e, views[made], tune, sink.MayFail(), sink.Cancels())
              && Explained(e, total, tune, sink.MayFail(), sink.Cancels())
    ensures var made, used := |views| - 1, old(sink.Used());
            var ended := used + Operations(calls, views, ready, sink.Tune(), sink.OfPlain?, made);
            AllGranted(sink.TheSchedule(), used, ended) && Spent(sink, ended, r, views[made])
  {
    ghost var total: bytes;
    r, sent, views, ready, total := MakeRun(sink, calls);
    if r.Ok? {
      r := Close(sink, total, views[0].ram);
    }
  }

  /** The calls before the close, as a run. */
  method MakeRun(sink: AnySink, calls: seq<Call>)
    returns (r: Result<(), FutioError>, sent: seq<bytes>, ghost views: seq<View>, ghost ready: seq<bool>,
             ghost total: bytes)
    requires sink.Valid() && Fits(sink.TheView(), sink.Tune()) && sink.Free()
    modifies sink.Repr()
    ensures RunOf(calls, views, ready, sent, sink.Tune(), sink.OfPlain?) && views[0] == old(sink.TheView())
    ensures total == views[0].content + Flatten(sent)
    ensures r.Ok? ==>
              && |views| - 1 == |calls| && sink.Valid() && sink.TheView() == views[|calls|]
              && Absorbing(sink.TheView(), total, views[0].ram, sink.Tune())
    ensures r.Err? ==>
              var made := |views| - 1;
              && made < |calls| && calls[made].DoPoll?
              && FailedFor(r.error, views[made], sink.Tune(), sink.MayFail(), sink.Cancels())
              && Explained(r.error, total, sink.Tune(), sink.MayFail(), sink.Cancels())
    ensures var made, used := |views| - 1, old(sink.Used());
            var ended := used + Operations(calls, views, ready, sink.Tune(), sink.OfPlain?, made);
            && AllGranted(sink.TheSchedule(), used, ended)
            && (r.Ok? ==> sink.Used() == ended)
            && (r.Err? ==> Spent(sink, ended, r, views[made]))
  {
    r, sent, views, ready := MakeCalls(sink, calls);
    ghost var made, tune := |views| - 1, sink.Tune();
    total := views[0].content + Flatten(sent);
    AllReceived(calls, views, ready, tune, sink.OfPlain?, made);
    if r.Err? {
      FailureExplained(r.error, views[made], total, views[0].ram, tune, sink.MayFail(), sink.Cancels());
    }
  }

  /** poll_close until it is ready. */
  method Close(sink: AnySink, ghost total: bytes, ghost ram: bool) returns (r: Result<(), FutioError>)
    requires sink.Valid() && Absorbing(sink.TheView(), total, ram, sink.Tune())
    modifies sink.Repr()
    ensures r.Ok? ==>
              && sink.Valid() && sink.Free() && |total| <= sink.Tune().maxBody
              && sink.TheView() == View(total, ram && |total| <= sink.Tune().maxBodyRam, None)
    ensures r.Err? ==>
              && FailedFor(r.error, old(sink.TheView()), sink.Tune(), sink.MayFail(), sink.Cancels())
              && Explained(r.error, total, sink.Tune(), sink.MayFail(), sink.Cancels())
    ensures Spent(sink, old(sink.Used()), r, old(sink.TheView()))
  {
    ghost var v, tune := sink.TheView(), sink.Tune();
    FlushedWhole(v, tune);
    r := Flush(sink);
    if r.Ok? {
      StillAbsorbing(v, sink.TheView(), total, ram, tune);
    } else {
      FailureExplained(r.error, v, total, ram, tune, sink.MayFail(), sink.Cancels());
    }
  }

  /** The calls before the close. */
  method MakeCalls(sink: AnySink, calls: seq<Call>)
    returns (r: Result<(), FutioError>, sent: seq<bytes>, ghost views: seq<View>, ghost ready: seq<bool>)
    requires sink.Valid() && sink.Free()
    modifies sink.Repr()
    ensures var made := |views| - 1;
            && 0 <= made <= |calls| && views[0] == old(sink.TheView())
            && IsRun(calls[..made], views, ready, sink.Tune(), sink.OfPlain?)
            && sent == SentBy(calls, ready, made)
            && (r.Ok? ==> made == |calls| && sink.Valid() && sink.TheView() == views[made])
            && (r.Err? ==>
                  && made < |calls| && calls[made].DoPoll?
                  && FailedFor(r.error, views[made], sink.Tune(), sink.MayFail(), sink.Cancels()))
    ensures var made, used := |views| - 1, old(sink.Used());
            var ended := used + Operations(calls, views, ready, sink.Tune(), sink.OfPlain?, made);
            && AllGranted(sink.TheSchedule(), used, ended)
            && (r.Ok? ==> sink.Used() == ended)
            && (r.Err? ==> Spent(sink, ended, r, views[made]))
  {
    r, sent, views, ready := Ok(()), [], [sink.TheView()], [false];
    ghost var used := sink.Used();
    var maySend := false;
    for i := 0 to |calls|
      invariant r.Ok? && sink.Valid() && (maySend ==> sink.Free())
      invariant |views| == i + 1 && views[0] == old(sink.TheView()) && views[i] == sink.TheView()
      invariant IsRun(calls[..i], views, ready, sink.Tune(), sink.OfPlain?) && ready[i] == maySend
      invariant sent == SentBy(calls, ready, i)
      invariant sink.Used() == used + Operations(calls, views, ready, sink.Tune(), sink.OfPlain?, i)
      invariant AllGranted(sink.TheSchedule(), used, sink.Used())
    {
      var couldSend := maySend;
      r, maySend := DriveOne(sink, calls[i], couldSend);
      if r.Err? {
        return;
      }
      RunGrows(calls, views, ready, sink.TheView(), maySend, sink.Tune(), sink.OfPlain?, i);
      views, ready := views + [sink.TheView()], ready + [maySend];
      if calls[i].DoSend? && couldSend {
        sent := sent + [calls[i].buf];
      }
      assert sent + [] == sent;
    }
  }

  lemma RunGrows(calls: seq<Call>, views: seq<View>, ready: seq<bool>, w: View, readyNow: bool,
                 tune: Tunables, lenient: bool, i: nat)
    requires i < |calls| && IsRun(calls[..i], views, ready, tune, lenient)
    requires StepOf(calls[i], views[i], w, ready[i], readyNow, tune, lenient)
    ensures IsRun(calls[..i + 1], views + [w], ready + [readyNow], tune, lenient)
    ensures SentBy(calls, ready + [readyNow], i) == SentBy(calls, ready, i)
    ensures Operations(calls, views + [w], ready + [readyNow], tune, lenient, i)
            == Operations(calls, views, ready, tune, lenient, i)
  {
    var made, vs, rs := calls[..i + 1], views + [w], ready + [readyNow];
    forall j | 0 <= j < |made| ensures StepOf(made[j], vs[j], vs[j + 1], rs[j], rs[j + 1], tune, lenient) {
      assert j < i ==> made[j] == calls[..i][j];
    }
    SentBySame(calls, calls, ready, rs, i);
    OperationsSame(calls, views, ready, vs, rs, tune, lenient, i);
  }

  lemma {:induction false} OperationsSame(calls: seq<Call>, views: seq<View>, ready: seq<bool>, vs: seq<View>,
                                          rs: seq<bool>, tune: Tunables, lenient: bool, n: nat)
    requires n <= |calls| && n < |views| && n < |ready| && views <= vs && ready <= rs
    ensures Operations(calls, vs, rs, tune, lenient, n) == Operations(calls, views, ready, tune, lenient, n)
  {
    if n > 0 {
      OperationsSame(calls, views, ready, vs, rs, tune, lenient, n - 1);
    }
  }

  lemma {:induction false} SentBySame(calls: seq<Call>, others: seq<Call>, ready: seq<bool>, more: seq<bool>, n: nat)
    requires n <= |calls| && n <= |others| && calls[..n] == others[..n]
    requires n <= |ready| && n <= |more| && ready[..n] == more[..n]
    ensures SentBy(calls, ready, n) == SentBy(others, more, n)
  {
    if n > 0 {
      assert calls[n - 1] == calls[..n][n - 1] && ready[n - 1] == ready[..n][n - 1];
      assert calls[..n - 1] == calls[..n][..n - 1] && others[..n - 1] == others[..n][..n - 1];
      assert ready[..n - 1] == ready[..n][..n - 1] && more[..n - 1] == more[..n][..n - 1];
      SentBySame(calls, others, ready, more, n - 1);
    }
  }

  lemma AllReceived(calls: seq<Call>, views: seq<View>, ready: seq<bool>, tune: Tunables, lenient: bool, made: nat)
    requires made <= |calls| && IsRun(calls[..made], views, ready, tune, lenient)
    requires Fits(views[0], tune) && views[0].held.None?
    ensures forall i | 0 <= i <= made ::
              Absorbing(views[i], views[0].content + Flatten(SentBy(calls, ready, i)), views[0].ram, tune)
  {
    forall i | 0 <= i <= made
      ensures Absorbing(views[i], views[0].content + Flatten(SentBy(calls, ready, i)), views[0].ram, tune)
    {
      RunReceives(calls[..made], views, ready, tune, lenient, i);
      SentBySame(calls, calls[..made], ready, ready, i);
    }
  }
}
