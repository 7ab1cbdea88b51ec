/** The asynchronous streams: a body image delivered chunk by chunk, with blocking reads arbitrated from above. */
module Streams {
  import opened Bytes
  import opened Io
  import opened Storage
  import opened Blocking

  datatype AsyncBodyState = Ram(iter: seq<bytes>) | File(rs: Source) | MemMap(ob: Option<bytes>)

  type Item = Result<bytes, FutioError>

  class AsyncBodyImage {
    const len: nat
    const tune: Tunables
    const arbiter: Arbiter
    const mayFail: bool
    var state: AsyncBodyState
    var consumed: nat
    /** The objects a poll may change, and the file it may read. */
    ghost const Repr: set<object>
    ghost const Files: set<object>

    constructor (body: BodyImage, tune: Tunables, permission: Permission, mayFail: bool)
      requires body.Valid() && tune.Valid()
      ensures Valid() && fresh(Repr) && Undelivered() == body.Content() && arbiter.state == permission
      ensures len == |body.Content()| && this.mayFail == mayFail && Files <= body.Files() && this.tune == tune
      ensures InRam() == body.IsRam()
    {
      this.len, this.consumed, this.tune, this.mayFail := body.len, 0, tune, mayFail;
      var arbiter := new Arbiter(permission);
      this.arbiter := arbiter;
      this.Repr, this.Files := {this, arbiter}, {};
      match body.Explode()
      case Ram(v) => this.state := AsyncBodyState.Ram(v);
      case FsRead(file, start, end) =>
        var interrupts: nat :| true;
        var rs := new Source(file, start, Some(end), mayFail, interrupts);
        this.state := AsyncBodyState.File(rs);
        this.Repr, this.Files := {this, arbiter, rs}, {file};
      case MemMap(mapped) => this.state := AsyncBodyState.MemMap(Some(mapped));
    }

    ghost predicate Owned()
      reads this
    {
      {this, arbiter} <= Repr && (state.File? ==> state.rs in Repr && state.rs.file in Files)
    }

    /** What is still to come. */
    function Undelivered(): bytes
      requires Owned()
      reads this, Repr, Files
    {
      match state
      case Ram(iter) => Flatten(iter)
      case File(rs) => rs.Rest()
      case MemMap(ob) => if ob.Some? then ob.value else []
    }

    ghost predicate Valid()
      reads this, Repr, Files
      ensures Valid() ==> Owned()
    {
      && Owned() && tune.Valid()
      && consumed + |Undelivered()| == len
      && (state.Ram? ==> NoEmpty(state.iter))
      && (state.File? ==> state.rs.faulty == mayFail)
    }

    predicate InRam()
      reads this
    {
      state.Ram?
    }

    predicate NeedsBlocking()
      requires Owned()
      reads this, Repr, Files
    {
      !InRam() && Undelivered() != []
    }

    /** The subtraction in `poll_impl` is exact, and no state is at its end while bytes are left. */
    method PollImpl() returns (r: Poll<Option<Item>>)
      requires Valid()
      modifies Repr
      ensures Owned() && InRam() == old(InRam())
      ensures arbiter.state == (if !old(NeedsBlocking()) then old(arbiter.state)
                                else if Allows(old(arbiter.state)) then Used(old(arbiter.state)) else Requested)
      ensures match r
              case Pending =>
                && Valid() && old(NeedsBlocking()) && !Allows(old(arbiter.state))
                && Undelivered() == old(Undelivered()) && NeedsBlocking()
              case Ready(None) => Valid() && old(Undelivered()) == [] && Undelivered() == []
              case Ready(Some(Ok(chunk))) =>
                && Valid() && (old(NeedsBlocking()) ==> Allows(old(arbiter.state)))
                && chunk != [] && old(Undelivered()) == chunk + Undelivered()
              case Ready(Some(Err(e))) =>
                e == Body(BodyError.Io) && mayFail && old(NeedsBlocking()) && Allows(old(arbiter.state))
      ensures r.Ready? && r.value.Some? && r.value.value.Ok? ==>
                match old(state)
                case Ram(iter) => iter != [] && r.value.value.value == iter[0]
                case File(_) => |r.value.value.value| <= tune.bufferSizeFs
                case MemMap(_) => Undelivered() == []
    {
      var avail := len - consumed;
      if avail == 0 {
        return Ready(None);
      }
      if !state.Ram? {
        var allowed := arbiter.CanBlock();
        if !allowed {
          return Pending;
        }
      }
      match state {
        case Ram(iter) =>
          var b := iter[0];
          state := AsyncBodyState.Ram(iter[1..]);
          consumed := consumed + |b|;
          return Ready(Some(Ok(b)));
        case File(rs) =>
          r := ReadChunk(rs, avail);
        case MemMap(ob) =>
          var mb := ob.value;
          state := AsyncBodyState.MemMap(None);
          var failed: bool := *;
          if mayFail && failed {
            return Ready(Some(Err(Body(BodyError.Io))));
          }
          consumed := consumed + |mb|;
          assert mb + [] == mb;
          return Ready(Some(Ok(mb)));
      }
    }

    /** The retry loop over a file slice: an interrupted read is tried again. */
    method ReadChunk(rs: Source, avail: nat) returns (r: Poll<Option<Item>>)
      requires Valid() && state == AsyncBodyState.File(rs) && avail == len - consumed > 0
      modifies this`consumed, rs`pos, rs`interrupts
      ensures match r
              case Ready(Some(Ok(chunk))) =>
                Valid() && chunk != [] && |chunk| <= tune.bufferSizeFs && old(Undelivered()) == chunk + Undelivered()
              case Ready(Some(Err(e))) => e == Body(BodyError.Io) && mayFail
              case _ => false
    {
      var rlen := Min(tune.bufferSizeFs, avail);
      while true
        invariant Valid() && consumed == old(consumed) && Undelivered() == old(Undelivered())
        decreases rs.interrupts
      {
        var got := rs.Read(rlen);
        match got {
          case Interrupted =>
          case Failed => return Ready(Some(Err(Body(BodyError.Io))));
          case Got(chunk) =>
            assert chunk != [];
            consumed := consumed + |chunk|;
            return Ready(Some(Ok(chunk)));
        }
      }
    }

    /** True exactly when all has been delivered. */
    predicate IsEndStream()
      requires Valid()
      reads this, Repr, Files
      ensures IsEndStream() <==> Undelivered() == []
    {
      consumed >= len
    }
  }

  /** What polling any of the three streams does, whatever the schedule, to what is still to be delivered. */
  predicate Yielded(r: Poll<Option<bytes>>, before: bytes, after: bytes) {
    match r
    case Pending => before != [] && after == before
    case Ready(None) => before == [] && after == []
    case Ready(Some(chunk)) => chunk != [] && before == chunk + after
  }

  /** Why polling may fail: only if something is left, and a read fails or the blocking operation is canceled. */
  predicate FailedFor(e: FutioError, before: bytes, mayFail: bool, cancels: bool) {
    before != [] && ((e == Body(BodyError.Io) && mayFail) || (e == OpCanceled && cancels))
  }

  predicate IsError(r: Poll<Option<Item>>) {
    r.Ready? && r.value.Some? && r.value.value.Err?
  }

  function Chunk(r: Poll<Option<Item>>): Poll<Option<bytes>>
    requires !IsError(r)
  {
    if r.Pending? then Pending else if r.value.None? then Ready(None) else Ready(Some(r.value.value.value))
  }

  /** A poll that is allowed to block: the next chunk, the end, or an error of the read. */
  predicate ReadOr(r: Poll<Option<Item>>, before: bytes, after: bytes, mayFail: bool) {
    if IsError(r) then r.value.value.error == Body(BodyError.Io) && mayFail && before != []
    else r.Ready? && Yielded(Chunk(r), before, after)
  }

  /**
   * What a poll does, by what becomes of the operation that decides it:
   * nothing while that is pending, nothing and an error if it is canceled, and
   * a read if it is granted, or if there is none as no read needs it.
   */
  predicate Decided(fate: Option<Fate>, r: Poll<Option<Item>>, before: bytes, after: bytes, mayFail: bool) {
    if fate.Some? && fate.value.pendings > 0 then r.Pending? && after == before
    else if fate.Some? && fate.value.outcome.Canceled? then r == Ready(Some(Err(OpCanceled))) && after == before
    else ReadOr(r, before, after, mayFail)
  }

  class PermitBodyImage {
    const image: AsyncBodyImage
    /** What becomes of the permits that the stream requests, and how many it has. */
    const schedule: Schedule
    var taken: nat
    var permit: Option<Operation>
    ghost const Repr: set<object>

    constructor (body: BodyImage, tune: Tunables, mayFail: bool, schedule: Schedule)
      requires body.Valid() && tune.Valid()
      ensures Valid() && fresh(Repr) && image.Undelivered() == body.Content() && image.Files <= body.Files()
      ensures permit.None? && this.schedule == schedule && taken == 0 && image.InRam() == body.IsRam()
      ensures image.mayFail == mayFail && image.len == |body.Content()|
    {
      this.schedule, this.taken, this.permit := schedule, 0, None;
      var image := new AsyncBodyImage(body, tune, Void, mayFail);
      this.image := image;
      this.Repr := {this} + image.Repr;
    }

    /** A permit is outstanding exactly while blocking is requested, and then there are bytes that need it. */
    ghost predicate Valid()
      reads this, Repr, image.Files
      ensures Valid() ==> this in Repr && image.Repr <= Repr
    {
      && this in Repr && this !in image.Repr && image in image.Repr && image.Repr <= Repr
      && image.Valid()
      && (permit.None? ==> image.arbiter.state.Void?)
      && (permit.Some? ==>
            && LastTaken(permit, schedule, taken)
            && image.arbiter.state.Requested? && image.NeedsBlocking())
    }

    method PollNext(cx: Context) returns (r: Poll<Option<Item>>)
      requires Valid()
      modifies Repr
      ensures !IsError(r) ==>
                && Valid()
                && Yielded(Chunk(r), old(image.Undelivered()), image.Undelivered())
      ensures IsError(r) ==>
                FailedFor(r.value.value.error, old(image.Undelivered()), image.mayFail, CanCancel(schedule))
      ensures image.Owned() && image.InRam() == old(image.InRam())
      ensures var before, needed := old(image.Undelivered()), old(image.NeedsBlocking());
              var fate := Deciding(old(permit), needed, schedule, old(taken));
              && taken == TakenAfter(old(permit), needed, old(taken))
              && Decided(fate, r, before, image.Undelivered(), image.mayFail)
              && (r.Pending? ==> permit == Some(Operation(Nearer(fate.value), Some(cx))))
      ensures r.Pending? ==> Shorter(WaitFor(permit), old(WaitFor(permit)))
      ensures r.Ready? && !IsError(r) ==> permit.None?
      decreases if permit.None? then 1 else 0
    {
      if permit.Some? {
        var polled, next := permit.value.Poll(cx);
        match polled {
          case Pending =>
            permit := Some(next);
            return Pending;
          case Ready(Canceled) => return Ready(Some(Err(OpCanceled)));
          case Ready(Granted) => permit := None;
        }
        image.arbiter.Set(Once);
        r := image.PollImpl();
        assert image.arbiter.state == Void;
      } else {
        r := image.PollImpl();
        if r.Pending? && image.arbiter.state.Requested? {
          permit, taken := Some(Operation(schedule(taken), None)), taken + 1;
          r := PollNext(cx);
        }
      }
    }

    predicate IsEndStream()
      requires Valid()
      reads this, Repr, image.Files
      ensures IsEndStream() <==> image.Undelivered() == []
    {
      image.IsEndStream()
    }
  }

  /** The image is here (None only while it is being handed over), or inside a dispatched operation. */
  datatype DispatchState = Image(here: Option<AsyncBodyImage>) | Dispatch(op: Operation, moved: AsyncBodyImage)

  class DispatchBodyImage {
    /** What becomes of the operations that the stream dispatches, and how many it has. */
    const schedule: Schedule
    var taken: nat
    var state: DispatchState
    /** The image, wherever it is. */
    ghost const image: AsyncBodyImage
    ghost const Repr: set<object>

    constructor (body: BodyImage, tune: Tunables, mayFail: bool, schedule: Schedule)
      requires body.Valid() && tune.Valid()
      ensures Valid() && fresh(Repr) && image.Undelivered() == body.Content() && image.Files <= body.Files()
      ensures state.Image? && this.schedule == schedule && taken == 0 && image.InRam() == body.IsRam()
      ensures image.mayFail == mayFail && image.len == |body.Content()|
    {
      this.schedule, this.taken := schedule, 0;
      var image := new AsyncBodyImage(body, tune, Void, mayFail);
      this.state, this.image := Image(Some(image)), image;
      this.Repr := {this} + image.Repr;
    }

    function Outstanding(): Option<Operation>
      reads this
    {
      if state.Image? then None else Some(state.op)
    }

    /** A dispatched image was granted one blocking operation, and has bytes that need it. */
    ghost predicate Valid()
      reads this, Repr, image.Files
      ensures Valid() ==> this in Repr && image.Repr <= Repr
    {
      && (if state.Image? then state.here == Some(image) else state.moved == image)
      && this in Repr && this !in image.Repr && image in image.Repr && image.Repr <= Repr
      && image.Valid()
      && (state.Image? ==> image.arbiter.state.Void?)
      && (state.Dispatch? ==>
            && LastTaken(Some(state.op), schedule, taken)
            && image.arbiter.state.Once? && image.NeedsBlocking())
    }

    method PollNext(cx: Context) returns (r: Poll<Option<Item>>)
      requires Valid()
      modifies Repr
      ensures !IsError(r) ==>
                && Valid()
                && Yielded(Chunk(r), old(image.Undelivered()), image.Undelivered())
      ensures IsError(r) ==>
                FailedFor(r.value.value.error, old(image.Undelivered()), image.mayFail, CanCancel(schedule))
      ensures image.Owned() && image.InRam() == old(image.InRam())
      ensures var before, needed := old(image.Undelivered()), old(image.NeedsBlocking());
              var fate := Deciding(old(Outstanding()), needed, schedule, old(taken));
              && taken == TakenAfter(old(Outstanding()), needed, old(taken))
              && Decided(fate, r, before, image.Undelivered(), image.mayFail)
              && (r.Pending? ==> Outstanding() == Some(Operation(Nearer(fate.value), Some(cx))))
      ensures r.Pending? ==> Shorter(WaitFor(Outstanding()), old(WaitFor(Outstanding())))
      ensures r.Ready? && !IsError(r) ==> state.Image?
      decreases if state.Image? then 1 else 0
    {
      match state {
        case Image(here) =>
          var ob := here.value;
          r := ob.PollImpl();
          if r.Pending? && ob.arbiter.state.Requested? {
            HandOver(ob);
            r := PollNext(cx);
          }
        case Dispatch(op, ob) =>
          var polled, next := op.Poll(cx);
          match polled {
            case Pending =>
              state := Dispatch(next, ob);
              return Pending;
            case Ready(Canceled) => return Ready(Some(Err(OpCanceled)));
            case Ready(Granted) =>
          }
          // What the dispatched closure has done meanwhile
          r := ob.PollImpl();
          assert ob.arbiter.state == Void;
          state := Image(Some(ob));
      }
    }

    /** Grants the image one blocking operation and dispatches it. */
    method HandOver(ob: AsyncBodyImage)
      requires state == Image(Some(ob)) && ob == image && ob.Valid() && ob.arbiter.state.Requested?
               && ob.NeedsBlocking()
      requires this in Repr && this !in ob.Repr && ob.Repr <= Repr
      modifies this, ob.arbiter
      ensures Valid() && taken == old(taken) + 1
      ensures state == Dispatch(Operation(schedule(old(taken)), None), ob)
      ensures ob.Undelivered() == old(ob.Undelivered()) && ob.NeedsBlocking()
    {
      ob.arbiter.Set(Once);
      state := Image(None);
      state, taken := Dispatch(Operation(schedule(taken), None), ob), taken + 1;
    }

    /** While dispatched there is always something left. */
    predicate IsEndStream()
      requires Valid()
      reads this, Repr, image.Files
      ensures IsEndStream() <==> image.Undelivered() == []
    {
      state.Image? && state.here.value.IsEndStream()
    }
  }

  /** Any of the three. The plain stream's arbiter is lenient. */
  datatype AnyStream =
    | OfPlain(plain: AsyncBodyImage)
    | OfPermit(permitted: PermitBodyImage)
    | OfDispatch(dispatched: DispatchBodyImage)
  {
    /** The image inside. */
    ghost function Inner(): AsyncBodyImage {
      match this
      case OfPlain(s) => s
      case OfPermit(s) => s.image
      case OfDispatch(s) => s.image
    }

    ghost predicate MayFail() {
      Inner().mayFail
    }

    ghost function Repr(): set<object> {
      match this
      case OfPlain(s) => {s} + s.Repr
      case OfPermit(s) => {s} + s.Repr
      case OfDispatch(s) => {s} + s.Repr
    }

    ghost function Files(): set<object> {
      Inner().Files
    }

    ghost predicate Valid()
      reads Repr(), Files()
      ensures Valid() ==> Inner() in Repr() && Inner().Repr <= Repr() && Inner().Owned()
    {
      match this
      case OfPlain(s) => s.Valid() && s.arbiter.state.Always?
      case OfPermit(s) => s.Valid()
      case OfDispatch(s) => s.Valid()
    }

    ghost function Undelivered(): bytes
      requires Valid()
      reads Repr(), Files()
    {
      Inner().Undelivered()
    }

    ghost predicate Cancels() {
      match this
      case OfPlain(_) => false
      case OfPermit(s) => CanCancel(s.schedule)
      case OfDispatch(s) => CanCancel(s.schedule)
    }

    /** What becomes of the operations; the plain stream has none. */
    function TheSchedule(): Schedule {
      match this
      case OfPlain(_) => (i: nat) => Fate(0, Granted)
      case OfPermit(s) => s.schedule
      case OfDispatch(s) => s.schedule
    }

    /** How many operations have come to their end. */
    function Used(): nat
      reads Repr()
    {
      match this
      case OfPlain(_) => 0
      case OfPermit(s) => Ended(s.permit, s.taken)
      case OfDispatch(s) => Ended(s.Outstanding(), s.taken)
    }

    /** The stream asks for an operation before it reads. */
    ghost predicate Asks()
      requires Valid()
      reads Repr(), Files()
    {
      !OfPlain? && !Inner().InRam()
    }

    function Outstanding(): Option<Operation>
      reads Repr()
    {
      match this
      case OfPlain(_) => None
      case OfPermit(s) => s.permit
      case OfDispatch(s) => s.Outstanding()
    }

    /** How long the outstanding operation may still take. */
    function TheWait(): Wait
      requires Valid()
      reads Repr(), Files()
    {
      WaitFor(Outstanding())
    }

    /** The outstanding operation will wake the task that polled last. */
    predicate WillWake(cx: Context)
      requires Valid()
      reads Repr(), Files()
    {
      Outstanding().Some? && Outstanding().value.waker == Some(cx)
    }

    method PollNext(cx: Context) returns (r: Poll<Option<Item>>)
      requires Valid()
      modifies Repr()
      ensures !IsError(r) ==>
                && Valid()
                && Yielded(Chunk(r), old(Undelivered()), Undelivered())
      ensures IsError(r) ==> FailedFor(r.value.value.error, old(Undelivered()), MayFail(), Cancels())
      ensures r.Pending? ==> Used() == old(Used()) && Asks() == old(Asks())
      ensures r.Ready? ==>
                && Spent(this, old(Used()), old(Asks()), Outcome(r), old(Undelivered()))
                && (!IsError(r) ==> Asks() == old(Asks()))
      ensures r.Pending? ==> WillWake(cx) && Shorter(TheWait(), old(TheWait()))
      ensures r.Ready? && !IsError(r) ==> Outstanding().None?
      ensures OfPlain? ==> r.Ready?
    {
      match this
      case OfPlain(s) => r := s.PollImpl();
      case OfPermit(s) => r := s.PollNext(cx);
      case OfDispatch(s) => r := s.PollNext(cx);
    }

    predicate IsEndStream()
      requires Valid()
      reads Repr(), Files()
      ensures IsEndStream() <==> Undelivered() == []
    {
      match this
      case OfPlain(s) => s.IsEndStream()
      case OfPermit(s) => s.IsEndStream()
      case OfDispatch(s) => s.IsEndStream()
    }
  }

  /** The item of a poll that is ready. */
  function Outcome(r: Poll<Option<Item>>): Result<Option<bytes>, FutioError>
    requires r.Ready?
  {
    if IsError(r) then Err(r.value.value.error) else Ok(Chunk(r).value)
  }

  /** A chunk that is not in RAM, of a stream that asks, uses the next operation: granted if it succeeds. */
  ghost predicate Spent(stream: AnyStream, used: nat, asks: bool, r: Result<Option<bytes>, FutioError>, before: bytes)
    reads stream.Repr()
  {
    match r
    case Ok(item) =>
      && stream.Used() == used + (if asks && item.Some? then 1 else 0)
      && (asks && item.Some? ==> stream.TheSchedule()(used).outcome.Granted?)
    case Err(e) => e == OpCanceled <==> asks && before != [] && stream.TheSchedule()(used).outcome.Canceled?
  }

  /** The next item: a task that polls until it is woken no more, as every wait is finite. */
  method Next(stream: AnyStream) returns (r: Result<Option<bytes>, FutioError>)
    requires stream.Valid()
    modifies stream.Repr()
    ensures r.Ok? ==>
              && stream.Valid()
              && Yielded(Ready(r.value), old(stream.Undelivered()), stream.Undelivered())
    ensures r.Err? ==> FailedFor(r.error, old(stream.Undelivered()), stream.MayFail(), stream.Cancels())
    ensures Spent(stream, old(stream.Used()), old(stream.Asks()), r, old(stream.Undelivered()))
    ensures r.Ok? ==> stream.Asks() == old(stream.Asks())
  {
    while true
      invariant stream.Valid()
      invariant stream.Undelivered() == old(stream.Undelivered())
      invariant stream.Used() == old(stream.Used()) && stream.Asks() == old(stream.Asks())
      decreases stream.TheWait().idle, stream.TheWait().pendings
    {
      var cx: Context :| true;
      var polled := stream.PollNext(cx);
      if IsError(polled) {
        return Err(polled.value.value.error);
      }
      if polled.Ready? {
        return Ok(Chunk(polled).value);
      }
    }
  }

  /** Operation `k` is canceled, and those before it from `first` on are granted. */
  ghost predicate CanceledAt(schedule: Schedule, first: nat, k: nat) {
    first <= k && schedule(k).outcome.Canceled? && AllGranted(schedule, first, k)
  }

  /**
   * Polling to the end, under any schedule: the chunks are not empty and are
   * the content in order, and then is_end_stream is true and each further
   * poll gives None again. Each chunk that is not in RAM uses the next
   * operation of the schedule, which has been granted.
   */
  method Collect(stream: AnyStream) returns (r: Result<seq<bytes>, FutioError>)
    requires stream.Valid()
    modifies stream.Repr()
    ensures match r
            case Ok(chunks) =>
              && stream.Valid() && stream.IsEndStream()
              && NoEmpty(chunks) && Flatten(chunks) == old(stream.Undelivered())
            case Err(e) => (e == Body(BodyError.Io) && stream.MayFail()) || (e == OpCanceled && stream.Cancels())
    ensures r.Ok? ==>
              var used := old(stream.Used()) + if old(stream.Asks()) then |r.value| else 0;
              stream.Used() == used && AllGranted(stream.TheSchedule(), old(stream.Used()), used)
    ensures r == Err(OpCanceled) ==>
              && old(stream.Asks())
              && exists k: nat :: CanceledAt(stream.TheSchedule(), old(stream.Used()), k)
  {
    var chunks: seq<bytes> := [];
    ghost var content := stream.Undelivered();
    assert [] + content == content;
    while true
      invariant stream.Valid()
      invariant NoEmpty(chunks) && content == Flatten(chunks) + stream.Undelivered()
      invariant stream.Asks() == old(stream.Asks())
      invariant stream.Used() == old(stream.Used()) + if old(stream.Asks()) then |chunks| else 0
      invariant AllGranted(stream.TheSchedule(), old(stream.Used()), stream.Used())
      decreases |stream.Undelivered()|
    {
      ghost var used := stream.Used();
      var next := Next(stream);
      if next.Err? {
        assert next.error == OpCanceled ==> CanceledAt(stream.TheSchedule(), old(stream.Used()), used);
        return Err(next.error);
      }
      if next.value.None? {
        assert Flatten(chunks) + [] == Flatten(chunks);
        return Ok(chunks);
      }
      var chunk := next.value.value;
      FlattenOne(chunks, chunk);
      Associative(Flatten(chunks), chunk, stream.Undelivered());
      chunks := chunks + [chunk];
    }
  }
}
