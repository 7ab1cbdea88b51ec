/** `BodyImage::read_from`: reading a body of unknown length, in RAM until it grows too large for that. */
module BodyReading {
  import opened Bytes
  import opened Io
  import opened Storage

  /**
   * How the read buffers grow is up to the library that provides them, so it
   * is an input: the sizes at which successive buffers count as full, and
   * then a buffer that is filled until the end of the source.
   */
  datatype Plan = ToEnd | Full(size: Size, rest: Plan)

  type Size = n: int | n > 0 witness 1

  /** A buffer counts as full when it has room for less than this. */
  const FULL_BELOW: nat := 1024

  /**
   * What the code leaves to the library: each buffer is allocated with room
   * for `bufferSize` bytes at least, and counts as full only when there is
   * room for less than 1024 more. ToEnd alone is a buffer that always grows.
   */
  predicate Allowed(plan: Plan, bufferSize: nat) {
    plan.Full? ==> plan.size + FULL_BELOW > bufferSize && Allowed(plan.rest, bufferSize)
  }

  /** The size of the next buffer when `left` bytes remain. */
  function FillSize(plan: Plan, left: nat): nat {
    if plan.ToEnd? then left else Min(plan.size, left)
  }

  function Later(plan: Plan): Plan {
    if plan.ToEnd? then plan else plan.rest
  }

  /** With `size` bytes held in RAM already, the cumulative size at which the body is moved to a file, if ever. */
  function Spill(total: nat, plan: Plan, size: nat, maxRam: nat): Option<nat>
    requires size <= total
    decreases total - size
  {
    var fill := FillSize(plan, total - size);
    if fill == 0 then None
    else if size + fill > maxRam then Some(size + fill)
    else Spill(total, Later(plan), size + fill, maxRam)
  }

  lemma SpillStep(total: nat, plan: Plan, size: nat, maxRam: nat, fill: nat)
    requires size <= total && 0 < fill == FillSize(plan, total - size)
    ensures Spill(total, plan, size, maxRam) ==
            if size + fill > maxRam then Some(size + fill) else Spill(total, Later(plan), size + fill, maxRam)
  {
  }

  /** Whether a source of `total` bytes is accepted. The count starts again at zero after a spill. */
  predicate Accepted(total: nat, plan: Plan, estimate: nat, tune: Tunables) {
    if estimate > tune.maxBodyRam then total <= tune.maxBody
    else
      match Spill(total, plan, 0, tune.maxBodyRam)
      case None => true
      case Some(s) => s <= tune.maxBody && total - s <= tune.maxBody
  }

  lemma {:induction false} SpillBounds(total: nat, plan: Plan, size: nat, maxRam: nat)
    requires size <= total && size <= maxRam
    ensures var s := Spill(total, plan, size, maxRam);
            && (s.None? <==> total <= maxRam)
            && (s.Some? ==> maxRam < s.value <= total)
    decreases total - size
  {
    var fill := FillSize(plan, total - size);
    if fill > 0 && size + fill <= maxRam {
      SpillBounds(total, Later(plan), size + fill, maxRam);
    }
  }

  /** Nothing within the limit is refused, and what is accepted exceeds it by at most the size at the spill. */
  lemma AcceptedBounds(total: nat, plan: Plan, estimate: nat, tune: Tunables)
    requires tune.Valid()
    ensures total <= tune.maxBody ==> Accepted(total, plan, estimate, tune)
    ensures Accepted(total, plan, estimate, tune) ==>
              match Spill(total, plan, 0, tune.maxBodyRam)
              case Some(s) => total <= s + tune.maxBody && tune.maxBodyRam < s
                  && (estimate <= tune.maxBodyRam ==> s <= tune.maxBody)
              case None => total <= tune.maxBodyRam
  {
    SpillBounds(total, plan, 0, tune.maxBodyRam);
  }

  /** With buffers that always grow, the limit is exact. */
  lemma GrowingBuffersExact(total: nat, estimate: nat, tune: Tunables)
    requires tune.Valid()
    ensures Accepted(total, ToEnd, estimate, tune) <==> total <= tune.maxBody
  {
    SpillBounds(total, ToEnd, 0, tune.maxBodyRam);
  }

  /** A first buffer that holds more than the limit is enough to refuse every body over the limit. */
  lemma LargeBuffersExact(total: nat, plan: Plan, estimate: nat, tune: Tunables)
    requires tune.Valid() && Allowed(plan, tune.bufferSizeRam) && tune.bufferSizeRam >= tune.maxBody + FULL_BELOW
    ensures Accepted(total, plan, estimate, tune) <==> total <= tune.maxBody
  {
    AcceptedBounds(total, plan, estimate, tune);
    if total > tune.maxBody {
      assert FillSize(plan, total) > tune.maxBody;
    }
  }

  /** The smallest size above `maxBodyRam` at which the first buffer can be full. */
  function FirstSpill(tune: Tunables): nat {
    if tune.maxBodyRam + FULL_BELOW >= tune.bufferSizeRam then tune.maxBodyRam + 1
    else tune.bufferSizeRam + 1 - FULL_BELOW
  }

  /**
   * The documented limit (no body longer than max_body in any form) holds for
   * every source and every growth of the buffers exactly when the estimate
   * sends the body to a file from the start, or the two limits coincide, or
   * the first buffer holds more than the limit.
   */
  lemma LimitHoldsExactly(estimate: nat, tune: Tunables)
    requires tune.Valid()
    ensures (forall total: nat, plan: Plan | Allowed(plan, tune.bufferSizeRam) ::
               Accepted(total, plan, estimate, tune) ==> total <= tune.maxBody) <==>
            || estimate > tune.maxBodyRam
            || tune.maxBodyRam == tune.maxBody
            || tune.bufferSizeRam >= tune.maxBody + FULL_BELOW
  {
    var large := tune.bufferSizeRam >= tune.maxBody + FULL_BELOW;
    if estimate > tune.maxBodyRam || tune.maxBodyRam == tune.maxBody || large {
      forall total: nat, plan: Plan | Allowed(plan, tune.bufferSizeRam)
        ensures Accepted(total, plan, estimate, tune) ==> total <= tune.maxBody
      {
        if tune.bufferSizeRam >= tune.maxBody + FULL_BELOW {
          LargeBuffersExact(total, plan, estimate, tune);
        } else {
          SpillBounds(total, plan, 0, tune.maxBodyRam);
        }
      }
    } else {
      var s := FirstSpill(tune);
      var plan := Full(s, ToEnd);
      assert Allowed(plan, tune.bufferSizeRam) && tune.maxBodyRam < s <= tune.maxBody;
      assert Accepted(s + tune.maxBody, plan, estimate, tune);
    }
  }

  /**
   * An input that is over the limit and accepted: 17,192 bytes, with limits of
   * 8,000 in RAM and 9,000 in all, and a first buffer of exactly the 8,192
   * bytes it is requested with.
   */
  lemma LimitFails(estimate: nat)
    requires estimate <= 8_000
    ensures var tune := Tunables(8_000, 9_000, 8_192, 65_536, Reliable);
            var plan := Full(8_192, ToEnd);
            && tune.Valid() && Allowed(plan, tune.bufferSizeRam)
            && Spill(17_192, plan, 0, tune.maxBodyRam) == Some(8_192)
            && Accepted(17_192, plan, estimate, tune)
  {
    assert Allowed(ToEnd, 8_192);
  }

  /**
   * The inner loop: reads until the buffer is full or the source is at its
   * end. A buffer is never full with room for 1024 bytes of its allocation.
   */
  method Fill(src: Source, plan: Plan, tune: Tunables) returns (r: Result<bytes, BodyError>)
    requires Allowed(plan, tune.bufferSizeRam)
    modifies src`pos, src`interrupts
    ensures r.Ok? ==> old(src.Rest()) == r.value + src.Rest() && |r.value| == FillSize(plan, |old(src.Rest())|)
    ensures r.Ok? && |r.value| + FULL_BELOW <= tune.bufferSizeRam ==> src.Rest() == []
    ensures r.Err? ==> r.error == BodyError.Io && src.faulty
  {
    var buf: bytes := [];
    while true
      invariant old(src.Rest()) == buf + src.Rest()
      invariant plan.Full? ==> |buf| < plan.size
      decreases |src.Rest()|, src.interrupts
    {
      var want :| want > 0 && (plan.Full? ==> want <= plan.size - |buf|);
      var got := src.Read(want);
      match got {
        case Interrupted =>
        case Failed => return Err(BodyError.Io);
        case Got(chunk) =>
          if chunk == [] {
            return Ok(buf);
          }
          Associative(buf, chunk, src.Rest());
          buf := buf + chunk;
          if plan.Full? && |buf| == plan.size {
            return Ok(buf);
          }
      }
    }
  }

  method ReadToBodyFs(src: Source, body: BodySink, tune: Tunables) returns (r: Result<BodyImage, BodyError>)
    requires body.Valid() && !body.IsRam()
    modifies src`pos, src`interrupts, body
    ensures r.Ok? ==>
              && fresh(r.value) && r.value.Valid() && fresh(r.value.Files())
              && r.value.Content() == old(body.Content()) + old(src.Rest()) && src.Rest() == []
              && (r.value.IsRam() <==> r.value.len == 0)
              && |old(src.Rest())| <= tune.maxBody
    ensures r == Err(BodyError.Io) ==> src.faulty || old(body.state.dir.Faulty?)
    ensures r.Err? && r.error.BodyTooLong? ==> tune.maxBody < r.error.size <= |old(src.Rest())|
  {
    var size: nat := 0;
    ghost var done: bytes := [];
    while true
      invariant old(src.Rest()) == done + src.Rest() && size == |done| <= tune.maxBody
      invariant body.Valid() && body.state.FsWrite? && body.state.dir == old(body.state.dir)
      invariant body.Content() == old(body.Content()) + done
      decreases |src.Rest()|, src.interrupts
    {
      var want :| want > 0;
      var got := src.Read(want);
      match got {
        case Interrupted =>
        case Failed => return Err(BodyError.Io);
        case Got(chunk) =>
          if chunk == [] {
            break;
          }
          Associative(done, chunk, src.Rest());
          Associative(old(body.Content()), done, chunk);
          done := done + chunk;
          size := size + |chunk|;
          if size > tune.maxBody {
            return Err(BodyTooLong(size));
          }
          var wrote := body.WriteAll(chunk);
          if wrote.Err? {
            return Err(BodyError.Io);
          }
      }
    }
    r := body.Prepare();
  }

  /** The spill: what is in RAM goes to a file, then the buffer that was too much, then the rest of the source. */
  method MoveToFs(src: Source, body: BodySink, buf: bytes, tune: Tunables) returns (r: Result<BodyImage, BodyError>)
    requires body.Valid() && body.IsRam() && buf != []
    modifies src`pos, src`interrupts, body
    ensures r.Ok? ==>
              && fresh(r.value) && r.value.Valid() && fresh(r.value.Files())
              && r.value.Content() == old(body.Content()) + buf + old(src.Rest()) && src.Rest() == []
              && !r.value.IsRam()
              && |old(src.Rest())| <= tune.maxBody
    ensures r == Err(BodyError.Io) ==> src.faulty || tune.tempDir.Faulty?
    ensures r.Err? && r.error.BodyTooLong? ==> tune.maxBody < r.error.size <= |old(src.Rest())|
  {
    var back := body.WriteBack(tune.tempDir);
    if back.Err? {
      return Err(BodyError.Io);
    }
    var wrote := body.WriteAll(buf);
    if wrote.Err? {
      return Err(BodyError.Io);
    }
    r := ReadToBodyFs(src, body, tune);
  }

  datatype Collected = Kept | TooMuch(buf: bytes) | AtEnd

  /** One more buffer for the body in RAM, unless it is too much for RAM or there is nothing left. */
  method CollectOne(src: Source, body: BodySink, tune: Tunables, plan: Plan) returns (r: Result<Collected, BodyError>)
    requires body.Valid() && body.IsRam() && body.len <= tune.maxBodyRam <= tune.maxBody
    requires Allowed(plan, tune.bufferSizeRam)
    modifies src`pos, src`interrupts, body
    ensures body.Valid() && body.IsRam()
    ensures var total := old(body.len) + |old(src.Rest())|;
            var spill := Spill(total, plan, old(body.len), tune.maxBodyRam);
            match r
            case Ok(AtEnd) => spill.None? && src.Rest() == old(src.Rest()) == []
                && body.Content() == old(body.Content())
            case Ok(TooMuch(buf)) =>
              && buf != [] && old(src.Rest()) == buf + src.Rest() && body.Content() == old(body.Content())
              && spill.Some? && spill.value == body.len + |buf| <= tune.maxBody
            case Ok(Kept) =>
              && old(body.len) < body.len <= tune.maxBodyRam
              && old(body.Content()) + old(src.Rest()) == body.Content() + src.Rest()
              && spill == Spill(total, Later(plan), body.len, tune.maxBodyRam)
            case Err(BodyTooLong(size)) => spill.Some? && tune.maxBody < size == spill.value <= total
            case Err(_) => src.faulty
  {
    ghost var total := body.len + |src.Rest()|;
    ghost var held, rest := body.Content(), src.Rest();
    var filled := Fill(src, plan, tune);
    if filled.Err? {
      return Err(BodyError.Io);
    }
    var buf := filled.value;
    if buf == [] {
      assert [] + src.Rest() == src.Rest();
      return Ok(AtEnd);
    }
    SpillStep(total, plan, body.len, tune.maxBodyRam, |buf|);
    var size := body.len + |buf|;
    if size > tune.maxBody {
      return Err(BodyTooLong(size));
    }
    if size > tune.maxBodyRam {
      return Ok(TooMuch(buf));
    }
    Associative(held, buf, src.Rest());
    assert rest == buf + src.Rest();
    var pushed := body.WriteAll(buf);
    assert body.Content() == held + buf;
    assert body.Content() + src.Rest() == held + rest;
    return Ok(Kept);
  }

  /** The outer loop: collects buffers in RAM until the end of the source, or until one is too much. */
  method CollectInRam(src: Source, body: BodySink, tune: Tunables, plan: Plan) returns (r: Result<bytes, BodyError>)
    requires tune.Valid() && body.Valid() && body.IsRam() && body.Content() == [] && Allowed(plan, tune.bufferSizeRam)
    modifies src`pos, src`interrupts, body
    ensures var total := |old(src.Rest())|;
            var spill := Spill(total, plan, 0, tune.maxBodyRam);
            match r
            case Ok(buf) =>
              && body.Valid() && body.IsRam()
              && old(src.Rest()) == body.Content() + (buf + src.Rest())
              && if buf == [] then spill.None? && src.Rest() == []
                 else spill.Some? && spill.value == body.len + |buf| <= tune.maxBody
            case Err(BodyTooLong(size)) => spill.Some? && tune.maxBody < size == spill.value <= total
            case Err(_) => src.faulty
  {
    ghost var content := src.Rest();
    ghost var spill := Spill(|content|, plan, 0, tune.maxBodyRam);
    assert [] + src.Rest() == src.Rest();
    var sizes := plan;
    while true
      invariant body.Valid() && body.IsRam() && body.len <= tune.maxBodyRam
      invariant content == body.Content() + src.Rest()
      invariant spill == Spill(|content|, sizes, body.len, tune.maxBodyRam) && Allowed(sizes, tune.bufferSizeRam)
      decreases |content| - body.len
    {
      assert body.len + |src.Rest()| == |content|;
      ghost var held, rest := body.Content(), src.Rest();
      var one := CollectOne(src, body, tune, sizes);
      match one {
        case Err(e) => return Err(e);
        case Ok(AtEnd) =>
          assert [] + src.Rest() == src.Rest();
          return Ok([]);
        case Ok(TooMuch(buf)) =>
          assert held + rest == body.Content() + (buf + src.Rest());
          return Ok(buf);
        case Ok(Kept) => sizes := Later(sizes);
      }
    }
  }

  /**
   * For every chunking of the source, every run of interruptions and every
   * growth of the buffers: without faults the outcome is decided by Accepted,
   * and whatever is returned is exactly what the source held.
   */
  method ReadFrom(src: Source, estimate: nat, tune: Tunables, plan: Plan) returns (r: Result<BodyImage, BodyError>)
    requires tune.Valid() && Allowed(plan, tune.bufferSizeRam)
    modifies src`pos, src`interrupts
    ensures r.Ok? ==>
              && fresh(r.value) && r.value.Valid() && fresh(r.value.Files())
              && r.value.Content() == old(src.Rest()) && src.Rest() == []
              && (r.value.IsRam() <==>
                    r.value.len == 0 || (estimate <= tune.maxBodyRam && r.value.len <= tune.maxBodyRam))
              && Accepted(|old(src.Rest())|, plan, estimate, tune)
    ensures r.Err? && r.error.BodyTooLong? ==>
              && !Accepted(|old(src.Rest())|, plan, estimate, tune)
              && tune.maxBody < r.error.size <= |old(src.Rest())|
    ensures r == Err(BodyError.Io) ==> src.faulty || tune.tempDir.Faulty?
  {
    ghost var content := src.Rest();
    ghost var total := |content|;
    if estimate > tune.maxBodyRam {
      var file := BodySink.WithFs(tune.tempDir);
      if file.Err? {
        return Err(BodyError.Io);
      }
      r := ReadToBodyFs(src, file.value, tune);
      return;
    }
    SpillBounds(total, plan, 0, tune.maxBodyRam);
    var body := new BodySink.Empty();
    var collected := CollectInRam(src, body, tune, plan);
    match collected {
      case Err(e) => r := Err(e);
      case Ok(buf) =>
        if buf == [] {
          assert body.Content() + ([] + []) == body.Content();
          assert content == body.Content();
          r := body.Prepare();
        } else {
          Associative(body.Content(), buf, src.Rest());
          assert content == body.Content() + buf + src.Rest();
          r := MoveToFs(src, body, buf, tune);
        }
    }
  }
}
