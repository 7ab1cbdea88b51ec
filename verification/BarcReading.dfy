/** BarcReader: reading the record at the current offset of a BARC file. */
module BarcReading {
  import opened Bytes
  import opened Io
  import opened HeadCodec
  import opened HeaderBlocks
  import opened Encoders
  import opened Storage
  import opened BodyReading
  import opened BarcFormat
  import opened BarcWriting

  /**
   * Reads on through short reads and interruptions until there are `len`
   * bytes or the source is at its end, and never beyond: the loop of
   * `read_record_head_buf`, and of `Read::read_exact`.
   */
  method ReadUpTo(src: Source, len: nat) returns (r: Result<bytes, BarcError>)
    modifies src`pos, src`interrupts
    ensures r.Ok? ==>
              && old(src.Rest()) == r.value + src.Rest() && src.pos == old(src.pos) + |r.value|
              && |r.value| == Min(len, |old(src.Rest())|)
    ensures r.Err? ==> r.error == IoFailed && src.faulty && old(src.pos) <= src.pos <= old(src.pos) + len
  {
    var buf: bytes := [];
    assert [] + src.Rest() == src.Rest();
    while |buf| < len
      invariant old(src.Rest()) == buf + src.Rest() && src.pos == old(src.pos) + |buf| && |buf| <= len
      decreases |src.Rest()|, src.interrupts
    {
      var got := src.Read(len - |buf|);
      match got {
        case Interrupted =>
        case Failed => return Err(IoFailed);
        case Got(chunk) =>
          if chunk == [] {
            return Ok(buf);
          }
          Associative(buf, chunk, src.Rest());
          buf := buf + chunk;
      }
    }
    return Ok(buf);
  }

  predicate Fault(e: BarcError, faulty: bool) {
    e == IoFailed && faulty
  }

  /**
   * Where a source stands after a block of `len` bytes could not be read: behind
   * it, or at the end of the file if that ends first; no length of 1 or 2 is read.
   */
  function BlockStop(size: nat, pos: nat, len: nat): nat {
    if len <= 2 || size < pos then pos else Min(pos + len, size)
  }

  method ReadExact(src: Source, len: nat) returns (r: Result<bytes, BarcError>)
    requires src.bound.None? && len > 0
    modifies src`pos, src`interrupts
    ensures r.Ok? ==>
              && old(src.pos) + len <= |src.file.data| && r.value == src.file.data[old(src.pos)..old(src.pos) + len]
              && src.pos == old(src.pos) + len
    ensures r == Err(UnexpectedEof) ==> |old(src.Rest())| < len && src.pos == old(src.pos) + |old(src.Rest())|
    ensures r.Err? ==> r.error == UnexpectedEof || (r.error == IoFailed && src.faulty)
    ensures src.pos >= old(src.pos)
  {
    ghost var rest := src.Rest();
    r := ReadUpTo(src, len);
    if r.Ok? {
      if |r.value| < len {
        return Err(UnexpectedEof);
      }
      assert rest[..len] == r.value;
    }
  }

  /** Reading a head takes 54 bytes, or all there are, whatever the chunks they come in. */
  method ReadRecordHead(src: Source) returns (r: Result<Option<RecordHead>, BarcError>)
    requires src.bound.None?
    modifies src`pos, src`interrupts
    ensures r == HeadAt(src.file.data, old(src.pos)) || (r == Err(IoFailed) && src.faulty)
    ensures r.Ok? ==> src.pos == old(src.pos) + if r.value.Some? then HEAD_SIZE else 0
    ensures r.Err? && !Fault(r.error, src.faulty) ==>
              src.pos == old(src.pos) + Min(HEAD_SIZE, |old(src.Rest())|) > old(src.pos)
    ensures r.Err? ==> old(src.pos) <= src.pos <= old(src.pos) + HEAD_SIZE
  {
    ghost var rest := src.Rest();
    var read := ReadUpTo(src, HEAD_SIZE);
    if read.Err? {
      return Err(read.error);
    }
    var buf := read.value;
    if |buf| == 0 {
      return Ok(None);
    }
    if |buf| != HEAD_SIZE {
      return Err(ReadIncompleteRecHead(|buf|));
    }
    assert buf == rest[..HEAD_SIZE] == src.file.data[old(src.pos)..old(src.pos) + HEAD_SIZE];
    var head := ParseHead(buf);
    return if head.Ok? then Ok(Some(head.value)) else Err(head.error);
  }

  method ReadHeaders(src: Source, withCrlf: bool, len: nat) returns (r: Result<seq<Header>, BarcError>)
    requires src.bound.None?
    modifies src`pos, src`interrupts
    ensures r == HeadersAt(src.file.data, old(src.pos), len, withCrlf) || (r == Err(IoFailed) && src.faulty)
    ensures r.Ok? ==> src.pos == old(src.pos) + len
    ensures r.Err? && !Fault(r.error, src.faulty) ==> src.pos == BlockStop(|src.file.data|, old(src.pos), len)
    ensures src.pos >= old(src.pos)
  {
    if len == 0 {
      return Ok([]);
    }
    if len <= 2 {
      return Err(Panicked);
    }
    var buf := ReadExact(src, len);
    if buf.Err? {
      return Err(buf.error);
    }
    r := ParseHeaders(buf.value + if withCrlf then [] else CRLF);
  }

  /** `body` is what was read, or the part of the file it was left in. */
  ghost predicate Presents(body: BodyImage, place: Place, file: File)
    reads body, body.Files()
  {
    match place
    case Held(buf, ram) => body.Valid() && body.Content() == buf && file !in body.Files() && body.IsRam() == ram
    case Slice(start, end) => body.state == FsReadSlice(file, start, end) && body.len == end - start
  }

  /** The outcome is as expected, except for faults of the source or the temporary directory. */
  ghost predicate BodyAsExpected(r: Result<BodyImage, BarcError>, expected: Result<Place, BarcError>, file: File,
                                 faulty: bool)
    reads if r.Ok? then {r.value} + r.value.Files() else {}
  {
    match r
    case Ok(body) => expected.Ok? && Presents(body, expected.value, file)
    case Err(e) => expected == Err(e) || (e == IoFailed && faulty)
  }

  function HeldIn(body: Result<bytes, BarcError>): Result<Place, BarcError> {
    if body.Ok? then Ok(Held(body.value, true)) else Err(body.error)
  }

  method ReadBodyRam(src: Source, withCrlf: bool, len: nat) returns (r: Result<BodyImage, BarcError>)
    requires src.bound.None?
    modifies src`pos, src`interrupts
    ensures r.Ok? ==> fresh(r.value) && r.value.IsRam() && src.pos == old(src.pos) + len
    ensures BodyAsExpected(r, HeldIn(BodyAt(src.file.data, old(src.pos), len, withCrlf)), src.file, src.faulty)
    ensures r.Err? && withCrlf && !Fault(r.error, src.faulty) ==>
              src.pos == BlockStop(|src.file.data|, old(src.pos), len)
    ensures src.pos >= old(src.pos)
  {
    if len == 0 {
      var empty := new BodyImage(ImageState.Ram([]), 0);
      return Ok(empty);
    }
    if withCrlf && len <= 2 {
      return Err(Panicked);
    }
    var buf := ReadExact(src, len);
    if buf.Err? {
      return Err(buf.error);
    }
    var kept := buf.value[..if withCrlf then len - 2 else len];
    assert kept == src.file.data[old(src.pos)..old(src.pos) + |kept|];
    var image := BodyImage.FromSlice(kept);
    return Ok(image);
  }

  /**
   * Copies `len` bytes of the source to a temporary file, or fewer if it ends
   * first, and reads nothing beyond them; both assertions hold.
   */
  method ReadBodyFs(src: Source, len: nat, tune: Tunables) returns (r: Result<BodyImage, BarcError>)
    requires tune.Valid()
    modifies src`pos, src`interrupts
    ensures r.Ok? ==>
              && fresh(r.value) && r.value.Valid() && fresh(r.value.Files())
              && old(src.Rest()) == r.value.Content() + src.Rest() && src.pos == old(src.pos) + r.value.len
              && r.value.len == Min(len, |old(src.Rest())|) && (r.value.IsRam() <==> r.value.len == 0)
    ensures r.Err? ==> r.error == IoFailed && (src.faulty || tune.tempDir.Faulty?)
  {
    assert [] + src.Rest() == src.Rest();
    if len == 0 {
      var empty := new BodyImage(ImageState.Ram([]), 0);
      return Ok(empty);
    }
    var dirFile := BodySink.WithFs(tune.tempDir);
    if dirFile.Err? {
      return Err(IoFailed);
    }
    var body := dirFile.value;
    while true
      invariant fresh(body) && body.Valid() && body.state.FsWrite? && body.state.dir == tune.tempDir
      invariant old(src.Rest()) == body.Content() + src.Rest() && src.pos == old(src.pos) + body.len && body.len < len
      decreases |src.Rest()|, src.interrupts
    {
      var room :| room >= tune.bufferSizeFs;
      var limit := Min(room, len - body.len);
      assert limit > 0;
      var got := src.Read(limit);
      match got {
        case Interrupted =>
        case Failed => return Err(IoFailed);
        case Got(chunk) =>
          if chunk == [] {
            break;
          }
          Associative(body.Content(), chunk, src.Rest());
          var wrote := body.WriteAll(chunk);
          if wrote.Err? {
            return Err(IoFailed);
          }
          if body.len >= len {
            assert body.len == len;
            break;
          }
      }
    }
    var image := body.Prepare();
    return if image.Ok? then Ok(image.value) else Err(IoFailed);
  }

  /** Leaves a plain body where it is, without its padding, and moves past it. */
  method SliceBody(src: Source, len: nat) returns (r: Result<BodyImage, BarcError>)
    modifies src`pos
    ensures if len <= 2 then r == Err(Panicked)
            else r.Ok? && fresh(r.value) && Presents(r.value, Slice(old(src.pos), old(src.pos) + len - 2), src.file)
    ensures src.pos == old(src.pos) + if r.Ok? then len else 0
  {
    if len <= 2 {
      return Err(Panicked);
    }
    var offset := src.pos;
    src.pos := src.pos + len;
    var image := BodyImage.FromReadSlice(src.file, offset, offset + len - 2);
    return Ok(image);
  }

  method ReadPlainBody(src: Source, len: nat, tune: Tunables) returns (r: Result<BodyImage, BarcError>)
    requires src.bound.None?
    modifies src`pos, src`interrupts
    ensures r.Ok? ==> fresh(r.value) && src.pos == old(src.pos) + len
    ensures BodyAsExpected(r, PlaceAt(src.file.data, old(src.pos), len, tune.maxBodyRam), src.file, src.faulty)
    ensures r.Err? && !Fault(r.error, src.faulty) ==> src.pos == BlockStop(|src.file.data|, old(src.pos), len)
    ensures src.pos >= old(src.pos)
  {
    if len <= tune.maxBodyRam {
      r := ReadBodyRam(src, true, len);
    } else {
      r := SliceBody(src, len);
    }
  }

  /** The record is the one found, with bodies read or left in the file as was found. */
  ghost predicate Shows(rec: ImageRecord, found: Record<Place>, file: File)
    reads rec.reqBody, rec.reqBody.Files(), rec.resBody, rec.resBody.Files()
  {
    && rec.WithBodies((), ()) == found.WithBodies((), ())
    && Presents(rec.reqBody, found.reqBody, file) && Presents(rec.resBody, found.resBody, file)
  }

  ghost predicate RecordAsExpected(r: Result<ImageRecord, BarcError>, expected: Result<Record<Place>, BarcError>,
                                   file: File, faulty: bool)
    reads if r.Ok? then {r.value.reqBody, r.value.resBody} + r.value.reqBody.Files() + r.value.resBody.Files() else {}
  {
    match r
    case Ok(rec) => expected.Ok? && Shows(rec, expected.value, file)
    case Err(e) => expected == Err(e) || (e == IoFailed && faulty)
  }

  // Blocks one after the other: what each call finds is a function of where it starts

  method NextHeaders(src: Source, withCrlf: bool, len: nat, ghost headers: HeaderReads)
    returns (r: Result<seq<Header>, BarcError>)
    requires src.bound.None? && HeadersOf(headers, src.file.data, withCrlf)
    modifies src`pos, src`interrupts
    ensures r == headers(old(src.pos), len) || (r == Err(IoFailed) && src.faulty)
    ensures r.Ok? ==> src.pos == old(src.pos) + len
    ensures r.Err? && !Fault(r.error, src.faulty) ==> src.pos == BlockStop(|src.file.data|, old(src.pos), len)
    ensures src.pos >= old(src.pos)
  {
    r := ReadHeaders(src, withCrlf, len);
  }

  method NextPlainBody(src: Source, len: nat, tune: Tunables, ghost places: BodyReads<Place>)
    returns (r: Result<BodyImage, BarcError>)
    requires src.bound.None? && PlacesOf(places, src.file.data, tune.maxBodyRam)
    modifies src`pos, src`interrupts
    ensures r.Ok? ==> fresh(r.value) && src.pos == old(src.pos) + len
    ensures var e := places(old(src.pos), len);
            if r.Ok? then e.Ok? && Presents(r.value, e.value, src.file)
            else e == Err(r.error) || (r.error == IoFailed && src.faulty)
    ensures r.Err? && !Fault(r.error, src.faulty) ==> src.pos == BlockStop(|src.file.data|, old(src.pos), len)
    ensures src.pos >= old(src.pos)
  {
    r := ReadPlainBody(src, len, tune);
  }

  /** The last two blocks of a record that ends at `end`. */
  function ResponseAt(start: nat, resH: nat, end: nat, headers: HeaderReads, places: BodyReads<Place>)
    : Result<(seq<Header>, Place), BarcError>
  {
    var h := headers(start, resH);
    var b := if end < start + resH then Err(Panicked) else places(start + resH, end - (start + resH));
    if h.Err? then Err(h.error) else if b.Err? then Err(b.error) else Ok((h.value, b.value))
  }

  /** Where the source stands after one of them could not be read. */
  function ResponseStop(size: nat, start: nat, resH: nat, end: nat, headers: HeaderReads): nat {
    if headers(start, resH).Err? then BlockStop(size, start, resH)
    else if end < start + resH then start + resH
    else BlockStop(size, start + resH, end - (start + resH))
  }

  method ReadResponse(src: Source, resH: nat, end: nat, tune: Tunables, ghost headers: HeaderReads,
                      ghost places: BodyReads<Place>)
    returns (r: Result<(seq<Header>, BodyImage), BarcError>)
    requires src.bound.None? && HeadersOf(headers, src.file.data, true)
             && PlacesOf(places, src.file.data, tune.maxBodyRam)
    modifies src`pos, src`interrupts
    ensures r.Ok? ==> fresh(r.value.1) && src.pos == end
    ensures var e := ResponseAt(old(src.pos), resH, end, headers, places);
            if r.Ok? then e.Ok? && e.value.0 == r.value.0 && Presents(r.value.1, e.value.1, src.file)
            else e == Err(r.error) || (r.error == IoFailed && src.faulty)
    ensures r.Err? && !Fault(r.error, src.faulty) ==>
              src.pos == ResponseStop(|src.file.data|, old(src.pos), resH, end, headers)
    ensures src.pos >= old(src.pos)
  {
    var resHeaders := NextHeaders(src, true, resH, headers);
    if resHeaders.Err? { return Err(resHeaders.error); }
    if end < src.pos { return Err(Panicked); }
    var resBody := NextPlainBody(src, end - src.pos, tune, places);
    if resBody.Err? { return Err(resBody.error); }
    return Ok((resHeaders.value, resBody.value));
  }

  /** The first three blocks of a record. */
  function RequestAt<B>(start: nat, head: RecordHead, headers: HeaderReads, bodies: BodyReads<B>)
    : Result<(seq<Header>, seq<Header>, B), BarcError>
  {
    var m, h := headers(start, head.meta), headers(start + head.meta, head.reqH);
    var b := bodies(start + head.meta + head.reqH, head.reqB);
    if m.Err? then Err(m.error)
    else if h.Err? then Err(h.error)
    else if b.Err? then Err(b.error)
    else Ok((m.value, h.value, b.value))
  }

  function RequestStop(size: nat, start: nat, head: RecordHead, headers: HeaderReads): nat {
    var p1 := start + head.meta;
    if headers(start, head.meta).Err? then BlockStop(size, start, head.meta)
    else if headers(p1, head.reqH).Err? then BlockStop(size, p1, head.reqH)
    else BlockStop(size, p1 + head.reqH, head.reqB)
  }

  method ReadRequest(src: Source, head: RecordHead, tune: Tunables, ghost headers: HeaderReads,
                     ghost places: BodyReads<Place>)
    returns (r: Result<(seq<Header>, seq<Header>, BodyImage), BarcError>)
    requires src.bound.None? && HeadersOf(headers, src.file.data, true)
             && PlacesOf(places, src.file.data, tune.maxBodyRam)
    modifies src`pos, src`interrupts
    ensures r.Ok? ==> fresh(r.value.2) && src.pos == old(src.pos) + head.meta + head.reqH + head.reqB
    ensures var e := RequestAt(old(src.pos), head, headers, places);
            if r.Ok? then e.Ok? && (e.value.0, e.value.1) == (r.value.0, r.value.1)
                && Presents(r.value.2, e.value.2, src.file)
            else e == Err(r.error) || (r.error == IoFailed && src.faulty)
    ensures r.Err? && !Fault(r.error, src.faulty) ==>
              src.pos == RequestStop(|src.file.data|, old(src.pos), head, headers)
    ensures src.pos >= old(src.pos)
  {
    var meta := NextHeaders(src, true, head.meta, headers);
    if meta.Err? { return Err(meta.error); }
    var reqHeaders := NextHeaders(src, true, head.reqH, headers);
    if reqHeaders.Err? { return Err(reqHeaders.error); }
    var reqBody := NextPlainBody(src, head.reqB, tune, places);
    if reqBody.Err? { return Err(reqBody.error); }
    return Ok((meta.value, reqHeaders.value, reqBody.value));
  }

  function Joined<B>(recType: RecordType, request: Result<(seq<Header>, seq<Header>, B), BarcError>,
                     response: Result<(seq<Header>, B), BarcError>): Result<Record<B>, BarcError>
  {
    if request.Err? then Err(request.error)
    else if response.Err? then Err(response.error)
    else Ok(Record(recType, request.value.0, request.value.1, request.value.2, response.value.0, response.value.1))
  }

  lemma JoinedBlocks(start: nat, head: RecordHead, headers: HeaderReads, places: BodyReads<Place>)
    ensures ReadBlocks(start, head, headers, places) ==
            Joined(head.recType, RequestAt(start, head, headers, places),
                   ResponseAt(start + head.meta + head.reqH + head.reqB, head.resH, start + head.len, headers, places))
  {
  }

  /** Where the source stands after a plain record could not be read, by the block that failed. */
  function PlainStop(size: nat, start: nat, head: RecordHead, headers: HeaderReads, places: BodyReads<Place>): nat {
    if RequestAt(start, head, headers, places).Err? then RequestStop(size, start, head, headers)
    else ResponseStop(size, start + head.meta + head.reqH + head.reqB, head.resH, start + head.len, headers)
  }

  /** The request is read; the response follows. */
  method ReadRest(src: Source, head: RecordHead, end: nat, tune: Tunables,
                  request: (seq<Header>, seq<Header>, BodyImage),
                  ghost found: (seq<Header>, seq<Header>, Place), ghost headers: HeaderReads,
                  ghost places: BodyReads<Place>)
    returns (r: Result<ImageRecord, BarcError>)
    requires src.bound.None? && HeadersOf(headers, src.file.data, true)
             && PlacesOf(places, src.file.data, tune.maxBodyRam)
    requires (request.0, request.1) == (found.0, found.1) && Presents(request.2, found.2, src.file)
    modifies src`pos, src`interrupts
    ensures r.Ok? ==> r.value.reqBody == request.2 && fresh(r.value.resBody) && src.pos == end
    ensures var e := Joined(head.recType, Ok(found), ResponseAt(old(src.pos), head.resH, end, headers, places));
            RecordAsExpected(r, e, src.file, src.faulty)
    ensures r.Err? && !Fault(r.error, src.faulty) ==>
              src.pos == ResponseStop(|src.file.data|, old(src.pos), head.resH, end, headers)
    ensures src.pos >= old(src.pos)
  {
    var response := ReadResponse(src, head.resH, end, tune, headers, places);
    if response.Err? {
      return Err(response.error);
    }
    return Ok(Record(head.recType, request.0, request.1, request.2, response.value.0, response.value.1));
  }

  method ReadPlainBlocks(src: Source, head: RecordHead, tune: Tunables, ghost headers: HeaderReads,
                         ghost places: BodyReads<Place>)
    returns (r: Result<ImageRecord, BarcError>)
    requires src.bound.None? && HeadersOf(headers, src.file.data, true)
             && PlacesOf(places, src.file.data, tune.maxBodyRam)
    modifies src`pos, src`interrupts
    ensures r.Ok? ==> fresh(r.value.reqBody) && fresh(r.value.resBody) && src.pos == old(src.pos) + head.len
    ensures RecordAsExpected(r, ReadBlocks(old(src.pos), head, headers, places), src.file, src.faulty)
    ensures r.Err? && !Fault(r.error, src.faulty) ==>
              src.pos == PlainStop(|src.file.data|, old(src.pos), head, headers, places)
    ensures src.pos >= old(src.pos)
  {
    ghost var start := src.pos;
    var end := src.pos + head.len;
    JoinedBlocks(start, head, headers, places);
    var request := ReadRequest(src, head, tune, headers, places);
    if request.Err? {
      return Err(request.error);
    }
    r := ReadRest(src, head, end, tune, request.value, RequestAt(start, head, headers, places).value, headers, places);
  }

  function StopIn(data: bytes, start: nat, head: RecordHead, maxRam: nat): nat {
    PlainStop(|data|, start, head, HeadersIn(data, true), PlacesIn(data, maxRam))
  }

  /** The blocks of a plain record, up to exactly its end. */
  method ReadPlainRecord(src: Source, head: RecordHead, tune: Tunables) returns (r: Result<ImageRecord, BarcError>)
    requires src.bound.None?
    modifies src`pos, src`interrupts
    ensures r.Ok? ==> fresh(r.value.reqBody) && fresh(r.value.resBody) && src.pos == old(src.pos) + head.len
    ensures RecordAsExpected(r, ReadPlain(src.file.data, old(src.pos), head, tune.maxBodyRam), src.file, src.faulty)
    ensures r.Err? && !Fault(r.error, src.faulty) ==>
              src.pos == StopIn(src.file.data, old(src.pos), head, tune.maxBodyRam)
    ensures src.pos >= old(src.pos)
  {
    ghost var headers, places := HeadersIn(src.file.data, true), PlacesIn(src.file.data, tune.maxBodyRam);
    r := ReadPlainBlocks(src, head, tune, headers, places);
  }

  // Compressed records

  /** A body of `len` bytes is refused, at a size that is over the limit and no more than there is. */
  predicate RefusedAs(e: BarcError, len: nat, plan: Plan, tune: Tunables) {
    e.BodyTooLong? && !Accepted(len, plan, RES_ESTIMATE, tune) && tune.maxBody < e.size <= len
  }

  method ReadUnpackedBody(src: Source, len: nat, tune: Tunables) returns (r: Result<BodyImage, BarcError>)
    requires src.bound.None? && tune.Valid()
    modifies src`pos, src`interrupts
    ensures r.Ok? ==>
              && fresh(r.value) && r.value.Valid() && fresh(r.value.Files())
              && src.pos == old(src.pos) + r.value.len
              && (r.value.IsRam() <==> len <= tune.maxBodyRam || r.value.len == 0)
    ensures var e := UnpackedBody(src.file.data, old(src.pos), len, tune.maxBodyRam);
            if r.Ok? then e.Ok? && e.value == r.value.Content()
            else e == Err(r.error) || (r.error == IoFailed && (src.faulty || tune.tempDir.Faulty?))
  {
    if len <= tune.maxBodyRam {
      r := ReadBodyRam(src, false, len);
    } else {
      ghost var start, rest := src.pos, src.Rest();
      assert rest == From(src.file.data, start);
      r := ReadBodyFs(src, len, tune);
      if r.Ok? {
        assert rest[..r.value.len] == r.value.Content();
        assert UnpackedBody(src.file.data, start, len, tune.maxBodyRam).value == r.value.Content();
      }
    }
  }

  ghost predicate BodiesOf(bodies: BodyReads<bytes>, plain: bytes, maxRam: nat) {
    forall pos: nat, len: nat {:trigger UnpackedBody(plain, pos, len, maxRam)}
        :: bodies(pos, len) == UnpackedBody(plain, pos, len, maxRam)
  }

  method NextUnpackedBody(src: Source, len: nat, tune: Tunables, ghost bodies: BodyReads<bytes>)
    returns (r: Result<BodyImage, BarcError>)
    requires src.bound.None? && tune.Valid() && BodiesOf(bodies, src.file.data, tune.maxBodyRam)
    modifies src`pos, src`interrupts
    ensures r.Ok? ==>
              && fresh(r.value) && r.value.Valid() && fresh(r.value.Files())
              && src.pos == old(src.pos) + r.value.len
              && (r.value.IsRam() <==> len <= tune.maxBodyRam || r.value.len == 0)
    ensures var e := bodies(old(src.pos), len);
            if r.Ok? then e.Ok? && e.value == r.value.Content()
            else e == Err(r.error) || (r.error == IoFailed && (src.faulty || tune.tempDir.Faulty?))
  {
    r := ReadUnpackedBody(src, len, tune);
  }

  /** Where a response body of unknown length is kept. */
  predicate InRamAsEstimated(body: BodyImage, maxRam: nat)
    reads body
  {
    body.IsRam() <==> (RES_ESTIMATE <= maxRam && body.len <= maxRam) || body.len == 0
  }

  /** The response body is whatever is left. */
  method ReadUnpackedResponse(src: Source, tune: Tunables, plan: Plan) returns (r: Result<BodyImage, BarcError>)
    requires tune.Valid() && Allowed(plan, tune.bufferSizeRam)
    modifies src`pos, src`interrupts
    ensures r.Ok? ==>
              && fresh(r.value) && r.value.Valid() && fresh(r.value.Files())
              && r.value.Content() == old(src.Rest()) && Accepted(|old(src.Rest())|, plan, RES_ESTIMATE, tune)
              && InRamAsEstimated(r.value, tune.maxBodyRam)
    ensures r.Err? ==>
              Fault(r.error, src.faulty || tune.tempDir.Faulty?) || RefusedAs(r.error, |old(src.Rest())|, plan, tune)
  {
    var read := ReadFrom(src, RES_ESTIMATE, tune, plan);
    match read {
      case Ok(image) => return Ok(image);
      case Err(BodyTooLong(size)) => return Err(BarcError.BodyTooLong(size));
      case Err(_) => return Err(IoFailed);
    }
  }

  method ReadUnpackedRequest(src: Source, head: RecordHead, tune: Tunables, ghost headers: HeaderReads,
                             ghost bodies: BodyReads<bytes>)
    returns (r: Result<(seq<Header>, seq<Header>, BodyImage), BarcError>)
    requires src.bound.None? && tune.Valid()
    requires HeadersOf(headers, src.file.data, false) && BodiesOf(bodies, src.file.data, tune.maxBodyRam)
    modifies src`pos, src`interrupts
    ensures r.Ok? ==>
              && fresh(r.value.2) && r.value.2.Valid() && fresh(r.value.2.Files())
              && src.pos == old(src.pos) + head.meta + head.reqH + r.value.2.len
              && (r.value.2.IsRam() <==> head.reqB <= tune.maxBodyRam || r.value.2.len == 0)
    ensures var e := RequestAt(old(src.pos), head, headers, bodies);
            if r.Ok? then e.Ok? && e.value == (r.value.0, r.value.1, r.value.2.Content())
            else e == Err(r.error) || (r.error == IoFailed && (src.faulty || tune.tempDir.Faulty?))
  {
    var meta := NextHeaders(src, false, head.meta, headers);
    if meta.Err? { return Err(meta.error); }
    var reqHeaders := NextHeaders(src, false, head.reqH, headers);
    if reqHeaders.Err? { return Err(reqHeaders.error); }
    var reqBody := NextUnpackedBody(src, head.reqB, tune, bodies);
    if reqBody.Err? { return Err(reqBody.error); }
    return Ok((meta.value, reqHeaders.value, reqBody.value));
  }

  /** The last two blocks of a decompressed record. */
  function StreamEnd(start: nat, resH: nat, headers: HeaderReads, rest: nat -> bytes)
    : Result<(seq<Header>, bytes), BarcError>
  {
    var h := headers(start, resH);
    if h.Err? then Err(h.error) else Ok((h.value, rest(start + resH)))
  }

  lemma JoinedStream(head: RecordHead, headers: HeaderReads, bodies: BodyReads<bytes>, rest: nat -> bytes)
    ensures var request := RequestAt(0, head, headers, bodies);
            var end := head.meta + head.reqH + if request.Ok? then |request.value.2| else 0;
            ReadStream(head, headers, bodies, rest) ==
            Joined(head.recType, request, StreamEnd(end, head.resH, headers, rest))
  {
  }

  /** Response headers, and whatever is left as the body. */
  method ReadUnpackedEnd(src: Source, resH: nat, tune: Tunables, plan: Plan, ghost headers: HeaderReads,
                         ghost rest: nat -> bytes)
    returns (r: Result<(seq<Header>, BodyImage), BarcError>)
    requires src.bound.None? && tune.Valid() && Allowed(plan, tune.bufferSizeRam)
    requires HeadersOf(headers, src.file.data, false)
    requires forall pos: nat {:trigger From(src.file.data, pos)} :: rest(pos) == From(src.file.data, pos)
    modifies src`pos, src`interrupts
    ensures r.Ok? ==>
              && fresh(r.value.1) && r.value.1.Valid() && fresh(r.value.1.Files())
              && InRamAsEstimated(r.value.1, tune.maxBodyRam)
    ensures var e := StreamEnd(old(src.pos), resH, headers, rest);
            if r.Ok? then
              e.Ok? && e.value == (r.value.0, r.value.1.Content()) && Accepted(|e.value.1|, plan, RES_ESTIMATE, tune)
            else e == Err(r.error) || Fault(r.error, src.faulty || tune.tempDir.Faulty?) ||
                 (e.Ok? && RefusedAs(r.error, |e.value.1|, plan, tune))
  {
    var resHeaders := NextHeaders(src, false, resH, headers);
    if resHeaders.Err? { return Err(resHeaders.error); }
    assert src.Rest() == From(src.file.data, src.pos);
    var resBody := ReadUnpackedResponse(src, tune, plan);
    if resBody.Err? { return Err(resBody.error); }
    return Ok((resHeaders.value, resBody.value));
  }

  /** The blocks of a decompressed record, of which the last is as long as there are bytes left. */
  method ReadUnpackedBlocks(src: Source, head: RecordHead, tune: Tunables, plan: Plan,
                            ghost headers: HeaderReads, ghost bodies: BodyReads<bytes>, ghost rest: nat -> bytes)
    returns (r: Result<ImageRecord, BarcError>)
    requires src.bound.None? && tune.Valid() && Allowed(plan, tune.bufferSizeRam) && src.pos == 0
    requires HeadersOf(headers, src.file.data, false) && BodiesOf(bodies, src.file.data, tune.maxBodyRam)
    requires forall pos: nat {:trigger From(src.file.data, pos)} :: rest(pos) == From(src.file.data, pos)
    modifies src`pos, src`interrupts
    ensures r.Ok? ==>
              && fresh({r.value.reqBody, r.value.resBody} + r.value.reqBody.Files() + r.value.resBody.Files())
              && r.value.reqBody.Valid() && r.value.resBody.Valid()
              && (r.value.reqBody.IsRam() <==> head.reqB <= tune.maxBodyRam || r.value.reqBody.len == 0)
              && InRamAsEstimated(r.value.resBody, tune.maxBodyRam)
    ensures var e := ReadStream(head, headers, bodies, rest);
            if r.Ok? then e.Ok? && ValueOf(r.value) == e.value && Accepted(|e.value.resBody|, plan, RES_ESTIMATE, tune)
            else e == Err(r.error) || Fault(r.error, src.faulty || tune.tempDir.Faulty?) ||
                 (e.Ok? && RefusedAs(r.error, |e.value.resBody|, plan, tune))
  {
    JoinedStream(head, headers, bodies, rest);
    var request := ReadUnpackedRequest(src, head, tune, headers, bodies);
    if request.Err? { return Err(request.error); }
    var end := ReadUnpackedEnd(src, head.resH, tune, plan, headers, rest);
    if end.Err? { return Err(end.error); }
    return Ok(Record(head.recType, request.value.0, request.value.1, request.value.2, end.value.0, end.value.1));
  }

  method ReadUnpackedRecord(src: Source, head: RecordHead, tune: Tunables, plan: Plan)
    returns (r: Result<ImageRecord, BarcError>)
    requires src.bound.None? && tune.Valid() && Allowed(plan, tune.bufferSizeRam) && src.pos == 0
    modifies src`pos, src`interrupts
    ensures r.Ok? ==>
              && fresh({r.value.reqBody, r.value.resBody} + r.value.reqBody.Files() + r.value.resBody.Files())
              && r.value.reqBody.Valid() && r.value.resBody.Valid()
              && (r.value.reqBody.IsRam() <==> head.reqB <= tune.maxBodyRam || r.value.reqBody.len == 0)
              && InRamAsEstimated(r.value.resBody, tune.maxBodyRam)
    ensures var e := ReadUnpacked(src.file.data, head, tune.maxBodyRam);
            if r.Ok? then e.Ok? && ValueOf(r.value) == e.value && Accepted(|e.value.resBody|, plan, RES_ESTIMATE, tune)
            else e == Err(r.error) || Fault(r.error, src.faulty || tune.tempDir.Faulty?) ||
                 (e.Ok? && RefusedAs(r.error, |e.value.resBody|, plan, tune))
  {
    ghost var headers, bodies := HeadersIn(src.file.data, false), BodiesIn(src.file.data, tune.maxBodyRam);
    r := ReadUnpackedBlocks(src, head, tune, plan, headers, bodies, RestOf(src.file.data));
  }

  /**
   * Whether the response body of a record is refused for its size: one that is
   * read at all is all in RAM or in a temporary file.
   */
  predicate Refused(found: Record<Place>, plan: Plan, tune: Tunables) {
    found.resBody.Held? && !Accepted(|found.resBody.buf|, plan, RES_ESTIMATE, tune)
  }

  predicate RefusedWith(e: BarcError, found: Record<Place>, plan: Plan, tune: Tunables) {
    found.resBody.Held? && RefusedAs(e, |found.resBody.buf|, plan, tune)
  }

  /** The error is the one expected, or a fault, or the refusal of a compressed response body. */
  predicate FailsAs(e: BarcError, o: Outcome, packed: bool, faulty: bool, plan: Plan, tune: Tunables) {
    o == Failure(e) || Fault(e, faulty) || (packed && o.Found? && RefusedWith(e, o.rec, plan, tune))
  }

  /** A decoder over the part of the file the record is in, and the record out of what it decodes. */
  method ReadCompressed(src: Source, codec: Codec, head: RecordHead, tune: Tunables, plan: Plan)
    returns (r: Result<ImageRecord, BarcError>)
    requires src.bound.None? && tune.Valid() && Allowed(plan, tune.bufferSizeRam)
    ensures r.Ok? ==> fresh(r.value.reqBody) && fresh(r.value.resBody)
    ensures var e := ReadPacked(src.file.data, src.pos, head, tune.maxBodyRam, codec);
            if r.Ok? then e.Ok? && Shows(r.value, e.value, src.file) && !Refused(e.value, plan, tune)
            else e == Err(r.error) || Fault(r.error, src.faulty || tune.tempDir.Faulty?) ||
                 (e.Ok? && RefusedWith(r.error, e.value, plan, tune))
  {
    ghost var rest := From(src.file.data, src.pos);
    assert rest == src.Rest();
    var slice := src.Rest()[..Min(head.len, |src.Rest()|)];
    var plain := codec.decode(head.compress, slice);
    if plain.None? {
      return Err(IoFailed);
    }
    var decoded := new File(plain.value);
    var interrupts: nat :| true;
    var decoder := new Source(decoded, 0, None, src.faulty, interrupts);
    r := ReadUnpackedRecord(decoder, head, tune, plan);
  }

  /** A compressed record is read through a decoder, which leaves the position of the file alone. */
  function StopBehind(data: bytes, start: nat, head: RecordHead, maxRam: nat): nat {
    if head.compress.Plain? then StopIn(data, start, head, maxRam) else start
  }

  /**
   * The offset after a read that failed: behind as much of a head as there is
   * if that is not a head, behind the head of a compressed record, and in a
   * plain one where the block that failed leaves it.
   */
  function StoppedAt(data: bytes, pos: nat, maxRam: nat): nat {
    match HeadAt(data, pos)
    case Err(_) => pos + Min(HEAD_SIZE, |From(data, pos)|)
    case Ok(None) => pos
    case Ok(Some(head)) => StopBehind(data, pos + HEAD_SIZE, head, maxRam)
  }

  // The two steps of a read, with what is behind a head left open

  type Heads = nat -> Result<Option<RecordHead>, BarcError>
  type Stops = (nat, RecordHead) -> nat

  function HeadsIn(data: bytes): Heads {
    (pos: nat) => HeadAt(data, pos)
  }

  function StopsIn(data: bytes, maxRam: nat): Stops {
    (start: nat, head: RecordHead) => StopBehind(data, start, head, maxRam)
  }

  ghost predicate HeadsOf(heads: Heads, data: bytes) {
    forall pos: nat {:trigger HeadAt(data, pos)} :: heads(pos) == HeadAt(data, pos)
  }

  method NextHead(src: Source, ghost heads: Heads) returns (r: Result<Option<RecordHead>, BarcError>)
    requires src.bound.None? && HeadsOf(heads, src.file.data)
    modifies src`pos, src`interrupts
    ensures r == heads(old(src.pos)) || (r == Err(IoFailed) && src.faulty)
    ensures r.Ok? ==> src.pos == old(src.pos) + if r.value.Some? then HEAD_SIZE else 0
    ensures r.Err? && !Fault(r.error, src.faulty) ==>
              src.pos == old(src.pos) + Min(HEAD_SIZE, |old(src.Rest())|) > old(src.pos)
    ensures src.pos >= old(src.pos)
  {
    r := ReadRecordHead(src);
  }

  ghost predicate BehindOf(behind: Reads, data: bytes, codec: Codec) {
    forall start: nat, head: RecordHead, maxRam: nat {:trigger ReadBehind(data, start, head, maxRam, codec)}
        :: behind(start, head, maxRam) == ReadBehind(data, start, head, maxRam, codec)
  }

  ghost predicate StopsOf(stops: Stops, data: bytes, maxRam: nat) {
    forall start: nat, head: RecordHead {:trigger StopBehind(data, start, head, maxRam)}
        :: stops(start, head) == StopBehind(data, start, head, maxRam)
  }

  function OutcomeBy(head: Result<Option<RecordHead>, BarcError>, start: nat, maxRam: nat, behind: Reads): Outcome {
    match head
    case Err(e) => Failure(e)
    case Ok(None) => Nothing
    case Ok(Some(h)) => if h.recType.Reserved? then Nothing else behind(start + HEAD_SIZE, h, maxRam)
  }

  function StopBy(head: Result<Option<RecordHead>, BarcError>, start: nat, left: nat, stops: Stops): nat {
    match head
    case Err(_) => start + Min(HEAD_SIZE, left)
    case Ok(None) => start
    case Ok(Some(h)) => stops(start + HEAD_SIZE, h)
  }

  lemma ReadByParts(data: bytes, pos: nat, maxRam: nat, codec: Codec)
    ensures ReadAt(data, pos, maxRam, codec) == OutcomeBy(HeadAt(data, pos), pos, maxRam, BehindIn(data, codec))
    ensures StoppedAt(data, pos, maxRam)
            == StopBy(HeadAt(data, pos), pos, |From(data, pos)|, StopsIn(data, maxRam))
  {
  }

  class BarcReader {
    const fin: Source
    const codec: Codec

    constructor (file: File, codec: Codec, faulty: bool, interrupts: nat)
      ensures Valid() && fresh(fin) && fin.file == file && fin.faulty == faulty && this.codec == codec && fin.pos == 0
    {
      this.codec := codec;
      this.fin := new Source(file, 0, None, faulty, interrupts);
    }

    predicate Valid() {
      fin.bound.None?
    }

    function Offset(): nat
      reads fin
    {
      fin.pos
    }

    method Seek(offset: nat)
      modifies fin`pos
      ensures Offset() == offset
    {
      fin.pos := offset;
    }

    /** What is behind a head that is not a reservation. */
    method ReadBehindHead(head: RecordHead, tune: Tunables, plan: Plan, ghost behind: Reads, ghost stops: Stops)
      returns (r: Result<ImageRecord, BarcError>)
      requires Valid() && tune.Valid() && Allowed(plan, tune.bufferSizeRam)
      requires BehindOf(behind, fin.file.data, codec) && StopsOf(stops, fin.file.data, tune.maxBodyRam)
      modifies fin`pos, fin`interrupts
      ensures r.Ok? ==> fresh(r.value.reqBody) && fresh(r.value.resBody)
      ensures var o := behind(old(fin.pos), head, tune.maxBodyRam);
              match r
              case Ok(rec) =>
                && o.Found? && fin.pos == o.next && Shows(rec, o.rec, fin.file)
                && (!head.compress.Plain? ==> !Refused(o.rec, plan, tune))
              case Err(e) => FailsAs(e, o, !head.compress.Plain?, fin.faulty || tune.tempDir.Faulty?, plan, tune)
      ensures r.Err? && !Fault(r.error, fin.faulty) ==> fin.pos == stops(old(fin.pos), head)
      ensures fin.pos >= old(fin.pos)
    {
      ghost var o := ReadBehind(fin.file.data, fin.pos, head, tune.maxBodyRam, codec);
      ghost var stop := StopBehind(fin.file.data, fin.pos, head, tune.maxBodyRam);
      if !head.compress.Plain? {
        var end := fin.pos + head.len;
        r := ReadCompressed(fin, codec, head, tune, plan);
        if r.Ok? {
          fin.pos := end;
        }
      } else {
        r := ReadPlainRecord(fin, head, tune);
      }
    }

    /** One read, in which what is behind a head is known only by name. */
    method ReadBy(tune: Tunables, plan: Plan, ghost heads: Heads, ghost behind: Reads, ghost stops: Stops)
      returns (r: Result<Option<ImageRecord>, BarcError>)
      requires Valid() && tune.Valid() && Allowed(plan, tune.bufferSizeRam)
      requires HeadsOf(heads, fin.file.data) && BehindOf(behind, fin.file.data, codec)
      requires StopsOf(stops, fin.file.data, tune.maxBodyRam)
      modifies fin`pos, fin`interrupts
      ensures r.Ok? && r.value.Some? ==> fresh(r.value.value.reqBody) && fresh(r.value.value.resBody)
      ensures var head := heads(old(fin.pos));
              var o, packed := OutcomeBy(head, old(fin.pos), tune.maxBodyRam, behind), IsPacked(head);
              match r
              case Ok(None) => o.Nothing? && fin.pos == old(fin.pos)
              case Ok(Some(rec)) =>
                o.Found? && fin.pos == o.next && Shows(rec, o.rec, fin.file) && (packed ==> !Refused(o.rec, plan, tune))
              case Err(e) => FailsAs(e, o, packed, fin.faulty || tune.tempDir.Faulty?, plan, tune)
      ensures r.Err? && !Fault(r.error, fin.faulty) ==>
                && fin.pos == StopBy(heads(old(fin.pos)), old(fin.pos), |old(fin.Rest())|, stops)
                && fin.pos > old(fin.pos)
      ensures fin.pos >= old(fin.pos)
    {
      var start := fin.pos;
      var found := NextHead(fin, heads);
      if found.Err? {
        return Err(found.error);
      }
      if found.value.None? {
        return Ok(None);
      }
      var head := found.value.value;
      if head.recType.Reserved? {
        fin.pos := start;
        return Ok(None);
      }
      var rec := ReadBehindHead(head, tune, plan, behind, stops);
      if rec.Err? {
        return Err(rec.error);
      }
      return Ok(Some(rec.value));
    }

    /**
     * The record at the current offset, and on to the next one; or nothing,
     * at the end of the file or at a reservation, and then the offset stays
     * what it was. A faulty file or temporary directory may give an I/O error
     * instead, and a compressed response body may be refused for its size.
     * After an error the offset has moved, to exactly where the file says; it
     * can be what it was only after an I/O error of a faulty file.
     */
    method Read(tune: Tunables, plan: Plan) returns (r: Result<Option<ImageRecord>, BarcError>)
      requires Valid() && tune.Valid() && Allowed(plan, tune.bufferSizeRam)
      modifies fin`pos, fin`interrupts
      ensures r.Ok? && r.value.Some? ==> fresh(r.value.value.reqBody) && fresh(r.value.value.resBody)
      ensures var o := ReadAt(fin.file.data, old(fin.pos), tune.maxBodyRam, codec);
              var packed := PackedAt(fin.file.data, old(fin.pos));
              match r
              case Ok(None) => o.Nothing? && fin.pos == old(fin.pos)
              case Ok(Some(rec)) =>
                o.Found? && fin.pos == o.next && Shows(rec, o.rec, fin.file) && (packed ==> !Refused(o.rec, plan, tune))
              case Err(e) => FailsAs(e, o, packed, fin.faulty || tune.tempDir.Faulty?, plan, tune)
      ensures r.Err? && !Fault(r.error, fin.faulty) ==>
                Offset() == StoppedAt(fin.file.data, old(Offset()), tune.maxBodyRam) > old(Offset())
      ensures Offset() >= old(Offset())
    {
      ReadByParts(fin.file.data, fin.pos, tune.maxBodyRam, codec);
      assert fin.Rest() == From(fin.file.data, fin.pos);
      ghost var heads, behind := HeadsIn(fin.file.data), BehindIn(fin.file.data, codec);
      r := ReadBy(tune, plan, heads, behind, StopsIn(fin.file.data, tune.maxBodyRam));
    }
  }
}
