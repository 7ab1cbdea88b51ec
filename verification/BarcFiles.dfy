/** BarcWriter and BarcReader together on one file. */
module BarcFiles {
  import opened Bytes
  import opened Io
  import opened HeadCodec
  import opened HeaderBlocks
  import opened Encoders
  import opened Storage
  import opened BodyReading
  import opened BarcFormat
  import opened BarcWriting
  import opened BarcReading
  import BarcProtocol
  import DialogConvert

  /** A body image shows the bytes its place in the file denotes. */
  lemma PresentedContent(body: BodyImage, place: Place, file: File)
    requires Presents(body, place, file)
    ensures body.Content() == Resolve(file.data, place)
  {
  }

  lemma ShownValue(rec: ImageRecord, found: Record<Place>, file: File)
    requires Shows(rec, found, file)
    ensures ValueOf(rec) == ResolveAll(file.data, found)
  {
    PresentedContent(rec.reqBody, found.reqBody, file);
    PresentedContent(rec.resBody, found.resBody, file);
    assert rec.WithBodies((), ()) == found.WithBodies((), ());
  }

  /** A body that is held in RAM or a temporary file, as all are after decompression. */
  lemma PackedIsHeld(data: bytes, pos: nat, maxRam: nat, codec: Codec)
    requires PackedAt(data, pos) && ReadAt(data, pos, maxRam, codec).Found?
    ensures ReadAt(data, pos, maxRam, codec).rec.resBody.Held?
  {
  }

  /** Where the first block with too many fields ends, counted from the start of a plain payload. */
  function CrowdedEnd(v: Value): nat {
    if |v.meta| > MAX_FIELDS then |HeaderBlock(v.meta, true)|
    else if |v.reqHeaders| > MAX_FIELDS then |HeaderBlock(v.meta, true)| + |HeaderBlock(v.reqHeaders, true)|
    else |Preamble(v, true)|
  }

  /** Each block is behind the one before it, and the first that cannot be read is the first with too many fields. */
  lemma CrowdedOutcomes(size: nat, start: nat, head: RecordHead, v: Value, headers: HeaderReads,
                        places: BodyReads<Place>, p1: nat, p2: nat, p3: nat, p4: nat)
    requires p1 == start + head.meta && p2 == p1 + head.reqH && p3 == p2 + head.reqB && p4 == p3 + head.resH <= size
    requires headers(start, head.meta) == HeadersFound(v.meta) && headers(p1, head.reqH) == HeadersFound(v.reqHeaders)
    requires places(p2, head.reqB).Ok? && headers(p3, head.resH) == HeadersFound(v.resHeaders)
    requires |v.meta| > MAX_FIELDS ==> head.meta > 2
    requires |v.reqHeaders| > MAX_FIELDS ==> head.reqH > 2
    requires |v.resHeaders| > MAX_FIELDS ==> head.resH > 2
    requires !FitsParser(v)
    ensures PlainStop(size, start, head, headers, places) ==
            if |v.meta| > MAX_FIELDS then p1 else if |v.reqHeaders| > MAX_FIELDS then p2 else p4
  {
  }

  lemma CrowdedBlocks(data: bytes, start: nat, head: RecordHead, maxRam: nat, v: Value, m: bytes, h: bytes, b: bytes,
                      r: bytes, e: bytes, headers: HeaderReads, places: BodyReads<Place>)
    requires head.meta == |m| && head.reqH == |h| && head.reqB == |b| && head.resH == |r|
    requires At(data, start, m + (h + (b + r)) + e)
    requires ReadsAsHeaders(m, v.meta, true) && ReadsAsHeaders(h, v.reqHeaders, true)
    requires ReadsAsHeaders(r, v.resHeaders, true) && ReadsAsBody(b, v.reqBody) && ReadsAsBody(e, v.resBody)
    requires HeadersOf(headers, data, true) && PlacesOf(places, data, maxRam)
    requires |v.meta| > MAX_FIELDS ==> |m| > 2
    requires |v.reqHeaders| > MAX_FIELDS ==> |h| > 2
    requires |v.resHeaders| > MAX_FIELDS ==> |r| > 2
    requires !FitsParser(v)
    ensures PlainStop(|data|, start, head, headers, places) ==
            start + if |v.meta| > MAX_FIELDS then |m| else if |v.reqHeaders| > MAX_FIELDS then |m| + |h|
                    else |m| + |h| + |b| + |r|
  {
    var p1 := start + |m|;
    var p2 := p1 + |h|;
    var p3 := p2 + |b|;
    FiveBlocks(data, start, m, h, b, r, e);
    BlocksFound(data, start, maxRam, v, m, h, b, r, e, headers, places, p1, p2, p3, p3 + |r|, p3 + |r| + |e|);
    CrowdedOutcomes(|data|, start, head, v, headers, places, p1, p2, p3, p3 + |r|);
  }

  lemma CrowdedPlain(data: bytes, start: nat, v: Value, codec: Codec, maxRam: nat)
    requires Writable(v, Plain, codec) && At(data, start, Stored(v, Plain, codec)) && !FitsParser(v)
    ensures StopIn(data, start, FinalHead(v, Plain, codec), maxRam) == start + CrowdedEnd(v)
  {
    HeadersRead(v.meta, true);
    HeadersRead(v.reqHeaders, true);
    HeadersRead(v.resHeaders, true);
    BodyRead(v.reqBody);
    BodyRead(v.resBody);
    FieldLinesLength(v.meta);
    FieldLinesLength(v.reqHeaders);
    FieldLinesLength(v.resHeaders);
    CrowdedBlocks(data, start, FinalHead(v, Plain, codec), maxRam, v,
                  HeaderBlock(v.meta, true), HeaderBlock(v.reqHeaders, true), BodyBlock(v.reqBody, true),
                  HeaderBlock(v.resHeaders, true), BodyBlock(v.resBody, true), HeadersIn(data, true),
                  PlacesIn(data, maxRam));
  }

  /** The offset after a failed read of a written record: behind the head, or in a plain one the block that failed. */
  lemma StoppedInWritten(data: bytes, pos: nat, v: Value, mode: Compression, codec: Codec, maxRam: nat)
    requires Writable(v, mode, codec) && At(data, pos, Serialize(v, mode, codec))
    requires mode.Plain? ==> !FitsParser(v)
    ensures StoppedAt(data, pos, maxRam) == pos + HEAD_SIZE + if mode.Plain? then CrowdedEnd(v) else 0
  {
    var head := FinalHead(v, mode, codec);
    AtSplit(data, pos, PrintHead(head), Stored(v, mode, codec));
    HeadRead(data, pos, head);
    if mode.Plain? {
      CrowdedPlain(data, pos + HEAD_SIZE, v, codec, maxRam);
    }
  }

  /** What the reader is to find at a record that was written. */
  lemma WrittenAt(data: bytes, pos: nat, v: Value, mode: Compression, codec: Codec, maxRam: nat)
    requires Lossless(codec) && Writable(v, mode, codec) && At(data, pos, Serialize(v, mode, codec))
    ensures var o := ReadAt(data, pos, maxRam, codec);
            && (PackedAt(data, pos) <==> !mode.Plain?)
            && if v.recType.Reserved? then o == Nothing
               else if !FitsParser(v) then o == Failure(InvalidHeader)
               else
                 && Yields(data, o, TrimmedValue(v), pos + |Serialize(v, mode, codec)|)
                 && (PackedAt(data, pos) ==> o.rec.resBody.Held? && o.rec.resBody.buf == v.resBody)
  {
    RecordRead(data, pos, v, mode, codec, maxRam);
    var head := FinalHead(v, mode, codec);
    AtSplit(data, pos, PrintHead(head), Stored(v, mode, codec));
    HeadRead(data, pos, head);
    if PackedAt(data, pos) && ReadAt(data, pos, maxRam, codec).Found? {
      PackedIsHeld(data, pos, maxRam, codec);
    }
  }

  /** In a plain record a body is held in RAM if its block is small enough, and otherwise left in the file. */
  predicate PlainPlace(place: Place, body: bytes, maxRam: nat) {
    if body != [] && |body| + 2 > maxRam then place.Slice? else place == Held(body, true)
  }

  lemma PlainPlaces(start: nat, head: RecordHead, headers: HeaderReads, places: BodyReads<Place>)
    requires ReadBlocks(start, head, headers, places).Ok?
    ensures var rec := ReadBlocks(start, head, headers, places).value;
            var p2 := start + head.meta + head.reqH;
            var p4 := p2 + head.reqB + head.resH;
            && places(p2, head.reqB) == Ok(rec.reqBody) && p4 <= start + head.len
            && places(p4, start + head.len - p4) == Ok(rec.resBody)
  {
  }

  lemma BlockPlace(data: bytes, pos: nat, body: bytes, len: nat, maxRam: nat)
    requires len == |BodyBlock(body, true)| && PlaceAt(data, pos, len, maxRam).Ok?
    requires Resolve(data, PlaceAt(data, pos, len, maxRam).value) == body
    ensures PlainPlace(PlaceAt(data, pos, len, maxRam).value, body, maxRam)
  {
  }

  lemma PlacedBy(data: bytes, start: nat, head: RecordHead, maxRam: nat, reqBody: bytes, resBody: bytes,
                 headers: HeaderReads, places: BodyReads<Place>)
    requires PlacesOf(places, data, maxRam)
    requires var r := ReadBlocks(start, head, headers, places);
             r.Ok? && Resolve(data, r.value.reqBody) == reqBody && Resolve(data, r.value.resBody) == resBody
    requires head.reqB == |BodyBlock(reqBody, true)|
    requires head.len == head.meta + head.reqH + head.reqB + head.resH + |BodyBlock(resBody, true)|
    ensures var r := ReadBlocks(start, head, headers, places);
            PlainPlace(r.value.reqBody, reqBody, maxRam) && PlainPlace(r.value.resBody, resBody, maxRam)
  {
    var p2 := start + head.meta + head.reqH;
    var p4 := p2 + head.reqB + head.resH;
    var last := start + head.len - p4;
    PlainPlaces(start, head, headers, places);
    assert places(p2, head.reqB) == PlaceAt(data, p2, head.reqB, maxRam);
    assert places(p4, last) == PlaceAt(data, p4, last, maxRam);
    BlockPlace(data, p2, reqBody, head.reqB, maxRam);
    BlockPlace(data, p4, resBody, last, maxRam);
  }

  lemma PlacedInPlain(data: bytes, start: nat, v: Value, codec: Codec, maxRam: nat)
    requires FitsParser(v) && Writable(v, Plain, codec) && At(data, start, Stored(v, Plain, codec))
    ensures var r := ReadPlain(data, start, FinalHead(v, Plain, codec), maxRam);
            r.Ok? && PlainPlace(r.value.reqBody, v.reqBody, maxRam) && PlainPlace(r.value.resBody, v.resBody, maxRam)
  {
    PlainRead(data, start, v, codec, maxRam);
    PlacedBy(data, start, FinalHead(v, Plain, codec), maxRam, v.reqBody, v.resBody,
             HeadersIn(data, true), PlacesIn(data, maxRam));
  }

  lemma PlacedInPacked(data: bytes, start: nat, v: Value, mode: Compression, codec: Codec, maxRam: nat)
    requires Lossless(codec) && !mode.Plain? && FitsParser(v)
    requires Writable(v, mode, codec) && At(data, start, Stored(v, mode, codec))
    ensures var r := ReadPacked(data, start, FinalHead(v, mode, codec), maxRam, codec);
            && r.Ok?
            && r.value.reqBody == Held(v.reqBody, |v.reqBody| <= maxRam || v.reqBody == [])
            && r.value.resBody == Held(v.resBody, (4096 <= maxRam && |v.resBody| <= maxRam) || v.resBody == [])
  {
    PackedRead(data, start, v, mode, codec, maxRam);
  }

  /** Where the bodies of a written record are after it is read, for any compression and RAM limit. */
  lemma WrittenPlaces(data: bytes, pos: nat, v: Value, mode: Compression, codec: Codec, maxRam: nat)
    requires Lossless(codec) && v.recType.Dialog? && FitsParser(v)
    requires Writable(v, mode, codec) && At(data, pos, Serialize(v, mode, codec))
    ensures var o := ReadAt(data, pos, maxRam, codec);
            && o.Found?
            && if mode.Plain? then
                 PlainPlace(o.rec.reqBody, v.reqBody, maxRam) && PlainPlace(o.rec.resBody, v.resBody, maxRam)
               else
                 && o.rec.reqBody == Held(v.reqBody, |v.reqBody| <= maxRam || v.reqBody == [])
                 && o.rec.resBody == Held(v.resBody, (4096 <= maxRam && |v.resBody| <= maxRam) || v.resBody == [])
  {
    var head := FinalHead(v, mode, codec);
    AtSplit(data, pos, PrintHead(head), Stored(v, mode, codec));
    HeadRead(data, pos, head);
    if mode.Plain? {
      PlacedInPlain(data, pos + HEAD_SIZE, v, codec, maxRam);
    } else {
      PlacedInPacked(data, pos + HEAD_SIZE, v, mode, codec, maxRam);
    }
  }

  /** Reading this record succeeds: the reader's limits on fields and on the compressed body allow it. */
  ghost predicate Readable(v: Value, mode: Compression, tune: Tunables, plan: Plan) {
    FitsParser(v) && (mode.Plain? || Accepted(|v.resBody|, plan, RES_ESTIMATE, tune))
  }

  /** In RAM if and only if the padded block is small enough, and otherwise a slice of the file. */
  predicate SliceOrRam(body: BodyImage, content: bytes, file: File, maxRam: nat)
    reads body
  {
    if content == [] || |content| + 2 <= maxRam then body.IsRam()
    else body.state.FsReadSlice? && body.state.file == file
  }

  /** In RAM or in a temporary file. */
  predicate OwnFileOrRam(body: BodyImage, inRam: bool, file: File)
    reads body
  {
    file !in body.Files() && (body.IsRam() <==> inRam)
  }

  /** Where the images of a record are that was read. */
  predicate Situated(rec: ImageRecord, v: Value, mode: Compression, file: File, maxRam: nat)
    reads rec.reqBody, rec.resBody
  {
    if mode.Plain? then
      && SliceOrRam(rec.reqBody, v.reqBody, file, maxRam)
      && SliceOrRam(rec.resBody, v.resBody, file, maxRam)
    else
      && OwnFileOrRam(rec.reqBody, v.reqBody == [] || |v.reqBody| <= maxRam, file)
      && OwnFileOrRam(rec.resBody, v.resBody == [] || (4096 <= maxRam && |v.resBody| <= maxRam), file)
  }

  lemma ShownWhere(rec: ImageRecord, found: Record<Place>, v: Value, mode: Compression, file: File, maxRam: nat)
    requires Shows(rec, found, file)
    requires mode.Plain? ==>
               PlainPlace(found.reqBody, v.reqBody, maxRam) && PlainPlace(found.resBody, v.resBody, maxRam)
    requires !mode.Plain? ==>
               && found.reqBody == Held(v.reqBody, |v.reqBody| <= maxRam || v.reqBody == [])
               && found.resBody == Held(v.resBody, (4096 <= maxRam && |v.resBody| <= maxRam) || v.resBody == [])
    ensures Situated(rec, v, mode, file, maxRam)
  {
  }

  /**
   * One read at a record that was written, on a reliable file: exactly when it
   * succeeds, what it returns, and by how far the offset moves in every case.
   * It is unchanged only at a record with the type of a reservation.
   */
  method ReadWritten(reader: BarcReader, tune: Tunables, plan: Plan, ghost v: Value, ghost mode: Compression)
    returns (r: Result<Option<ImageRecord>, BarcError>)
    requires reader.Valid() && !reader.fin.faulty && Lossless(reader.codec)
    requires tune.Valid() && tune.tempDir.Reliable? && Allowed(plan, tune.bufferSizeRam)
    requires Writable(v, mode, reader.codec)
    requires At(reader.fin.file.data, reader.Offset(), Serialize(v, mode, reader.codec))
    modifies reader.fin`pos, reader.fin`interrupts
    ensures v.recType.Reserved? ==> r == Ok(None) && reader.Offset() == old(reader.Offset())
    ensures v.recType.Dialog? ==> (r.Ok? <==> Readable(v, mode, tune, plan))
    ensures v.recType.Dialog? && r.Ok? ==>
              && r.value.Some? && fresh(r.value.value.reqBody) && fresh(r.value.value.resBody)
              && ValueOf(r.value.value) == TrimmedValue(v)
              && Situated(r.value.value, v, mode, reader.fin.file, tune.maxBodyRam)
              && reader.Offset() == old(reader.Offset()) + |Serialize(v, mode, reader.codec)|
    ensures r.Err? ==>
              && (if FitsParser(v) then RefusedAs(r.error, |v.resBody|, plan, tune) else r.error == InvalidHeader)
              && reader.Offset() == old(reader.Offset()) + HEAD_SIZE + if mode.Plain? then CrowdedEnd(v) else 0
  {
    ghost var data, offset := reader.fin.file.data, reader.Offset();
    WrittenAt(data, offset, v, mode, reader.codec, tune.maxBodyRam);
    if mode.Plain? ==> !FitsParser(v) {
      StoppedInWritten(data, offset, v, mode, reader.codec, tune.maxBodyRam);
    }
    r := reader.Read(tune, plan);
    if r.Ok? && r.value.Some? {
      ghost var found := ReadAt(data, offset, tune.maxBodyRam, reader.codec).rec;
      ShownValue(r.value.value, found, reader.fin.file);
      WrittenPlaces(data, offset, v, mode, reader.codec, tune.maxBodyRam);
      ShownWhere(r.value.value, found, v, mode, reader.fin.file, tune.maxBodyRam);
    }
  }

  /**
   * Appends a record and reads it back from the offset the writer returned:
   * for any compression, RAM limit, chunking and interruptions, and bodies of
   * any kind, the same type, header lists and body contents come back, or the
   * compressed response body is refused exactly when read_from refuses it, or
   * nothing comes back as the record has the type of a reservation.
   */
  method WriteThenRead(file: File, rec: ImageRecord, mode: Compression, codec: Codec, tune: Tunables, plan: Plan)
    returns (back: Option<ImageRecord>)
    requires Lossless(codec) && tune.Valid() && tune.tempDir.Reliable? && Allowed(plan, tune.bufferSizeRam)
    requires ReadyFor(rec.reqBody, file) && ReadyFor(rec.resBody, file)
    requires Writable(ValueOf(rec), mode, codec) && FaithfulRecord(ValueOf(rec))
    modifies file`data
    ensures back.Some? <==>
            rec.recType.Dialog? && (mode.Plain? || Accepted(|old(rec.resBody.Content())|, plan, RES_ESTIMATE, tune))
    ensures rec.recType.Dialog? && |old(rec.resBody.Content())| <= tune.maxBody ==> back.Some?
    ensures back.Some? ==> ValueOf(back.value) == old(ValueOf(rec))
  {
    ghost var v := ValueOf(rec);
    var offset := AppendRecord(file, rec, mode, codec, v);
    back := ReadBack(file, offset, codec, tune, plan, v, mode);
    AcceptedBounds(|v.resBody|, plan, RES_ESTIMATE, tune);
  }

  method AppendRecord(file: File, rec: ImageRecord, mode: Compression, codec: Codec, ghost v: Value)
    returns (offset: nat)
    requires ReadyFor(rec.reqBody, file) && ReadyFor(rec.resBody, file)
    requires v == ValueOf(rec) && Writable(v, mode, codec)
    modifies file`data
    ensures offset == |old(file.data)| && file.data == old(file.data) + Serialize(v, mode, codec)
  {
    var handle := new Handle(file, false);
    var writer := new BarcWriter(handle, codec);
    var wrote := writer.Write(rec, mode);
    offset := wrote.value;
  }

  method ReadBack(file: File, offset: nat, codec: Codec, tune: Tunables, plan: Plan, ghost v: Value,
                  ghost mode: Compression)
    returns (back: Option<ImageRecord>)
    requires Lossless(codec) && tune.Valid() && tune.tempDir.Reliable? && Allowed(plan, tune.bufferSizeRam)
    requires Writable(v, mode, codec) && FaithfulRecord(v)
    requires offset <= |file.data| && file.data == file.data[..offset] + Serialize(v, mode, codec)
    ensures back.Some? <==> v.recType.Dialog? && (mode.Plain? || Accepted(|v.resBody|, plan, RES_ESTIMATE, tune))
    ensures back.Some? ==> ValueOf(back.value) == v
  {
    var interrupts: nat :| true;
    var reader := new BarcReader(file, codec, false, interrupts);
    reader.Seek(offset);
    FaithfulTrimmed(v);
    assert At(file.data, offset, Serialize(v, mode, codec));
    var read := ReadWritten(reader, tune, plan, v, mode);
    back := if read.Ok? then read.value else None;
  }

  lemma FaithfulTrimmed(v: Value)
    ensures FitsParser(v) && TrimmedValue(v) == v <==> FaithfulRecord(v)
  {
    TrimmedExactly(v.meta);
    TrimmedExactly(v.reqHeaders);
    TrimmedExactly(v.resHeaders);
  }

  /**
   * The steps of one write: none, or a reservation and some payload that are
   * abandoned, or all of them and a commit.
   */
  ghost predicate OneWrite(steps: seq<BarcProtocol.Step>, v: Value, mode: Compression, codec: Codec) {
    || steps == []
    || (exists n: nat :: n <= |Stored(v, mode, codec)| && steps == AbandonedWrite(v, mode, n))
    || steps == CommittedWrite(v, mode, |Stored(v, mode, codec)|)
  }

  function AbandonedWrite(v: Value, mode: Compression, n: nat): seq<BarcProtocol.Step> {
    [BarcProtocol.Reserve(v, mode), BarcProtocol.Append(n), BarcProtocol.Abandon]
  }

  function CommittedWrite(v: Value, mode: Compression, n: nat): seq<BarcProtocol.Step> {
    [BarcProtocol.Reserve(v, mode), BarcProtocol.Append(n), BarcProtocol.Commit]
  }

  /** The file that any outcome of BarcWriter.Write leaves is the file after some run of the protocol's writer. */
  lemma OutcomeIsARun(s: BarcProtocol.State, after: bytes, v: Value, mode: Compression, codec: Codec)
    requires s.writer.Idle? && Writable(v, mode, codec)
    requires LeftByFailure(s.data, after, v, mode, codec)
    ensures exists steps :: OneWrite(steps, v, mode, codec) && BarcProtocol.Run(s, steps, codec).data == after
  {
    if after == s.data {
      assert OneWrite([], v, mode, codec) && BarcProtocol.Run(s, [], codec).data == after;
    } else if after == s.data + Serialize(v, mode, codec) {
      BarcProtocol.WriteIsARun(s, v, mode, codec);
      var steps := CommittedWrite(v, mode, |Stored(v, mode, codec)|);
      assert OneWrite(steps, v, mode, codec) && BarcProtocol.Run(s, steps, codec).data == after;
    } else {
      var n: nat :| n <= |Stored(v, mode, codec)|
          && after == s.data + (PrintHead(RESERVE_HEAD) + Stored(v, mode, codec)[..n]);
      BarcProtocol.AbandonIsARun(s, v, mode, n, codec);
      var steps := AbandonedWrite(v, mode, n);
      assert OneWrite(steps, v, mode, codec) && BarcProtocol.Run(s, steps, codec).data == after;
    }
  }

  /**
   * Any read of a BarcReader that meets no I/O error is a fetch and a finish
   * of a reader of the protocol at the same offset, whatever is in the file:
   * that reader returns the same record, fails the same way or stays put.
   */
  method ReadIsARun(reader: BarcReader, tune: Tunables, plan: Plan, ghost s: BarcProtocol.State, ghost i: nat)
    returns (r: Result<Option<ImageRecord>, BarcError>, ghost refuseAt: nat, ghost after: BarcProtocol.Reader)
    requires reader.Valid() && tune.Valid() && Allowed(plan, tune.bufferSizeRam)
    requires s.data == reader.fin.file.data && i < |s.readers|
    requires s.readers[i].phase.AtHead? && s.readers[i].offset == reader.Offset()
    modifies reader.fin`pos, reader.fin`interrupts
    ensures var steps := [BarcProtocol.Fetch(i), BarcProtocol.Finish(i, tune.maxBodyRam, tune.maxBody, refuseAt)];
            BarcProtocol.Run(s, steps, reader.codec) == s.(readers := s.readers[i := after])
    ensures var before := s.readers[i];
            match r
            case Ok(None) => after == before && reader.Offset() == before.offset
            case Ok(Some(rec)) =>
              exists found: Record<Place> ::
                && after == BarcProtocol.Reader(reader.Offset(), BarcProtocol.AtHead, before.returned + [found])
                && Shows(rec, found, reader.fin.file)
            case Err(e) =>
              || Fault(e, reader.fin.faulty || tune.tempDir.Faulty?)
              || after == before.(phase := BarcProtocol.Broken(e))
  {
    ghost var before, maxRam := s.readers[i], tune.maxBodyRam;
    r := reader.Read(tune, plan);
    refuseAt := if r.Err? && r.error.BodyTooLong? then r.error.size else 0;
    BarcProtocol.ReadIsARun(s, i, maxRam, tune.maxBody, refuseAt, reader.codec);
    BarcProtocol.ReadIsTwoSteps(s.data, before, i, maxRam, tune.maxBody, refuseAt, reader.codec);
    after := BarcProtocol.Read(s.data, BarcProtocol.Read(s.data, before, BarcProtocol.Fetch(i), reader.codec),
                               BarcProtocol.Finish(i, maxRam, tune.maxBody, refuseAt), reader.codec);
  }

  /**
   * A dialog that is recorded, written with any compression and read back
   * from anywhere in the file with any RAM limit is the same dialog, if the
   * conversions alone keep it and its HTTP headers have at most 128 fields
   * and no outer whitespace.
   */
  lemma DialogSurvivesFile(d: DialogConvert.Dialog<bytes>, http: DialogConvert.Http,
                           data: bytes, pos: nat, mode: Compression, codec: Codec, maxRam: nat)
    requires Lossless(codec) && DialogConvert.Typed(d, http) && DialogConvert.PlainTexts(http)
    requires Faithful(d.pro.reqHeaders) && Faithful(d.epi.resHeaders)
    requires var v := DialogConvert.RecordOf(d, http);
             Writable(v, mode, codec) && At(data, pos, Serialize(v, mode, codec))
    ensures var o := ReadAt(data, pos, maxRam, codec);
            && o.Found?
            && (DialogConvert.DialogOf(ResolveAll(data, o.rec), http) == Ok(d) <==>
                !d.epi.version.Http3?
                    && forall j | 0 <= j < |d.epi.resDecoded| :: DialogConvert.Recognized(d.epi.resDecoded[j]))
  {
    var v := DialogConvert.RecordOf(d, http);
    DialogConvert.MetaFaithful(d, http);
    RecordRoundTrip(data, pos, v, mode, codec, maxRam);
    DialogConvert.RoundTripExactly(d, http);
  }
}
