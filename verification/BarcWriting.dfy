/** BarcWriter: appending a record to a BARC file in place. */
module BarcWriting {
  import opened Bytes
  import opened Io
  import opened HeadCodec
  import opened HeaderBlocks
  import opened Encoders
  import opened Storage
  import opened BarcFormat

  type ImageRecord = Record<BodyImage>

  function ValueOf(rec: ImageRecord): Value
    reads rec.reqBody, rec.reqBody.Files(), rec.resBody, rec.resBody.Files()
  {
    rec.WithBodies(rec.reqBody.Content(), rec.resBody.Content())
  }

  /** Bodies may be slices of the file that is written to, but not all of it. */
  ghost predicate ReadyFor(body: BodyImage, file: File)
    reads body, body.Files()
  {
    body.Valid() && (body.state.FsRead? ==> body.state.file != file)
  }

  /** A body keeps its content while the file it may be a slice of grows. */
  lemma StillReady(body: BodyImage, file: File, before: bytes, content: bytes)
    requires before <= file.data && body.len == |content|
    requires if body.state.FsReadSlice? && body.state.file == file
             then body.state.start < body.state.end <= |before| && content == before[body.state.start..body.state.end]
             else ReadyFor(body, file) && body.Content() == content
    ensures ReadyFor(body, file) && body.Content() == content
  {
    if body.state.FsReadSlice? && body.state.file == file {
      SliceGrows(before, file.data, body.state.start, body.state.end);
    }
  }

  /** The loop over the fields, and the assertion that the block is not too long. */
  method WriteHeaders(out: Encoder, withCrlf: bool, headers: seq<Header>) returns (ok: bool, size: nat)
    requires out.Valid() && |HeaderBlock(headers, withCrlf)| <= MAX_HBLOCK
    modifies out`held, out.out`pos, out.out.file`data
    ensures !ok ==>
              && out.out.faulty && out.mode.Plain?
              && out.Partial(old(out.Emitted()) + HeaderBlock(headers, withCrlf))
    ensures old(out.out.file.data) <= out.out.file.data && out.out.pos == |out.out.file.data|
    ensures ok ==>
              && out.Valid() && out.Emitted() == old(out.Emitted()) + HeaderBlock(headers, withCrlf)
              && size == |HeaderBlock(headers, withCrlf)|
  {
    ghost var before := out.Emitted();
    size := 0;
    assert Lines(headers[..0]) == [];
    assert before + [] == before;
    for i := 0 to |headers|
      invariant out.Valid() && old(out.out.file.data) <= out.out.file.data
      invariant out.Emitted() == before + FieldLines(headers[..i]) && size == |FieldLines(headers[..i])|
    {
      ok := WriteField(out, headers[i]);
      FieldLinesOne(headers[..i], headers[i]);
      Associative(before, FieldLines(headers[..i]), FieldLine(headers[i]));
      assert headers[..i + 1] == headers[..i] + [headers[i]];
      if !ok {
        FieldLinesPrefix(headers, i + 1, withCrlf);
        PrefixExtends(before, FieldLines(headers[..i + 1]), HeaderBlock(headers, withCrlf));
        return;
      }
      size := size + |headers[i].name| + 2 + |headers[i].value| + |CRLF|;
    }
    assert headers[..|headers|] == headers;
    ok := true;
    if withCrlf && size > 0 {
      ok := out.WriteAll(CRLF);
      size := size + |CRLF|;
      Associative(before, FieldLines(headers), CRLF);
    }
    assert ok ==> size <= MAX_HBLOCK;
  }

  lemma FieldLinesPrefix(headers: seq<Header>, n: nat, withCrlf: bool)
    requires n <= |headers|
    ensures FieldLines(headers[..n]) <= HeaderBlock(headers, withCrlf)
  {
    assert Lines(headers[..n]) == Lines(headers)[..n];
    FlattenPrefix(Lines(headers), n);
  }

  method WriteField(out: Encoder, h: Header) returns (ok: bool)
    requires out.Valid()
    modifies out`held, out.out`pos, out.out.file`data
    ensures !ok ==> out.out.faulty && out.mode.Plain? && out.Partial(old(out.Emitted()) + FieldLine(h))
    ensures old(out.out.file.data) <= out.out.file.data && out.out.pos == |out.out.file.data|
    ensures ok ==> out.Valid() && out.Emitted() == old(out.Emitted()) + FieldLine(h)
  {
    ghost var before := out.Emitted();
    FieldParts(before, h);
    ok := out.WriteAll(h.name);
    if ok {
      ok := out.WriteAll([COLON, 32]);
    }
    if ok {
      ok := out.WriteAll(h.value);
    }
    if ok {
      ok := out.WriteAll(CRLF);
    }
  }

  lemma FieldParts(before: bytes, h: Header)
    ensures before + h.name + [COLON, 32] + h.value + CRLF == before + FieldLine(h)
    ensures before + h.name <= before + h.name + [COLON, 32]
    ensures before + h.name + [COLON, 32] <= before + h.name + [COLON, 32] + h.value <= before + FieldLine(h)
  {
    Associative(before, h.name, [COLON, 32]);
    Associative(before, h.name + [COLON, 32], h.value);
    Associative(before, h.name + [COLON, 32] + h.value, CRLF);
  }

  method WriteBody(out: Encoder, withCrlf: bool, body: BodyImage, ghost content: bytes) returns (ok: bool, size: nat)
    requires out.Valid() && ReadyFor(body, out.out.file) && body.Content() == content
    modifies out`held, out.out`pos, out.out.file`data
    ensures !ok ==> out.out.faulty && out.mode.Plain? && out.Partial(old(out.Emitted()) + BodyBlock(content, withCrlf))
    ensures old(out.out.file.data) <= out.out.file.data && out.out.pos == |out.out.file.data|
    ensures ok ==>
              && out.Valid() && out.Emitted() == old(out.Emitted()) + BodyBlock(content, withCrlf)
              && size == |BodyBlock(content, withCrlf)|
  {
    ghost var before := out.Emitted();
    Associative(before, content, CRLF);
    PrefixExtends(before, content, BodyBlock(content, withCrlf));
    var wrote := body.WriteTo(out);
    if wrote.Err? {
      return false, 0;
    }
    size := wrote.value;
    ok := true;
    if withCrlf && size > 0 {
      ok := out.WriteAll(CRLF);
      size := size + |CRLF|;
    }
  }

  datatype Sizes = Sizes(meta: nat, reqH: nat, reqB: nat, resH: nat)

  function SizesOf(v: Value, c: bool): Sizes {
    Sizes(|HeaderBlock(v.meta, c)|, |HeaderBlock(v.reqHeaders, c)|, |BodyBlock(v.reqBody, c)|,
          |HeaderBlock(v.resHeaders, c)|)
  }

  /** What the assertions of the writer demand of the payload. */
  ghost predicate WithinBlockLimits(v: Value, c: bool) {
    && |HeaderBlock(v.meta, c)| <= MAX_HBLOCK
    && |HeaderBlock(v.reqHeaders, c)| <= MAX_HBLOCK
    && |HeaderBlock(v.resHeaders, c)| <= MAX_HBLOCK
    && |Preamble(v, c)| + |v.resBody| + 2 <= MAX_RECORD
  }

  /** Meta headers, request headers and request body. */
  method WriteRequest(out: Encoder, withCrlf: bool, rec: ImageRecord, ghost v: Value, ghost before: bytes)
    returns (ok: bool, meta: nat, reqH: nat, reqB: nat)
    requires out.Valid() && v == ValueOf(rec) && before == out.Emitted() && WithinBlockLimits(v, withCrlf)
    requires ReadyFor(rec.reqBody, out.out.file)
    modifies out`held, out.out`pos, out.out.file`data
    ensures var whole := before + HeaderBlock(v.meta, withCrlf) + HeaderBlock(v.reqHeaders, withCrlf)
            + BodyBlock(v.reqBody, withCrlf);
            if ok then
              && out.Valid() && out.Emitted() == whole
              && Sizes(meta, reqH, reqB, |HeaderBlock(v.resHeaders, withCrlf)|) == SizesOf(v, withCrlf)
            else
              out.out.faulty && out.mode.Plain? && out.Partial(whole)
    ensures old(out.out.file.data) <= out.out.file.data && out.out.pos == |out.out.file.data|
  {
    ghost var file := out.out.file.data;
    meta, reqH, reqB := 0, 0, 0;
    ok, meta := WriteHeaders(out, withCrlf, rec.meta);
    if !ok { return; }
    ok, reqH := WriteHeaders(out, withCrlf, rec.reqHeaders);
    if !ok { return; }
    assert ReadyFor(rec.reqBody, out.out.file) && rec.reqBody.Content() == v.reqBody by {
      StillReady(rec.reqBody, out.out.file, file, v.reqBody);
    }
    ok, reqB := WriteBody(out, withCrlf, rec.reqBody, v.reqBody);
  }

  /** The four blocks before the response body, in file order; the lengths are those before any compression. */
  method WritePreamble(out: Encoder, withCrlf: bool, rec: ImageRecord, ghost v: Value, ghost before: bytes)
    returns (ok: bool, sizes: Sizes)
    requires out.Valid() && v == ValueOf(rec) && before == out.Emitted() && WithinBlockLimits(v, withCrlf)
    requires ReadyFor(rec.reqBody, out.out.file)
    modifies out`held, out.out`pos, out.out.file`data
    ensures !ok ==> out.out.faulty && out.mode.Plain? && out.Partial(before + Preamble(v, withCrlf))
    ensures old(out.out.file.data) <= out.out.file.data && out.out.pos == |out.out.file.data|
    ensures ok ==> out.Valid() && out.Emitted() == before + Preamble(v, withCrlf) && sizes == SizesOf(v, withCrlf)
  {
    FourParts(before, HeaderBlock(v.meta, withCrlf), HeaderBlock(v.reqHeaders, withCrlf),
              BodyBlock(v.reqBody, withCrlf),
              HeaderBlock(v.resHeaders, withCrlf));
    var meta, reqH, reqB, resH: nat;
    sizes := Sizes(0, 0, 0, 0);
    ok, meta, reqH, reqB := WriteRequest(out, withCrlf, rec, v, before);
    if !ok { return; }
    ok, resH := WriteHeaders(out, withCrlf, rec.resHeaders);
    if !ok { return; }
    sizes := Sizes(meta, reqH, reqB, resH);
  }

  lemma FourParts(z: bytes, m: bytes, h: bytes, b: bytes, r: bytes)
    ensures z + m + h + b + r == z + (m + (h + (b + r)))
    ensures z + m <= z + m + h <= z + m + h + b <= z + m + h + b + r
  {
    Associative(z + m + h, b, r);
    Associative(z + m, h, b + r);
    Associative(z, m, h + (b + r));
  }

  lemma PayloadParts(v: Value, c: bool)
    ensures [] + Preamble(v, c) == Preamble(v, c) <= Payload(v, c)
    ensures var s := SizesOf(v, c); |Preamble(v, c)| == s.meta + s.reqH + s.resH + s.reqB
  {
  }

  /** The whole payload; the total length is asserted before the response body is written. */
  method WriteBlocks(out: Encoder, withCrlf: bool, rec: ImageRecord, ghost v: Value)
    returns (ok: bool, sizes: Sizes, len: nat)
    requires out.Valid() && v == ValueOf(rec) && out.Emitted() == [] && WithinBlockLimits(v, withCrlf)
    requires ReadyFor(rec.reqBody, out.out.file) && ReadyFor(rec.resBody, out.out.file)
    modifies out`held, out.out`pos, out.out.file`data
    ensures !ok ==> out.out.faulty && out.mode.Plain? && out.Partial(Payload(v, withCrlf))
    ensures old(out.out.file.data) <= out.out.file.data && out.out.pos == |out.out.file.data|
    ensures ok ==>
              && out.Valid() && out.Emitted() == Payload(v, withCrlf)
              && sizes == SizesOf(v, withCrlf) && len == |Payload(v, withCrlf)|
  {
    ghost var file := out.out.file.data;
    ok, sizes := WritePreamble(out, withCrlf, rec, v, []);
    len := sizes.meta + sizes.reqH + sizes.resH + sizes.reqB;
    PayloadParts(v, withCrlf);
    if !ok { return; }
    StillReady(rec.resBody, out.out.file, file, v.resBody);
    assert len + rec.resBody.len + 2 <= MAX_RECORD;
    var resB;
    ok, resB := WriteBody(out, withCrlf, rec.resBody, v.resBody);
    len := len + resB;
  }

  /**
   * What a failed write may leave behind what was there: nothing, a reservation
   * with the beginning of the payload, or the record.
   */
  ghost predicate LeftByFailure(before: bytes, after: bytes, v: Value, mode: Compression, codec: Codec) {
    || after == before
    || (exists n: nat ::
          n <= |Stored(v, mode, codec)| && after == before + (PrintHead(RESERVE_HEAD) + Stored(v, mode, codec)[..n]))
    || after == before + Serialize(v, mode, codec)
  }

  /**
   * Two heads are written: the reservation while there is nothing behind it,
   * and the final one when the record is all there. A write that fails may
   * have come to neither or only the first.
   */
  ghost predicate HeadsInOrder(r: Result<nat, BarcError>, was: seq<bytes>, heads: seq<bytes>, before: bytes, v: Value,
                               mode: Compression, codec: Codec)
  {
    var all := was + [before + PrintHead(RESERVE_HEAD), before + Serialize(v, mode, codec)];
    if r.Ok? then heads == all else was <= heads <= all
  }

  class BarcWriter {
    const handle: Handle
    const codec: Codec

    constructor (handle: Handle, codec: Codec)
      ensures this.handle == handle && this.codec == codec
    {
      this.handle, this.codec := handle, codec;
    }

    /** `write_record`: the payload, and a head with the lengths before compression. */
    method WriteRecord(rec: ImageRecord, mode: Compression, ghost v: Value) returns (ok: bool, head: RecordHead)
      requires handle.pos == |handle.file.data| && v == ValueOf(rec) && WithinBlockLimits(v, mode.Plain?)
      requires ReadyFor(rec.reqBody, handle.file) && ReadyFor(rec.resBody, handle.file)
      modifies handle`pos, handle.file`data
      ensures !ok ==>
                && handle.faulty && |old(handle.file.data)| <= |handle.file.data|
                && handle.file.data[|old(handle.file.data)|..] <= Stored(v, mode, codec)
      ensures old(handle.file.data) <= handle.file.data && handle.pos == |handle.file.data|
      ensures ok ==>
                && handle.file.data == old(handle.file.data) + Stored(v, mode, codec)
                && head == HeadFor(v, mode, |Payload(v, mode.Plain?)|)
    {
      ghost var before := handle.file.data;
      var out := new Encoder(handle, codec, mode);
      var sizes, len;
      ok, sizes, len := WriteBlocks(out, mode.Plain?, rec, v);
      head := RecordHead(len, rec.recType, mode, sizes.meta, sizes.reqH, sizes.reqB, sizes.resH);
      if ok {
        ok := out.Finish();
        PrefixSplit(before, handle.file.data);
      }
    }

    /** `write_record_head`, where the range assertions hold and so does the one on the size. */
    method WriteRecordHead(head: RecordHead) returns (ok: bool)
      requires WithinLimits(head) && handle.pos <= |handle.file.data|
      modifies handle`pos, handle`heads, handle.file`data
      ensures !ok ==> handle.faulty && handle.file.data == old(handle.file.data) && handle.pos == old(handle.pos)
      ensures handle.heads == old(handle.heads) + if ok then [handle.file.data] else []
      ensures ok ==>
                && handle.file.data == Overwritten(old(handle.file.data), old(handle.pos), PrintHead(head))
                && handle.pos == old(handle.pos) + HEAD_SIZE
    {
      HeadSize(head);
      ok := handle.WriteHead(PrintHead(head));
      assert |PrintHead(head)| == HEAD_SIZE;
    }

    /** The final head goes over the reservation; only then can the flush fail. */
    method PutHead(start: nat, head: RecordHead) returns (committed: bool, ok: bool)
      requires start <= |handle.file.data| && WithinLimits(head)
      modifies handle`pos, handle`heads, handle.file`data
      ensures handle.heads == old(handle.heads) + if committed then [handle.file.data] else []
      ensures !ok ==> handle.faulty
      ensures !committed ==> !ok && handle.file.data == old(handle.file.data)
      ensures committed ==> handle.file.data == Overwritten(old(handle.file.data), start, PrintHead(head))
    {
      handle.SeekStart(start);
      committed := WriteRecordHead(head);
      ok := committed;
      if committed {
        var _ := handle.SeekEnd();
        var flushFailed: bool := *;
        ok := !(handle.faulty && flushFailed);
      }
    }

    /** The reservation goes to the end of the file. */
    method Reserve() returns (start: nat, ok: bool)
      modifies handle`pos, handle`heads, handle.file`data
      ensures handle.heads == old(handle.heads) + if ok then [handle.file.data] else []
      ensures start == |old(handle.file.data)| && handle.pos == |handle.file.data|
      ensures !ok ==> handle.faulty && handle.file.data == old(handle.file.data)
      ensures ok ==> handle.file.data == old(handle.file.data) + PrintHead(RESERVE_HEAD)
    {
      start := handle.SeekEnd();
      HeadSize(RESERVE_HEAD);
      OverwrittenAtEnd(handle.file.data, PrintHead(RESERVE_HEAD));
      ok := WriteRecordHead(RESERVE_HEAD);
    }

    /** The steps of a write, over a file that holds `before`, of a record of value `v`. */
    method WriteAs(rec: ImageRecord, mode: Compression, ghost v: Value, ghost before: bytes)
      returns (r: Result<nat, BarcError>)
      requires ReadyFor(rec.reqBody, handle.file) && ReadyFor(rec.resBody, handle.file)
      requires v == ValueOf(rec) && before == handle.file.data && Writable(v, mode, codec)
      modifies handle`pos, handle`heads, handle.file`data
      ensures HeadsInOrder(r, old(handle.heads), handle.heads, before, v, mode, codec)
      ensures r.Ok? ==> r.value == |before| && handle.file.data == before + Serialize(v, mode, codec)
      ensures r.Err? ==> r.error == IoFailed && handle.faulty && LeftByFailure(before, handle.file.data, v, mode, codec)
    {
      ghost var reserved, done := before + PrintHead(RESERVE_HEAD), before + Serialize(v, mode, codec);
      assert handle.heads + [reserved] + [done] == handle.heads + [reserved, done];
      var start, ok := Reserve();
      if !ok {
        return Err(IoFailed);
      }
      assert ReadyFor(rec.reqBody, handle.file) && ReadyFor(rec.resBody, handle.file) && v == ValueOf(rec) by {
        StillReady(rec.reqBody, handle.file, before, v.reqBody);
        StillReady(rec.resBody, handle.file, before, v.resBody);
      }
      var head;
      ok, head := WriteRecord(rec, mode, v);
      if !ok {
        assert LeftByFailure(before, handle.file.data, v, mode, codec) by {
          LeftReserved(before, handle.file.data, v, mode, codec);
        }
        return Err(IoFailed);
      }
      r := Conclude(start, head, mode, v, before);
    }

    /** The real length goes into the head, where both assertions hold, and the head over the reservation. */
    method Conclude(start: nat, head: RecordHead, mode: Compression, ghost v: Value, ghost before: bytes)
      returns (r: Result<nat, BarcError>)
      requires start == |before| && handle.pos == |handle.file.data| && Writable(v, mode, codec)
      requires handle.file.data == before + PrintHead(RESERVE_HEAD) + Stored(v, mode, codec)
      requires head == HeadFor(v, mode, |Payload(v, mode.Plain?)|)
      modifies handle`pos, handle`heads, handle.file`data
      ensures handle.heads == old(handle.heads) + [before + Serialize(v, mode, codec)]
              || (r.Err? && handle.heads == old(handle.heads))
      ensures r.Ok? ==> r.value == |before| && handle.file.data == before + Serialize(v, mode, codec)
      ensures r.Err? ==> r.error == IoFailed && handle.faulty && LeftByFailure(before, handle.file.data, v, mode, codec)
    {
      HeadSize(RESERVE_HEAD);
      var end := handle.pos;
      assert end >= start + HEAD_SIZE;
      var len := end - start - HEAD_SIZE;
      assert head.compress.Plain? ==> head.len == len;
      var final := head.(len := len);
      OverReservation(before, PrintHead(RESERVE_HEAD), Stored(v, mode, codec), final);
      var committed, ok := PutHead(start, final);
      if committed {
        LeftCommitted(before, v, mode, codec);
      } else {
        LeftReserved(before, handle.file.data, v, mode, codec);
      }
      return if ok then Ok(start) else Err(IoFailed);
    }

    /**
     * Appends a record at the end of the file: a reservation, the payload
     * behind it, and last the final head over the reservation. The result is
     * the offset of the record.
     */
    method Write(rec: ImageRecord, mode: Compression) returns (r: Result<nat, BarcError>)
      requires ReadyFor(rec.reqBody, handle.file) && ReadyFor(rec.resBody, handle.file)
      requires Writable(ValueOf(rec), mode, codec)
      modifies handle`pos, handle`heads, handle.file`data
      ensures HeadsInOrder(r, old(handle.heads), handle.heads, old(handle.file.data), old(ValueOf(rec)), mode, codec)
      ensures r.Ok? ==>
                && r.value == |old(handle.file.data)|
                && handle.file.data == old(handle.file.data) + Serialize(old(ValueOf(rec)), mode, codec)
      ensures r.Err? ==>
                && r.error == IoFailed && handle.faulty
                && LeftByFailure(old(handle.file.data), handle.file.data, old(ValueOf(rec)), mode, codec)
      ensures old(handle.file.data) <= handle.file.data
    {
      r := WriteAs(rec, mode, ValueOf(rec), handle.file.data);
    }
  }

  lemma OverwrittenAtEnd(data: bytes, bs: bytes)
    ensures Overwritten(data, |data|, bs) == data + bs
  {
    assert data[..|data|] == data && data + bs + [] == data + bs;
  }

  lemma OverReservation(before: bytes, reserved: bytes, stored: bytes, head: RecordHead)
    requires |reserved| == HEAD_SIZE && WithinLimits(head)
    ensures Overwritten(before + reserved + stored, |before|, PrintHead(head)) == before + (PrintHead(head) + stored)
  {
    HeadSize(head);
    var data := before + reserved + stored;
    assert data[..|before|] == before;
    assert data[|before| + HEAD_SIZE..] == stored;
    Associative(before, PrintHead(head), stored);
  }

  lemma PrefixSplit(before: bytes, after: bytes)
    requires before <= after
    ensures after == before + after[|before|..]
  {
  }

  lemma LeftReserved(before: bytes, after: bytes, v: Value, mode: Compression, codec: Codec)
    requires before + PrintHead(RESERVE_HEAD) <= after
    requires after[|before + PrintHead(RESERVE_HEAD)|..] <= Stored(v, mode, codec)
    ensures before <= after && LeftByFailure(before, after, v, mode, codec)
  {
    var reserved := PrintHead(RESERVE_HEAD);
    var written := after[|before + reserved|..];
    Associative(before, reserved, written);
    PrefixSplit(before + reserved, after);
    assert written == Stored(v, mode, codec)[..|written|];
    assert after == before + (reserved + Stored(v, mode, codec)[..|written|]);
  }

  lemma LeftCommitted(before: bytes, v: Value, mode: Compression, codec: Codec)
    ensures LeftByFailure(before, before + Serialize(v, mode, codec), v, mode, codec)
  {
  }
}
