/** Inputs that do not come back as they were, one for each condition under which that happens. */
module FailingInputs {
  import opened Bytes
  import opened Io
  import opened HeadCodec
  import opened HeaderBlocks
  import opened Encoders
  import opened Storage
  import opened BodyReading
  import opened BarcFormat
  import opened BarcWriting
  import opened BarcReading
  import opened BarcFiles
  import DialogConvert

  /** A record without bodies that has nothing but meta headers. */
  function MetaOnly(meta: seq<Header>): Value {
    Record(RecordType.Dialog, meta, [], [], [], [])
  }

  lemma MetaOnlyWritable(meta: seq<Header>, codec: Codec)
    requires ValidHeaders(meta) && |FieldLines(meta)| <= 1000
    ensures Writable(MetaOnly(meta), Plain, codec)
  {
  }

  /** "a:  x": the value has a space before it. */
  const SPACED: seq<Header> := [Header([97], [32, 120])]

  lemma SpacedTrimmed()
    ensures ValidHeaders(SPACED) && |FieldLines(SPACED)| <= 1000 && TrimmedAll(SPACED) == [Header([97], [120])]
  {
    FieldLinesOne([], SPACED[0]);
    assert [] + SPACED == SPACED && [32, 120][1..] == [120];
  }

  lemma SpacedValueChanges(codec: Codec, maxRam: nat)
    requires Lossless(codec)
    ensures var v := MetaOnly(SPACED);
            var data := Serialize(v, Plain, codec);
            var o := ReadAt(data, 0, maxRam, codec);
            Writable(v, Plain, codec) && o.Found? && o.rec.meta == [Header([97], [120])] && ResolveAll(data, o.rec) != v
  {
    SpacedTrimmed();
    MetaOnlyWritable(SPACED, codec);
    TrimmedRead(SPACED, codec, maxRam);
    assert SPACED[0] != Header([97], [120]);
  }

  lemma TrimmedRead(meta: seq<Header>, codec: Codec, maxRam: nat)
    requires Lossless(codec) && Writable(MetaOnly(meta), Plain, codec) && |meta| <= MAX_FIELDS
    ensures var data := Serialize(MetaOnly(meta), Plain, codec);
            var o := ReadAt(data, 0, maxRam, codec);
            o.Found? && o.rec.meta == TrimmedAll(meta) && ResolveAll(data, o.rec).meta == TrimmedAll(meta)
  {
    RecordRead(Serialize(MetaOnly(meta), Plain, codec), 0, MetaOnly(meta), Plain, codec, maxRam);
  }

  /** Fields "a: x". */
  function Crowd(n: nat): seq<Header> {
    seq(n, _ => Header([97], [120]))
  }

  lemma {:induction false} CrowdSize(n: nat)
    ensures |FieldLines(Crowd(n))| == 6 * n
  {
    if n > 0 {
      CrowdSize(n - 1);
      FieldLinesOne(Crowd(n - 1), Header([97], [120]));
      assert Crowd(n) == Crowd(n - 1) + [Header([97], [120])];
    }
  }

  lemma CrowdValid(n: nat)
    ensures ValidHeaders(Crowd(n))
  {
  }

  /** A record with 129 meta fields, a request body, and nothing else. */
  function Crowded(body: bytes): Value {
    Record(RecordType.Dialog, Crowd(129), [], body, [], [])
  }

  lemma CrowdedSizes(body: bytes)
    requires |body| + 2 <= MAX_REQ_BODY
    ensures var v := Crowded(body);
            && |HeaderBlock(v.meta, true)| == 776 && HeaderBlock(v.reqHeaders, true) == []
            && HeaderBlock(v.resHeaders, true) == []
            && |BodyBlock(v.reqBody, true)| <= MAX_REQ_BODY
  {
    CrowdSize(129);
  }

  lemma CrowdedWritable(body: bytes, codec: Codec)
    requires |body| + 2 <= MAX_REQ_BODY
    ensures Writable(Crowded(body), Plain, codec)
  {
    var v := Crowded(body);
    CrowdedSizes(body);
    CrowdValid(129);
    assert |Preamble(v, true)| == 776 + |BodyBlock(body, true)|;
    assert Stored(v, Plain, codec) == Preamble(v, true) + [];
  }

  /** A block of 128 fields can be read. */
  lemma LargestBlockRead(codec: Codec, maxRam: nat)
    requires Lossless(codec)
    ensures var v := MetaOnly(Crowd(128));
            var data := Serialize(v, Plain, codec);
            Writable(v, Plain, codec) && Yields(data, ReadAt(data, 0, maxRam, codec), v, |data|)
  {
    var v := MetaOnly(Crowd(128));
    CrowdSize(128);
    CrowdValid(128);
    MetaOnlyWritable(Crowd(128), codec);
    assert At(Serialize(v, Plain, codec), 0, Serialize(v, Plain, codec));
    RecordRoundTrip(Serialize(v, Plain, codec), 0, v, Plain, codec, maxRam);
  }

  /** It is written, and reading it fails and moves the offset by 830: the head, 129 fields of 6 bytes, and padding. */
  lemma CrowdedRecordUnreadable(body: bytes, codec: Codec, maxRam: nat)
    requires Lossless(codec) && |body| + 2 <= MAX_REQ_BODY
    ensures var v := Crowded(body);
            var data := Serialize(v, Plain, codec);
            && Writable(v, Plain, codec) && ReadAt(data, 0, maxRam, codec) == Failure(InvalidHeader)
            && StoppedAt(data, 0, maxRam) == 830
  {
    var v := Crowded(body);
    var data := Serialize(v, Plain, codec);
    CrowdedWritable(body, codec);
    assert At(data, 0, data);
    RecordRead(data, 0, v, Plain, codec, maxRam);
    StoppedInWritten(data, 0, v, Plain, codec, maxRam);
    CrowdedSizes(body);
  }

  /** The same of a reader on the file of that record. */
  method FailedReadMoves(reader: BarcReader, tune: Tunables, plan: Plan, ghost body: bytes)
    returns (r: Result<Option<ImageRecord>, BarcError>)
    requires reader.Valid() && !reader.fin.faulty && Lossless(reader.codec)
    requires tune.Valid() && tune.tempDir.Reliable? && Allowed(plan, tune.bufferSizeRam)
    requires |body| + 2 <= MAX_REQ_BODY
    requires reader.Offset() == 0 && reader.fin.file.data == Serialize(Crowded(body), Plain, reader.codec)
    modifies reader.fin`pos, reader.fin`interrupts
    ensures r == Err(InvalidHeader) && reader.Offset() == 830
  {
    CrowdedRecordUnreadable(body, reader.codec, tune.maxBodyRam);
    r := reader.Read(tune, plan);
  }

  /**
   * Why a reader must not be used after an error: if the request body of that
   * record is itself a record as it would be written, the next read returns
   * it, although it was never written as one.
   */
  lemma ReadOnAfterError(inner: Value, codec: Codec, maxRam: nat)
    requires Lossless(codec) && inner.recType.Dialog? && FitsParser(inner) && Writable(inner, Plain, codec)
    requires |Serialize(inner, Plain, codec)| + 2 <= MAX_REQ_BODY
    ensures var v := Crowded(Serialize(inner, Plain, codec));
            var data := Serialize(v, Plain, codec);
            var stopped := StoppedAt(data, 0, maxRam);
            && Writable(v, Plain, codec) && ReadAt(data, 0, maxRam, codec) == Failure(InvalidHeader)
            && Yields(data, ReadAt(data, stopped, maxRam, codec), TrimmedValue(inner),
                      stopped + |Serialize(inner, Plain, codec)|)
  {
    var stored := Serialize(inner, Plain, codec);
    var data := Serialize(Crowded(stored), Plain, codec);
    HeadSize(FinalHead(inner, Plain, codec));
    CrowdedRecordUnreadable(stored, codec, maxRam);
    CrowdedBodyAt(stored, codec);
    RecordRead(data, 830, inner, Plain, codec, maxRam);
  }

  lemma CrowdedBodyAt(body: bytes, codec: Codec)
    requires body != [] && |body| + 2 <= MAX_REQ_BODY
    ensures At(Serialize(Crowded(body), Plain, codec), 830, body)
  {
    CrowdedWritable(body, codec);
    CrowdedSizes(body);
    HeadSize(FinalHead(Crowded(body), Plain, codec));
    BodyBehindMeta(Crowded(body), codec);
  }

  lemma BodyBehindMeta(v: Value, codec: Codec)
    requires v.reqHeaders == [] && v.reqBody != [] && v.resHeaders == [] && v.resBody == []
    ensures At(Serialize(v, Plain, codec), |PrintHead(FinalHead(v, Plain, codec))| + |HeaderBlock(v.meta, true)|,
               v.reqBody)
  {
    assert Stored(v, Plain, codec) == HeaderBlock(v.meta, true) + (v.reqBody + CRLF);
    MiddleAt(PrintHead(FinalHead(v, Plain, codec)), HeaderBlock(v.meta, true), v.reqBody, CRLF);
  }

  lemma MiddleAt(a: bytes, b: bytes, c: bytes, d: bytes)
    ensures At(a + (b + (c + d)), |a| + |b|, c)
  {
    assert a + (b + (c + d)) == (a + b) + c + d;
  }

  function SomeDialog(url: bytes, verb: bytes, version: DialogConvert.Version, decoded: seq<DialogConvert.Encoding>)
    : DialogConvert.Dialog<bytes>
  {
    DialogConvert.Dialog(DialogConvert.Prolog(verb, url, [], []), DialogConvert.Epilog(version, 200, decoded, [], []))
  }

  lemma Http3Lost(url: bytes, verb: bytes, http: DialogConvert.Http)
    requires http.isUrl(url) && http.isMethod(verb)
    ensures var d := SomeDialog(url, verb, DialogConvert.Http3, []);
            DialogConvert.DialogOf(DialogConvert.RecordOf(d, http), http) ==
            Err(DialogConvert.InvalidVersion(DialogConvert.VersionText(DialogConvert.Http3)))
  {
    DialogConvert.ThereAndBack(SomeDialog(url, verb, DialogConvert.Http3, []), http);
  }

  lemma IdentityLost(url: bytes, verb: bytes, http: DialogConvert.Http)
    requires http.isUrl(url) && http.isMethod(verb)
    ensures var d := SomeDialog(url, verb, DialogConvert.Http11, [DialogConvert.Identity]);
            DialogConvert.DialogOf(DialogConvert.RecordOf(d, http), http) ==
            Err(DialogConvert.InvalidResDecoded(DialogConvert.Name(DialogConvert.Identity)))
  {
    DialogConvert.ThereAndBack(SomeDialog(url, verb, DialogConvert.Http11, [DialogConvert.Identity]), http);
  }
}
