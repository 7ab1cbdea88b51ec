/** What a BARC file is: the bytes a record is written as, and what reading at an offset yields. */
module BarcFormat {
  import opened Bytes
  import opened HeadCodec
  import opened HeaderBlocks
  import opened Encoders

  /** A record whose bodies are of some type: plain bytes, places in a file, or body images. */
  datatype Record<+B> = Record(
    recType: RecordType, meta: seq<Header>,
    reqHeaders: seq<Header>, reqBody: B,
    resHeaders: seq<Header>, resBody: B)
  {
    function WithBodies<C>(req: C, res: C): Record<C> {
      Record(recType, meta, reqHeaders, req, resHeaders, res)
    }
  }

  type Value = Record<bytes>

  // Writing

  function BodyBlock(body: bytes, withCrlf: bool): bytes {
    if withCrlf && |body| > 0 then body + CRLF else body
  }

  /** The blocks before the response body, in file order. */
  function Preamble(v: Value, withCrlf: bool): bytes {
    HeaderBlock(v.meta, withCrlf) + (HeaderBlock(v.reqHeaders, withCrlf) +
    (BodyBlock(v.reqBody, withCrlf) + HeaderBlock(v.resHeaders, withCrlf)))
  }

  function Payload(v: Value, withCrlf: bool): bytes {
    Preamble(v, withCrlf) + BodyBlock(v.resBody, withCrlf)
  }

  /** The bytes between the head and the next record. */
  function Stored(v: Value, mode: Compression, codec: Codec): bytes {
    Packed(codec, mode, Payload(v, mode.Plain?))
  }

  /** A head with the lengths of the blocks as they are before compression. */
  function HeadFor(v: Value, mode: Compression, len: nat): RecordHead {
    var crlf := mode.Plain?;
    RecordHead(len, v.recType, mode, |HeaderBlock(v.meta, crlf)|, |HeaderBlock(v.reqHeaders, crlf)|,
               |BodyBlock(v.reqBody, crlf)|, |HeaderBlock(v.resHeaders, crlf)|)
  }

  function FinalHead(v: Value, mode: Compression, codec: Codec): RecordHead {
    HeadFor(v, mode, |Stored(v, mode, codec)|)
  }

  function Serialize(v: Value, mode: Compression, codec: Codec): bytes {
    PrintHead(FinalHead(v, mode, codec)) + Stored(v, mode, codec)
  }

  /** The writer's assertions, and what the header maps guarantee. */
  ghost predicate Writable(v: Value, mode: Compression, codec: Codec) {
    && ValidHeaders(v.meta) && ValidHeaders(v.reqHeaders) && ValidHeaders(v.resHeaders)
    && |Preamble(v, mode.Plain?)| + |v.resBody| + 2 <= MAX_RECORD
    && WithinLimits(FinalHead(v, mode, codec))
  }

  // Reading

  /** A body that was read, into RAM or a temporary file, or the part of the file it was left in. */
  datatype Place = Held(buf: bytes, ram: bool) | Slice(start: nat, end: nat)

  datatype Outcome = Nothing | Failure(error: BarcError) | Found(rec: Record<Place>, next: nat)

  function From(data: bytes, pos: nat): bytes {
    if pos <= |data| then data[pos..] else []
  }

  function HeadersAt(data: bytes, pos: nat, len: nat, withCrlf: bool): Result<seq<Header>, BarcError> {
    if len == 0 then Ok([])
    else if len <= 2 then Err(Panicked)
    else if pos + len > |data| then Err(UnexpectedEof)
    else ParseHeaders(data[pos..pos + len] + if withCrlf then [] else CRLF)
  }

  /** `read_body_ram`: all of the block, without its padding. */
  function BodyAt(data: bytes, pos: nat, len: nat, withCrlf: bool): Result<bytes, BarcError> {
    if len == 0 then Ok([])
    else if withCrlf && len <= 2 then Err(Panicked)
    else if pos + len > |data| then Err(UnexpectedEof)
    else Ok(data[pos..pos + if withCrlf then len - 2 else len])
  }

  /** A plain body: read when it is small enough for RAM, otherwise left where it is. */
  function PlaceAt(data: bytes, pos: nat, len: nat, maxRam: nat): Result<Place, BarcError> {
    if len <= maxRam then
      match BodyAt(data, pos, len, true)
      case Ok(buf) => Ok(Held(buf, true))
      case Err(e) => Err(e)
    else if len <= 2 then Err(Panicked)
    else Ok(Slice(pos, pos + len - 2))
  }

  /** The record from the outcomes of its five blocks, or the first error. */
  function Assembled<B>(recType: RecordType, meta: Result<seq<Header>, BarcError>,
                        reqHeaders: Result<seq<Header>, BarcError>, reqBody: Result<B, BarcError>,
                        resHeaders: Result<seq<Header>, BarcError>, resBody: Result<B, BarcError>)
    : Result<Record<B>, BarcError>
  {
    if meta.Err? then Err(meta.error)
    else if reqHeaders.Err? then Err(reqHeaders.error)
    else if reqBody.Err? then Err(reqBody.error)
    else if resHeaders.Err? then Err(resHeaders.error)
    else if resBody.Err? then Err(resBody.error)
    else Ok(Record(recType, meta.value, reqHeaders.value, reqBody.value, resHeaders.value, resBody.value))
  }

  type HeaderReads = (nat, nat) -> Result<seq<Header>, BarcError>
  type BodyReads<!B> = (nat, nat) -> Result<B, BarcError>

  function HeadersIn(data: bytes, withCrlf: bool): HeaderReads {
    (pos: nat, len: nat) => HeadersAt(data, pos, len, withCrlf)
  }

  function PlacesIn(data: bytes, maxRam: nat): BodyReads<Place> {
    (pos: nat, len: nat) => PlaceAt(data, pos, len, maxRam)
  }

  // The same without the functions themselves: what is known of them is an equation for each read

  ghost predicate HeadersOf(headers: HeaderReads, data: bytes, withCrlf: bool) {
    forall pos: nat, len: nat {:trigger HeadersAt(data, pos, len, withCrlf)}
        :: headers(pos, len) == HeadersAt(data, pos, len, withCrlf)
  }

  ghost predicate PlacesOf(places: BodyReads<Place>, data: bytes, maxRam: nat) {
    forall pos: nat, len: nat {:trigger PlaceAt(data, pos, len, maxRam)}
        :: places(pos, len) == PlaceAt(data, pos, len, maxRam)
  }

  /** Five blocks one after the other; the last is as long as the record length leaves it. */
  function ReadBlocks(start: nat, head: RecordHead, headers: HeaderReads, body: BodyReads<Place>)
    : Result<Record<Place>, BarcError>
  {
    var p1 := start + head.meta;
    var p2 := p1 + head.reqH;
    var p3 := p2 + head.reqB;
    var p4 := p3 + head.resH;
    Assembled(head.recType, headers(start, head.meta), headers(p1, head.reqH), body(p2, head.reqB),
              headers(p3, head.resH),
              if start + head.len < p4 then Err(Panicked) else body(p4, start + head.len - p4))
  }

  function ReadPlain(data: bytes, start: nat, head: RecordHead, maxRam: nat): Result<Record<Place>, BarcError> {
    ReadBlocks(start, head, HeadersIn(data, true), PlacesIn(data, maxRam))
  }

  /** The same five blocks, each read in a way of its own. */
  function ReadApart(start: nat, head: RecordHead, meta: HeaderReads, reqHeaders: HeaderReads,
                     reqBody: BodyReads<Place>,
                     resHeaders: HeaderReads, resBody: BodyReads<Place>): Result<Record<Place>, BarcError>
  {
    var p1 := start + head.meta;
    var p2 := p1 + head.reqH;
    var p3 := p2 + head.reqB;
    var p4 := p3 + head.resH;
    Assembled(head.recType, meta(start, head.meta), reqHeaders(p1, head.reqH), reqBody(p2, head.reqB),
              resHeaders(p3, head.resH),
              if start + head.len < p4 then Err(Panicked) else resBody(p4, start + head.len - p4))
  }

  /** Each block is read from the file as it is at a time of its own. */
  function ReadSpread(times: seq<bytes>, start: nat, head: RecordHead, maxRam: nat): Result<Record<Place>, BarcError>
    requires |times| == 5
  {
    ReadApart(start, head, HeadersIn(times[0], true), HeadersIn(times[1], true), PlacesIn(times[2], maxRam),
              HeadersIn(times[3], true), PlacesIn(times[4], maxRam))
  }

  /** A compressed request body: one that goes to a file may come out short without an error. */
  function UnpackedBody(plain: bytes, pos: nat, len: nat, maxRam: nat): Result<bytes, BarcError> {
    if len <= maxRam then BodyAt(plain, pos, len, false)
    else Ok(From(plain, pos)[..Min(len, |From(plain, pos)|)])
  }

  /** Four blocks one after the other, and then whatever is left as the response body. */
  function ReadStream(head: RecordHead, headers: HeaderReads, body: BodyReads<bytes>, rest: nat -> bytes)
    : Result<Value, BarcError>
  {
    var p1 := head.meta;
    var p2 := p1 + head.reqH;
    var reqBody := body(p2, head.reqB);
    var p3 := p2 + if reqBody.Ok? then |reqBody.value| else 0;
    Assembled(head.recType, headers(0, head.meta), headers(p1, head.reqH), reqBody, headers(p3, head.resH),
              Ok(rest(p3 + head.resH)))
  }

  function BodiesIn(plain: bytes, maxRam: nat): BodyReads<bytes> {
    (pos: nat, len: nat) => UnpackedBody(plain, pos, len, maxRam)
  }

  function RestOf(plain: bytes): nat -> bytes {
    (pos: nat) => From(plain, pos)
  }

  function ReadUnpacked(plain: bytes, head: RecordHead, maxRam: nat): Result<Value, BarcError> {
    ReadStream(head, HeadersIn(plain, false), BodiesIn(plain, maxRam), RestOf(plain))
  }

  /** What `read_compressed` says of the length of a response body it does not know. */
  const RES_ESTIMATE: nat := 4096

  /** Decompressed bodies: in RAM when small enough or empty, otherwise in a temporary file. */
  function HeldBodies(v: Value, reqB: nat, maxRam: nat): Record<Place> {
    v.WithBodies(Held(v.reqBody, reqB <= maxRam || v.reqBody == []),
                 Held(v.resBody, (RES_ESTIMATE <= maxRam && |v.resBody| <= maxRam) || v.resBody == []))
  }

  function ReadPacked(data: bytes, start: nat, head: RecordHead, maxRam: nat, codec: Codec)
    : Result<Record<Place>, BarcError>
  {
    var len := Min(head.len, |From(data, start)|);
    var plain := codec.decode(head.compress, From(data, start)[..len]);
    if plain.None? then Err(IoFailed)
    else
      var v := ReadUnpacked(plain.value, head, maxRam);
      if v.Err? then Err(v.error) else Ok(HeldBodies(v.value, head.reqB, maxRam))
  }

  /** The head at an offset, if a whole one is there. */
  function HeadAt(data: bytes, pos: nat): Result<Option<RecordHead>, BarcError> {
    var size := Min(HEAD_SIZE, |From(data, pos)|);
    if size == 0 then Ok(None)
    else if size < HEAD_SIZE then Err(ReadIncompleteRecHead(size))
    else
      match ParseHead(data[pos..pos + HEAD_SIZE])
      case Err(e) => Err(e)
      case Ok(head) => Ok(Some(head))
  }

  /** A whole head of a compressed record. */
  predicate PackedAt(data: bytes, pos: nat) {
    IsPacked(HeadAt(data, pos))
  }

  predicate IsPacked(head: Result<Option<RecordHead>, BarcError>) {
    head.Ok? && head.value.Some? && !head.value.value.compress.Plain?
  }

  /** What follows a head that is not a reservation. */
  function ReadBehind(data: bytes, start: nat, head: RecordHead, maxRam: nat, codec: Codec): Outcome {
    var rec := if head.compress.Plain? then ReadPlain(data, start, head, maxRam)
               else ReadPacked(data, start, head, maxRam, codec);
    if rec.Err? then Failure(rec.error) else Found(rec.value, start + head.len)
  }

  type Reads = (nat, RecordHead, nat) -> Outcome

  function BehindIn(data: bytes, codec: Codec): Reads {
    (start: nat, head: RecordHead, maxRam: nat) => ReadBehind(data, start, head, maxRam, codec)
  }

  /** One `read` at an offset, on any bytes whatever. */
  function ReadAt(data: bytes, pos: nat, maxRam: nat, codec: Codec): Outcome {
    match HeadAt(data, pos)
    case Err(e) => Failure(e)
    case Ok(None) => Nothing
    case Ok(Some(head)) =>
      if head.recType.Reserved? then Nothing
      else ReadBehind(data, pos + HEAD_SIZE, head, maxRam, codec)
  }

  function Resolve(data: bytes, place: Place): bytes {
    match place
    case Held(buf, _) => buf
    case Slice(start, end) => if start <= end <= |data| then data[start..end] else []
  }

  function ResolveAll(data: bytes, rec: Record<Place>): Value {
    rec.WithBodies(Resolve(data, rec.reqBody), Resolve(data, rec.resBody))
  }

  // Reading what was written

  lemma FieldLinesLength(hs: seq<Header>)
    requires ValidHeaders(hs)
    ensures hs == [] <==> FieldLines(hs) == []
    ensures hs != [] ==> |FieldLines(hs)| > 2
  {
  }

  /** What the reader finds for a header list: its trimmed form, unless it has too many fields. */
  function HeadersFound(hs: seq<Header>): Result<seq<Header>, BarcError> {
    if |hs| <= MAX_FIELDS then Ok(TrimmedAll(hs)) else Err(InvalidHeader)
  }

  /** Wherever `block` stands, it reads as these headers. */
  ghost predicate ReadsAsHeaders(block: bytes, hs: seq<Header>, withCrlf: bool) {
    forall data: bytes, pos: nat | At(data, pos, block) :: HeadersAt(data, pos, |block|, withCrlf) == HeadersFound(hs)
  }

  lemma HeadersReadAt(hs: seq<Header>, withCrlf: bool, data: bytes, pos: nat)
    requires ValidHeaders(hs) && At(data, pos, HeaderBlock(hs, withCrlf))
    ensures HeadersAt(data, pos, |HeaderBlock(hs, withCrlf)|, withCrlf) == HeadersFound(hs)
  {
    var block := HeaderBlock(hs, withCrlf);
    FieldLinesLength(hs);
    HeadersRoundTrip(hs);
    assert block + [] == block;
    assert block != [] ==> block + (if withCrlf then [] else CRLF) == FieldLines(hs) + CRLF && |block| > 2;
    assert data[pos..pos + |block|] == block;
  }

  lemma HeadersRead(hs: seq<Header>, withCrlf: bool)
    requires ValidHeaders(hs)
    ensures ReadsAsHeaders(HeaderBlock(hs, withCrlf), hs, withCrlf)
  {
    var block := HeaderBlock(hs, withCrlf);
    forall data: bytes, pos: nat | At(data, pos, block)
      ensures HeadersAt(data, pos, |block|, withCrlf) == HeadersFound(hs)
    {
      HeadersReadAt(hs, withCrlf, data, pos);
    }
  }

  /** `place` is `body`, held or within the first `limit` bytes of `data`. */
  ghost predicate Denotes(data: bytes, place: Result<Place, BarcError>, body: bytes, limit: nat) {
    && place.Ok? && Resolve(data, place.value) == body
    && (place.value.Slice? ==> place.value.start <= place.value.end <= limit)
  }

  ghost predicate ReadsAsBody(block: bytes, body: bytes) {
    forall data: bytes, pos: nat, maxRam: nat | At(data, pos, block) ::
      Denotes(data, PlaceAt(data, pos, |block|, maxRam), body, pos + |block|)
  }

  lemma BodyRead(body: bytes)
    ensures ReadsAsBody(BodyBlock(body, true), body)
  {
    var block := BodyBlock(body, true);
    forall data: bytes, pos: nat, maxRam: nat | At(data, pos, block)
      ensures Denotes(data, PlaceAt(data, pos, |block|, maxRam), body, pos + |block|)
    {
      if body != [] {
        AtSplit(data, pos, body, CRLF);
      }
    }
  }

  ghost predicate FitsParser(v: Value) {
    |v.meta| <= MAX_FIELDS && |v.reqHeaders| <= MAX_FIELDS && |v.resHeaders| <= MAX_FIELDS
  }

  function TrimmedValue(v: Value): Value {
    v.(meta := TrimmedAll(v.meta), reqHeaders := TrimmedAll(v.reqHeaders), resHeaders := TrimmedAll(v.resHeaders))
  }

  /** Where the blocks of a payload stand. */
  lemma FiveBlocks(data: bytes, start: nat, m: bytes, h: bytes, b: bytes, r: bytes, e: bytes)
    requires At(data, start, m + (h + (b + r)) + e)
    ensures At(data, start, m) && At(data, start + |m|, h) && At(data, start + |m| + |h|, b)
    ensures At(data, start + |m| + |h| + |b|, r) && At(data, start + |m| + |h| + |b| + |r|, e)
  {
    AtSplit(data, start, m + (h + (b + r)), e);
    AtSplit(data, start, m, h + (b + r));
    AtSplit(data, start + |m|, h, b + r);
    AtSplit(data, start + |m| + |h|, b, r);
  }

  /** All of `rec` that lies in the file lies before `limit`. */
  ghost predicate PlacesBefore(rec: Record<Place>, limit: nat) {
    && (rec.reqBody.Slice? ==> rec.reqBody.start <= rec.reqBody.end <= limit)
    && (rec.resBody.Slice? ==> rec.resBody.start <= rec.resBody.end <= limit)
  }

  /** A record equal to `v`, in RAM or in the part of `data` before `limit`. */
  ghost predicate Equals(data: bytes, r: Result<Record<Place>, BarcError>, v: Value, limit: nat) {
    r.Ok? && ResolveAll(data, r.value) == v && PlacesBefore(r.value, limit)
  }

  /** `o` is the record `v` ending at `next`, in RAM or in the part of `data` before that. */
  ghost predicate Yields(data: bytes, o: Outcome, v: Value, next: nat) {
    o.Found? && o.next == next && ResolveAll(data, o.rec) == v && PlacesBefore(o.rec, next)
  }

  lemma AssembledFound<B>(v: Value, reqBody: Result<B, BarcError>, resBody: Result<B, BarcError>)
    requires reqBody.Ok? && resBody.Ok?
    ensures Assembled(v.recType, HeadersFound(v.meta), HeadersFound(v.reqHeaders), reqBody, HeadersFound(v.resHeaders),
                      resBody) ==
            if FitsParser(v) then Ok(TrimmedValue(v).WithBodies(reqBody.value, resBody.value)) else Err(InvalidHeader)
  {
  }

  lemma UseHeaders(data: bytes, pos: nat, block: bytes, len: nat, hs: seq<Header>, withCrlf: bool)
    requires ReadsAsHeaders(block, hs, withCrlf) && At(data, pos, block) && len == |block|
    ensures HeadersAt(data, pos, len, withCrlf) == HeadersFound(hs)
  {
  }

  lemma UseBody(data: bytes, pos: nat, block: bytes, len: nat, maxRam: nat, body: bytes, limit: nat)
    requires ReadsAsBody(block, body) && At(data, pos, block) && len == |block| && pos + len <= limit
    ensures Denotes(data, PlaceAt(data, pos, len, maxRam), body, limit)
  {
  }

  lemma FindHeaders(data: bytes, pos: nat, block: bytes, len: nat, hs: seq<Header>, withCrlf: bool,
                    headers: HeaderReads)
    requires ReadsAsHeaders(block, hs, withCrlf) && At(data, pos, block) && len == |block|
    requires HeadersOf(headers, data, withCrlf)
    ensures headers(pos, len) == HeadersFound(hs)
  {
    UseHeaders(data, pos, block, len, hs, withCrlf);
  }

  lemma FindBody(data: bytes, pos: nat, block: bytes, len: nat, maxRam: nat, body: bytes, limit: nat,
                 places: BodyReads<Place>)
    requires ReadsAsBody(block, body) && At(data, pos, block) && len == |block| && pos + len <= limit
    requires PlacesOf(places, data, maxRam)
    ensures Denotes(data, places(pos, len), body, limit)
  {
    UseBody(data, pos, block, len, maxRam, body, limit);
  }

  lemma PlainOutcomes(data: bytes, start: nat, head: RecordHead, headers: HeaderReads, body: BodyReads<Place>, v: Value,
                      p1: nat, p2: nat, p3: nat, p4: nat, last: nat)
    requires head.recType == v.recType
    requires p1 == start + head.meta && p2 == p1 + head.reqH && p3 == p2 + head.reqB && p4 == p3 + head.resH
    requires p4 + last == start + head.len
    requires headers(start, head.meta) == HeadersFound(v.meta)
    requires headers(p1, head.reqH) == HeadersFound(v.reqHeaders)
    requires Denotes(data, body(p2, head.reqB), v.reqBody, start + head.len)
    requires headers(p3, head.resH) == HeadersFound(v.resHeaders)
    requires Denotes(data, body(p4, last), v.resBody, start + head.len)
    ensures var rec := ReadBlocks(start, head, headers, body);
            if FitsParser(v) then Equals(data, rec, TrimmedValue(v), start + head.len) else rec == Err(InvalidHeader)
  {
    AssembledFound(v, body(p2, head.reqB), body(p4, last));
    assert start + head.len - p4 == last;
  }

  /** The reader finds each block by adding up the lengths in the head. */
  lemma PlainBlocks(data: bytes, start: nat, head: RecordHead, maxRam: nat, v: Value, m: bytes, h: bytes, b: bytes,
                    r: bytes, e: bytes)
    requires head.recType == v.recType && head.meta == |m| && head.reqH == |h| && head.reqB == |b| && head.resH == |r|
    requires head.len == |m| + |h| + |b| + |r| + |e|
    requires At(data, start, m + (h + (b + r)) + e)
    requires ReadsAsHeaders(m, v.meta, true) && ReadsAsHeaders(h, v.reqHeaders, true)
             && ReadsAsHeaders(r, v.resHeaders, true)
    requires ReadsAsBody(b, v.reqBody) && ReadsAsBody(e, v.resBody)
    ensures var rec := ReadPlain(data, start, head, maxRam);
            if FitsParser(v) then Equals(data, rec, TrimmedValue(v), start + head.len) else rec == Err(InvalidHeader)
  {
    PlainBlocksBy(data, start, head, maxRam, v, m, h, b, r, e, HeadersIn(data, true), PlacesIn(data, maxRam));
  }

  lemma BlocksFound(data: bytes, start: nat, maxRam: nat, v: Value, m: bytes, h: bytes, b: bytes, r: bytes, e: bytes,
                    headers: HeaderReads, places: BodyReads<Place>, p1: nat, p2: nat, p3: nat, p4: nat, limit: nat)
    requires p1 == start + |m| && p2 == p1 + |h| && p3 == p2 + |b| && p4 == p3 + |r| && limit == p4 + |e|
    requires At(data, start, m + (h + (b + r)) + e)
    requires ReadsAsHeaders(m, v.meta, true) && ReadsAsHeaders(h, v.reqHeaders, true)
    requires ReadsAsHeaders(r, v.resHeaders, true) && ReadsAsBody(b, v.reqBody) && ReadsAsBody(e, v.resBody)
    requires HeadersOf(headers, data, true) && PlacesOf(places, data, maxRam)
    ensures headers(start, |m|) == HeadersFound(v.meta) && headers(p1, |h|) == HeadersFound(v.reqHeaders)
    ensures Denotes(data, places(p2, |b|), v.reqBody, limit) && headers(p3, |r|) == HeadersFound(v.resHeaders)
    ensures Denotes(data, places(p4, |e|), v.resBody, limit)
  {
    FiveBlocks(data, start, m, h, b, r, e);
    FindHeaders(data, start, m, |m|, v.meta, true, headers);
    FindHeaders(data, p1, h, |h|, v.reqHeaders, true, headers);
    FindBody(data, p2, b, |b|, maxRam, v.reqBody, limit, places);
    FindHeaders(data, p3, r, |r|, v.resHeaders, true, headers);
    FindBody(data, p4, e, |e|, maxRam, v.resBody, limit, places);
  }

  lemma PlainBlocksBy(data: bytes, start: nat, head: RecordHead, maxRam: nat, v: Value,
                      m: bytes, h: bytes, b: bytes, r: bytes, e: bytes, headers: HeaderReads, places: BodyReads<Place>)
    requires head.recType == v.recType
    requires head.meta == |m| && head.reqH == |h| && head.reqB == |b| && head.resH == |r|
    requires head.len == |m| + |h| + |b| + |r| + |e|
    requires At(data, start, m + (h + (b + r)) + e)
    requires ReadsAsHeaders(m, v.meta, true) && ReadsAsHeaders(h, v.reqHeaders, true)
    requires ReadsAsHeaders(r, v.resHeaders, true) && ReadsAsBody(b, v.reqBody) && ReadsAsBody(e, v.resBody)
    requires HeadersOf(headers, data, true) && PlacesOf(places, data, maxRam)
    ensures var rec := ReadBlocks(start, head, headers, places);
            if FitsParser(v) then Equals(data, rec, TrimmedValue(v), start + head.len) else rec == Err(InvalidHeader)
  {
    var p1 := start + |m|;
    var p2 := p1 + |h|;
    var p3 := p2 + |b|;
    var p4 := p3 + |r|;
    BlocksFound(data, start, maxRam, v, m, h, b, r, e, headers, places, p1, p2, p3, p4, start + head.len);
    PlainOutcomes(data, start, head, headers, places, v, p1, p2, p3, p4, |e|);
  }

  lemma PlainRead(data: bytes, start: nat, v: Value, codec: Codec, maxRam: nat)
    requires Writable(v, Plain, codec) && At(data, start, Stored(v, Plain, codec))
    ensures var r := ReadPlain(data, start, FinalHead(v, Plain, codec), maxRam);
            if FitsParser(v) then Equals(data, r, TrimmedValue(v), start + |Stored(v, Plain, codec)|)
            else r == Err(InvalidHeader)
  {
    HeadersRead(v.meta, true);
    HeadersRead(v.reqHeaders, true);
    HeadersRead(v.resHeaders, true);
    BodyRead(v.reqBody);
    BodyRead(v.resBody);
    PlainBlocks(data, start, FinalHead(v, Plain, codec), maxRam, v,
                HeaderBlock(v.meta, true), HeaderBlock(v.reqHeaders, true), BodyBlock(v.reqBody, true),
                HeaderBlock(v.resHeaders, true), BodyBlock(v.resBody, true));
  }

  lemma SameBlock(a: bytes, b: bytes, start: nat, stored: bytes, pos: nat, len: nat)
    requires At(a, start, stored) && At(b, start, stored) && start <= pos && pos + len <= start + |stored|
    ensures pos + len <= |a| && pos + len <= |b| && a[pos..pos + len] == b[pos..pos + len]
  {
    forall i | start <= i < start + |stored| ensures a[i] == b[i] {
      assert a[start..start + |stored|][i - start] == b[start..start + |stored|][i - start];
    }
  }

  lemma SameHeaders(a: bytes, b: bytes, start: nat, stored: bytes, pos: nat, len: nat)
    requires At(a, start, stored) && At(b, start, stored) && start <= pos && pos + len <= start + |stored|
    ensures HeadersAt(a, pos, len, true) == HeadersAt(b, pos, len, true)
  {
    SameBlock(a, b, start, stored, pos, len);
  }

  lemma SamePlace(a: bytes, b: bytes, start: nat, stored: bytes, pos: nat, len: nat, maxRam: nat)
    requires At(a, start, stored) && At(b, start, stored) && start <= pos && pos + len <= start + |stored|
    ensures PlaceAt(a, pos, len, maxRam) == PlaceAt(b, pos, len, maxRam)
  {
    if len > 2 {
      SameBlock(a, b, start, stored, pos, len - 2);
    }
  }

  lemma ApartAgrees(start: nat, head: RecordHead, meta: HeaderReads, reqHeaders: HeaderReads, reqBody: BodyReads<Place>,
                    resHeaders: HeaderReads, resBody: BodyReads<Place>, headers: HeaderReads, bodies: BodyReads<Place>,
                    p1: nat, p2: nat, p3: nat, p4: nat, last: nat)
    requires p1 == start + head.meta && p2 == p1 + head.reqH && p3 == p2 + head.reqB && p4 == p3 + head.resH
    requires p4 + last == start + head.len
    requires meta(start, head.meta) == headers(start, head.meta) && reqHeaders(p1, head.reqH) == headers(p1, head.reqH)
    requires reqBody(p2, head.reqB) == bodies(p2, head.reqB) && resHeaders(p3, head.resH) == headers(p3, head.resH)
    requires resBody(p4, last) == bodies(p4, last)
    ensures ReadApart(start, head, meta, reqHeaders, reqBody, resHeaders, resBody)
            == ReadBlocks(start, head, headers, bodies)
  {
    assert start + head.len - p4 == last;
  }

  /** The record is the same whenever each of its blocks is read, if only it stands there all the time. */
  lemma SpreadRead(times: seq<bytes>, data: bytes, start: nat, stored: bytes, head: RecordHead, maxRam: nat)
    requires |times| == 5 && At(data, start, stored) && forall i | 0 <= i < 5 :: At(times[i], start, stored)
    requires |stored| == head.len && head.meta + head.reqH + head.reqB + head.resH <= head.len
    ensures ReadSpread(times, start, head, maxRam) == ReadPlain(data, start, head, maxRam)
  {
    var p1 := start + head.meta;
    var p2 := p1 + head.reqH;
    var p3 := p2 + head.reqB;
    var p4 := p3 + head.resH;
    var last := start + head.len - p4;
    SameHeaders(times[0], data, start, stored, start, head.meta);
    SameHeaders(times[1], data, start, stored, p1, head.reqH);
    SamePlace(times[2], data, start, stored, p2, head.reqB, maxRam);
    SameHeaders(times[3], data, start, stored, p3, head.resH);
    SamePlace(times[4], data, start, stored, p4, last, maxRam);
    ApartAgrees(start, head, HeadersIn(times[0], true), HeadersIn(times[1], true), PlacesIn(times[2], maxRam),
                HeadersIn(times[3], true), PlacesIn(times[4], maxRam), HeadersIn(data, true), PlacesIn(data, maxRam),
                p1, p2, p3, p4, last);
  }

  lemma UnpackedBlocks(head: RecordHead, maxRam: nat, v: Value, m: bytes, h: bytes, r: bytes)
    requires head.recType == v.recType && head.meta == |m| && head.reqH == |h| && head.reqB == |v.reqBody|
             && head.resH == |r|
    requires ReadsAsHeaders(m, v.meta, false) && ReadsAsHeaders(h, v.reqHeaders, false)
             && ReadsAsHeaders(r, v.resHeaders, false)
    ensures ReadUnpacked(m + (h + (v.reqBody + r)) + v.resBody, head, maxRam) ==
            if FitsParser(v) then Ok(TrimmedValue(v)) else Err(InvalidHeader)
  {
    var b, e := v.reqBody, v.resBody;
    var plain := m + (h + (b + r)) + e;
    var p2 := |m| + |h|;
    var p3 := p2 + |b|;
    assert plain[0..|plain|] == plain;
    FiveBlocks(plain, 0, m, h, b, r, e);
    UseHeaders(plain, 0, m, head.meta, v.meta, false);
    UseHeaders(plain, |m|, h, head.reqH, v.reqHeaders, false);
    UnpackedBodyRead(plain, p2, b, maxRam);
    UseHeaders(plain, p3, r, head.resH, v.resHeaders, false);
    assert From(plain, p3 + |r|) == e;
    UnpackedOutcomes(head, HeadersIn(plain, false), BodiesIn(plain, maxRam), RestOf(plain), v, |m|, p2, p3);
  }

  lemma UnpackedOutcomes(head: RecordHead, headers: HeaderReads, body: BodyReads<bytes>, rest: nat -> bytes, v: Value,
                         p1: nat, p2: nat, p3: nat)
    requires head.recType == v.recType
    requires p1 == head.meta && p2 == p1 + head.reqH && p3 == p2 + |v.reqBody|
    requires headers(0, head.meta) == HeadersFound(v.meta)
    requires headers(p1, head.reqH) == HeadersFound(v.reqHeaders)
    requires body(p2, head.reqB) == Ok(v.reqBody)
    requires headers(p3, head.resH) == HeadersFound(v.resHeaders)
    requires rest(p3 + head.resH) == v.resBody
    ensures ReadStream(head, headers, body, rest) == if FitsParser(v) then Ok(TrimmedValue(v)) else Err(InvalidHeader)
  {
    AssembledFound(v, Ok(v.reqBody), Ok(v.resBody));
  }

  lemma UnpackedBodyRead(plain: bytes, pos: nat, body: bytes, maxRam: nat)
    requires At(plain, pos, body)
    ensures UnpackedBody(plain, pos, |body|, maxRam) == Ok(body)
  {
    assert plain[pos..][..|body|] == plain[pos..pos + |body|];
  }

  lemma UnpackedRead(v: Value, mode: Compression, codec: Codec, maxRam: nat)
    requires Writable(v, mode, codec) && !mode.Plain?
    ensures ReadUnpacked(Payload(v, false), FinalHead(v, mode, codec), maxRam) ==
            if FitsParser(v) then Ok(TrimmedValue(v)) else Err(InvalidHeader)
  {
    HeadersRead(v.meta, false);
    HeadersRead(v.reqHeaders, false);
    HeadersRead(v.resHeaders, false);
    UnpackedBlocks(FinalHead(v, mode, codec), maxRam, v,
                   HeaderBlock(v.meta, false), HeaderBlock(v.reqHeaders, false), HeaderBlock(v.resHeaders, false));
  }

  lemma PackedRead(data: bytes, start: nat, v: Value, mode: Compression, codec: Codec, maxRam: nat)
    requires Lossless(codec) && !mode.Plain?
    requires Writable(v, mode, codec) && At(data, start, Stored(v, mode, codec))
    ensures var r := ReadPacked(data, start, FinalHead(v, mode, codec), maxRam, codec);
            if FitsParser(v) then Equals(data, r, TrimmedValue(v), start + |Stored(v, mode, codec)|)
            else r == Err(InvalidHeader)
  {
    var stored := Stored(v, mode, codec);
    assert data[start..][..|stored|] == stored;
    UnpackedRead(v, mode, codec, maxRam);
  }

  lemma HeadRead(data: bytes, pos: nat, head: RecordHead)
    requires WithinLimits(head) && At(data, pos, PrintHead(head))
    ensures |PrintHead(head)| == HEAD_SIZE && HeadAt(data, pos) == Ok(Some(head))
  {
    HeadRoundTrip(head);
  }

  /** What follows the head of a written record. */
  lemma BehindRead(data: bytes, pos: nat, v: Value, mode: Compression, codec: Codec, maxRam: nat)
    requires Lossless(codec)
    requires Writable(v, mode, codec) && At(data, pos, Serialize(v, mode, codec))
    ensures var o := ReadBehind(data, pos + HEAD_SIZE, FinalHead(v, mode, codec), maxRam, codec);
            if FitsParser(v) then Yields(data, o, TrimmedValue(v), pos + |Serialize(v, mode, codec)|)
            else o == Failure(InvalidHeader)
  {
    var head := FinalHead(v, mode, codec);
    HeadSize(head);
    AtSplit(data, pos, PrintHead(head), Stored(v, mode, codec));
    if mode.Plain? {
      PlainRead(data, pos + HEAD_SIZE, v, codec, maxRam);
    } else {
      PackedRead(data, pos + HEAD_SIZE, v, mode, codec, maxRam);
    }
  }

  /**
   * A written record, wherever it stands, with any compression and any RAM
   * limit, is read back with its values trimmed; unless some header block has
   * more fields than the reader allows, and then it cannot be read at all. One
   * that was written with the type of a reservation is taken for one.
   */
  lemma RecordRead(data: bytes, pos: nat, v: Value, mode: Compression, codec: Codec, maxRam: nat)
    requires Lossless(codec)
    requires Writable(v, mode, codec) && At(data, pos, Serialize(v, mode, codec))
    ensures var o := ReadAt(data, pos, maxRam, codec);
            if v.recType.Reserved? then o == Nothing
            else if FitsParser(v) then Yields(data, o, TrimmedValue(v), pos + |Serialize(v, mode, codec)|)
            else o == Failure(InvalidHeader)
  {
    var head := FinalHead(v, mode, codec);
    AtSplit(data, pos, PrintHead(head), Stored(v, mode, codec));
    HeadRead(data, pos, head);
    BehindRead(data, pos, v, mode, codec, maxRam);
  }

  /** The condition on the headers of a record under which reading returns the record as it was written. */
  ghost predicate FaithfulRecord(v: Value) {
    Faithful(v.meta) && Faithful(v.reqHeaders) && Faithful(v.resHeaders)
  }

  lemma RecordRoundTrip(data: bytes, pos: nat, v: Value, mode: Compression, codec: Codec, maxRam: nat)
    requires Lossless(codec)
    requires Writable(v, mode, codec) && At(data, pos, Serialize(v, mode, codec))
    ensures Yields(data, ReadAt(data, pos, maxRam, codec), v, pos + |Serialize(v, mode, codec)|) <==>
            v.recType.Dialog? && FaithfulRecord(v)
  {
    RecordRead(data, pos, v, mode, codec, maxRam);
    TrimmedExactly(v.meta);
    TrimmedExactly(v.reqHeaders);
    TrimmedExactly(v.resHeaders);
  }
}
