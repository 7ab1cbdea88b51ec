/** The exact bytes of the format and of the meta headers, as text: what no agreement of printer and parser can fix. */
module Literals {
  import opened Bytes
  import opened HeadCodec
  import opened HeaderBlocks
  import opened Encoders
  import opened BarcFormat
  import opened DialogConvert

  /** The codes of the characters, which are all to be ASCII. */
  function Ascii(s: string): (r: bytes)
    ensures |r| == |s|
  {
    seq(|s|, i requires 0 <= i < |s| => if s[i] < '\U{80}' then s[i] as int as byte else 0)
  }

  // Records

  lemma {:induction false} HexZeros(width: nat)
    requires width > 0
    ensures Hex(0, width) == seq(width, _ => 48)
  {
    if width > 1 {
      HexZeros(width - 1);
    }
  }

  lemma HexOneDigit(v: nat, width: nat)
    requires v < 16 && width > 1
    ensures Hex(v, width) == seq(width - 1, _ => 48) + [HexDigit(v)]
  {
    HexZeros(width - 1);
  }

  /** A field is its name, a colon and a space, its value, and a line end. */
  lemma FieldLiteral(h: Header)
    ensures FieldLine(h) == h.name + Ascii(": ") + h.value + Ascii("\r\n")
  {
    assert [COLON, 32] == Ascii(": ") && CRLF == Ascii("\r\n");
  }

  /** A field is read in any case, without a space or with more, and whatever follows it. */
  lemma FieldReadLiteral(rest: bytes)
    ensures ReadLine(Ascii("Ab") + (Ascii(":") + (Ascii("\tX ") + (Ascii("\r\n") + rest)))) ==
            Field(Header(Ascii("ab"), Ascii("X")), 8)
  {
    assert [COLON] == Ascii(":") && CRLF == Ascii("\r\n") && Ascii("\tX ") == [9, 88, 32];
    LineOf(Ascii("Ab"), [9, 88, 32], rest);
    assert LowerAll(Ascii("Ab")) == Ascii("ab");
    assert [9, 88, 32][1..] == [88, 32] && [88, 32][..1] == [88] == Ascii("X");
  }

  lemma FlagLiterals()
    ensures [Reserved.Flag(), RecordType.Dialog.Flag()] == Ascii("RD")
    ensures [Plain.Flag(), Compression.Gzip.Flag(), Compression.Brotli.Flag()] == Ascii("PZB")
  {
  }

  /** A head, for any of the numbers and flags. */
  lemma HeadLiteral(h: RecordHead)
    ensures PrintHead(h) ==
            Ascii("BARC2 ") + Hex(h.len, 12) + Ascii(" ") + [h.recType.Flag(), h.compress.Flag()] +
            Ascii(" ") + Hex(h.meta, 5) + Ascii(" ") + Hex(h.reqH, 5) + Ascii(" ") + Hex(h.reqB, 10) +
            Ascii(" ") + Hex(h.resH, 5) + Ascii("\r\n\r\n")
  {
    assert MAGIC == Ascii("BARC2 ") && SPACE == Ascii(" ") && TRAILER == Ascii("\r\n\r\n");
  }

  predicate IsHexDigit(b: byte) {
    '0' as int <= b as int <= '9' as int || 'a' as int <= b as int <= 'f' as int
  }

  predicate AllHex(s: bytes) {
    forall i | 0 <= i < |s| :: IsHexDigit(s[i])
  }

  lemma {:induction false} HexAccepted(s: bytes)
    ensures HexValue(s).Ok? <==> AllHex(s)
    ensures HexValue(s).Err?
            ==> exists i | 0 <= i < |s| :: !IsHexDigit(s[i]) && HexValue(s) == Err(ReadInvalidRecHeadHex(s[i]))
    decreases |s|
  {
    if s != [] {
      var front := s[..|s| - 1];
      HexAccepted(front);
      assert forall i | 0 <= i < |front| :: front[i] == s[i];
    }
  }

  /** Which 54 bytes are a head; the first four checks that can fail are made in this order. */
  lemma HeadAcceptedExactly(buf: bytes)
    requires |buf| == HEAD_SIZE
    ensures ParseHead(buf).Ok? <==>
              && buf[0..6] == Ascii("BARC2 ") && AllHex(buf[6..18]) && buf[19] in Ascii("RD") && buf[20] in Ascii("PZB")
              && AllHex(buf[22..27]) && AllHex(buf[28..33]) && AllHex(buf[34..44]) && AllHex(buf[45..50])
    ensures buf[0..6] != Ascii("BARC2 ") ==> ParseHead(buf) == Err(ReadInvalidRecHead)
    ensures buf[0..6] == Ascii("BARC2 ") && AllHex(buf[6..18]) && buf[19] !in Ascii("RD") ==>
              ParseHead(buf) == Err(UnknownRecordType(buf[19]))
    ensures buf[0..6] == Ascii("BARC2 ") && AllHex(buf[6..18]) && buf[19] in Ascii("RD") && buf[20] !in Ascii("PZB") ==>
              ParseHead(buf) == Err(UnknownCompression(buf[20]))
  {
    assert MAGIC == Ascii("BARC2 ") && Ascii("RD") == [82, 68] && Ascii("PZB") == [80, 90, 66];
    HexAccepted(buf[6..18]);
    HexAccepted(buf[22..27]);
    HexAccepted(buf[28..33]);
    HexAccepted(buf[34..44]);
    HexAccepted(buf[45..50]);
    FieldsAccepted(buf, HexValue);
  }

  lemma FieldsAccepted(buf: bytes, number: bytes -> Result<nat, BarcError>)
    requires |buf| == HEAD_SIZE
    ensures var r := ParseHeadWith(buf, number);
            && (r.Ok? <==>
                  && buf[0..6] == MAGIC && number(buf[6..18]).Ok? && buf[19] in [82, 68] && buf[20] in [80, 90, 66]
                  && number(buf[22..27]).Ok? && number(buf[28..33]).Ok? && number(buf[34..44]).Ok?
                  && number(buf[45..50]).Ok?)
            && (buf[0..6] != MAGIC ==> r == Err(ReadInvalidRecHead))
            && (buf[0..6] == MAGIC && number(buf[6..18]).Ok? ==>
                  if buf[19] !in [82, 68] then r == Err(UnknownRecordType(buf[19]))
                  else buf[20] !in [80, 90, 66] ==> r == Err(UnknownCompression(buf[20])))
  {
  }

  /** A record with something in every block, all of different lengths. */
  const SAMPLE: Value :=
    Record(RecordType.Dialog, [Header(Ascii("a"), Ascii("m"))],
           [Header(Ascii("b"), Ascii("qq"))], Ascii("ask"),
           [Header(Ascii("c"), Ascii("sss"))], Ascii("tell"))

  lemma OneField(h: Header)
    ensures FieldLines([h]) == h.name + Ascii(": ") + h.value + Ascii("\r\n")
  {
    FieldLinesOne([], h);
    FieldLiteral(h);
    assert [] + [h] == [h] && [] + FieldLine(h) == FieldLine(h);
  }

  lemma SampleLines()
    ensures FieldLines(SAMPLE.meta) == Ascii("a: m\r\n")
    ensures FieldLines(SAMPLE.reqHeaders) == Ascii("b: qq\r\n")
    ensures FieldLines(SAMPLE.resHeaders) == Ascii("c: sss\r\n")
  {
    OneField(SAMPLE.meta[0]);
    OneField(SAMPLE.reqHeaders[0]);
    OneField(SAMPLE.resHeaders[0]);
  }

  /** Plain: every block is padded, and the blocks are in this order. */
  lemma PlainPayloadLiteral()
    ensures Payload(SAMPLE, true) ==
            Ascii("a: m\r\n\r\n") + (Ascii("b: qq\r\n\r\n") + (Ascii("ask\r\n") + Ascii("c: sss\r\n\r\n"))) +
            Ascii("tell\r\n")
  {
    SampleLines();
    assert HeaderBlock(SAMPLE.meta, true) == Ascii("a: m\r\n\r\n");
    assert HeaderBlock(SAMPLE.reqHeaders, true) == Ascii("b: qq\r\n\r\n");
    assert BodyBlock(SAMPLE.reqBody, true) == Ascii("ask\r\n");
    assert HeaderBlock(SAMPLE.resHeaders, true) == Ascii("c: sss\r\n\r\n");
    assert BodyBlock(SAMPLE.resBody, true) == Ascii("tell\r\n");
  }

  /** Compressed: no block is padded. */
  lemma UnpaddedPayloadLiteral()
    ensures Payload(SAMPLE, false) ==
            Ascii("a: m\r\n") + (Ascii("b: qq\r\n") + (Ascii("ask") + Ascii("c: sss\r\n"))) + Ascii("tell")
  {
    SampleLines();
  }

  lemma SampleLength()
    ensures Hex(0x26, 12) == Ascii("000000000026")
  {
    HexOneDigit(2, 11);
    assert Hex(0x26, 12) == Hex(2, 11) + [54];
  }

  lemma SampleNumbers()
    ensures Hex(8, 5) == Ascii("00008") && Hex(9, 5) == Ascii("00009") && Hex(10, 5) == Ascii("0000a")
    ensures Hex(5, 10) == Ascii("0000000005")
  {
    HexOneDigit(8, 5);
    HexOneDigit(9, 5);
    HexOneDigit(10, 5);
    HexOneDigit(5, 10);
  }

  lemma SampleHead()
    ensures PrintHead(RecordHead(0x26, RecordType.Dialog, Plain, 8, 9, 5, 10)) ==
            Ascii("BARC2 ") + Ascii("000000000026") + Ascii(" ") + Ascii("DP") + Ascii(" ") + Ascii("00008") +
            Ascii(" ") + Ascii("00009") + Ascii(" ") + Ascii("0000000005") + Ascii(" ") + Ascii("0000a") +
            Ascii("\r\n\r\n")
  {
    SampleLength();
    SampleNumbers();
    HeadLiteral(RecordHead(0x26, RecordType.Dialog, Plain, 8, 9, 5, 10));
    assert [RecordType.Dialog.Flag(), Plain.Flag()] == Ascii("DP");
  }

  /** The sample in a file, to the byte. */
  lemma PlainRecordLiteral(codec: Codec)
    ensures Serialize(SAMPLE, Plain, codec) ==
            Ascii("BARC2 ") + Ascii("000000000026") + Ascii(" ") + Ascii("DP") + Ascii(" ") + Ascii("00008") +
            Ascii(" ") + Ascii("00009") + Ascii(" ") + Ascii("0000000005") + Ascii(" ") + Ascii("0000a") +
            Ascii("\r\n\r\n") +
            (Ascii("a: m\r\n\r\n") + (Ascii("b: qq\r\n\r\n") + (Ascii("ask\r\n") + Ascii("c: sss\r\n\r\n"))) +
             Ascii("tell\r\n"))
  {
    PlainPayloadLiteral();
    SampleLines();
    SampleHead();
    assert FinalHead(SAMPLE, Plain, codec) == RecordHead(0x26, RecordType.Dialog, Plain, 8, 9, 5, 10);
  }

  /** The head of the sample when it is compressed has the lengths of the blocks before that, and the encoded length. */
  lemma PackedRecordLiteral(mode: Compression, codec: Codec)
    requires !mode.Plain?
    ensures Stored(SAMPLE, mode, codec) ==
            codec.encode(mode, Ascii("a: m\r\n") + (Ascii("b: qq\r\n") + (Ascii("ask") + Ascii("c: sss\r\n"))) +
                               Ascii("tell"))
    ensures FinalHead(SAMPLE, mode, codec) ==
            RecordHead(|Stored(SAMPLE, mode, codec)|, RecordType.Dialog, mode, 6, 7, 3, 8)
  {
    UnpaddedPayloadLiteral();
    SampleLines();
  }

  // Dialogs

  /** The texts that the source spells out. */
  function VersionLiteral(v: Version): string {
    match v
    case Http09 => "HTTP/0.9"
    case Http10 => "HTTP/1.0"
    case Http11 => "HTTP/1.1"
    case Http2 => "HTTP/2.0"
    case Http3 => "HTTP/3.0"
  }

  lemma VersionTexts(v: Version)
    ensures VersionText(v) == Ascii(VersionLiteral(v))
  {
  }

  lemma NameTexts()
    ensures URL == Ascii("url") && METHOD == Ascii("method") && RES_VERSION == Ascii("response-version")
    ensures RES_STATUS == Ascii("response-status") && RES_DECODED == Ascii("response-decoded")
  {
  }

  lemma EncodingTexts()
    ensures Name(Chunked) == Ascii("chunked") && Name(Deflate) == Ascii("deflate")
    ensures Name(Encoding.Gzip) == Ascii("gzip") && Name(Encoding.Brotli) == Ascii("br")
    ensures Name(Compress) == Ascii("compress") && Name(Identity) == Ascii("identity")
  {
  }

  /** A record of a dialog has these meta headers and no others, in this order. */
  lemma RecordLiterals<B>(d: Dialog<B>, http: Http)
    requires Typed(d, http)
    ensures var meta := RecordOf(d, http).meta;
            && |meta| == (if d.epi.resDecoded == [] then 4 else 5)
            && meta[0] == Header(Ascii("url"), d.pro.url)
            && meta[1] == Header(Ascii("method"), d.pro.method_)
            && meta[2] == Header(Ascii("response-version"), Ascii(VersionLiteral(d.epi.version)))
            && meta[3].name == Ascii("response-status")
            && (d.epi.status == 200 ==> meta[3].value == Ascii("200 ") + http.reason(200))
            && (d.epi.status == 404 ==> meta[3].value == Ascii("404 ") + http.reason(404))
            && (d.epi.resDecoded != [] ==> meta[4].name == Ascii("response-decoded"))
            && (d.epi.resDecoded == [Chunked] ==> meta[4].value == Ascii("chunked"))
            && (d.epi.resDecoded == [Chunked, Encoding.Gzip] ==> meta[4].value == Ascii("chunked, gzip"))
  {
    NameTexts();
    VersionTexts(d.epi.version);
    StatusLiterals(http);
    JoinedLiterals();
  }

  lemma StatusLiterals(http: Http)
    ensures StatusText(200, http) == Ascii("200 ") + http.reason(200)
    ensures StatusText(404, http) == Ascii("404 ") + http.reason(404)
  {
    assert Ascii("200 ") == [50, 48, 48, 32] && Ascii("404 ") == [52, 48, 52, 32];
  }

  lemma JoinedLiterals()
    ensures Joined([Chunked]) == Ascii("chunked")
    ensures Joined([Chunked, Encoding.Gzip]) == Ascii("chunked, gzip")
  {
    EncodingTexts();
    assert [Chunked, Encoding.Gzip][1..] == [Encoding.Gzip];
    assert Ascii("chunked, gzip") == Ascii("chunked") + Ascii(", ") + Ascii("gzip");
    assert SEPARATOR == Ascii(", ");
  }

  /** A record with these texts converts to this dialog. */
  lemma DialogLiterals<B>(rec: Record<B>, v: Version, http: Http)
    requires |rec.meta| == 5 && !v.Http3?
    requires rec.meta[0].name == Ascii("url") && http.isUrl(rec.meta[0].value)
    requires rec.meta[1].name == Ascii("method") && http.isMethod(rec.meta[1].value)
    requires rec.meta[2] == Header(Ascii("response-version"), Ascii(VersionLiteral(v)))
    requires rec.meta[3] == Header(Ascii("response-status"), Ascii("404 Not Found"))
    requires rec.meta[4] == Header(Ascii("response-decoded"), Ascii("chunked, gzip"))
    ensures DialogOf(rec, http) ==
            Ok(Dialog.Dialog(Prolog(rec.meta[1].value, rec.meta[0].value, rec.reqHeaders, rec.reqBody),
                             Epilog(v, 404, [Chunked, Encoding.Gzip], rec.resHeaders, rec.resBody)))
  {
    NameTexts();
    EntriesFound(rec.meta);
    VersionRead(v);
    DecodedLiteral();
    StatusRead();
  }

  /** Texts that are refused, and how. */
  lemma RefusedLiterals()
    ensures VersionOf(Ascii("HTTP/3.0")) == Err(InvalidVersion(Ascii("HTTP/3.0")))
    ensures StatusOf(Ascii("20")) == Err(MalformedMetaResStatus) && StatusOf(Ascii("099")) == Err(InvalidStatusCode)
    ensures DecodedOf(Ascii("gzip,") + [200]) == Err(InvalidResDecoded(Ascii("gzip,") + [200]))
  {
    VersionTexts(Http3);
    VersionRecovered(Http3);
    assert (Ascii("gzip,") + [200])[5] == 200;
  }

  lemma EntriesFound(meta: seq<Header>)
    requires |meta| == 5 && meta[0].name == URL && meta[1].name == METHOD && meta[2].name == RES_VERSION
    requires meta[3].name == RES_STATUS && meta[4].name == RES_DECODED
    ensures Get(meta, URL) == Some(meta[0].value) && Get(meta, METHOD) == Some(meta[1].value)
    ensures Get(meta, RES_VERSION) == Some(meta[2].value) && Get(meta, RES_STATUS) == Some(meta[3].value)
    ensures Get(meta, RES_DECODED) == Some(meta[4].value)
  {
    NamesApart();
    GetFirst(meta, URL, 0);
    GetFirst(meta, METHOD, 1);
    GetFirst(meta, RES_VERSION, 2);
    GetFirst(meta, RES_STATUS, 3);
    GetFirst(meta, RES_DECODED, 4);
  }

  lemma VersionRead(v: Version)
    requires !v.Http3?
    ensures VersionOf(Ascii(VersionLiteral(v))) == Ok(v)
  {
    VersionTexts(v);
    VersionRecovered(v);
  }

  lemma StatusRead()
    ensures StatusOf(Ascii("404 Not Found")) == Ok(404)
  {
  }

  lemma NamesApart()
    ensures URL != METHOD && URL != RES_VERSION && URL != RES_STATUS && URL != RES_DECODED
    ensures METHOD != RES_VERSION && METHOD != RES_STATUS && METHOD != RES_DECODED
    ensures RES_VERSION != RES_STATUS && RES_VERSION != RES_DECODED && RES_STATUS != RES_DECODED
  {
    assert RES_VERSION[9] != RES_STATUS[9] && RES_VERSION[9] != RES_DECODED[9] && RES_STATUS[9] != RES_DECODED[9];
  }

  lemma DecodedLiteral()
    ensures DecodedOf(Ascii("chunked, gzip")) == Ok([Chunked, Encoding.Gzip])
  {
    var es := [Chunked, Encoding.Gzip];
    JoinedLiterals();
    JoinedText(es);
    ParseJoined([], es);
    UnderstoodExactly(es);
    assert [] + Joined(es) == Joined(es);
  }
}
