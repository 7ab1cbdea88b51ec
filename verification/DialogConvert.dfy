/** Conversions between an HTTP dialog and a BARC record, whose meta headers carry what HTTP headers do not. */
module DialogConvert {
  import opened Bytes
  import opened HeadCodec
  import opened HeaderBlocks
  import opened BarcFormat

  datatype Version = Http09 | Http10 | Http11 | Http2 | Http3

  datatype Encoding = Chunked | Deflate | Gzip | Brotli | Compress | Identity

  datatype Prolog<+B> = Prolog(method_: bytes, url: bytes, reqHeaders: seq<Header>, reqBody: B)

  datatype Epilog<+B> = Epilog(version: Version, status: nat, resDecoded: seq<Encoding>, resHeaders: seq<Header>,
                               resBody: B)

  datatype Dialog<+B> = Dialog(pro: Prolog<B>, epi: Epilog<B>)

  /**
   * The parts of the http crate the conversions rely on: which texts it takes
   * for a URL or a method, and its reason phrases.
   */
  datatype Http = Http(isUrl: bytes -> bool, isMethod: bytes -> bool, reason: nat -> bytes)

  /** What the types of the http crate guarantee of a dialog. */
  predicate Typed<B>(d: Dialog<B>, http: Http) {
    http.isUrl(d.pro.url) && http.isMethod(d.pro.method_) && 100 <= d.epi.status <= 999
  }

  datatype DialogConvertError =
    | NoMetaUrl
    | InvalidUrl
    | NoMetaMethod
    | InvalidMethod
    | NoMetaResVersion
    | InvalidVersion(text: bytes)
    | NoMetaResStatus
    | MalformedMetaResStatus
    | InvalidStatusCode
    | InvalidResDecoded(text: bytes)

  // The meta header names: url, method, response-version, response-status, response-decoded

  const URL: bytes := [117, 114, 108]
  const METHOD: bytes := [109, 101, 116, 104, 111, 100]
  const RES_VERSION: bytes := [114, 101, 115, 112, 111, 110, 115, 101, 45, 118, 101, 114, 115, 105, 111, 110]
  const RES_STATUS: bytes := [114, 101, 115, 112, 111, 110, 115, 101, 45, 115, 116, 97, 116, 117, 115]
  const RES_DECODED: bytes := [114, 101, 115, 112, 111, 110, 115, 101, 45, 100, 101, 99, 111, 100, 101, 100]

  const COMMA: byte := 44
  const SEPARATOR: bytes := [44, 32]

  // Versions and status codes

  /** "HTTP/" and the version number. */
  function VersionText(v: Version): bytes {
    [72, 84, 84, 80, 47] +
    match v
    case Http09 => [48, 46, 57]
    case Http10 => [49, 46, 48]
    case Http11 => [49, 46, 49]
    case Http2 => [50, 46, 48]
    case Http3 => [51, 46, 48]
  }

  function VersionOf(text: bytes): Result<Version, DialogConvertError> {
    if text == VersionText(Http09) then Ok(Http09)
    else if text == VersionText(Http10) then Ok(Http10)
    else if text == VersionText(Http11) then Ok(Http11)
    else if text == VersionText(Http2) then Ok(Http2)
    else Err(InvalidVersion(text))
  }

  /** Three digits, a space and the reason phrase. */
  function StatusText(status: nat, http: Http): bytes
    requires 100 <= status <= 999
  {
    [(48 + status / 100) as byte, (48 + status / 10 % 10) as byte, (48 + status % 10) as byte, 32] + http.reason(status)
  }

  function StatusOf(text: bytes): Result<nat, DialogConvertError> {
    if |text| < 3 then Err(MalformedMetaResStatus)
    else if 49 <= text[0] <= 57 && 48 <= text[1] <= 57 && 48 <= text[2] <= 57 then
      Ok((text[0] - 48) as nat * 100 + (text[1] - 48) as nat * 10 + (text[2] - 48) as nat)
    else Err(InvalidStatusCode)
  }

  lemma StatusRoundTrip(status: nat, http: Http)
    requires 100 <= status <= 999
    ensures StatusOf(StatusText(status, http)) == Ok(status)
  {
    var text := StatusText(status, http);
    assert text[0] == (48 + status / 100) as byte && text[1] == (48 + status / 10 % 10) as byte
           && text[2] == (48 + status % 10) as byte;
  }

  // Lists of encodings

  /** The value as in an HTTP header. */
  function Name(e: Encoding): bytes {
    match e
    case Chunked => [99, 104, 117, 110, 107, 101, 100]
    case Deflate => [100, 101, 102, 108, 97, 116, 101]
    case Gzip => [103, 122, 105, 112]
    case Brotli => [98, 114]
    case Compress => [99, 111, 109, 112, 114, 101, 115, 115]
    case Identity => [105, 100, 101, 110, 116, 105, 116, 121]
  }

  /** The encodings that are recognized when a record is converted back. */
  function EncodingOf(name: bytes): Option<Encoding> {
    if name == Name(Chunked) then Some(Chunked)
    else if name == Name(Deflate) then Some(Deflate)
    else if name == Name(Encoding.Gzip) then Some(Encoding.Gzip)
    else if name == Name(Encoding.Brotli) then Some(Encoding.Brotli)
    else None
  }

  predicate Recognized(e: Encoding) {
    e.Chunked? || e.Deflate? || e.Gzip? || e.Brotli?
  }

  function Joined(es: seq<Encoding>): bytes
    decreases |es|
  {
    if es == [] then []
    else if |es| == 1 then Name(es[0])
    else Name(es[0]) + SEPARATOR + Joined(es[1..])
  }

  lemma {:induction false} JoinedOneMore(es: seq<Encoding>, e: Encoding)
    requires es != []
    ensures Joined(es + [e]) == Joined(es) + (SEPARATOR + Name(e))
    decreases |es|
  {
    var more := es + [e];
    if |es| == 1 {
      assert more[1..] == [e];
      Associative(Name(es[0]), SEPARATOR, Name(e));
    } else {
      JoinedOneMore(es[1..], e);
      assert more[1..] == es[1..] + [e];
      Associative(Name(es[0]) + SEPARATOR, Joined(es[1..]), SEPARATOR + Name(e));
    }
  }

  method Join(es: seq<Encoding>) returns (joined: bytes)
    ensures joined == Joined(es)
  {
    joined := [];
    for i := 0 to |es|
      invariant joined == Joined(es[..i]) && (i > 0 ==> joined != [])
    {
      assert es[..i + 1] == es[..i] + [es[i]];
      if joined != [] {
        JoinedOneMore(es[..i], es[i]);
        joined := joined + SEPARATOR;
        Associative(Joined(es[..i]), SEPARATOR, Name(es[i]));
      }
      joined := joined + Name(es[i]);
    }
    assert es[..|es|] == es;
  }

  /** The parts between commas. */
  function Split(s: bytes): (parts: seq<bytes>)
    ensures |parts| >= 1
  {
    if s == [] then [[]]
    else
      var rest := Split(s[1..]);
      if s[0] == COMMA then [[]] + rest else [[s[0]] + rest[0]] + rest[1..]
  }

  lemma {:induction false} SplitFirst(name: bytes, rest: bytes)
    requires COMMA !in name
    ensures Split(name + rest) == [name + Split(rest)[0]] + Split(rest)[1..]
  {
    if name == [] {
      assert name + rest == rest;
      assert [] + Split(rest)[0] == Split(rest)[0];
    } else {
      SplitFirst(name[1..], rest);
      assert (name + rest)[1..] == name[1..] + rest;
      Associative([name[0]], name[1..], Split(rest)[0]);
      assert [name[0]] + name[1..] == name;
    }
  }

  function Parse(parts: seq<bytes>): Result<seq<Encoding>, DialogConvertError>
    decreases |parts|
  {
    if parts == [] then Ok([])
    else
      var e := EncodingOf(Trim(parts[0]));
      if e.None? then Err(InvalidResDecoded(Trim(parts[0])))
      else Prepended([e.value], Parse(parts[1..]))
  }

  function Prepended(es: seq<Encoding>, r: Result<seq<Encoding>, DialogConvertError>)
    : Result<seq<Encoding>, DialogConvertError>
  {
    if r.Ok? then Ok(es + r.value) else r
  }

  /** Visible ASCII, space and tab. */
  predicate Text(s: bytes) {
    forall i | 0 <= i < |s| :: s[i] == 9 || 32 <= s[i] < 127
  }

  function DecodedOf(value: bytes): Result<seq<Encoding>, DialogConvertError> {
    if Text(value) then Parse(Split(value)) else Err(InvalidResDecoded(value))
  }

  method ParseDecoded(value: bytes) returns (r: Result<seq<Encoding>, DialogConvertError>)
    ensures r == DecodedOf(value)
  {
    if !Text(value) {
      return Err(InvalidResDecoded(value));
    }
    var parts := Split(value);
    var encodes: seq<Encoding> := [];
    assert parts[0..] == parts;
    assert Parse(parts).Ok? ==> [] + Parse(parts).value == Parse(parts).value;
    for i := 0 to |parts|
      invariant DecodedOf(value) == Prepended(encodes, Parse(parts[i..]))
    {
      var name := Trim(parts[i]);
      var e := EncodingOf(name);
      if e.None? {
        return Err(InvalidResDecoded(name));
      }
      assert parts[i..][1..] == parts[i + 1..];
      Regroup(encodes, e.value, Parse(parts[i + 1..]));
      encodes := encodes + [e.value];
    }
    assert encodes + [] == encodes;
    return Ok(encodes);
  }

  lemma Regroup(a: seq<Encoding>, e: Encoding, r: Result<seq<Encoding>, DialogConvertError>)
    ensures Prepended(a, Prepended([e], r)) == Prepended(a + [e], r)
  {
    if r.Ok? {
      assert a + ([e] + r.value) == (a + [e]) + r.value;
    }
  }

  // The conversions

  function Get(meta: seq<Header>, name: bytes): Option<bytes> {
    if meta == [] then None
    else if meta[0].name == name then Some(meta[0].value)
    else Get(meta[1..], name)
  }

  function MetaOf<B>(d: Dialog<B>, http: Http): seq<Header>
    requires Typed(d, http)
  {
    [Header(URL, d.pro.url), Header(METHOD, d.pro.method_), Header(RES_VERSION, VersionText(d.epi.version)),
     Header(RES_STATUS, StatusText(d.epi.status, http))] +
    if d.epi.resDecoded == [] then [] else [Header(RES_DECODED, Joined(d.epi.resDecoded))]
  }

  function RecordOf<B>(d: Dialog<B>, http: Http): Record<B>
    requires Typed(d, http)
  {
    Record(RecordType.Dialog, MetaOf(d, http), d.pro.reqHeaders, d.pro.reqBody, d.epi.resHeaders, d.epi.resBody)
  }

  method ToRecord<B>(d: Dialog<B>, http: Http) returns (rec: Record<B>)
    requires Typed(d, http)
    ensures rec == RecordOf(d, http)
  {
    var meta := [Header(URL, d.pro.url)];
    meta := meta + [Header(METHOD, d.pro.method_)];
    meta := meta + [Header(RES_VERSION, VersionText(d.epi.version))];
    meta := meta + [Header(RES_STATUS, StatusText(d.epi.status, http))];
    if d.epi.resDecoded != [] {
      var joined := Join(d.epi.resDecoded);
      meta := meta + [Header(RES_DECODED, joined)];
    }
    assert meta == MetaOf(d, http);
    rec := Record(RecordType.Dialog, meta, d.pro.reqHeaders, d.pro.reqBody, d.epi.resHeaders, d.epi.resBody);
  }

  function UrlOf(text: Option<bytes>, http: Http): Result<bytes, DialogConvertError> {
    if text.None? then Err(NoMetaUrl) else if http.isUrl(text.value) then Ok(text.value) else Err(InvalidUrl)
  }

  function MethodOf(text: Option<bytes>, http: Http): Result<bytes, DialogConvertError> {
    if text.None? then Err(NoMetaMethod) else if http.isMethod(text.value) then Ok(text.value) else Err(InvalidMethod)
  }

  function ResVersionOf(text: Option<bytes>): Result<Version, DialogConvertError> {
    if text.None? then Err(NoMetaResVersion) else VersionOf(text.value)
  }

  function ResStatusOf(text: Option<bytes>): Result<nat, DialogConvertError> {
    if text.None? then Err(NoMetaResStatus) else StatusOf(text.value)
  }

  function ResDecodedOf(text: Option<bytes>): Result<seq<Encoding>, DialogConvertError> {
    if text.None? then Ok([]) else DecodedOf(text.value)
  }

  /** The dialog from the outcomes for its five meta headers, or the first error. */
  function DialogFrom<B>(rec: Record<B>, url: Result<bytes, DialogConvertError>,
                         method_: Result<bytes, DialogConvertError>,
                         version: Result<Version, DialogConvertError>, status: Result<nat, DialogConvertError>,
                         decoded: Result<seq<Encoding>, DialogConvertError>): Result<Dialog<B>, DialogConvertError>
  {
    if url.Err? then Err(url.error)
    else if method_.Err? then Err(method_.error)
    else if version.Err? then Err(version.error)
    else if status.Err? then Err(status.error)
    else if decoded.Err? then Err(decoded.error)
    else Ok(Dialog.Dialog(Prolog(method_.value, url.value, rec.reqHeaders, rec.reqBody),
                          Epilog(version.value, status.value, decoded.value, rec.resHeaders, rec.resBody)))
  }

  function DialogOf<B>(rec: Record<B>, http: Http): Result<Dialog<B>, DialogConvertError> {
    DialogFrom(rec, UrlOf(Get(rec.meta, URL), http), MethodOf(Get(rec.meta, METHOD), http),
               ResVersionOf(Get(rec.meta, RES_VERSION)),
               ResStatusOf(Get(rec.meta, RES_STATUS)), ResDecodedOf(Get(rec.meta, RES_DECODED)))
  }

  method ToDialog<B>(rec: Record<B>, http: Http) returns (r: Result<Dialog<B>, DialogConvertError>)
    ensures r == DialogOf(rec, http)
  {
    var url := UrlOf(Get(rec.meta, URL), http);
    if url.Err? {
      return Err(url.error);
    }
    var method_ := MethodOf(Get(rec.meta, METHOD), http);
    if method_.Err? {
      return Err(method_.error);
    }
    var version := ResVersionOf(Get(rec.meta, RES_VERSION));
    if version.Err? {
      return Err(version.error);
    }
    var status := ResStatusOf(Get(rec.meta, RES_STATUS));
    if status.Err? {
      return Err(status.error);
    }
    var text, decoded := Get(rec.meta, RES_DECODED), [];
    if text.Some? {
      var parsed := ParseDecoded(text.value);
      if parsed.Err? {
        return Err(parsed.error);
      }
      decoded := parsed.value;
    }
    return Ok(Dialog.Dialog(Prolog(method_.value, url.value, rec.reqHeaders, rec.reqBody),
                            Epilog(version.value, status.value, decoded, rec.resHeaders, rec.resBody)));
  }

  // Round trip

  lemma NamesPlain(e: Encoding)
    ensures COMMA !in Name(e) && Text(Name(e)) && IsTrimmed(Name(e)) && Name(e) != [] && Trim(Name(e)) == Name(e)
    ensures EncodingOf(Name(e)) == if Recognized(e) then Some(e) else None
  {
    TrimKeeps(Name(e));
    match e
    case Chunked => assert Name(e)[0] == 99;
    case Deflate => assert Name(e)[0] == 100;
    case Gzip => assert Name(e)[0] == 103;
    case Brotli => assert Name(e)[0] == 98;
    case Compress => assert Name(e)[0] == 99 && Name(e)[1] == 111 && Name(Chunked)[1] == 104;
    case Identity => assert Name(e)[0] == 105;
  }

  lemma {:induction false} JoinedText(es: seq<Encoding>)
    ensures Text(Joined(es))
    decreases |es|
  {
    if es != [] {
      NamesPlain(es[0]);
      JoinedText(es[1..]);
    }
  }

  /** The list as it is understood when it is read back: all of it, or the first encoding that is not recognized. */
  function Understood(es: seq<Encoding>): Result<seq<Encoding>, DialogConvertError>
    decreases |es|
  {
    if es == [] then Ok([])
    else if Recognized(es[0]) then Prepended([es[0]], Understood(es[1..]))
    else Err(InvalidResDecoded(Name(es[0])))
  }

  /** The first `k` are recognized, and the next is not. */
  ghost predicate FirstUnrecognized(es: seq<Encoding>, k: nat) {
    k < |es| && !Recognized(es[k]) && forall j | 0 <= j < k :: Recognized(es[j])
  }

  lemma {:induction false} UnderstoodExactly(es: seq<Encoding>)
    ensures Understood(es) == Ok(es) <==> forall j | 0 <= j < |es| :: Recognized(es[j])
    ensures Understood(es) != Ok(es) ==>
              exists k: nat :: FirstUnrecognized(es, k) && Understood(es) == Err(InvalidResDecoded(Name(es[k])))
    decreases |es|
  {
    if es != [] {
      var rest := es[1..];
      UnderstoodExactly(rest);
      assert es == [es[0]] + rest;
      if !Recognized(es[0]) {
        assert FirstUnrecognized(es, 0);
      } else if Understood(rest) != Ok(rest) {
        var k: nat :| FirstUnrecognized(rest, k) && Understood(rest) == Err(InvalidResDecoded(Name(rest[k])));
        assert forall j | 0 <= j < k + 1 :: j > 0 ==> es[j] == rest[j - 1];
        assert FirstUnrecognized(es, k + 1) && es[k + 1] == rest[k];
      }
    }
  }

  lemma SplitNext(name: bytes, rest: bytes)
    requires COMMA !in name
    ensures Split(name + ([COMMA] + rest)) == [name] + Split(rest)
  {
    SplitFirst(name, [COMMA] + rest);
    assert ([COMMA] + rest)[1..] == rest;
    assert name + [] == name;
  }

  lemma TrimSpaced(name: bytes)
    ensures Trim([32] + name) == Trim(name)
  {
    assert ([32] + name)[1..] == name;
  }

  /** With or without a space before it, a name is understood as its encoding. */
  lemma NameParsed(space: bytes, e: Encoding, rest: seq<bytes>)
    requires space == [] || space == [32]
    ensures COMMA !in space + Name(e)
    ensures Parse([space + Name(e)] + rest) ==
            if Recognized(e) then Prepended([e], Parse(rest)) else Err(InvalidResDecoded(Name(e)))
  {
    NamesPlain(e);
    TrimSpaced(Name(e));
    assert [] + Name(e) == Name(e);
    assert ([space + Name(e)] + rest)[1..] == rest;
  }

  /** Split and trim undo the join, with or without a space before it. */
  lemma {:induction false} ParseJoined(space: bytes, es: seq<Encoding>)
    requires es != [] && (space == [] || space == [32])
    ensures Parse(Split(space + Joined(es))) == Understood(es)
    decreases |es|
  {
    var name := space + Name(es[0]);
    if |es| == 1 {
      NameParsed(space, es[0], []);
      SplitFirst(name, []);
      assert name + [] == name && es[1..] == [] && [name] + [] == [name];
    } else {
      var rest := [32] + Joined(es[1..]);
      NameParsed(space, es[0], Split(rest));
      SplitNext(name, rest);
      SpacedJoin(space, Name(es[0]), Joined(es[1..]));
      ParseJoined([32], es[1..]);
    }
  }

  lemma SpacedJoin(space: bytes, name: bytes, joined: bytes)
    ensures space + (name + SEPARATOR + joined) == (space + name) + ([COMMA] + ([32] + joined))
  {
    Associative(space, name + SEPARATOR, joined);
    Associative(space, name, SEPARATOR);
    Associative(space + name, SEPARATOR, joined);
    assert SEPARATOR + joined == [COMMA] + ([32] + joined);
  }

  /** What becomes of a dialog that is converted to a record and back. */
  function Recovered<B>(d: Dialog<B>): Result<Dialog<B>, DialogConvertError> {
    if d.epi.version.Http3? then Err(InvalidVersion(VersionText(d.epi.version)))
    else
      var decoded := Understood(d.epi.resDecoded);
      if decoded.Err? then Err(decoded.error) else Ok(d.(epi := d.epi.(resDecoded := decoded.value)))
  }

  /** The first entry of a name, at `k`, or none. */
  lemma {:induction false} GetFirst(meta: seq<Header>, name: bytes, k: nat)
    requires k <= |meta| && forall j | 0 <= j < k :: meta[j].name != name
    requires k < |meta| ==> meta[k].name == name
    ensures Get(meta, name) == if k < |meta| then Some(meta[k].value) else None
    decreases k
  {
    if k > 0 {
      GetFirst(meta[1..], name, k - 1);
    }
  }

  lemma MetaFound<B>(d: Dialog<B>, http: Http)
    requires Typed(d, http)
    ensures var meta := MetaOf(d, http);
            && Get(meta, URL) == Some(d.pro.url) && Get(meta, METHOD) == Some(d.pro.method_)
            && Get(meta, RES_VERSION) == Some(VersionText(d.epi.version))
            && Get(meta, RES_STATUS) == Some(StatusText(d.epi.status, http))
            && Get(meta, RES_DECODED) == if d.epi.resDecoded == [] then None else Some(Joined(d.epi.resDecoded))
  {
    var meta := MetaOf(d, http);
    assert RES_VERSION[9] != RES_STATUS[9] && RES_VERSION[9] != RES_DECODED[9] && RES_STATUS[9] != RES_DECODED[9];
    GetFirst(meta, URL, 0);
    GetFirst(meta, METHOD, 1);
    GetFirst(meta, RES_VERSION, 2);
    GetFirst(meta, RES_STATUS, 3);
    GetFirst(meta, RES_DECODED, 4);
  }

  lemma VersionRecovered(v: Version)
    ensures VersionOf(VersionText(v)) == if v.Http3? then Err(InvalidVersion(VersionText(v))) else Ok(v)
  {
    assert VersionText(Http09)[5] == 48 && VersionText(Http2)[5] == 50 && VersionText(Http3)[5] == 51;
    assert VersionText(Http10)[5] == VersionText(Http11)[5] == 49;
    assert VersionText(Http10)[7] == 48 && VersionText(Http11)[7] == 49;
  }

  lemma ThereAndBack<B>(d: Dialog<B>, http: Http)
    requires Typed(d, http)
    ensures DialogOf(RecordOf(d, http), http) == Recovered(d)
  {
    MetaFound(d, http);
    StatusRoundTrip(d.epi.status, http);
    var es := d.epi.resDecoded;
    if es != [] {
      JoinedText(es);
      ParseJoined([], es);
      assert [] + Joined(es) == Joined(es);
    }
    VersionRecovered(d.epi.version);
  }

  /**
   * A dialog survives the conversions exactly when its version is one of the
   * four that are recognized and so is every element of its encodings;
   * otherwise the first that is not is reported, the version before any.
   */
  lemma RoundTripExactly<B>(d: Dialog<B>, http: Http)
    requires Typed(d, http)
    ensures var back, es := DialogOf(RecordOf(d, http), http), d.epi.resDecoded;
            && (back == Ok(d) <==> !d.epi.version.Http3? && forall j | 0 <= j < |es| :: Recognized(es[j]))
            && (d.epi.version.Http3? ==> back == Err(InvalidVersion(VersionText(Http3))))
            && (back.Err? && !d.epi.version.Http3? ==>
                  exists k: nat :: FirstUnrecognized(es, k) && back == Err(InvalidResDecoded(Name(es[k]))))
  {
    ThereAndBack(d, http);
    UnderstoodExactly(d.epi.resDecoded);
    assert d.epi.(resDecoded := d.epi.resDecoded) == d.epi;
  }

  lemma {:induction false} ParsedRecognized(parts: seq<bytes>)
    requires Parse(parts).Ok?
    ensures forall j | 0 <= j < |Parse(parts).value| :: Recognized(Parse(parts).value[j])
    decreases |parts|
  {
    if parts != [] {
      ParsedRecognized(parts[1..]);
    }
  }

  /** Any record at all that converts to a dialog: that dialog survives being converted to a record and back. */
  lemma ConvertedSurvives<B>(rec: Record<B>, http: Http)
    requires DialogOf(rec, http).Ok?
    ensures Typed(DialogOf(rec, http).value, http)
    ensures DialogOf(RecordOf(DialogOf(rec, http).value, http), http) == DialogOf(rec, http)
  {
    var d := DialogOf(rec, http).value;
    var text := Get(rec.meta, RES_DECODED);
    if text.Some? {
      ParsedRecognized(Split(text.value));
    }
    RoundTripExactly(d, http);
  }

  /** The meta header of a name is there, and is good for something. */
  predicate Usable(meta: seq<Header>, name: bytes, good: bytes -> bool) {
    Get(meta, name).Some? && good(Get(meta, name).value)
  }

  /**
   * A record converts exactly when its four meta headers are there and good
   * and the encodings, if there are any, are all recognized; a header that is
   * missing is told from one that is bad.
   */
  lemma ConvertsExactly<B>(rec: Record<B>, http: Http)
    ensures DialogOf(rec, http).Ok? <==>
              && Usable(rec.meta, URL, http.isUrl) && Usable(rec.meta, METHOD, http.isMethod)
              && Usable(rec.meta, RES_VERSION, text => VersionOf(text).Ok?)
              && Usable(rec.meta, RES_STATUS, text => StatusOf(text).Ok?)
              && (Get(rec.meta, RES_DECODED).Some? ==>
                    Text(Get(rec.meta, RES_DECODED).value) && AllRecognized(Split(Get(rec.meta, RES_DECODED).value)))
    ensures DialogOf(rec, http) == Err(NoMetaUrl) <==> Get(rec.meta, URL).None?
    ensures Usable(rec.meta, URL, http.isUrl)
            ==> (DialogOf(rec, http) == Err(NoMetaMethod) <==> Get(rec.meta, METHOD).None?)
    ensures Usable(rec.meta, URL, http.isUrl) && Usable(rec.meta, METHOD, http.isMethod) ==>
              (DialogOf(rec, http) == Err(NoMetaResVersion) <==> Get(rec.meta, RES_VERSION).None?)
    ensures Usable(rec.meta, URL, http.isUrl) && Usable(rec.meta, METHOD, http.isMethod) &&
            Usable(rec.meta, RES_VERSION, text => VersionOf(text).Ok?) ==>
              (DialogOf(rec, http) == Err(NoMetaResStatus) <==> Get(rec.meta, RES_STATUS).None?)
  {
    var text := Get(rec.meta, RES_DECODED);
    if text.Some? {
      ParsedExactly(Split(text.value));
    }
  }

  ghost predicate AllRecognized(parts: seq<bytes>) {
    forall i | 0 <= i < |parts| :: EncodingOf(Trim(parts[i])).Some?
  }

  lemma {:induction false} ParsedExactly(parts: seq<bytes>)
    ensures Parse(parts).Ok? <==> AllRecognized(parts)
    ensures Parse(parts).Err? ==> Parse(parts).error.InvalidResDecoded?
    decreases |parts|
  {
    if parts != [] {
      ParsedExactly(parts[1..]);
      assert forall i | 0 < i < |parts| :: parts[i] == parts[1..][i - 1];
    }
  }

  // The meta headers are such that a BARC file keeps them as they are

  /** A header value without outer whitespace. */
  ghost predicate PlainValue(s: bytes) {
    IsTrimmed(s) && forall i | 0 <= i < |s| :: ValueByte(s[i])
  }

  /** URLs, methods and reason phrases are such texts. */
  ghost predicate PlainTexts(http: Http) {
    && (forall text: bytes :: http.isUrl(text) || http.isMethod(text) ==> PlainValue(text))
    && (forall status: nat :: http.reason(status) != [] && PlainValue(http.reason(status)))
  }

  lemma StatusPlain(status: nat, http: Http)
    requires 100 <= status <= 999 && PlainTexts(http)
    ensures PlainValue(StatusText(status, http))
  {
    var text, reason := StatusText(status, http), http.reason(status);
    assert forall i | 4 <= i < |text| :: text[i] == reason[i - 4];
  }

  lemma {:induction false} JoinedPlain(es: seq<Encoding>)
    ensures PlainValue(Joined(es)) && (es != [] ==> Joined(es) != [])
    decreases |es|
  {
    if es != [] {
      NamesPlain(es[0]);
      JoinedPlain(es[1..]);
    }
  }

  ghost predicate PlainName(name: bytes) {
    name != [] && forall i | 0 <= i < |name| :: TokenByte(name[i]) && Lower(name[i]) == name[i]
  }

  lemma MetaNames()
    ensures PlainName(URL) && PlainName(METHOD) && PlainName(RES_VERSION) && PlainName(RES_STATUS)
            && PlainName(RES_DECODED)
  {
  }

  lemma VersionPlain(v: Version)
    ensures PlainValue(VersionText(v))
  {
  }

  lemma MetaFaithful<B>(d: Dialog<B>, http: Http)
    requires Typed(d, http) && PlainTexts(http)
    ensures ValidHeaders(MetaOf(d, http)) && Faithful(MetaOf(d, http))
  {
    var meta := MetaOf(d, http);
    MetaNames();
    VersionPlain(d.epi.version);
    StatusPlain(d.epi.status, http);
    JoinedPlain(d.epi.resDecoded);
    forall i | 0 <= i < |meta| ensures PlainName(meta[i].name) && PlainValue(meta[i].value) {
    }
  }
}
