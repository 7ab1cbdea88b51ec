/** The fixed 54-byte record head: printing, parsing, and the limits under which they are inverse. */
module HeadCodec {
  import opened Bytes

  datatype RecordType = Reserved | Dialog {
    /** 'R' or 'D'. */
    function Flag(): byte {
      match this case Reserved => 82 case Dialog => 68
    }
  }

  datatype Compression = Plain | Gzip | Brotli {
    /** 'P', 'Z' or 'B'. */
    function Flag(): byte {
      match this case Plain => 80 case Gzip => 90 case Brotli => 66
    }
  }

  datatype RecordHead = RecordHead(
    len: nat, recType: RecordType, compress: Compression,
    meta: nat, reqH: nat, reqB: nat, resH: nat)

  /** Everything that `read` or `write` of a BARC file can report; Panicked is a failed assertion or an underflow. */
  datatype BarcError =
    | ReadIncompleteRecHead(size: nat)
    | ReadInvalidRecHead
    | ReadInvalidRecHeadHex(digit: byte)
    | UnknownRecordType(flag: byte)
    | UnknownCompression(flag: byte)
    | InvalidHeader
    | UnexpectedEof
    | BodyTooLong(size: nat)
    | IoFailed
    | Panicked

  const HEAD_SIZE: nat := 54
  const MAX_RECORD: nat := 0xffff_ffff_ffff
  const MAX_HBLOCK: nat := 0xf_ffff
  const MAX_REQ_BODY: nat := 0xff_ffff_ffff

  const RESERVE_HEAD := RecordHead(0, Reserved, Plain, 0, 0, 0, 0)

  /** "BARC2 ". */
  const MAGIC: bytes := [66, 65, 82, 67, 50, 32]
  const SPACE: bytes := [32]
  const TRAILER: bytes := [13, 10, 13, 10]

  predicate WithinLimits(h: RecordHead) {
    h.len <= MAX_RECORD && h.meta <= MAX_HBLOCK && h.reqH <= MAX_HBLOCK &&
    h.reqB <= MAX_REQ_BODY && h.resH <= MAX_HBLOCK
  }

  function RecordTypeOf(f: byte): Result<RecordType, BarcError> {
    if f == 82 then Ok(Reserved) else if f == 68 then Ok(Dialog) else Err(UnknownRecordType(f))
  }

  function CompressionOf(f: byte): Result<Compression, BarcError> {
    if f == 80 then Ok(Plain) else if f == 90 then Ok(Gzip) else if f == 66 then Ok(Brotli)
    else Err(UnknownCompression(f))
  }

  // Hexadecimal

  function HexDigit(d: nat): byte
    requires d < 16
  {
    if d < 10 then (48 + d) as byte else (87 + d) as byte
  }

  /** Lowercase hexadecimal, zero-padded to at least `width` digits (and wider if the value needs it). */
  function Hex(v: nat, width: nat): bytes
    decreases v, width
  {
    if v < 16 && width <= 1 then [HexDigit(v)]
    else Hex(v / 16, if width > 0 then width - 1 else 0) + [HexDigit(v % 16)]
  }

  function DigitValue(d: byte): Option<nat> {
    if 48 <= d <= 57 then Some(d as nat - 48)
    else if 97 <= d <= 102 then Some(10 + (d as nat - 97))
    else None
  }

  /** The value of a run of hexadecimal digits, or the first byte that is not one. */
  function HexValue(buf: bytes): Result<nat, BarcError> {
    if buf == [] then Ok(0)
    else
      var last := |buf| - 1;
      match HexValue(buf[..last])
      case Err(e) => Err(e)
      case Ok(v) =>
        match DigitValue(buf[last])
        case None => Err(ReadInvalidRecHeadHex(buf[last]))
        case Some(d) => Ok(16 * v + d)
  }

  method ParseHex(buf: bytes) returns (r: Result<nat, BarcError>)
    ensures r == HexValue(buf)
  {
    var v: nat := 0;
    for i := 0 to |buf|
      invariant HexValue(buf[..i]) == Ok(v)
    {
      assert buf[..i + 1][..i] == buf[..i];
      v := v * 16;
      var d := buf[i];
      if 48 <= d && d <= 57 {
        v := v + (d - 48) as nat;
      } else if 97 <= d && d <= 102 {
        v := v + 10 + (d - 97) as nat;
      } else {
        FirstBadDigit(buf, i + 1);
        return Err(ReadInvalidRecHeadHex(d));
      }
    }
    assert buf[..|buf|] == buf;
    return Ok(v);
  }

  /** A bad digit in a prefix decides the outcome for the whole run. */
  lemma {:induction false} FirstBadDigit(buf: bytes, n: nat)
    requires n <= |buf| && HexValue(buf[..n]).Err?
    ensures HexValue(buf) == HexValue(buf[..n])
    decreases |buf|
  {
    if n == |buf| {
      assert buf[..n] == buf;
    } else {
      var front := buf[..|buf| - 1];
      assert front[..n] == buf[..n];
      FirstBadDigit(front, n);
    }
  }

  function Pow16(n: nat): nat {
    if n == 0 then 1 else 16 * Pow16(n - 1)
  }

  lemma {:induction false} HexRoundTrip(v: nat, width: nat)
    ensures HexValue(Hex(v, width)) == Ok(v)
    decreases v, width
  {
    var digits := Hex(v, width);
    if v < 16 && width <= 1 {
      assert digits[..0] == [];
    } else {
      var w := if width > 0 then width - 1 else 0;
      HexRoundTrip(v / 16, w);
      assert digits[..|digits| - 1] == Hex(v / 16, w);
    }
  }

  /** The field is exactly as wide as asked for precisely when the value fits in it. */
  lemma {:induction false} HexWidth(v: nat, width: nat)
    ensures |Hex(v, width)| >= 1 && |Hex(v, width)| >= width
    ensures |Hex(v, width)| == width <==> width > 0 && v < Pow16(width)
    decreases v, width
  {
    if v < 16 && width <= 1 {
      assert width == 1 ==> Pow16(width) == 16 * Pow16(0);
    } else {
      var w := if width > 0 then width - 1 else 0;
      HexWidth(v / 16, w);
      if width > 0 {
        assert v / 16 < Pow16(w) <==> v < 16 * Pow16(w);
      }
    }
  }

  /** The other direction: what is accepted as a number is what the printer prints for it. */
  lemma {:induction false} HexPrintsWhatItAccepts(buf: bytes)
    requires HexValue(buf).Ok?
    ensures HexValue(buf).value < Pow16(|buf|)
    ensures buf != [] ==> Hex(HexValue(buf).value, |buf|) == buf
  {
    if buf != [] {
      var last := |buf| - 1;
      var front := buf[..last];
      HexPrintsWhatItAccepts(front);
      var v, d := HexValue(front).value, DigitValue(buf[last]).value;
      assert HexDigit(d) == buf[last];
      assert (16 * v + d) / 16 == v && (16 * v + d) % 16 == d;
      assert buf == front + [buf[last]];
    }
  }

  lemma FieldWidths()
    ensures Pow16(5) == MAX_HBLOCK + 1 && Pow16(10) == MAX_REQ_BODY + 1 && Pow16(12) == MAX_RECORD + 1
  {
    assert Pow16(2) == 0x100;
    assert Pow16(4) == 0x1_0000;
    assert Pow16(6) == 0x100_0000;
    assert Pow16(8) == 0x1_0000_0000;
  }

  // The head

  function PrintHead(h: RecordHead): bytes {
    MAGIC + Hex(h.len, 12) + SPACE + [h.recType.Flag(), h.compress.Flag()] + SPACE +
    Hex(h.meta, 5) + SPACE + Hex(h.reqH, 5) + SPACE + Hex(h.reqB, 10) + SPACE + Hex(h.resH, 5) + TRAILER
  }

  /** The head from the outcomes of its fields, or the first error. */
  function HeadFrom(len: Result<nat, BarcError>, recType: Result<RecordType, BarcError>,
                    compress: Result<Compression, BarcError>,
                    meta: Result<nat, BarcError>, reqH: Result<nat, BarcError>,
                    reqB: Result<nat, BarcError>, resH: Result<nat, BarcError>)
    : Result<RecordHead, BarcError>
  {
    if len.Err? then Err(len.error)
    else if recType.Err? then Err(recType.error)
    else if compress.Err? then Err(compress.error)
    else if meta.Err? then Err(meta.error)
    else if reqH.Err? then Err(reqH.error)
    else if reqB.Err? then Err(reqB.error)
    else if resH.Err? then Err(resH.error)
    else Ok(RecordHead(len.value, recType.value, compress.value, meta.value, reqH.value, reqB.value, resH.value))
  }

  function ParseHeadWith(buf: bytes, number: bytes -> Result<nat, BarcError>): Result<RecordHead, BarcError>
    requires |buf| == HEAD_SIZE
  {
    if buf[0..6] != MAGIC then Err(ReadInvalidRecHead)
    else HeadFrom(number(buf[6..18]), RecordTypeOf(buf[19]), CompressionOf(buf[20]), number(buf[22..27]),
                  number(buf[28..33]), number(buf[34..44]), number(buf[45..50]))
  }

  function ParseHead(buf: bytes): Result<RecordHead, BarcError>
    requires |buf| == HEAD_SIZE
  {
    ParseHeadWith(buf, HexValue)
  }

  /** The size assertion in the writer is exactly the conjunction of its five range assertions. */
  lemma HeadSize(h: RecordHead)
    ensures |PrintHead(h)| == HEAD_SIZE <==> WithinLimits(h)
  {
    FieldWidths();
    HexWidth(h.len, 12);
    HexWidth(h.meta, 5);
    HexWidth(h.reqH, 5);
    HexWidth(h.reqB, 10);
    HexWidth(h.resH, 5);
  }

  /** Where each field of a printed head stands. */
  lemma PrintedFields(h: RecordHead)
    requires WithinLimits(h)
    ensures var b := PrintHead(h);
            && |b| == HEAD_SIZE
            && b[0..6] == MAGIC && b[6..18] == Hex(h.len, 12)
            && b[19] == h.recType.Flag() && b[20] == h.compress.Flag()
            && b[22..27] == Hex(h.meta, 5) && b[28..33] == Hex(h.reqH, 5)
            && b[34..44] == Hex(h.reqB, 10) && b[45..50] == Hex(h.resH, 5)
  {
    HeadSize(h);
    FieldWidths();
    HexWidth(h.len, 12);
    HexWidth(h.meta, 5);
    HexWidth(h.reqH, 5);
    HexWidth(h.reqB, 10);
    HexWidth(h.resH, 5);
    var flags := [h.recType.Flag(), h.compress.Flag()];
    LayOut(PrintHead(h), Hex(h.len, 12), flags, Hex(h.meta, 5), Hex(h.reqH, 5), Hex(h.reqB, 10), Hex(h.resH, 5));
    assert PrintHead(h)[19..21] == flags;
    assert PrintHead(h)[19] == flags[0] && PrintHead(h)[20] == flags[1];
  }

  /** Seven fields of known widths with a space after each but the last. */
  lemma LayOut(b: bytes, len: bytes, flags: bytes, meta: bytes, reqH: bytes, reqB: bytes, resH: bytes)
    requires |len| == 12 && |flags| == 2 && |meta| == 5 && |reqH| == 5 && |reqB| == 10 && |resH| == 5
    requires b == MAGIC + len + SPACE + flags + SPACE + meta + SPACE + reqH + SPACE + reqB + SPACE + resH + TRAILER
    ensures |b| == HEAD_SIZE && b[0..6] == MAGIC && b[6..18] == len && b[19..21] == flags && b[22..27] == meta
    ensures b[28..33] == reqH && b[34..44] == reqB && b[45..50] == resH
  {
    var b18 := MAGIC + len;
    var b21 := b18 + SPACE + flags;
    var b27 := b21 + SPACE + meta;
    var b33 := b27 + SPACE + reqH;
    var b44 := b33 + SPACE + reqB;
    var b50 := b44 + SPACE + resH;
    assert b[0..|b|] == b;
    AtSplit(b, 0, b50, TRAILER);
    AtSplit(b, 0, b44 + SPACE, resH);
    AtSplit(b, 0, b44, SPACE);
    AtSplit(b, 0, b33 + SPACE, reqB);
    AtSplit(b, 0, b33, SPACE);
    AtSplit(b, 0, b27 + SPACE, reqH);
    AtSplit(b, 0, b27, SPACE);
    AtSplit(b, 0, b21 + SPACE, meta);
    AtSplit(b, 0, b21, SPACE);
    AtSplit(b, 0, b18 + SPACE, flags);
    AtSplit(b, 0, b18, SPACE);
    AtSplit(b, 0, MAGIC, len);
  }

  lemma HeadRoundTrip(h: RecordHead)
    requires WithinLimits(h)
    ensures |PrintHead(h)| == HEAD_SIZE
    ensures ParseHead(PrintHead(h)) == Ok(h)
  {
    PrintedFields(h);
    HexRoundTrip(h.len, 12);
    HexRoundTrip(h.meta, 5);
    HexRoundTrip(h.reqH, 5);
    HexRoundTrip(h.reqB, 10);
    HexRoundTrip(h.resH, 5);
    ParseFields(PrintHead(h), HexValue, h, Hex(h.len, 12), Hex(h.meta, 5), Hex(h.reqH, 5), Hex(h.reqB, 10),
                Hex(h.resH, 5));
  }

  lemma ParseFields(buf: bytes, number: bytes -> Result<nat, BarcError>, h: RecordHead,
                    len: bytes, meta: bytes, reqH: bytes, reqB: bytes, resH: bytes)
    requires |buf| == HEAD_SIZE && buf[0..6] == MAGIC
    requires buf[6..18] == len && buf[22..27] == meta && buf[28..33] == reqH && buf[34..44] == reqB
             && buf[45..50] == resH
    requires buf[19] == h.recType.Flag() && buf[20] == h.compress.Flag()
    requires number(len) == Ok(h.len) && number(meta) == Ok(h.meta) && number(reqH) == Ok(h.reqH)
    requires number(reqB) == Ok(h.reqB) && number(resH) == Ok(h.resH)
    ensures ParseHeadWith(buf, number) == Ok(h)
  {
  }

  lemma FieldsParsed(buf: bytes, number: bytes -> Result<nat, BarcError>)
    requires |buf| == HEAD_SIZE && ParseHeadWith(buf, number).Ok?
    ensures var h := ParseHeadWith(buf, number).value;
            && buf[0..6] == MAGIC && buf[19] == h.recType.Flag() && buf[20] == h.compress.Flag()
            && number(buf[6..18]) == Ok(h.len) && number(buf[22..27]) == Ok(h.meta) && number(buf[28..33]) == Ok(h.reqH)
            && number(buf[34..44]) == Ok(h.reqB) && number(buf[45..50]) == Ok(h.resH)
  {
  }

  /** An accepted number of `width` digits is what the printer prints in a field of that width. */
  lemma FieldAccepted(field: bytes, width: nat, v: nat)
    requires |field| == width > 0 && HexValue(field) == Ok(v)
    ensures v < Pow16(width) && Hex(v, width) == field
  {
    HexPrintsWhatItAccepts(field);
  }

  /** Positions the parser looks at: all but the separators and the trailer. */
  predicate FieldByte(i: nat) {
    i < 50 && i !in {18, 21, 27, 33, 44}
  }

  /**
   * Any 54 bytes that are accepted, whatever stands in the separators and the
   * trailer, give a head that can be printed again; what is printed differs
   * from them in those positions only, and parses to the same head.
   */
  lemma ParsePrintParse(buf: bytes)
    requires |buf| == HEAD_SIZE && ParseHead(buf).Ok?
    ensures var h := ParseHead(buf).value;
            && WithinLimits(h)
            && |PrintHead(h)| == HEAD_SIZE
            && (forall i | 0 <= i < HEAD_SIZE && FieldByte(i) :: PrintHead(h)[i] == buf[i])
            && ParseHead(PrintHead(h)) == ParseHead(buf)
  {
    var h := ParseHead(buf).value;
    AcceptedFields(buf, h);
    FieldWidths();
    HeadRoundTrip(h);
    PrintedFields(h);
    SameFields(PrintHead(h), buf);
  }

  /** Every field of what is accepted is what the printer prints for it. */
  lemma AcceptedFields(buf: bytes, h: RecordHead)
    requires |buf| == HEAD_SIZE && ParseHead(buf) == Ok(h)
    ensures buf[0..6] == MAGIC && buf[19] == h.recType.Flag() && buf[20] == h.compress.Flag()
    ensures h.len < Pow16(12) && Hex(h.len, 12) == buf[6..18]
    ensures h.meta < Pow16(5) && Hex(h.meta, 5) == buf[22..27]
    ensures h.reqH < Pow16(5) && Hex(h.reqH, 5) == buf[28..33]
    ensures h.reqB < Pow16(10) && Hex(h.reqB, 10) == buf[34..44]
    ensures h.resH < Pow16(5) && Hex(h.resH, 5) == buf[45..50]
  {
    FieldsParsed(buf, HexValue);
    FieldAccepted(buf[6..18], 12, h.len);
    FieldAccepted(buf[22..27], 5, h.meta);
    FieldAccepted(buf[28..33], 5, h.reqH);
    FieldAccepted(buf[34..44], 10, h.reqB);
    FieldAccepted(buf[45..50], 5, h.resH);
  }

  lemma SameFields(a: bytes, b: bytes)
    requires |a| == |b| == HEAD_SIZE
    requires a[0..6] == b[0..6] && a[6..18] == b[6..18] && a[19] == b[19] && a[20] == b[20] && a[22..27] == b[22..27]
    requires a[28..33] == b[28..33] && a[34..44] == b[34..44] && a[45..50] == b[45..50]
    ensures forall i | 0 <= i < HEAD_SIZE && FieldByte(i) :: a[i] == b[i]
  {
    SameSlice(a, b, 0, 6);
    SameSlice(a, b, 6, 18);
    SameSlice(a, b, 22, 27);
    SameSlice(a, b, 28, 33);
    SameSlice(a, b, 34, 44);
    SameSlice(a, b, 45, 50);
  }

  lemma SameSlice(a: bytes, b: bytes, lo: nat, hi: nat)
    requires lo <= hi <= |a| && hi <= |b| && a[lo..hi] == b[lo..hi]
    ensures forall i | lo <= i < hi :: a[i] == b[i]
  {
    forall i | lo <= i < hi ensures a[i] == b[i] {
      assert a[i] == a[lo..hi][i - lo];
    }
  }
}
