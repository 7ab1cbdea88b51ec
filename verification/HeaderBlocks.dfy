/** Header blocks: the field lines `write_headers` prints and the parser `read_headers` runs over them. */
module HeaderBlocks {
  import opened Bytes
  import opened HeadCodec

  /** One entry of a header map: a lowercase token name and a value. */
  datatype Header = Header(name: bytes, value: bytes)

  const MAX_FIELDS: nat := 128
  const COLON: byte := 58

  function Lower(b: byte): byte {
    if 65 <= b <= 90 then b + 32 else b
  }

  /** tchar of section 3.2.6 of RFC 7230. */
  predicate TokenByte(b: byte) {
    48 <= b <= 57 || 65 <= b <= 90 || 94 <= b <= 122 || b in [33, 35, 36, 37, 38, 39, 42, 43, 45, 46, 124, 126]
  }

  /** Field content of section 3.2 of RFC 7230: visible bytes, space and tab. */
  predicate ValueByte(b: byte) {
    b == 9 || (32 <= b && b != 127)
  }

  predicate Ows(b: byte) {
    b == 32 || b == 9
  }

  ghost predicate ValidHeader(h: Header) {
    && h.name != []
    && (forall i | 0 <= i < |h.name| :: TokenByte(h.name[i]) && Lower(h.name[i]) == h.name[i])
    && (forall i | 0 <= i < |h.value| :: ValueByte(h.value[i]))
  }

  /** What the header map's types guarantee of every entry. */
  ghost predicate ValidHeaders(hs: seq<Header>) {
    forall i | 0 <= i < |hs| :: ValidHeader(hs[i])
  }

  // Printing

  function FieldLine(h: Header): bytes {
    h.name + [COLON, 32] + h.value + CRLF
  }

  function Lines(hs: seq<Header>): (r: seq<bytes>)
    ensures |r| == |hs|
  {
    seq(|hs|, i requires 0 <= i < |hs| => FieldLine(hs[i]))
  }

  function FieldLines(hs: seq<Header>): bytes {
    Flatten(Lines(hs))
  }

  /** A whole block; the empty line is added only when asked for and only after at least one field. */
  function HeaderBlock(hs: seq<Header>, withCrlf: bool): bytes {
    var lines := FieldLines(hs);
    if withCrlf && |lines| > 0 then lines + CRLF else lines
  }

  lemma FieldLinesOne(hs: seq<Header>, h: Header)
    ensures FieldLines(hs + [h]) == FieldLines(hs) + FieldLine(h)
  {
    assert Lines(hs + [h]) == Lines(hs) + [FieldLine(h)];
    FlattenOne(Lines(hs), FieldLine(h));
  }

  // Parsing

  datatype Parsed = Complete(headers: seq<Header>, size: nat) | Partial | Malformed | TooMany

  function TokenLen(buf: bytes): (n: nat)
    ensures n <= |buf|
  {
    if buf != [] && TokenByte(buf[0]) then 1 + TokenLen(buf[1..]) else 0
  }

  function ValueLen(buf: bytes): (n: nat)
    ensures n <= |buf|
  {
    if buf != [] && ValueByte(buf[0]) then 1 + ValueLen(buf[1..]) else 0
  }

  function LowerAll(s: bytes): (r: bytes) {
    seq(|s|, i requires 0 <= i < |s| => Lower(s[i]))
  }

  function TrimLeft(s: bytes): bytes {
    if s != [] && Ows(s[0]) then TrimLeft(s[1..]) else s
  }

  function TrimRight(s: bytes): bytes {
    if s != [] && Ows(s[|s| - 1]) then TrimRight(s[..|s| - 1]) else s
  }

  function Trim(s: bytes): bytes {
    TrimRight(TrimLeft(s))
  }

  function Trimmed(h: Header): Header {
    h.(value := Trim(h.value))
  }

  function TrimmedAll(hs: seq<Header>): (r: seq<Header>)
    ensures |r| == |hs|
  {
    seq(|hs|, i requires 0 <= i < |hs| => Trimmed(hs[i]))
  }

  datatype Line = Empty | Field(header: Header, size: nat) | Short | Bad

  /** The line at the start of a buffer. */
  function ReadLine(buf: bytes): (line: Line)
    ensures line.Field? ==> 0 < line.size <= |buf|
    ensures line.Empty? ==> |buf| >= 2
  {
    if |buf| >= 2 && buf[..2] == CRLF then Empty
    else
      var n := TokenLen(buf);
      if n == |buf| then Short
      else if n == 0 || buf[n] != COLON then Bad
      else
        var eol := n + 1 + ValueLen(buf[n + 1..]);
        if eol == |buf| then Short
        else if eol + 2 > |buf| || buf[eol..eol + 2] != CRLF then Bad
        else Field(Header(LowerAll(buf[..n]), Trim(buf[n + 1..eol])), eol + 2)
  }

  function Preceded(h: Header, size: nat, rest: Parsed): Parsed {
    if rest.Complete? then Complete([h] + rest.headers, size + rest.size) else rest
  }

  /** Field lines up to and including an empty line, at most `room` of them. */
  function ParseFields(readLine: bytes -> Line, buf: bytes, room: nat): Parsed
    decreases |buf|
  {
    var line := readLine(buf);
    if line.Empty? then Complete([], 2)
    else if room == 0 then TooMany
    else if line.Field? && 0 < line.size <= |buf| then
      Preceded(line.header, line.size, ParseFields(readLine, buf[line.size..], room - 1))
    else if line.Short? then Partial
    else Malformed
  }

  /** Every failure is InvalidHeader, except that a block that ends early trips an assertion. */
  function ParseHeaders(buf: bytes): Result<seq<Header>, BarcError> {
    match ParseFields(ReadLine, buf, MAX_FIELDS)
    case Complete(hs, size) => if size == |buf| then Ok(hs) else Err(Panicked)
    case _ => Err(InvalidHeader)
  }

  // Round trip

  lemma {:induction false} TokenLenStops(name: bytes, rest: bytes)
    requires forall i | 0 <= i < |name| :: TokenByte(name[i])
    requires rest != [] && !TokenByte(rest[0])
    ensures TokenLen(name + rest) == |name|
  {
    if name == [] {
      assert name + rest == rest;
    } else {
      TokenLenStops(name[1..], rest);
      assert (name + rest)[1..] == name[1..] + rest;
    }
  }

  lemma {:induction false} ValueLenStops(value: bytes, rest: bytes)
    requires forall i | 0 <= i < |value| :: ValueByte(value[i])
    requires rest != [] && !ValueByte(rest[0])
    ensures ValueLen(value + rest) == |value|
  {
    if value == [] {
      assert value + rest == rest;
    } else {
      ValueLenStops(value[1..], rest);
      assert (value + rest)[1..] == value[1..] + rest;
    }
  }

  /** A printed line, whatever follows it, is read as its field with the value trimmed. */
  lemma LineRead(h: Header, rest: bytes)
    requires ValidHeader(h)
    ensures ReadLine(FieldLine(h) + rest) == Field(Trimmed(h), |FieldLine(h)|)
  {
    var buf := FieldLine(h) + rest;
    var spaced := [32] + h.value;
    var after := [COLON] + (spaced + (CRLF + rest));
    assert buf == h.name + after;
    LineOf(h.name, spaced, rest);
    assert LowerAll(h.name) == h.name;
    assert spaced[1..] == h.value;
    assert Trim(spaced) == Trim(h.value);
  }

  lemma LineOf(name: bytes, text: bytes, rest: bytes)
    requires name != [] && forall i | 0 <= i < |name| :: TokenByte(name[i])
    requires forall i | 0 <= i < |text| :: ValueByte(text[i])
    ensures var buf := name + ([COLON] + (text + (CRLF + rest)));
            ReadLine(buf) == Field(Header(LowerAll(name), Trim(text)), |name| + 1 + |text| + 2)
  {
    var after := [COLON] + (text + (CRLF + rest));
    var buf := name + after;
    TokenLenStops(name, after);
    ValueLenStops(text, CRLF + rest);
    assert buf[0] == name[0];
    var tail := text + (CRLF + rest);
    assert buf[|name| + 1..] == tail;
    assert tail[..|text|] == text && tail[|text|..|text| + 2] == CRLF;
    LineFrom(buf, name, text);
  }

  lemma LineFrom(buf: bytes, name: bytes, text: bytes)
    requires name != [] && buf != [] && buf[0] != 13
    requires TokenLen(buf) == |name| < |buf| && buf[|name|] == COLON && buf[..|name|] == name
    requires var tail := buf[|name| + 1..];
             ValueLen(tail) == |text| <= |tail| - 2 && tail[..|text|] == text && tail[|text|..|text| + 2] == CRLF
    ensures ReadLine(buf) == Field(Header(LowerAll(name), Trim(text)), |name| + 1 + |text| + 2)
  {
    var eol := |name| + 1 + |text|;
    assert buf[..2][0] == buf[0];
    assert buf[|name| + 1..eol] == text;
    assert buf[eol..eol + 2] == CRLF;
  }

  /** What a block of `n` fields and `size` bytes, with `hs` the parsed form of the fields, must parse to. */
  function Outcome(hs: seq<Header>, size: nat, room: nat): Parsed {
    if |hs| <= room then Complete(hs, size) else TooMany
  }

  ghost predicate ReadsLine(readLine: bytes -> Line, line: bytes, h: Header) {
    line != [] && forall rest: bytes {:trigger line + rest} :: readLine(line + rest) == Field(h, |line|)
  }

  lemma ParseStep(readLine: bytes -> Line, line: bytes, rest: bytes, room: nat, h: Header, hs: seq<Header>, size: nat)
    requires ReadsLine(readLine, line, h)
    requires room > 0 ==> ParseFields(readLine, rest, room - 1) == Outcome(hs, size, room - 1)
    ensures ParseFields(readLine, line + rest, room) == Outcome([h] + hs, |line| + size, room)
  {
    assert (line + rest)[|line|..] == rest;
  }

  lemma {:induction false} ParseLines(readLine: bytes -> Line, lines: seq<bytes>, hs: seq<Header>, room: nat)
    requires |lines| == |hs| && readLine(CRLF) == Empty
    requires forall i | 0 <= i < |lines| :: ReadsLine(readLine, lines[i], hs[i])
    ensures ParseFields(readLine, Flatten(lines) + CRLF, room) == Outcome(hs, |Flatten(lines)| + 2, room)
  {
    if lines == [] {
      assert Flatten(lines) + CRLF == CRLF;
    } else {
      var line, rest := lines[0], Flatten(lines[1..]) + CRLF;
      if room > 0 {
        ParseLines(readLine, lines[1..], hs[1..], room - 1);
      }
      ParseStep(readLine, line, rest, room, hs[0], hs[1..], |rest|);
      Associative(line, Flatten(lines[1..]), CRLF);
      assert hs == [hs[0]] + hs[1..];
    }
  }

  /**
   * A printed block is read back as the same fields with values trimmed,
   * as long as there are at most 128, and is refused when there are more.
   */
  lemma HeadersRoundTrip(hs: seq<Header>)
    requires ValidHeaders(hs)
    ensures ParseHeaders(FieldLines(hs) + CRLF) ==
            if |hs| <= MAX_FIELDS then Ok(TrimmedAll(hs)) else Err(InvalidHeader)
  {
    assert ReadLine(CRLF) == Empty by {
      assert CRLF[..2] == CRLF;
    }
    forall i | 0 <= i < |hs| ensures ReadsLine(ReadLine, Lines(hs)[i], TrimmedAll(hs)[i]) {
      forall rest: bytes ensures ReadLine(Lines(hs)[i] + rest) == Field(TrimmedAll(hs)[i], |Lines(hs)[i]|) {
        LineRead(hs[i], rest);
      }
    }
    ParseLines(ReadLine, Lines(hs), TrimmedAll(hs), MAX_FIELDS);
  }

  /** No outer whitespace. */
  predicate IsTrimmed(s: bytes) {
    s == [] || (!Ows(s[0]) && !Ows(s[|s| - 1]))
  }

  /** The condition under which a header list comes back as it was written. */
  ghost predicate Faithful(hs: seq<Header>) {
    |hs| <= MAX_FIELDS && forall i | 0 <= i < |hs| :: IsTrimmed(hs[i].value)
  }

  lemma {:induction false} TrimShortens(s: bytes)
    ensures |TrimLeft(s)| <= |s| && |TrimRight(s)| <= |s|
    decreases |s|
  {
    if s != [] {
      TrimShortens(s[1..]);
      TrimShortens(s[..|s| - 1]);
    }
  }

  lemma TrimKeeps(s: bytes)
    ensures Trim(s) == s <==> IsTrimmed(s)
  {
    if s != [] {
      TrimShortens(s[1..]);
      TrimShortens(TrimLeft(s));
      TrimShortens(s[..|s| - 1]);
    }
  }

  predicate AllOws(s: bytes) {
    forall i | 0 <= i < |s| :: Ows(s[i])
  }

  lemma {:induction false} TrimLeftRemoves(s: bytes) returns (a: bytes)
    ensures s == a + TrimLeft(s) && AllOws(a)
    ensures TrimLeft(s) == [] || !Ows(TrimLeft(s)[0])
    decreases |s|
  {
    if s != [] && Ows(s[0]) {
      var rest := TrimLeftRemoves(s[1..]);
      a := [s[0]] + rest;
      Associative([s[0]], rest, TrimLeft(s));
      assert s == [s[0]] + s[1..];
    } else {
      a := [];
      assert [] + s == s;
    }
  }

  lemma {:induction false} TrimRightRemoves(s: bytes) returns (b: bytes)
    ensures s == TrimRight(s) + b && AllOws(b)
    ensures TrimRight(s) == [] || !Ows(TrimRight(s)[|TrimRight(s)| - 1])
    decreases |s|
  {
    if s != [] && Ows(s[|s| - 1]) {
      var rest := TrimRightRemoves(s[..|s| - 1]);
      b := rest + [s[|s| - 1]];
      Associative(TrimRight(s), rest, [s[|s| - 1]]);
      assert s == s[..|s| - 1] + [s[|s| - 1]];
    } else {
      b := [];
      assert s + [] == s;
    }
  }

  /** Trimming removes the outer whitespace, all of it and nothing else. */
  lemma TrimRemoves(s: bytes)
    ensures IsTrimmed(Trim(s)) && exists a, b :: s == a + Trim(s) + b && AllOws(a) && AllOws(b)
  {
    var a := TrimLeftRemoves(s);
    var b := TrimRightRemoves(TrimLeft(s));
    Associative(a, Trim(s), b);
    assert s == a + Trim(s) + b && AllOws(a) && AllOws(b);
    assert Trim(s) != [] ==> Trim(s)[0] == TrimLeft(s)[0];
  }

  lemma TrimmedExactly(hs: seq<Header>)
    ensures TrimmedAll(hs) == hs <==> forall i | 0 <= i < |hs| :: IsTrimmed(hs[i].value)
  {
    forall i | 0 <= i < |hs| ensures hs[i] == TrimmedAll(hs)[i] <==> IsTrimmed(hs[i].value) {
      TrimKeeps(hs[i].value);
    }
    assert TrimmedAll(hs) == hs <==> forall i | 0 <= i < |hs| :: TrimmedAll(hs)[i] == hs[i];
  }

  lemma FaithfulExactly(hs: seq<Header>)
    requires ValidHeaders(hs)
    ensures ParseHeaders(FieldLines(hs) + CRLF) == Ok(hs) <==> Faithful(hs)
  {
    HeadersRoundTrip(hs);
    TrimmedExactly(hs);
  }
}
