/**
 * One writer at a time and any number of readers on one BARC file: a state
 * machine whose steps are the single operations they make on the file, in any
 * interleaving.
 */
module BarcProtocol {
  import opened Bytes
  import opened Io
  import opened HeadCodec
  import opened HeaderBlocks
  import opened Encoders
  import opened BarcFormat

  /** What a stretch of the file holds: a record, or a reserved head with as much payload as was written behind it. */
  datatype Entry = Committed(rec: Value, mode: Compression) | Pending(written: bytes)

  /** `left` is the part of the payload that has not been written. */
  datatype Writer = Idle | Writing(start: nat, rec: Value, mode: Compression, left: bytes)

  /**
   * A reader looks for a head, then reads what is behind it. After an error it
   * is not used again: FailingInputs.ReadOnAfterError shows what could follow.
   */
  datatype Phase = AtHead | Behind(head: RecordHead) | Broken(error: BarcError)

  datatype Reader = Reader(offset: nat, phase: Phase, returned: seq<Record<Place>>)

  /** `entries` is the history of the file; no step looks at it. */
  datatype State = State(data: bytes, writer: Writer, readers: seq<Reader>, entries: seq<Entry>)

  datatype Step =
    | Reserve(rec: Value, mode: Compression)
    | Append(n: nat)
    | Commit
    | Abandon
    | Open
    | Fetch(reader: nat)
    | Finish(reader: nat, maxRam: nat, maxBody: nat, refuseAt: nat)

  const INIT := State([], Idle, [], [])

  /** History: more payload behind the last reservation. */
  function Extend(entries: seq<Entry>, bs: bytes): seq<Entry> {
    var last := |entries| - 1;
    if entries != [] && entries[last].Pending? then entries[..last] + [Pending(entries[last].written + bs)] else entries
  }

  /** History: the last reservation becomes a record. */
  function Settle(entries: seq<Entry>, rec: Value, mode: Compression): seq<Entry> {
    if entries != [] then entries[..|entries| - 1] + [Committed(rec, mode)] else entries
  }

  function StartWrite(s: State, rec: Value, mode: Compression, codec: Codec): State {
    if !s.writer.Idle? then s
    else s.(data := s.data + PrintHead(RESERVE_HEAD),
            writer := Writing(|s.data|, rec, mode, Stored(rec, mode, codec)),
            entries := s.entries + [Pending([])])
  }

  function AppendSome(s: State, n: nat): State {
    if !s.writer.Writing? || n > |s.writer.left| then s
    else s.(data := s.data + s.writer.left[..n],
            writer := s.writer.(left := s.writer.left[n..]),
            entries := Extend(s.entries, s.writer.left[..n]))
  }

  /** The final head goes over the reservation once all is written and the writer's assertions hold. */
  function CommitHead(s: State, codec: Codec): State {
    if !s.writer.Writing? || s.writer.left != [] || s.writer.start > |s.data| then s
    else
      var rec, mode := s.writer.rec, s.writer.mode;
      var head := FinalHead(rec, mode, codec);
      if !WithinLimits(head) || |Preamble(rec, mode.Plain?)| + |rec.resBody| + 2 > MAX_RECORD then s
      else s.(data := Overwritten(s.data, s.writer.start, PrintHead(head)), writer := Idle,
              entries := Settle(s.entries, rec, mode))
  }

  /** The writer's part of a step; a step that is not possible changes nothing. */
  function Write(s: State, step: Step, codec: Codec): State {
    match step
    case Reserve(rec, mode) => StartWrite(s, rec, mode, codec)
    case Append(n) => AppendSome(s, n)
    case Commit => CommitHead(s, codec)
    case Abandon => s.(writer := Idle)
    case _ => s
  }

  /** A reservation, or nothing at all: the reader stays where it is. */
  function Fetched(r: Reader, head: Result<Option<RecordHead>, BarcError>): Reader {
    if head.Err? then r.(phase := Broken(head.error))
    else if head.value.None? || head.value.value.recType.Reserved? then r
    else r.(phase := Behind(head.value.value))
  }

  /**
   * Whether a compressed response body over the limit is refused, and at what
   * count of its bytes, depends on how it is buffered, so it is an input.
   */
  function Finished(r: Reader, o: Outcome, plain: bool, maxBody: nat, refuseAt: nat): Reader {
    match o
    case Nothing => r
    case Failure(e) => r.(phase := Broken(e))
    case Found(rec, next) =>
      if !plain && rec.resBody.Held? && maxBody < refuseAt <= |rec.resBody.buf| then
        r.(phase := Broken(BodyTooLong(refuseAt)))
      else Reader(next, AtHead, r.returned + [rec])
  }

  function ReadWith(r: Reader, step: Step, head: Result<Option<RecordHead>, BarcError>, behind: Reads): Reader {
    match (step, r.phase)
    case (Fetch(_), AtHead) => Fetched(r, head)
    case (Finish(_, maxRam, maxBody, refuseAt), Behind(h)) =>
      Finished(r, behind(r.offset + HEAD_SIZE, h, maxRam), h.compress.Plain?, maxBody, refuseAt)
    case _ => r
  }

  function Read(data: bytes, r: Reader, step: Step, codec: Codec): Reader {
    ReadWith(r, step, HeadAt(data, r.offset), BehindIn(data, codec))
  }

  function Apply(s: State, step: Step, codec: Codec): State {
    if step.Open? then s.(readers := s.readers + [Reader(0, AtHead, [])])
    else if step.Fetch? || step.Finish? then
      if step.reader < |s.readers| then
        s.(readers := s.readers[step.reader := Read(s.data, s.readers[step.reader], step, codec)])
      else s
    else Write(s, step, codec)
  }

  function Run(s: State, steps: seq<Step>, codec: Codec): State
    decreases |steps|
  {
    if steps == [] then s else Run(Apply(s, steps[0], codec), steps[1..], codec)
  }

  // The file as a list of entries

  function Image(e: Entry, codec: Codec): bytes {
    match e
    case Committed(rec, mode) => Serialize(rec, mode, codec)
    case Pending(written) => PrintHead(RESERVE_HEAD) + written
  }

  function Images(entries: seq<Entry>, codec: Codec): (r: seq<bytes>)
    ensures |r| == |entries|
  {
    seq(|entries|, i requires 0 <= i < |entries| => Image(entries[i], codec))
  }

  function FileImage(entries: seq<Entry>, codec: Codec): bytes {
    Flatten(Images(entries, codec))
  }

  /** Where entry `k` begins. */
  function Offset(entries: seq<Entry>, k: nat, codec: Codec): nat
    requires k <= |entries|
  {
    |FileImage(entries[..k], codec)|
  }

  lemma FileImageSplit(a: seq<Entry>, b: seq<Entry>, codec: Codec)
    ensures FileImage(a + b, codec) == FileImage(a, codec) + FileImage(b, codec)
  {
    assert Images(a + b, codec) == Images(a, codec) + Images(b, codec);
    FlattenAppend(Images(a, codec), Images(b, codec));
  }

  lemma FileImageOne(a: seq<Entry>, e: Entry, codec: Codec)
    ensures FileImage(a + [e], codec) == FileImage(a, codec) + Image(e, codec)
  {
    assert Images(a + [e], codec) == Images(a, codec) + [Image(e, codec)];
    FlattenOne(Images(a, codec), Image(e, codec));
  }

  /** Each entry stands at its offset, and the next begins where it ends. */
  lemma EntryAt(entries: seq<Entry>, k: nat, codec: Codec)
    requires k < |entries|
    ensures At(FileImage(entries, codec), Offset(entries, k, codec), Image(entries[k], codec))
    ensures Offset(entries, k + 1, codec) == Offset(entries, k, codec) + |Image(entries[k], codec)|
    ensures Offset(entries, k + 1, codec) <= |FileImage(entries, codec)|
  {
    var front, back := entries[..k], entries[k + 1..];
    assert entries == entries[..k + 1] + back && entries[..k + 1] == front + [entries[k]];
    FileImageOne(front, entries[k], codec);
    FileImageSplit(entries[..k + 1], back, codec);
  }

  lemma OffsetEnd(entries: seq<Entry>, codec: Codec)
    ensures Offset(entries, |entries|, codec) == |FileImage(entries, codec)|
  {
    assert entries[..|entries|] == entries;
  }

  // Invariant

  ghost predicate GoodRecord(rec: Value) {
    ValidHeaders(rec.meta) && ValidHeaders(rec.reqHeaders) && ValidHeaders(rec.resHeaders)
  }

  ghost predicate GoodEntry(e: Entry, codec: Codec) {
    e.Committed? ==> GoodRecord(e.rec) && Writable(e.rec, e.mode, codec)
  }

  /** A record that readers find; one of the type of a reservation stays a reservation for good. */
  ghost predicate Fetchable(e: Entry) {
    e.Committed? && e.rec.recType.Dialog?
  }

  ghost predicate WriterInv(s: State, codec: Codec) {
    s.writer.Writing? ==>
      && GoodRecord(s.writer.rec)
      && s.entries != []
      && var last := |s.entries| - 1;
         && s.entries[last].Pending?
         && s.entries[last].written + s.writer.left == Stored(s.writer.rec, s.writer.mode, codec)
         && s.writer.start == Offset(s.entries, last, codec)
  }

  /** `rec` is entry `j` of the file, all of it in RAM or in the part of `data` up to the end of that entry. */
  ghost predicate ReturnedInv(data: bytes, entries: seq<Entry>, rec: Record<Place>, j: nat, codec: Codec)
    requires j < |entries|
  {
    && Fetchable(entries[j]) && FitsParser(entries[j].rec)
    && ResolveAll(data, rec) == TrimmedValue(entries[j].rec)
    && PlacesBefore(rec, Offset(entries, j + 1, codec))
  }

  /** Why the record of an entry cannot be read: a block has too many fields, or its body, compressed, is too long. */
  ghost predicate FailsAt(e: BarcError, entry: Entry)
    requires entry.Committed?
  {
    if FitsParser(entry.rec) then e.BodyTooLong? && !entry.mode.Plain? && e.size <= |entry.rec.resBody|
    else e == InvalidHeader
  }

  ghost predicate PhaseInv(entries: seq<Entry>, phase: Phase, k: nat, codec: Codec) {
    match phase
    case AtHead => true
    case Behind(head) => k < |entries| && Fetchable(entries[k])
        && head == FinalHead(entries[k].rec, entries[k].mode, codec)
    case Broken(e) =>
      && k < |entries| && Fetchable(entries[k])
      && FailsAt(e, entries[k])
  }

  ghost predicate ReaderInv(data: bytes, entries: seq<Entry>, r: Reader, codec: Codec) {
    var k := |r.returned|;
    && k <= |entries|
    && r.offset == Offset(entries, k, codec)
    && (forall j | 0 <= j < k :: ReturnedInv(data, entries, r.returned[j], j, codec))
    && PhaseInv(entries, r.phase, k, codec)
  }

  ghost predicate Inv(s: State, codec: Codec) {
    && s.data == FileImage(s.entries, codec)
    && (forall j | 0 <= j < |s.entries| :: GoodEntry(s.entries[j], codec))
    && WriterInv(s, codec)
    && forall i | 0 <= i < |s.readers| :: ReaderInv(s.data, s.entries, s.readers[i], codec)
  }

  /** The header maps of records handed to the writer hold only valid names and values. */
  ghost predicate GoodStep(step: Step) {
    step.Reserve? ==> GoodRecord(step.rec)
  }

  // Reading an entry

  lemma HeadOfEntry(entries: seq<Entry>, k: nat, codec: Codec)
    requires k < |entries| && GoodEntry(entries[k], codec)
    ensures HeadAt(FileImage(entries, codec), Offset(entries, k, codec)) ==
            Ok(Some(if entries[k].Committed? then FinalHead(entries[k].rec, entries[k].mode, codec) else RESERVE_HEAD))
  {
    var data, pos := FileImage(entries, codec), Offset(entries, k, codec);
    EntryAt(entries, k, codec);
    match entries[k]
    case Committed(rec, mode) =>
      AtSplit(data, pos, PrintHead(FinalHead(rec, mode, codec)), Stored(rec, mode, codec));
      HeadRead(data, pos, FinalHead(rec, mode, codec));
    case Pending(written) =>
      AtSplit(data, pos, PrintHead(RESERVE_HEAD), written);
      HeadRead(data, pos, RESERVE_HEAD);
  }

  /**
   * A read at the start of a committed entry returns its record and moves to
   * the next entry, unless its type is that of a reservation.
   */
  lemma ReadEntry(entries: seq<Entry>, k: nat, maxRam: nat, codec: Codec)
    requires Lossless(codec) && k < |entries| && entries[k].Committed? && GoodEntry(entries[k], codec)
    ensures var o := ReadAt(FileImage(entries, codec), Offset(entries, k, codec), maxRam, codec);
            if !Fetchable(entries[k]) then o == Nothing
            else if FitsParser(entries[k].rec)
            then Yields(FileImage(entries, codec), o, TrimmedValue(entries[k].rec), Offset(entries, k + 1, codec))
            else o == Failure(InvalidHeader)
  {
    EntryAt(entries, k, codec);
    RecordRead(FileImage(entries, codec), Offset(entries, k, codec), entries[k].rec, entries[k].mode, codec, maxRam);
  }

  /** A committed entry is its head and as many bytes as the head says. */
  lemma EntrySize(entries: seq<Entry>, k: nat, codec: Codec)
    requires k < |entries| && entries[k].Committed? && GoodEntry(entries[k], codec)
    ensures Offset(entries, k + 1, codec) ==
            Offset(entries, k, codec) + HEAD_SIZE + FinalHead(entries[k].rec, entries[k].mode, codec).len
  {
    EntryAt(entries, k, codec);
    HeadSize(FinalHead(entries[k].rec, entries[k].mode, codec));
  }

  datatype Scanned = Scanned(recs: seq<Value>, next: nat, ok: bool)

  function ReadIn(data: bytes, codec: Codec): (nat, nat) -> Outcome {
    (pos: nat, maxRam: nat) => ReadAt(data, pos, maxRam, codec)
  }

  /** Successive reads, each with its own RAM limit, as far as they return records. */
  function Scan(data: bytes, read: (nat, nat) -> Outcome, pos: nat, limits: seq<nat>): Scanned
    decreases |limits|
  {
    if limits == [] then Scanned([], pos, true)
    else
      var o := read(pos, limits[0]);
      if !o.Found? then Scanned([], pos, false)
      else
        var rest := Scan(data, read, o.next, limits[1..]);
        Scanned([ResolveAll(data, o.rec)] + rest.recs, rest.next, rest.ok)
  }

  function Records(entries: seq<Entry>): (r: seq<Value>)
    requires forall j | 0 <= j < |entries| :: entries[j].Committed?
  {
    seq(|entries|, j requires 0 <= j < |entries| => TrimmedValue(entries[j].rec))
  }

  /** Each record is read at its start, whatever the limit, and ends where the next one starts. */
  ghost predicate AllYield(data: bytes, read: (nat, nat) -> Outcome, recs: seq<Value>, starts: seq<nat>) {
    && |starts| == |recs| + 1
    && forall j, maxRam: nat | 0 <= j < |recs| :: Yields(data, read(starts[j], maxRam), recs[j], starts[j + 1])
  }

  lemma {:induction false} ScanAll(data: bytes, read: (nat, nat) -> Outcome, recs: seq<Value>, starts: seq<nat>,
                                   k: nat, limits: seq<nat>)
    requires k <= |recs| && |limits| == |recs| - k && AllYield(data, read, recs, starts)
    ensures Scan(data, read, starts[k], limits) == Scanned(recs[k..], starts[|recs|], true)
    decreases |limits|
  {
    if k < |recs| {
      assert Yields(data, read(starts[k], limits[0]), recs[k], starts[k + 1]);
      ScanAll(data, read, recs, starts, k + 1, limits[1..]);
      assert recs[k..] == [recs[k]] + recs[k + 1..];
    }
  }

  function Offsets(entries: seq<Entry>, codec: Codec): (r: seq<nat>)
    ensures |r| == |entries| + 1
  {
    seq(|entries| + 1, j requires 0 <= j <= |entries| => Offset(entries, j, codec))
  }

  lemma EntryYields(entries: seq<Entry>, j: nat, maxRam: nat, codec: Codec)
    requires Lossless(codec) && j < |entries| && AllReadable(entries, codec)
    ensures var data := FileImage(entries, codec);
            Yields(data, ReadIn(data, codec)(Offsets(entries, codec)[j], maxRam), Records(entries)[j],
                   Offsets(entries, codec)[j + 1])
  {
    ReadEntry(entries, j, maxRam, codec);
    assert Offsets(entries, codec)[j] == Offset(entries, j, codec)
           && Offsets(entries, codec)[j + 1] == Offset(entries, j + 1, codec);
  }

  ghost predicate AllReadable(entries: seq<Entry>, codec: Codec) {
    forall j | 0 <= j < |entries| :: Fetchable(entries[j]) && GoodEntry(entries[j], codec) && FitsParser(entries[j].rec)
  }

  /** A file of completed writes: sequential reads from any record on return all that follow, in order. */
  lemma SequentialReads(entries: seq<Entry>, k: nat, limits: seq<nat>, codec: Codec)
    requires Lossless(codec) && k <= |entries| && |limits| == |entries| - k && AllReadable(entries, codec)
    ensures var data := FileImage(entries, codec);
            Scan(data, ReadIn(data, codec), Offset(entries, k, codec), limits)
                == Scanned(Records(entries)[k..], |data|, true)
  {
    var data := FileImage(entries, codec);
    EntriesYield(entries, codec);
    ScanAll(data, ReadIn(data, codec), Records(entries), Offsets(entries, codec), k, limits);
    OffsetEnd(entries, codec);
  }

  lemma EntriesYield(entries: seq<Entry>, codec: Codec)
    requires Lossless(codec) && AllReadable(entries, codec)
    ensures var data := FileImage(entries, codec);
            AllYield(data, ReadIn(data, codec), Records(entries), Offsets(entries, codec))
  {
    var data := FileImage(entries, codec);
    var read, recs, starts := ReadIn(data, codec), Records(entries), Offsets(entries, codec);
    forall j, maxRam: nat | 0 <= j < |recs| ensures Yields(data, read(starts[j], maxRam), recs[j], starts[j + 1]) {
      EntryYields(entries, j, maxRam, codec);
    }
  }

  /** And after the last record, nothing. */
  lemma NothingAtEnd(data: bytes, maxRam: nat, codec: Codec)
    ensures ReadAt(data, |data|, maxRam, codec) == Nothing
  {
  }

  // What the steps keep

  /** Only a reservation in the last place can change, and entries are only added at the end. */
  ghost predicate Grows(a: seq<Entry>, b: seq<Entry>) {
    |a| <= |b| && forall j | 0 <= j < |a| :: j < |a| - 1 || a[j].Committed? ==> a[j] == b[j]
  }

  lemma GrownPrefix(a: seq<Entry>, b: seq<Entry>, k: nat, codec: Codec)
    requires Grows(a, b) && k <= |a| && (k == |a| > 0 ==> a[k - 1].Committed?)
    ensures a[..k] == b[..k] && Offset(a, k, codec) == Offset(b, k, codec)
    ensures Offset(a, k, codec) <= |FileImage(a, codec)| && Offset(a, k, codec) <= |FileImage(b, codec)|
    ensures FileImage(a, codec)[..Offset(a, k, codec)] == FileImage(b, codec)[..Offset(a, k, codec)]
  {
    assert a[..k] == b[..k];
    assert a == a[..k] + a[k..] && b == b[..k] + b[k..];
    FileImageSplit(a[..k], a[k..], codec);
    FileImageSplit(b[..k], b[k..], codec);
  }

  lemma ResolveStable(data: bytes, grown: bytes, rec: Record<Place>, limit: nat)
    requires PlacesBefore(rec, limit) && limit <= |data| && limit <= |grown| && data[..limit] == grown[..limit]
    ensures ResolveAll(data, rec) == ResolveAll(grown, rec)
  {
    SliceStable(data, grown, rec.reqBody, limit);
    SliceStable(data, grown, rec.resBody, limit);
  }

  lemma SliceStable(data: bytes, grown: bytes, place: Place, limit: nat)
    requires place.Slice? ==> place.start <= place.end <= limit
    requires limit <= |data| && limit <= |grown| && data[..limit] == grown[..limit]
    ensures Resolve(data, place) == Resolve(grown, place)
  {
    if place.Slice? {
      assert data[place.start..place.end] == data[..limit][place.start..place.end];
      assert grown[place.start..place.end] == grown[..limit][place.start..place.end];
    }
  }

  /** Whatever the writer does, what a reader has and where it stands remain good. */
  lemma ReaderKept(a: seq<Entry>, b: seq<Entry>, r: Reader, codec: Codec)
    requires Grows(a, b) && ReaderInv(FileImage(a, codec), a, r, codec)
    ensures ReaderInv(FileImage(b, codec), b, r, codec)
  {
    var k := |r.returned|;
    assert k > 0 ==> ReturnedInv(FileImage(a, codec), a, r.returned[k - 1], k - 1, codec);
    GrownPrefix(a, b, k, codec);
    forall j | 0 <= j < k ensures ReturnedInv(FileImage(b, codec), b, r.returned[j], j, codec) {
      assert ReturnedInv(FileImage(a, codec), a, r.returned[j], j, codec);
      GrownPrefix(a, b, j + 1, codec);
      ResolveStable(FileImage(a, codec), FileImage(b, codec), r.returned[j], Offset(a, j + 1, codec));
    }
  }

  lemma ReserveKeeps(s: State, rec: Value, mode: Compression, codec: Codec)
    requires Inv(s, codec) && s.writer.Idle? && GoodRecord(rec)
    ensures WrittenWell(s, StartWrite(s, rec, mode, codec), codec)
  {
    var t := StartWrite(s, rec, mode, codec);
    FileImageOne(s.entries, Pending([]), codec);
    assert PrintHead(RESERVE_HEAD) + [] == PrintHead(RESERVE_HEAD);
    assert t.entries[..|s.entries|] == s.entries;
    assert [] + t.writer.left == t.writer.left;
  }

  lemma AppendKeeps(s: State, n: nat, codec: Codec)
    requires Inv(s, codec) && s.writer.Writing? && n <= |s.writer.left|
    ensures WrittenWell(s, AppendSome(s, n), codec)
  {
    var last := |s.entries| - 1;
    var front, written, left := s.entries[..last], s.entries[last].written, s.writer.left;
    assert s.entries == front + [Pending(written)];
    FileImageOne(front, Pending(written), codec);
    FileImageOne(front, Pending(written + left[..n]), codec);
    Associative(PrintHead(RESERVE_HEAD), written, left[..n]);
    Associative(FileImage(front, codec), PrintHead(RESERVE_HEAD) + written, left[..n]);
    Associative(written, left[..n], left[n..]);
    assert left[..n] + left[n..] == left;
    assert Extend(s.entries, left[..n])[..last] == front;
  }

  lemma CommitKeeps(s: State, codec: Codec)
    requires Inv(s, codec) && s.writer.Writing?
    ensures WrittenWell(s, CommitHead(s, codec), codec)
  {
    var rec, mode := s.writer.rec, s.writer.mode;
    var t := CommitHead(s, codec);
    if t.writer.Idle? {
      var last := |s.entries| - 1;
      var front, written := s.entries[..last], s.entries[last].written;
      assert s.entries == front + [Pending(written)];
      assert written + [] == written;
      CommitImage(front, written, rec, mode, codec);
      SettledWell(s, t, front, written, rec, mode, codec);
    }
  }

  lemma SettledWell(s: State, t: State, front: seq<Entry>, written: bytes, rec: Value, mode: Compression, codec: Codec)
    requires s.entries == front + [Pending(written)] && t.entries == front + [Committed(rec, mode)]
    requires forall j | 0 <= j < |s.entries| :: GoodEntry(s.entries[j], codec)
    requires GoodRecord(rec) && Writable(rec, mode, codec)
    requires t.data == FileImage(t.entries, codec) && t.writer.Idle? && t.readers == s.readers
    ensures WrittenWell(s, t, codec)
  {
    forall j | 0 <= j < |front| ensures GoodEntry(t.entries[j], codec) {
      assert t.entries[j] == s.entries[j];
    }
  }

  lemma CommitImage(front: seq<Entry>, written: bytes, rec: Value, mode: Compression, codec: Codec)
    requires written == Stored(rec, mode, codec) && WithinLimits(FinalHead(rec, mode, codec))
    ensures var data, start := FileImage(front + [Pending(written)], codec), |FileImage(front, codec)|;
            && start <= |data|
            && Overwritten(data, start, PrintHead(FinalHead(rec, mode, codec)))
                == FileImage(front + [Committed(rec, mode)], codec)
  {
    FileImageOne(front, Pending(written), codec);
    FileImageOne(front, Committed(rec, mode), codec);
    HeadSize(RESERVE_HEAD);
    HeadSize(FinalHead(rec, mode, codec));
    OverwriteMiddle(FileImage(front, codec), PrintHead(RESERVE_HEAD), written, PrintHead(FinalHead(rec, mode, codec)));
  }

  lemma OverwriteMiddle(a: bytes, b: bytes, c: bytes, x: bytes)
    requires |x| == |b|
    ensures Overwritten(a + (b + c), |a|, x) == a + (x + c)
  {
    assert (a + (b + c))[..|a|] == a;
    assert (a + (b + c))[|a| + |x|..] == c;
    Associative(a, x, c);
  }

  /** What a writer's step must leave behind for the invariant to hold again. */
  ghost predicate WrittenWell(s: State, t: State, codec: Codec) {
    && t.data == FileImage(t.entries, codec)
    && (forall j | 0 <= j < |t.entries| :: GoodEntry(t.entries[j], codec))
    && WriterInv(t, codec)
    && Grows(s.entries, t.entries)
    && t.readers == s.readers
  }

  lemma WriteKeeps(s: State, step: Step, codec: Codec)
    requires Inv(s, codec) && GoodStep(step)
    ensures WrittenWell(s, Write(s, step, codec), codec)
  {
    match step
    case Reserve(rec, mode) =>
      if s.writer.Idle? {
        ReserveKeeps(s, rec, mode, codec);
      }
    case Append(n) =>
      if s.writer.Writing? && n <= |s.writer.left| {
        AppendKeeps(s, n, codec);
      }
    case Commit =>
      if s.writer.Writing? {
        CommitKeeps(s, codec);
      }
    case _ =>
  }

  lemma FetchKeeps(data: bytes, entries: seq<Entry>, r: Reader, codec: Codec)
    requires data == FileImage(entries, codec) && ReaderInv(data, entries, r, codec) && r.phase.AtHead?
    requires forall j | 0 <= j < |entries| :: GoodEntry(entries[j], codec)
    ensures ReaderInv(data, entries, Fetched(r, HeadAt(data, r.offset)), codec)
    ensures var k := |r.returned|;
            Fetched(r, HeadAt(data, r.offset)) ==
            if k < |entries| && Fetchable(entries[k])
            then r.(phase := Behind(FinalHead(entries[k].rec, entries[k].mode, codec))) else r
  {
    var k := |r.returned|;
    if k < |entries| {
      HeadOfEntry(entries, k, codec);
    } else {
      OffsetEnd(entries, codec);
    }
  }

  /** The outcome of reading entry `k`. */
  ghost predicate ReadsEntry(data: bytes, entries: seq<Entry>, k: nat, o: Outcome, codec: Codec)
    requires k < |entries| && entries[k].Committed?
  {
    if FitsParser(entries[k].rec) then Yields(data, o, TrimmedValue(entries[k].rec), Offset(entries, k + 1, codec))
    else o == Failure(InvalidHeader)
  }

  /** The response body could be refused as too long only in a compressed record. */
  ghost predicate Acceptable(e: Entry, maxBody: nat) {
    Fetchable(e) && FitsParser(e.rec) && (e.mode.Plain? || |e.rec.resBody| <= maxBody)
  }

  lemma FinishedKeeps(data: bytes, entries: seq<Entry>, r: Reader, o: Outcome, plain: bool, maxBody: nat,
                      refuseAt: nat, codec: Codec)
    requires ReaderInv(data, entries, r, codec) && |r.returned| < |entries| && Fetchable(entries[|r.returned|])
    requires ReadsEntry(data, entries, |r.returned|, o, codec)
    requires plain == entries[|r.returned|].mode.Plain?
    ensures ReaderInv(data, entries, Finished(r, o, plain, maxBody, refuseAt), codec)
  {
    var k := |r.returned|;
    if o.Found? {
      assert ReturnedInv(data, entries, o.rec, k, codec);
    }
  }

  lemma FinishKeeps(data: bytes, entries: seq<Entry>, r: Reader, step: Step,
                    head: Result<Option<RecordHead>, BarcError>, behind: Reads, codec: Codec)
    requires step.Finish? && r.phase.Behind? && ReaderInv(data, entries, r, codec)
    requires ReadsEntry(data, entries, |r.returned|, behind(r.offset + HEAD_SIZE, r.phase.head, step.maxRam), codec)
    ensures ReaderInv(data, entries, ReadWith(r, step, head, behind), codec)
  {
    FinishedKeeps(data, entries, r, behind(r.offset + HEAD_SIZE, r.phase.head, step.maxRam),
                  r.phase.head.compress.Plain?, step.maxBody, step.refuseAt, codec);
  }

  lemma BehindEntry(data: bytes, entries: seq<Entry>, k: nat, offset: nat, head: RecordHead, maxRam: nat, codec: Codec)
    requires Lossless(codec) && data == FileImage(entries, codec)
    requires k < |entries| && entries[k].Committed? && GoodEntry(entries[k], codec)
    requires offset == Offset(entries, k, codec) && head == FinalHead(entries[k].rec, entries[k].mode, codec)
    ensures ReadsEntry(data, entries, k, BehindIn(data, codec)(offset + HEAD_SIZE, head, maxRam), codec)
  {
    EntryAt(entries, k, codec);
    BehindRead(data, offset, entries[k].rec, entries[k].mode, codec, maxRam);
  }

  lemma FinishReadKeeps(s: State, i: nat, step: Step, codec: Codec)
    requires Lossless(codec) && Inv(s, codec) && i < |s.readers| && step.Finish? && s.readers[i].phase.Behind?
    ensures ReaderInv(s.data, s.entries, Read(s.data, s.readers[i], step, codec), codec)
  {
    var r := s.readers[i];
    BehindEntry(s.data, s.entries, |r.returned|, r.offset, r.phase.head, step.maxRam, codec);
    FinishKeeps(s.data, s.entries, r, step, HeadAt(s.data, r.offset), BehindIn(s.data, codec), codec);
  }

  lemma ReadKeeps(s: State, i: nat, step: Step, codec: Codec)
    requires Lossless(codec) && Inv(s, codec) && i < |s.readers| && (step.Fetch? || step.Finish?)
    ensures ReaderInv(s.data, s.entries, Read(s.data, s.readers[i], step, codec), codec)
  {
    if step.Fetch? && s.readers[i].phase.AtHead? {
      FetchKeeps(s.data, s.entries, s.readers[i], codec);
    } else if step.Finish? && s.readers[i].phase.Behind? {
      FinishReadKeeps(s, i, step, codec);
    }
  }

  lemma WriteStepKeeps(s: State, step: Step, codec: Codec)
    requires Inv(s, codec) && GoodStep(step)
    ensures Inv(Write(s, step, codec), codec) && Grows(s.entries, Write(s, step, codec).entries)
  {
    var t := Write(s, step, codec);
    WriteKeeps(s, step, codec);
    forall i | 0 <= i < |t.readers| ensures ReaderInv(t.data, t.entries, t.readers[i], codec) {
      ReaderKept(s.entries, t.entries, s.readers[i], codec);
    }
  }

  lemma ReaderStepKeeps(s: State, t: State, i: nat, codec: Codec)
    requires Inv(s, codec) && t == s.(readers := t.readers)
    requires i < |t.readers| && ReaderInv(s.data, s.entries, t.readers[i], codec)
    requires forall j | 0 <= j < |t.readers| && j != i :: j < |s.readers| && t.readers[j] == s.readers[j]
    ensures Inv(t, codec) && Grows(s.entries, t.entries)
  {
  }

  lemma StepKeeps(s: State, step: Step, codec: Codec)
    requires Lossless(codec) && Inv(s, codec) && GoodStep(step)
    ensures Inv(Apply(s, step, codec), codec)
    ensures Grows(s.entries, Apply(s, step, codec).entries)
  {
    if step.Open? {
      assert s.entries[..0] == [];
      ReaderStepKeeps(s, Apply(s, step, codec), |s.readers|, codec);
    } else if step.Fetch? || step.Finish? {
      if step.reader < |s.readers| {
        ReadKeeps(s, step.reader, step, codec);
        ReaderStepKeeps(s, Apply(s, step, codec), step.reader, codec);
      }
    } else {
      WriteStepKeeps(s, step, codec);
    }
  }

  lemma {:induction false} RunKeeps(s: State, steps: seq<Step>, codec: Codec)
    requires Lossless(codec) && Inv(s, codec) && forall i | 0 <= i < |steps| :: GoodStep(steps[i])
    ensures Inv(Run(s, steps, codec), codec)
    ensures Grows(s.entries, Run(s, steps, codec).entries)
    decreases |steps|
  {
    if steps != [] {
      StepKeeps(s, steps[0], codec);
      RunKeeps(Apply(s, steps[0], codec), steps[1..], codec);
    }
  }

  // What holds of every run

  ghost predicate GoodSteps(steps: seq<Step>) {
    forall i | 0 <= i < |steps| :: GoodStep(steps[i])
  }

  /** The records committed to the file with their compression modes, in file order. */
  function Log(entries: seq<Entry>): (log: seq<Entry>)
    ensures forall j | 0 <= j < |log| :: log[j].Committed?
  {
    if entries == [] then []
    else if entries[0].Committed? then [entries[0]] + Log(entries[1..])
    else Log(entries[1..])
  }

  lemma {:induction false} LogPrefix(entries: seq<Entry>, k: nat)
    requires k <= |entries| && forall j | 0 <= j < k :: entries[j].Committed?
    ensures k <= |Log(entries)| && forall j | 0 <= j < k :: Log(entries)[j] == entries[j]
  {
    if k > 0 {
      LogPrefix(entries[1..], k - 1);
      forall j | 0 <= j < k ensures Log(entries)[j] == entries[j] {
        assert j > 0 ==> Log(entries[1..])[j - 1] == entries[1..][j - 1];
      }
    }
  }

  /** What was returned is the beginning of the log, all fetchable, and an error stands at the record after it. */
  ghost predicate SeesPrefix(data: bytes, log: seq<Entry>, r: Reader)
    requires forall j | 0 <= j < |log| :: log[j].Committed?
  {
    && |r.returned| <= |log|
    && (forall j | 0 <= j < |r.returned| ::
          Fetchable(log[j]) && ResolveAll(data, r.returned[j]) == TrimmedValue(log[j].rec))
    && (r.phase.Broken? ==>
          |r.returned| < |log| && Fetchable(log[|r.returned|]) && FailsAt(r.phase.error, log[|r.returned|]))
  }

  lemma InvSeesLog(data: bytes, entries: seq<Entry>, r: Reader, log: seq<Entry>, codec: Codec)
    requires forall j | 0 <= j < |log| :: log[j].Committed?
    requires ReaderInv(data, entries, r, codec) && |r.returned| <= |log|
    requires forall j | 0 <= j < |r.returned| :: entries[j].Committed? && log[j] == entries[j]
    requires r.phase.Broken? ==> |r.returned| < |log| && log[|r.returned|] == entries[|r.returned|]
    ensures SeesPrefix(data, log, r)
  {
    forall j | 0 <= j < |r.returned|
      ensures Fetchable(log[j]) && ResolveAll(data, r.returned[j]) == TrimmedValue(log[j].rec)
    {
      assert ReturnedInv(data, entries, r.returned[j], j, codec);
    }
  }

  lemma InvSeesPrefix(data: bytes, entries: seq<Entry>, r: Reader, codec: Codec)
    requires ReaderInv(data, entries, r, codec)
    ensures SeesPrefix(data, Log(entries), r)
  {
    var k := |r.returned|;
    var n := if r.phase.Broken? then k + 1 else k;
    forall j | 0 <= j < n ensures entries[j].Committed? {
      if j < k {
        assert ReturnedInv(data, entries, r.returned[j], j, codec);
      }
    }
    LogPrefix(entries, n);
    InvSeesLog(data, entries, r, Log(entries), codec);
  }

  lemma InitInv(codec: Codec)
    ensures Inv(INIT, codec)
  {
  }

  /** A step of reader `i` whose limit is below the size at which it refuses a body. */
  predicate RefusesAt(step: Step, i: nat, size: nat) {
    step.Finish? && step.reader == i && step.maxBody < size == step.refuseAt
  }

  ghost predicate RefusedIn(steps: seq<Step>, i: nat, size: nat) {
    exists k :: 0 <= k < |steps| && RefusesAt(steps[k], i, size)
  }

  predicate TooLong(s: State, i: nat, size: nat) {
    i < |s.readers| && s.readers[i].phase == Broken(BodyTooLong(size))
  }

  lemma FinishRefuses(s: State, i: nat, step: Step, size: nat, codec: Codec)
    requires Lossless(codec) && Inv(s, codec) && i < |s.readers| && step.Finish? && step.reader == i
    requires s.readers[i].phase.Behind?
    ensures Read(s.data, s.readers[i], step, codec).phase == Broken(BodyTooLong(size)) ==> RefusesAt(step, i, size)
  {
    var r := s.readers[i];
    BehindEntry(s.data, s.entries, |r.returned|, r.offset, r.phase.head, step.maxRam, codec);
    FinishedRefuses(s.data, s.entries, r, step, HeadAt(s.data, r.offset), BehindIn(s.data, codec), size, codec);
  }

  lemma FinishedRefuses(data: bytes, entries: seq<Entry>, r: Reader, step: Step,
                        head: Result<Option<RecordHead>, BarcError>,
                        behind: Reads, size: nat, codec: Codec)
    requires step.Finish? && r.phase.Behind? && |r.returned| < |entries| && entries[|r.returned|].Committed?
    requires ReadsEntry(data, entries, |r.returned|, behind(r.offset + HEAD_SIZE, r.phase.head, step.maxRam), codec)
    ensures ReadWith(r, step, head, behind).phase == Broken(BodyTooLong(size)) ==> step.maxBody < size == step.refuseAt
  {
  }

  lemma StepRefuses(s: State, i: nat, step: Step, size: nat, codec: Codec)
    requires Lossless(codec) && Inv(s, codec) && GoodStep(step) && TooLong(Apply(s, step, codec), i, size)
    ensures TooLong(s, i, size) || RefusesAt(step, i, size)
  {
    if step.Fetch? && step.reader == i < |s.readers| {
      if s.readers[i].phase.AtHead? {
        FetchKeeps(s.data, s.entries, s.readers[i], codec);
      }
    } else if step.Finish? && step.reader == i < |s.readers| {
      if s.readers[i].phase.Behind? {
        FinishRefuses(s, i, step, size, codec);
      }
    } else if !step.Open? && !step.Fetch? && !step.Finish? {
      WriteKeeps(s, step, codec);
    }
  }

  /** A body is refused only by a step of that reader with a smaller limit. */
  lemma {:induction false} RunRefuses(s: State, i: nat, steps: seq<Step>, size: nat, codec: Codec)
    requires Lossless(codec) && Inv(s, codec) && GoodSteps(steps) && TooLong(Run(s, steps, codec), i, size)
    ensures TooLong(s, i, size) || RefusedIn(steps, i, size)
    decreases |steps|
  {
    if steps != [] {
      var t := Apply(s, steps[0], codec);
      StepKeeps(s, steps[0], codec);
      RunRefuses(t, i, steps[1..], size, codec);
      if TooLong(t, i, size) {
        StepRefuses(s, i, steps[0], size, codec);
      } else {
        var k :| 0 <= k < |steps[1..]| && RefusesAt(steps[1..][k], i, size);
        assert steps[k + 1] == steps[1..][k];
      }
    }
  }

  /**
   * In every interleaving of a writer's and any number of readers' steps,
   * with any abandoned writes and records of either type, what a reader has returned is a prefix of the
   * committed records, complete, in order, and still the same in the file as
   * it is now. A reader fails only at a committed record with too many header
   * fields, or at a compressed one whose response body is longer than the
   * limit of the step that refused it.
   */
  lemma ReadersSeeCommittedPrefix(steps: seq<Step>, i: nat, codec: Codec)
    requires Lossless(codec) && GoodSteps(steps)
    requires i < |Run(INIT, steps, codec).readers|
    ensures var s := Run(INIT, steps, codec);
            && SeesPrefix(s.data, Log(s.entries), s.readers[i])
            && forall size: nat :: TooLong(s, i, size) ==> RefusedIn(steps, i, size)
  {
    InitInv(codec);
    RunKeeps(INIT, steps, codec);
    var s := Run(INIT, steps, codec);
    InvSeesPrefix(s.data, s.entries, s.readers[i], codec);
    forall size: nat | TooLong(s, i, size) ensures RefusedIn(steps, i, size) {
      RunRefuses(INIT, i, steps, size, codec);
    }
  }

  /** Every byte of a committed record stays where it is and as it is, over every later run. */
  lemma CommittedBytesStay(s: State, steps: seq<Step>, k: nat, codec: Codec)
    requires Lossless(codec) && Inv(s, codec) && GoodSteps(steps)
    requires k < |s.entries| && s.entries[k].Committed?
    ensures var t := Run(s, steps, codec);
            var stored := Serialize(s.entries[k].rec, s.entries[k].mode, codec);
            At(s.data, Offset(s.entries, k, codec), stored) && At(t.data, Offset(s.entries, k, codec), stored)
  {
    RunKeeps(s, steps, codec);
    var t := Run(s, steps, codec);
    CommittedPrefix(s.entries, t.entries, k);
    EntryAt(s.entries, k, codec);
    EntryAt(t.entries, k, codec);
  }

  lemma CommittedPrefix(a: seq<Entry>, b: seq<Entry>, k: nat)
    requires Grows(a, b) && k < |a| && a[k].Committed?
    ensures k < |b| && a[k] == b[k] && a[..k] == b[..k]
  {
  }

  /** A record handed out with bodies left in the file is the same record after every later run. */
  lemma SlicesStay(s: State, steps: seq<Step>, i: nat, j: nat, codec: Codec)
    requires Lossless(codec) && Inv(s, codec) && GoodSteps(steps)
    requires i < |s.readers| && j < |s.readers[i].returned|
    ensures ResolveAll(Run(s, steps, codec).data, s.readers[i].returned[j])
            == ResolveAll(s.data, s.readers[i].returned[j])
  {
    RunKeeps(s, steps, codec);
    var t := Run(s, steps, codec);
    ReaderKept(s.entries, t.entries, s.readers[i], codec);
    assert ReturnedInv(s.data, s.entries, s.readers[i].returned[j], j, codec);
    assert ReturnedInv(t.data, t.entries, s.readers[i].returned[j], j, codec);
  }

  /** The reader stands at a reservation for good. */
  ghost predicate Parked(s: State, i: nat) {
    && i < |s.readers| && s.readers[i].phase.AtHead?
    && LeftBehind(s, |s.readers[i].returned|)
  }

  lemma ParkedStep(s: State, i: nat, step: Step, codec: Codec)
    requires Lossless(codec) && Inv(s, codec) && GoodStep(step) && Parked(s, i)
    ensures Parked(Apply(s, step, codec), i) && Apply(s, step, codec).readers[i] == s.readers[i]
  {
    if step.Fetch? && step.reader == i {
      FetchKeeps(s.data, s.entries, s.readers[i], codec);
    } else if !step.Open? && !step.Fetch? && !step.Finish? {
      ParkedWrite(s, |s.readers[i].returned|, step, codec);
    }
  }

  /** Entry `k` is a reservation that the writer, if any, has left behind, or a record with the type of one. */
  ghost predicate LeftBehind(s: State, k: nat) {
    k < |s.entries| && !Fetchable(s.entries[k]) && (s.writer.Writing? ==> k < |s.entries| - 1)
  }

  lemma ParkedAppend(s: State, k: nat, n: nat)
    requires LeftBehind(s, k) && s.writer.Writing? && n <= |s.writer.left|
    ensures LeftBehind(AppendSome(s, n), k) && AppendSome(s, n).entries[k] == s.entries[k]
  {
    LastOnly(s.entries, Extend(s.entries, s.writer.left[..n]), k);
  }

  lemma ParkedCommit(s: State, k: nat, codec: Codec)
    requires LeftBehind(s, k) && s.writer.Writing?
    ensures LeftBehind(CommitHead(s, codec), k) && CommitHead(s, codec).entries[k] == s.entries[k]
  {
    LastOnly(s.entries, Settle(s.entries, s.writer.rec, s.writer.mode), k);
  }

  lemma ParkedWrite(s: State, k: nat, step: Step, codec: Codec)
    requires LeftBehind(s, k)
    ensures LeftBehind(Write(s, step, codec), k) && Write(s, step, codec).entries[k] == s.entries[k]
  {
    match step
    case Append(n) =>
      if s.writer.Writing? && n <= |s.writer.left| {
        ParkedAppend(s, k, n);
      }
    case Commit =>
      if s.writer.Writing? {
        ParkedCommit(s, k, codec);
      }
    case _ =>
  }

  lemma LastOnly(a: seq<Entry>, b: seq<Entry>, k: nat)
    requires k < |a| - 1 && |b| == |a| && b[..|a| - 1] == a[..|a| - 1]
    ensures b[k] == a[k]
  {
    assert b[k] == b[..|a| - 1][k];
  }

  /**
   * A reader that reaches an abandoned reservation, or a record with the type
   * of one, stays there: it returns nothing more, whatever is written later.
   */
  lemma {:induction false} ParkedForever(s: State, i: nat, steps: seq<Step>, codec: Codec)
    requires Lossless(codec) && Inv(s, codec) && GoodSteps(steps) && Parked(s, i)
    ensures i < |Run(s, steps, codec).readers| && Run(s, steps, codec).readers[i] == s.readers[i]
    decreases |steps|
  {
    if steps != [] {
      StepKeeps(s, steps[0], codec);
      ParkedStep(s, i, steps[0], codec);
      ParkedForever(Apply(s, steps[0], codec), i, steps[1..], codec);
    }
  }

  /** A fetch that finds no record, at the end of the file or at a reservation, leaves the reader as it was. */
  lemma NothingChangesNothing(s: State, i: nat, codec: Codec)
    requires Inv(s, codec) && i < |s.readers| && s.readers[i].phase.AtHead?
    requires var k := |s.readers[i].returned|; k == |s.entries| || !Fetchable(s.entries[k])
    ensures Apply(s, Fetch(i), codec) == s
  {
    FetchKeeps(s.data, s.entries, s.readers[i], codec);
    assert s.readers[i := s.readers[i]] == s.readers;
  }

  lemma FinishedReturns(data: bytes, entries: seq<Entry>, r: Reader, step: Step,
                        head: Result<Option<RecordHead>, BarcError>, behind: Reads, codec: Codec)
    requires step.Finish? && r.phase.Behind? && |r.returned| < |entries|
             && Acceptable(entries[|r.returned|], step.maxBody)
    requires r.phase.head.compress == entries[|r.returned|].mode
    requires ReadsEntry(data, entries, |r.returned|, behind(r.offset + HEAD_SIZE, r.phase.head, step.maxRam), codec)
    ensures var t := ReadWith(r, step, head, behind);
            t.phase.AtHead? && |t.returned| == |r.returned| + 1 && r.returned <= t.returned
  {
    var o := behind(r.offset + HEAD_SIZE, r.phase.head, step.maxRam);
    assert Resolve(data, o.rec.resBody) == entries[|r.returned|].rec.resBody;
  }

  /** A reader behind a head returns one more record. */
  lemma FinishReturns(s: State, i: nat, step: Step, codec: Codec)
    requires Lossless(codec) && Inv(s, codec) && i < |s.readers| && step.Finish? && s.readers[i].phase.Behind?
    requires Acceptable(s.entries[|s.readers[i].returned|], step.maxBody)
    ensures var r, t := s.readers[i], Read(s.data, s.readers[i], step, codec);
            t.phase.AtHead? && |t.returned| == |r.returned| + 1 && r.returned <= t.returned
  {
    var r := s.readers[i];
    assert r.phase.head.compress == s.entries[|r.returned|].mode;
    BehindEntry(s.data, s.entries, |r.returned|, r.offset, r.phase.head, step.maxRam, codec);
    FinishedReturns(s.data, s.entries, r, step, HeadAt(s.data, r.offset), BehindIn(s.data, codec), codec);
  }

  /** Once the record the reader stands at is committed, a fetch and a finish return it, whatever the limits. */
  lemma CommittedIsPickedUp(s: State, i: nat, step: Step, codec: Codec)
    requires Lossless(codec) && Inv(s, codec) && i < |s.readers| && s.readers[i].phase.AtHead?
    requires step.Finish? && step.reader == i
    requires var k := |s.readers[i].returned|; k < |s.entries| && Acceptable(s.entries[k], step.maxBody)
    ensures var t := Apply(Apply(s, Fetch(i), codec), step, codec);
            var r := s.readers[i];
            && |t.readers| == |s.readers| && t.entries == s.entries && Inv(t, codec)
            && t.readers[i].phase.AtHead?
            && |t.readers[i].returned| == |r.returned| + 1 && r.returned <= t.readers[i].returned
  {
    var u := Apply(s, Fetch(i), codec);
    FetchKeeps(s.data, s.entries, s.readers[i], codec);
    StepKeeps(s, Fetch(i), codec);
    FinishReturns(u, i, step, codec);
    StepKeeps(u, step, codec);
  }

  /**
   * A plain record whose five blocks are each read after a different run of
   * later steps is the record that is read in one step: the single step in
   * which a reader reads what is behind a head stands for all interleavings
   * of its block reads.
   */
  lemma BlocksMayInterleave(s: State, runs: seq<seq<Step>>, k: nat, maxRam: nat, codec: Codec)
    requires Lossless(codec) && Inv(s, codec) && |runs| == 5 && forall i | 0 <= i < 5 :: GoodSteps(runs[i])
    requires k < |s.entries| && s.entries[k].Committed? && s.entries[k].mode.Plain?
    ensures var start, head := Offset(s.entries, k, codec) + HEAD_SIZE, FinalHead(s.entries[k].rec, Plain, codec);
            ReadSpread(Later(s, runs, codec), start, head, maxRam) == ReadPlain(s.data, start, head, maxRam)
  {
    var rec, start := s.entries[k].rec, Offset(s.entries, k, codec);
    var head, stored, times := FinalHead(rec, Plain, codec), Stored(rec, Plain, codec), Later(s, runs, codec);
    HeadSize(head);
    forall i | 0 <= i < 5 ensures At(times[i], start + HEAD_SIZE, stored) {
      CommittedBytesStay(s, runs[i], k, codec);
      AtSplit(times[i], start, PrintHead(head), stored);
    }
    EntryAt(s.entries, k, codec);
    AtSplit(s.data, start, PrintHead(head), stored);
    SpreadRead(times, s.data, start + HEAD_SIZE, stored, head, maxRam);
  }

  /** The file after each of some runs. */
  function Later(s: State, runs: seq<seq<Step>>, codec: Codec): (r: seq<bytes>)
    ensures |r| == |runs|
  {
    seq(|runs|, i requires 0 <= i < |runs| => Run(s, runs[i], codec).data)
  }

  // The steps of one participant in a row

  /** A write that nothing interrupts appends the serialized record, as BarcWriter.Write does. */
  lemma WriteIsARun(s: State, rec: Value, mode: Compression, codec: Codec)
    requires s.writer.Idle? && Writable(rec, mode, codec)
    ensures Run(s, [Reserve(rec, mode), Append(|Stored(rec, mode, codec)|), Commit], codec) ==
            s.(data := s.data + Serialize(rec, mode, codec), entries := s.entries + [Committed(rec, mode)])
  {
    AppendAll(s, rec, mode, codec);
    CommitAll(s, rec, mode, codec);
    WriteSteps(s, rec, mode, |Stored(rec, mode, codec)|, codec);
  }

  lemma WriteSteps(s: State, rec: Value, mode: Compression, n: nat, codec: Codec)
    ensures Run(s, [Reserve(rec, mode), Append(n), Commit], codec) ==
            CommitHead(AppendSome(StartWrite(s, rec, mode, codec), n), codec)
  {
    ThreeSteps(s, Reserve(rec, mode), Append(n), Commit, codec);
  }

  function AllAppended(s: State, rec: Value, mode: Compression, stored: bytes): State {
    State(s.data + PrintHead(RESERVE_HEAD) + stored, Writing(|s.data|, rec, mode, []), s.readers,
          s.entries + [Pending(stored)])
  }

  lemma AppendAll(s: State, rec: Value, mode: Compression, codec: Codec)
    requires s.writer.Idle?
    ensures var stored := Stored(rec, mode, codec);
            AppendSome(StartWrite(s, rec, mode, codec), |stored|) == AllAppended(s, rec, mode, stored)
  {
    var stored := Stored(rec, mode, codec);
    ReservedAndFull(s, rec, mode, stored);
    assert stored[..|stored|] == stored && stored[|stored|..] == [];
  }

  lemma CommitAll(s: State, rec: Value, mode: Compression, codec: Codec)
    requires s.writer.Idle? && Writable(rec, mode, codec)
    ensures CommitHead(AllAppended(s, rec, mode, Stored(rec, mode, codec)), codec) ==
            s.(data := s.data + Serialize(rec, mode, codec), entries := s.entries + [Committed(rec, mode)])
  {
    var stored, reserved, head := Stored(rec, mode, codec), PrintHead(RESERVE_HEAD), FinalHead(rec, mode, codec);
    HeadSize(RESERVE_HEAD);
    HeadSize(head);
    Associative(s.data, reserved, stored);
    OverwriteMiddle(s.data, reserved, stored, PrintHead(head));
    assert (s.entries + [Pending(stored)])[..|s.entries|] == s.entries;
  }

  /** A write that is abandoned leaves the reservation and what it appended. */
  lemma AbandonIsARun(s: State, rec: Value, mode: Compression, n: nat, codec: Codec)
    requires s.writer.Idle? && n <= |Stored(rec, mode, codec)|
    ensures var t := Run(s, [Reserve(rec, mode), Append(n), Abandon], codec);
            && t.data == s.data + (PrintHead(RESERVE_HEAD) + Stored(rec, mode, codec)[..n])
            && t.writer.Idle? && t.readers == s.readers
  {
    ThreeSteps(s, Reserve(rec, mode), Append(n), Abandon, codec);
    Associative(s.data, PrintHead(RESERVE_HEAD), Stored(rec, mode, codec)[..n]);
  }

  lemma ReservedAndFull(s: State, rec: Value, mode: Compression, stored: bytes)
    ensures Extend(s.entries + [Pending([])], stored) == s.entries + [Pending(stored)]
  {
    assert (s.entries + [Pending([])])[..|s.entries|] == s.entries;
    assert [] + stored == stored;
  }

  lemma ThreeSteps(s: State, a: Step, b: Step, c: Step, codec: Codec)
    ensures Run(s, [a, b, c], codec) == Apply(Apply(Apply(s, a, codec), b, codec), c, codec)
  {
    var t := Apply(s, a, codec);
    var u := Apply(t, b, codec);
    assert [a, b, c][1..] == [b, c] && [b, c][1..] == [c] && [c][1..] == [];
    assert Run(u, [c], codec) == Apply(u, c, codec);
    assert Run(t, [b, c], codec) == Run(u, [c], codec);
  }

  /**
   * A fetch and a finish in a row are one read, as BarcReader.Read makes it,
   * whether it refuses the response body or not.
   */
  lemma ReadIsTwoSteps(data: bytes, r: Reader, i: nat, maxRam: nat, maxBody: nat, refuseAt: nat, codec: Codec)
    requires r.phase.AtHead?
    ensures var t := Read(data, Read(data, r, Fetch(i), codec), Finish(i, maxRam, maxBody, refuseAt), codec);
            match ReadAt(data, r.offset, maxRam, codec)
            case Nothing => t == r
            case Failure(e) => t == r.(phase := Broken(e))
            case Found(rec, next) =>
              t == if PackedAt(data, r.offset) && rec.resBody.Held? && maxBody < refuseAt <= |rec.resBody.buf|
                   then r.(phase := Broken(BodyTooLong(refuseAt)))
                   else Reader(next, AtHead, r.returned + [rec])
  {
    TwoSteps(r, i, maxRam, maxBody, refuseAt, HeadAt(data, r.offset), BehindIn(data, codec));
  }

  lemma TwoSteps(r: Reader, i: nat, maxRam: nat, maxBody: nat, refuseAt: nat,
                 head: Result<Option<RecordHead>, BarcError>, behind: Reads)
    requires r.phase.AtHead?
    ensures var t := ReadWith(ReadWith(r, Fetch(i), head, behind), Finish(i, maxRam, maxBody, refuseAt), head, behind);
            if head.Err? then t == r.(phase := Broken(head.error))
            else if head.value.None? || head.value.value.recType.Reserved? then t == r
            else
              var h := head.value.value;
              var u := r.(phase := Behind(h));
              t == Finished(u, behind(r.offset + HEAD_SIZE, h, maxRam), h.compress.Plain?, maxBody, refuseAt)
  {
  }

  /** The two steps as a run: nothing but that reader changes. */
  lemma ReadIsARun(s: State, i: nat, maxRam: nat, maxBody: nat, refuseAt: nat, codec: Codec)
    requires i < |s.readers|
    ensures var step := Finish(i, maxRam, maxBody, refuseAt);
            Run(s, [Fetch(i), step], codec) ==
            s.(readers := s.readers[i := Read(s.data, Read(s.data, s.readers[i], Fetch(i), codec), step, codec)])
  {
    var a, b := Fetch(i), Finish(i, maxRam, maxBody, refuseAt);
    var t := Apply(s, a, codec);
    assert [a, b][1..] == [b] && [b][1..] == [];
    assert Run(t, [b], codec) == Apply(t, b, codec);
    assert t.readers[i := Apply(t, b, codec).readers[i]] == s.readers[i := Apply(t, b, codec).readers[i]];
  }

  // Runs from an empty file

  /** There is one writer at a time, which commits only when all is written; a reader reads only behind a head. */
  lemma OutOfTurn(s: State, step: Step, codec: Codec)
    requires match step
             case Reserve(_, _) => s.writer.Writing?
             case Append(n) => s.writer.Idle? || n > |s.writer.left|
             case Commit => s.writer.Idle? || s.writer.left != []
             case Abandon => s.writer.Idle?
             case Open => false
             case Fetch(i) => i < |s.readers| ==> !s.readers[i].phase.AtHead?
             case Finish(i, _, _, _) => i < |s.readers| ==> !s.readers[i].phase.Behind?
    ensures Apply(s, step, codec) == s
  {
    if (step.Fetch? || step.Finish?) && step.reader < |s.readers| {
      assert s.readers[step.reader := s.readers[step.reader]] == s.readers;
    }
  }

  /** How many steps open a reader. */
  function Opens(steps: seq<Step>): nat {
    if steps == [] then 0 else (if steps[0].Open? then 1 else 0) + Opens(steps[1..])
  }

  /** Every Open adds a reader, and no other step adds or removes one. */
  lemma {:induction false} ReadersOpened(s: State, steps: seq<Step>, codec: Codec)
    ensures |Run(s, steps, codec).readers| == |s.readers| + Opens(steps)
    decreases |steps|
  {
    if steps != [] {
      ReadersOpened(Apply(s, steps[0], codec), steps[1..], codec);
    }
  }

  /** A reader that failed is never used again. */
  lemma {:induction false} BrokenForever(s: State, i: nat, steps: seq<Step>, codec: Codec)
    requires i < |s.readers| && s.readers[i].phase.Broken?
    ensures i < |Run(s, steps, codec).readers| && Run(s, steps, codec).readers[i] == s.readers[i]
    decreases |steps|
  {
    if steps != [] {
      BrokenForever(Apply(s, steps[0], codec), i, steps[1..], codec);
    }
  }

  lemma {:induction false} RunAppend(s: State, a: seq<Step>, b: seq<Step>, codec: Codec)
    ensures Run(s, a + b, codec) == Run(Run(s, a, codec), b, codec)
    decreases |a|
  {
    if a == [] {
      assert a + b == b;
    } else {
      RunAppend(Apply(s, a[0], codec), a[1..], b, codec);
      assert (a + b)[1..] == a[1..] + b;
    }
  }

  /** A record to write, and the limits to read it with. */
  datatype Job = Job(rec: Value, mode: Compression, maxRam: nat, maxBody: nat, refuseAt: nat)

  function WriteOf(j: Job, codec: Codec): seq<Step> {
    [Reserve(j.rec, j.mode), Append(|Stored(j.rec, j.mode, codec)|), Commit]
  }

  /** All jobs written one after the other. */
  function Writes(jobs: seq<Job>, codec: Codec): seq<Step> {
    if jobs == [] then [] else WriteOf(jobs[0], codec) + Writes(jobs[1..], codec)
  }

  function ReadOf(i: nat, j: Job): seq<Step> {
    [Fetch(i), Finish(i, j.maxRam, j.maxBody, j.refuseAt)]
  }

  /** One read of reader `i` for each job. */
  function ReadsBy(i: nat, jobs: seq<Job>): seq<Step> {
    if jobs == [] then [] else ReadOf(i, jobs[0]) + ReadsBy(i, jobs[1..])
  }

  function EntriesOf(jobs: seq<Job>): (r: seq<Entry>)
    ensures |r| == |jobs|
  {
    seq(|jobs|, j requires 0 <= j < |jobs| => Committed(jobs[j].rec, jobs[j].mode))
  }

  /** The record can be written and, within the limits of the job, read. */
  ghost predicate GoodJob(j: Job, codec: Codec) {
    Writable(j.rec, j.mode, codec) && Acceptable(Committed(j.rec, j.mode), j.maxBody)
  }

  lemma JobWritten(s: State, j: Job, codec: Codec)
    requires s.writer.Idle? && GoodJob(j, codec)
    ensures var t := Run(s, WriteOf(j, codec), codec);
            t.writer.Idle? && t.readers == s.readers && t.entries == s.entries + [Committed(j.rec, j.mode)]
  {
    WriteIsARun(s, j.rec, j.mode, codec);
  }

  lemma {:induction false} WritesRun(s: State, jobs: seq<Job>, codec: Codec)
    requires s.writer.Idle? && forall j | 0 <= j < |jobs| :: GoodJob(jobs[j], codec)
    ensures var t := Run(s, Writes(jobs, codec), codec);
            t.writer.Idle? && t.readers == s.readers && t.entries == s.entries + EntriesOf(jobs)
    decreases |jobs|
  {
    if jobs == [] {
      assert s.entries + EntriesOf(jobs) == s.entries;
    } else {
      var steps, rest, one := WriteOf(jobs[0], codec), Writes(jobs[1..], codec), Committed(jobs[0].rec, jobs[0].mode);
      JobWritten(s, jobs[0], codec);
      RunAppend(s, steps, rest, codec);
      WritesRun(Run(s, steps, codec), jobs[1..], codec);
      EntriesFirst(s.entries, jobs);
    }
  }

  lemma EntriesFirst(entries: seq<Entry>, jobs: seq<Job>)
    requires jobs != []
    ensures entries + EntriesOf(jobs) == entries + [Committed(jobs[0].rec, jobs[0].mode)] + EntriesOf(jobs[1..])
  {
  }

  lemma WritesAreGood(jobs: seq<Job>, codec: Codec)
    requires forall j | 0 <= j < |jobs| :: GoodJob(jobs[j], codec)
    ensures GoodSteps(Writes(jobs, codec))
  {
    if jobs != [] {
      WritesAreGood(jobs[1..], codec);
    }
  }

  lemma TwoStepsRun(s: State, a: Step, b: Step, codec: Codec)
    ensures Run(s, [a, b], codec) == Apply(Apply(s, a, codec), b, codec)
  {
    var t := Apply(s, a, codec);
    assert [a, b][1..] == [b] && [b][1..] == [];
    assert Run(t, [b], codec) == Apply(t, b, codec);
  }

  /** The entries can be read within the limits of the jobs. */
  ghost predicate AllAccepted(entries: seq<Entry>, jobs: seq<Job>) {
    |entries| == |jobs| && forall j | 0 <= j < |jobs| :: Acceptable(entries[j], jobs[j].maxBody)
  }

  /** Reader `i` is ready to read entry `k`. */
  ghost predicate StandsAt(s: State, i: nat, k: nat) {
    i < |s.readers| && s.readers[i].phase.AtHead? && |s.readers[i].returned| == k
  }

  lemma JobRead(s: State, i: nat, k: nat, j: Job, codec: Codec)
    requires Lossless(codec) && Inv(s, codec) && StandsAt(s, i, k)
    requires k < |s.entries| && Acceptable(s.entries[k], j.maxBody)
    ensures var t := Run(s, ReadOf(i, j), codec);
            Inv(t, codec) && t.entries == s.entries && |t.readers| == |s.readers| && StandsAt(t, i, k + 1)
  {
    var step := Finish(i, j.maxRam, j.maxBody, j.refuseAt);
    CommittedIsPickedUp(s, i, step, codec);
    TwoStepsRun(s, Fetch(i), step, codec);
  }

  lemma {:induction false} ReadsRun(s: State, i: nat, k: nat, jobs: seq<Job>, codec: Codec)
    requires Lossless(codec) && Inv(s, codec) && k <= |jobs| && StandsAt(s, i, k) && AllAccepted(s.entries, jobs)
    ensures var t := Run(s, ReadsBy(i, jobs[k..]), codec);
            Inv(t, codec) && t.entries == s.entries && |t.readers| == |s.readers| && StandsAt(t, i, |jobs|)
    decreases |jobs| - k
  {
    if k < |jobs| {
      var read, rest := ReadOf(i, jobs[k]), ReadsBy(i, jobs[k + 1..]);
      assert jobs[k..][0] == jobs[k] && jobs[k..][1..] == jobs[k + 1..];
      JobRead(s, i, k, jobs[k], codec);
      RunAppend(s, read, rest, codec);
      ReadsRun(Run(s, read, codec), i, k + 1, jobs, codec);
    }
  }

  /**
   * From an empty file: a reader that is opened before anything is written
   * returns every one of the records that are then written, in order, trimmed,
   * with one fetch and one finish for each.
   */
  lemma AllIsRead(jobs: seq<Job>, codec: Codec)
    requires Lossless(codec) && forall j | 0 <= j < |jobs| :: GoodJob(jobs[j], codec)
    ensures var t := Run(INIT, [Open] + (Writes(jobs, codec) + ReadsBy(0, jobs)), codec);
            && |t.readers| == 1 && |t.readers[0].returned| == |jobs|
            && forall j | 0 <= j < |jobs| ::
                 ResolveAll(t.data, t.readers[0].returned[j]) == TrimmedValue(jobs[j].rec)
  {
    var start := Apply(INIT, Open, codec);
    var written := Run(start, Writes(jobs, codec), codec);
    var t := Run(written, ReadsBy(0, jobs), codec);
    RunAppend(INIT, [Open], Writes(jobs, codec) + ReadsBy(0, jobs), codec);
    assert Run(INIT, [Open], codec) == start;
    RunAppend(start, Writes(jobs, codec), ReadsBy(0, jobs), codec);
    InitInv(codec);
    StepKeeps(INIT, Open, codec);
    WritesRun(start, jobs, codec);
    WritesAreGood(jobs, codec);
    RunKeeps(start, Writes(jobs, codec), codec);
    assert [] + EntriesOf(jobs) == EntriesOf(jobs);
    assert jobs[0..] == jobs;
    ReadsRun(written, 0, 0, jobs, codec);
    forall j | 0 <= j < |jobs|
      ensures ResolveAll(t.data, t.readers[0].returned[j]) == TrimmedValue(jobs[j].rec)
    {
      assert ReturnedInv(t.data, t.entries, t.readers[0].returned[j], j, codec);
    }
  }
}
