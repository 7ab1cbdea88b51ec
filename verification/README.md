# BARC files, body storage and asynchronous body transfer: a verified model

This project models three layers of the repository over one notion, the
content of a body as a sequence of bytes, and proves that they keep it.

* **The BARC container** (`HeadCodec`, `HeaderBlocks`, `Encoders`,
  `BarcFormat`, `BarcWriting`, `BarcReading`, `BarcFiles`, `BarcProtocol`,
  `DialogConvert`, `FailingInputs`, `Literals`). `BarcFormat` says on values what bytes a
  record is written as and what a read at any offset of any file yields;
  `BarcWriting` and `BarcReading` are the writer and the reader as classes over a shared file,
  proved against it. `BarcProtocol` is a state machine of one writer at a time
  and any number of readers, in which reserving a head, appending a piece of a
  payload, overwriting the head, abandoning a write, fetching a head and
  reading what is behind it are separate steps that interleave freely.
* **Adaptive body storage** (`Storage`, `BodyReading`): `BodySink` and
  `BodyImage` in all their states, and `read_from` with its spill to a file.
* **Asynchronous sinks and streams** (`Blocking`, `Sinks`, `Streams`,
  `Forwarding`, `SplitBuffers`): the plain, Permit and Dispatch adaptors as
  poll-driven state machines with a blocking arbiter, driven by any legal
  calls under any schedule, and forwarded into each other.

`Bytes` and `Io` hold what the others share: buffers, a file as a growable
array of bytes, a handle with a position, and a source that delivers chunks of
any size with interruptions.

Four properties do not hold of the code in the generality one might expect,
and the exact conditions under which they do are proved instead.

* `Tunables::max_body` is documented as a bound on any body. After
  `BodyImage::read_from` has moved a body from RAM to a file, the count starts
  again at zero, so a longer body can be accepted. Whether it is depends on
  the buffer library, which is not part of this model: one whose
  `remaining_mut` counts all the room a buffer could grow to never has a full
  buffer, so the first one takes the whole source and the bound is exact
  (`BodyReading.GrowingBuffersExact`); if it is the spare capacity, buffers are
  full with room for less than 1024 bytes, as the code provides for, and the
  count can restart. `BodyReading.LimitHoldsExactly` says for which settings the
  bound holds for every source and every growth the code allows,
  `AcceptedBounds` gives the bound that always does, and `LimitFails` an input
  over the limit, with a buffer of exactly the capacity requested.
* A record does not come back unchanged if a header value has outer
  whitespace, which the reader trims, or if a block has over 128 fields, which
  the writer accepts and the reader does not, or if its type, a public field,
  is that of a reservation, which readers never pass.
  `BarcFormat.RecordRoundTrip` is an equivalence with the absence of all three,
  and `FailingInputs` has a record for each of the first two.
* The reader's offset is documented to advance with each successful read. It
  also moves with a failed one: `BarcReading.BarcReader.Read` says to exactly
  where, on any file contents, for every error but an I/O error of a file
  marked as faulty, and only after one of those can it be what it was.
  `BarcFiles.ReadWritten` gives the condition at a record that was written: the
  read fails, and moves the offset by a stated amount, exactly when a block has
  over 128 fields or a compressed response body is refused for its size.
  `FailingInputs.FailedReadMoves` is an example, and `ReadOnAfterError` what
  can follow: a caller who reads on is given a record that was never written.
* A dialog does not survive the conversions to a record and back if its
  version is HTTP/3, or if its encodings include identity or compress.
  `DialogConvert.RoundTripExactly` is an equivalence with the absence of
  these, and `FailingInputs` has a dialog for each kind.

## Model

| member | source | states |
|---|---|---|
| HeadCodec.ParseHex | barc/src/lib.rs:993-1008 | the digit loop returns the base-16 value of the whole run, or names the first byte that is not a lowercase digit |
| HeadCodec.HexRoundTrip | barc/src/lib.rs:742-761 | parsing inverts printing for every value and field width, including values too wide for the field |
| HeadCodec.HexWidth | barc/src/lib.rs:742-761 | a printed field has exactly the width asked for if and only if the value fits in it |
| HeadCodec.HexPrintsWhatItAccepts | barc/src/lib.rs:993-1008 | whatever run of digits is accepted is below 16 to its length and is what the printer prints for its value in a field of that length |
| HeadCodec.HeadSize | barc/src/lib.rs:742-761 | the assertion that a head is 54 bytes holds if and only if the five range assertions do |
| HeadCodec.HeadRoundTrip | barc/src/lib.rs:742-761 | every head within the limits is printed as 54 bytes that parse back to it |
| HeadCodec.ParsePrintParse | barc/src/lib.rs:934-959 | any accepted 54 bytes give a head within the limits; printing it again changes only separators and trailer, and parses to the same head |
| HeaderBlocks.LineRead | barc/src/lib.rs:780-784 | a written field line is read as its field with the value trimmed, whatever follows it |
| HeaderBlocks.HeadersRoundTrip | barc/src/lib.rs:1042-1070 | a written block of at most 128 fields parses to the same fields in order with trimmed values; one with more is InvalidHeader |
| HeaderBlocks.TrimKeeps | barc/src/lib.rs:1042-1070 | trimming changes a value if and only if it has outer whitespace |
| HeaderBlocks.TrimRemoves | barc/src/lib.rs:1042-1070 | trimming removes whitespace on both sides, all of it and nothing else |
| HeaderBlocks.FaithfulExactly | barc/src/lib.rs:1042-1070 | a written block comes back unchanged if and only if it has at most 128 fields and no value has outer whitespace |
| Encoders.Encoder.WriteAll | barc/src/lib.rs:706-709 | payload bytes go straight to the end of the file in plain mode and are held otherwise; a failure leaves a beginning of them |
| Encoders.Encoder.Finish | barc/src/lib.rs:737 | after finish the file ends in the payload as it is, or in its encoding; a failure leaves a beginning of that |
| Io.Source.Read | barc/src/lib.rs:964-990 | the Read contract assumed of sources: a chunk of 1 to the requested size, or nothing exactly at the end, or an interruption that changes nothing |
| BarcWriting.WriteHeaders | barc/src/lib.rs:774-793 | the loop appends exactly the block of field lines with its optional empty line, and returns its length, which is within the limit asserted |
| BarcWriting.WriteBody | barc/src/lib.rs:804-813 | appends exactly the content of a body in any state, with padding if asked for and not empty, and returns the length |
| BarcWriting.WriteBlocks | barc/src/lib.rs:710-736 | appends the five blocks in order, with the record limit asserted before the last, and returns their lengths before compression |
| BarcWriting.BarcWriter.WriteRecord | barc/src/lib.rs:700-739 | the file grows by the stored payload, or by a beginning of it on failure, and the head holds the uncompressed lengths |
| BarcWriting.WritePreamble | barc/src/lib.rs:710-722 | the four blocks before the response body, whatever of the file the request body is a slice of, and their lengths |
| BarcWriting.BarcWriter.WriteRecordHead | barc/src/lib.rs:742-761 | all six assertions of the head printer hold, and the printed head is written at the position, all or nothing |
| BarcWriting.BarcWriter.PutHead | barc/src/lib.rs:688-694 | the head overwrites the 54 bytes at the start, all or nothing; a later flush can still fail |
| BarcWriting.BarcWriter.WriteAs | barc/src/lib.rs:665-694 | the same over a file of known contents, step by step |
| Io.Handle.WriteHead | barc/src/lib.rs:742-761 | a head goes over the bytes at the position, all or nothing, and the history of the file grows by what it then is |
| Io.Handle.WriteAll | barc/src/lib.rs:706-709 | bytes are appended at the end of the file, or a beginning of them if it fails |
| BarcWriting.BarcWriter.Conclude | barc/src/lib.rs:674-696 | neither length assertion can fail, and the final head makes the reservation the serialized record |
| BarcWriting.BarcWriter.Write | barc/src/lib.rs:656-697 | success appends exactly the serialized record and returns the old end of the file as its offset; failure leaves the old file, a reservation with a beginning of the stored payload, or the record; no byte before the old end changes; and the heads are written in order, the reservation while nothing is behind it and the final one when the record is all there, with only appends in between |
| BarcFormat.HeadersRead | barc/src/lib.rs:1011-1039 | a written header block is read as its (trimmed) fields wherever it stands, with or without padding |
| BarcFormat.BodyRead | barc/src/lib.rs:1073-1097 | a written padded body is found wherever it stands, held or as a slice, without its padding |
| BarcFormat.PlainRead | barc/src/lib.rs:829-880 | adding up the head's lengths finds all five blocks of a plain record, and the body_len subtraction does not underflow |
| BarcFormat.UnpackedRead | barc/src/lib.rs:901-931 | the decompressed payload yields the five blocks, the last being what is left |
| BarcFormat.PackedRead | barc/src/lib.rs:901-931 | the same from the compressed slice of the file, for a lossless codec |
| BarcFormat.RecordRead | barc/src/lib.rs:829-880 | a read at any written record, in any file, compression mode and RAM limit, yields it with values trimmed and moves to its end, or is InvalidHeader exactly when a block has over 128 fields; one with the type of a reservation gives nothing |
| BarcFormat.RecordRoundTrip | barc/src/lib.rs:829-931 | reading what was written returns type, header lists and body contents unchanged if and only if the type is not that of a reservation, each block has at most 128 fields and no value has outer whitespace |
| BarcReading.ReadUpTo | barc/src/lib.rs:964-990 | through any short reads and interruptions consumes exactly the smaller of the size asked for (54) and what is left |
| BarcReading.ReadRecordHead | barc/src/lib.rs:934-959 | nothing at the end, an error for fewer than 54 bytes, else the parsed head; the position moves by 54, or by all there is before an error, or not at all at the end |
| BarcReading.ReadHeaders | barc/src/lib.rs:1011-1039 | the block at the position, parsed; end of file, malformed blocks and lengths of 1 or 2 are errors, each with the position after it |
| BarcReading.ReadBodyRam | barc/src/lib.rs:1073-1097 | a RAM image of exactly the block without its padding |
| BarcReading.ReadBodyFs | barc/src/lib.rs:1100-1146 | copies exactly len bytes, or all that are left, to a temporary file and reads no byte beyond; limit > 0 and body.len() == len are asserted and hold |
| BarcReading.SliceBody | barc/src/lib.rs:1150-1168 | an image of the range without padding, and the position behind the block |
| BarcReading.ReadPlainRecord | barc/src/lib.rs:855-880 | the method form of reading the blocks of a plain record, for every error and fault, each body in RAM or left in the file as its place says; after an error the position is where the block that failed leaves it |
| BarcReading.ReadUnpackedRecord | barc/src/lib.rs:901-931 | the method form of reading a decompressed record; the response body is refused exactly when read_from refuses it, at a size over the limit and within the body; and which bodies are in RAM and which in a temporary file |
| BarcReading.ReadCompressed | barc/src/lib.rs:901-931 | decodes only the record's slice of the file and reads the record from it |
| BarcReading.BarcReader.Read | barc/src/lib.rs:829-888 | on any file contents returns what ReadAt specifies and moves to the next record; nothing leaves the offset unchanged; after any error but an I/O error of a faulty file it has moved to exactly StoppedAt: behind what there is of a head, behind the head of a compressed record, or in a plain one where the block that failed ends |
| BarcReading.BarcReader.Seek | barc/src/lib.rs:893-896 | sets the offset that offset() reports |
| BarcFiles.ShownValue | barc/src/lib.rs:1150-1168 | bodies held, spilled or left as slices all show the bytes their place in the file denotes |
| BarcFiles.ReadWritten | barc/src/lib.rs:829-888 | the exact condition for the documented offset rule: on a reliable file the read at a written record succeeds if and only if each block has at most 128 fields and a compressed response body is accepted, and then moves by exactly the record; it fails otherwise and has moved, by 54 if compressed, else to the end of the first block with too many fields; only a record with the type of a reservation leaves the offset unchanged; and each body image is in RAM, a slice of this file or in a file of its own exactly as WrittenPlaces says |
| BarcFiles.WrittenPlaces | barc/src/lib.rs:860-928 | after the read of a written record a plain body is left in the file if and only if it is not empty and its padded block is over max_body_ram, else in RAM; a compressed request body is in RAM if and only if empty or within max_body_ram, and a response body if and only if empty or both it and 4096 are |
| BarcFiles.StoppedInWritten | barc/src/lib.rs:829-888 | where the offset is after a failed read of a written record, from the lengths of its blocks |
| BarcFiles.WriteThenRead | barc/src/lib.rs:656-931 | the writer's record read back at the returned offset has the same type, headers and body contents for all body kinds, modes, limits and chunkings; always if the response body is within max_body or the record is plain, and never if its type is that of a reservation |
| BarcFiles.WrittenAt | barc/src/lib.rs:829-931 | what the read at a written record finds, for each type, compression mode and number of fields; a compressed response body is held, never left in the file |
| BarcFiles.OutcomeIsARun | barc/src/lib.rs:656-697 | the file left by any outcome of the writer class, success or failure, is the file after some run of the protocol's writer |
| BarcFiles.ReadIsARun | barc/src/lib.rs:829-880 | any outcome of the reader class but an I/O error, a refused body included, is that of a run of a fetch and a finish of a protocol reader at the same offset, on any file contents |
| BarcFiles.DialogSurvivesFile | barc/src/lib.rs:314-372 | a dialog written as a record and read back converts to the same dialog if and only if version and encodings are recognized |
| BarcProtocol.EntryAt | barc/src/lib.rs:656-697 | the file is the concatenation of its entries: each stands at its offset and ends where the next begins |
| BarcProtocol.HeadOfEntry | barc/src/lib.rs:934-959 | the head fetched at an entry is the reservation until the commit and the final head after it |
| BarcProtocol.ReadEntry | barc/src/lib.rs:829-880 | a read at the start of a committed entry yields its record and the start of the next entry; at one with the type of a reservation it gives nothing |
| BarcProtocol.EntrySize | barc/src/lib.rs:883-887 | a committed entry takes exactly 54 + len bytes |
| BarcProtocol.SequentialReads | barc/src/lib.rs:829-880 | from any record of a file of completed writes, successive reads return all that follow in order and end at the end of the file |
| BarcProtocol.NothingAtEnd | barc/src/lib.rs:837 | and the read after those returns nothing |
| BarcProtocol.ReserveKeeps | barc/src/lib.rs:665-669 | reserving a head keeps the invariant |
| BarcProtocol.AppendKeeps | barc/src/lib.rs:671-672 | appending any piece of the payload keeps the invariant |
| BarcProtocol.CommitKeeps | barc/src/lib.rs:688-690 | overwriting the reserved head turns the pending entry into the record and keeps the invariant |
| BarcProtocol.FetchKeeps | barc/src/lib.rs:835-849 | a fetch stays put at the end, at a reservation and at a record with the type of one, and otherwise gets the record's final head |
| BarcProtocol.FinishReadKeeps | barc/src/lib.rs:851-880 | what is read behind a fetched head is the record, although the file may have grown since |
| BarcProtocol.ReaderKept | barc/src/lib.rs:656-697 | no writer step changes what a reader has returned or where it stands |
| BarcProtocol.StepKeeps | barc/src/lib.rs:656-880 | every step of every participant keeps the invariant, and only a pending last entry can change |
| BarcProtocol.RunKeeps | barc/src/lib.rs:656-880 | so does every interleaving of steps |
| BarcProtocol.ReadersSeeCommittedPrefix | barc/src/lib.rs:829-880 | over every interleaving, what a reader has returned is a prefix in order of the committed records, none with the type of a reservation, complete and still the same in the file; it fails only at the next record: at one with over 128 fields in a block, or at a compressed one whose response body has at least the bytes counted in the error, over the limit of a step of that reader |
| BarcProtocol.AllIsRead | barc/src/lib.rs:643-880 | from an empty file, a reader that is opened first returns every one of any list of records then written, in order, with one fetch and one finish for each |
| BarcProtocol.ReadersOpened | barc/src/lib.rs:643-648 | after any run there are as many readers as the run has Open steps |
| BarcProtocol.BrokenForever | barc/src/lib.rs:829-880 | a reader that failed changes no more, in any run |
| BarcProtocol.OutOfTurn | barc/src/lib.rs:656-697 | a step out of turn changes nothing: a second writer, a commit before all is written, a read without a head |
| BarcProtocol.RunRefuses | barc/src/lib.rs:922-928 | a body is refused at some size only by a step of that reader whose limit is smaller |
| BarcProtocol.BlocksMayInterleave | barc/src/lib.rs:855-880 | a plain record whose five blocks are each read after a different later run is the record read in one step |
| BarcProtocol.CommittedBytesStay | barc/src/lib.rs:666-694 | every byte of a committed record is the same after every later run |
| BarcProtocol.SlicesStay | barc/src/lib.rs:1150-1168 | a record handed out with bodies left in the file is the same after every later run |
| BarcProtocol.ParkedForever | barc/src/lib.rs:843-849 | a reader at an abandoned reservation, or at a record written with the type of one, never returns anything more |
| BarcProtocol.NothingChangesNothing | barc/src/lib.rs:843-849 | a fetch that finds the end, a reservation or a record with the type of one changes nothing |
| BarcProtocol.CommittedIsPickedUp | barc/src/lib.rs:829-880 | once the record at the reader's offset is committed, the next read returns it |
| BarcProtocol.WriteIsARun | barc/src/lib.rs:656-697 | reserving, appending all and committing in a row appends exactly the serialized record, as the writer class does |
| BarcProtocol.AbandonIsARun | barc/src/lib.rs:665-672 | reserving, appending some and abandoning leaves the reservation and that much of the payload |
| BarcProtocol.ReadIsTwoSteps | barc/src/lib.rs:829-928 | a fetch and a finish in a row have the outcome of one read at the offset, for any file contents, whether the response body is refused or not |
| BarcProtocol.ReadIsARun | barc/src/lib.rs:829-880 | as a run of the machine the two change that reader and nothing else |
| DialogConvert.Join | barc/src/lib.rs:353-358 | the loop joins the names with a comma and a space |
| DialogConvert.ParseDecoded | barc/src/lib.rs:514-540 | the loop over the parts between commas returns all encodings, or the first part that is not recognized |
| DialogConvert.ToRecord | barc/src/lib.rs:324-372 | the record of a dialog: five meta headers in order, the rest unchanged |
| DialogConvert.ToDialog | barc/src/lib.rs:472-557 | the dialog of a record, or the first error in the order url, method, version, status, encodings |
| DialogConvert.StatusRoundTrip | barc/src/lib.rs:502-512 | any status code from 100 to 999 is recovered from its printed form |
| DialogConvert.NamesPlain | body-image/src/lib.rs:890-901 | the printed name of an encoding has no comma and is recognized exactly for the four that are |
| DialogConvert.ParseJoined | barc/src/lib.rs:353-530 | splitting at commas and trimming undoes the join, up to the first encoding that is not recognized |
| DialogConvert.UnderstoodExactly | barc/src/lib.rs:517-530 | the list is recovered if and only if all elements are recognized; otherwise the first that is not is reported |
| DialogConvert.ThereAndBack | barc/src/lib.rs:314-557 | the outcome of converting any dialog to a record and back |
| DialogConvert.RoundTripExactly | barc/src/lib.rs:314-557 | a dialog survives if and only if its version is 0.9, 1.0, 1.1 or 2.0 and every encoding is chunked, deflate, gzip or brotli; else which error |
| DialogConvert.ConvertedSurvives | barc/src/lib.rs:464-557 | any record that converts gives a dialog that survives being converted back and forth |
| DialogConvert.ConvertsExactly | barc/src/lib.rs:472-557 | any record converts if and only if its four meta headers are there and good and all encodings are recognized; for each of the four, missing is told from bad |
| DialogConvert.MetaFaithful | barc/src/lib.rs:327-363 | the meta headers of a dialog are such that a BARC file keeps them as they are |
| Storage.BodySink.WriteAll | body-image/src/lib.rs:269-316 | the content grows by the buffer in either state, and no empty buffer is kept |
| Storage.BodySink.WriteBack | body-image/src/lib.rs:322-339 | the content moves to a file; on failure an empty RAM sink of length 0 remains |
| Storage.BodySink.Prepare | body-image/src/lib.rs:342-365 | an image of the same content; an empty file becomes an empty RAM image |
| Storage.BodyImage.FromFile | body-image/src/lib.rs:714-723 | an image of the declared length, in RAM exactly when that is 0, and good exactly when it is 0 or the length of the file, whose content it then is |
| Storage.BodyImage.FromReadSlice | body-image/src/lib.rs:726-733 | an image of the range, in RAM exactly when it is empty |
| Storage.BodyImage.FromSlice | body-image/src/lib.rs:447-455 | a RAM image of the bytes |
| Storage.BodyImage.MemMap | body-image/src/lib.rs:521-535 | keeps the content, also when mapping fails, and then changes nothing; the assertion that the file is not empty holds |
| Storage.BodyImage.Gather | body-image/src/lib.rs:542-564 | keeps the content in at most one buffer; the length assertion holds |
| Storage.BodyImage.Reader | body-image/src/lib.rs:567-588 | every reader presents the content, Scattered only with two or more buffers |
| Storage.BodyImage.Explode | body-image/src/lib.rs:592-602 | every exploded form presents the content |
| Storage.BodyImage.WriteTo | body-image/src/lib.rs:687-711 | writes exactly the content, even when it is a slice of the file written to, and returns its length; a failure leaves a beginning of it |
| Storage.CopyRange | body-image/src/lib.rs:700-707 | copying a range chunk by chunk, through interruptions, appends exactly the range |
| BodyReading.Fill | body-image/src/lib.rs:633-659 | the inner loop takes the next bytes of the source, as many as make the buffer full or as there are; below bufferSizeRam - 1023 bytes only at the end of the source |
| BodyReading.ReadToBodyFs | body-image/src/lib.rs:737-776 | Ok only with all that was left of the source and at most max_body of it; BodyTooLong only beyond that |
| BodyReading.MoveToFs | body-image/src/lib.rs:667-671 | the spill keeps what was in RAM, then the buffer, then the rest |
| BodyReading.CollectInRam | body-image/src/lib.rs:630-673 | collects in RAM to the end of the source or to the buffer that is too much |
| BodyReading.SpillBounds | body-image/src/lib.rs:660-671 | a body spills if and only if it is longer than max_body_ram, whatever the buffer sizes, and at a size above that |
| BodyReading.AcceptedBounds | body-image/src/lib.rs:660-671 | no body within max_body is refused, and none longer than max_body plus the size at the spill is accepted |
| BodyReading.LimitHoldsExactly | body-image/src/lib.rs:616-675 | that max_body bounds every body read, for every growth of the buffers the code allows, holds if and only if the estimate is over max_body_ram, or the two limits coincide, or buffer_size_ram is over max_body + 1023 |
| BodyReading.GrowingBuffersExact | body-image/src/lib.rs:633-659 | with buffers that always grow, and so are never full, a body is accepted if and only if it is within max_body |
| BodyReading.LargeBuffersExact | body-image/src/lib.rs:631-664 | so it is for every growth when the first buffer holds more than max_body |
| BodyReading.LimitFails | body-image/src/lib.rs:652-671 | 17,192 bytes are accepted with a limit of 9,000, by a buffer that holds no more than the 8,192 bytes requested |
| BodyReading.ReadFrom | body-image/src/lib.rs:616-675 | for every chunking and buffer growth: without faults Ok exactly when accepted, the bytes are the source's, and the image is in RAM exactly when empty or both estimate and length are within max_body_ram |
| Blocking.Arbiter.CanBlock | body-image-futio/src/blocking.rs:65-85 | allowed exactly when granted; a single grant is used up, and a refusal is recorded as a request |
| Blocking.Arbiter.Set | body-image-futio/src/blocking.rs:59-63 | sets the state |
| Sinks.AsyncBodySink.PollSend | body-image-futio/src/sink.rs:76-120 | takes up the buffer, or refuses it as too long, or returns it unchanged exactly when it needs blocking that is not allowed; and what the arbiter is left with |
| Sinks.AsyncBodySink.PollFlushImpl | body-image-futio/src/sink.rs:122-135 | pending only for want of permission and with nothing changed; ready with nothing held |
| Sinks.AsyncBodySink.Send | body-image-futio/src/sink.rs:137-141 | holds the buffer; that none is held is the caller's to ensure |
| Sinks.BlockingExactly | body-image-futio/src/sink.rs:86-94 | a buffer needs permission if and only if it is accepted, not empty, and does not end up in RAM |
| Sinks.PermitBodySink.PollFlush | body-image-futio/src/sink.rs:235-278 | for any schedule of permits: a held buffer that needs blocking takes exactly one permit of the schedule, and what becomes of it decides the poll (pending with nothing changed, OpCanceled with nothing changed, or the flush); otherwise none is taken and it flushes; the caller is woken by that permit; state assertion and invariant hold |
| Sinks.PermitBodySink.StartSend | body-image-futio/src/sink.rs:231-233 | holds the buffer |
| Sinks.DispatchBodySink.PollFlush | body-image-futio/src/sink.rs:363-396 | the same for dispatched operations |
| Sinks.DispatchBodySink.HandOver | body-image-futio/src/sink.rs:371-378 | the sink moves into the dispatched operation with one operation granted |
| Sinks.DispatchBodySink.StartSend | body-image-futio/src/sink.rs:350-361 | holds the buffer; not called while dispatched |
| Sinks.DispatchBodySink.IntoInner | body-image-futio/src/sink.rs:327-336 | gives the body back when not dispatched |
| Sinks.AnySink.PollFlush | body-image-futio/src/sink.rs:158-403 | one contract for poll_ready, poll_flush and poll_close of all three sinks: nothing yet, or all that is held is taken up and the sink may be sent to; the plain one is never pending |
| Sinks.FlushedWhole | body-image-futio/src/sink.rs:81-119 | flushing succeeds if and only if all that was received is within max_body, and leaves it in RAM if and only if it was and is within max_body_ram |
| Sinks.Flush | body-image-futio/src/sink.rs:235-403 | polling until ready ends, with the outcome of a flush; it uses the next operation of the schedule if and only if blocking is needed, succeeds only if that is granted, and is OpCanceled if and only if it is canceled |
| Sinks.Drive | body-image-futio/src/sink.rs:158-403 | any calls a caller may make, in order, under any schedule: each is a step of the sink, what was sent is the buffers of the sends made with leave, and at every point body and held buffer are all sent so far; after close the body is, unless too long; and there are as many operations of the schedule granted as buffers written that needed one, up to the one that is canceled, if any |
| Sinks.RunReceives | body-image-futio/src/sink.rs:76-141 | for every run of such steps, body and held buffer are the concatenation of all sent, in RAM if and only if the body was at first and is within max_body_ram |
| Sinks.DriveOne | body-image-futio/src/sink.rs:158-403 | one call of a caller that sends only after a successful poll_ready; neither assertion nor panic is reached |
| Streams.AsyncBodyImage.constructor | body-image-futio/src/stream.rs:114-149 | nothing is delivered yet, and what is to be delivered is the content |
| Streams.AsyncBodyImage.PollImpl | body-image-futio/src/stream.rs:151-222 | a non-empty chunk from the front of what is left, or None exactly when nothing is, or pending for want of permission with nothing changed; no underflow, and no state ends early |
| Streams.AsyncBodyImage.ReadChunk | body-image-futio/src/stream.rs:180-205 | the retry loop ends with a non-empty chunk of the slice |
| Streams.AsyncBodyImage.IsEndStream | body-image-futio/src/stream.rs:340-342 | true exactly when all is delivered |
| Streams.PermitBodyImage.PollNext | body-image-futio/src/stream.rs:377-420 | for any schedule of permits: bytes that are not in RAM take exactly one permit of the schedule, and what becomes of it decides the poll (pending with nothing changed, OpCanceled with nothing changed, or the next chunk); an image in RAM takes none; the caller is woken by that permit; state assertion and invariant hold |
| Streams.PermitBodyImage.IsEndStream | body-image-futio/src/stream.rs:445-447 | true exactly when all is delivered |
| Streams.DispatchBodyImage.PollNext | body-image-futio/src/stream.rs:496-527 | the same for dispatched operations |
| Streams.DispatchBodyImage.IsEndStream | body-image-futio/src/stream.rs:552-561 | true exactly when all is delivered, also while dispatched |
| Streams.AnyStream.PollNext | body-image-futio/src/stream.rs:304-527 | one contract for all three streams; the plain one is never pending |
| Streams.Next | body-image-futio/src/stream.rs:377-527 | polling until ready ends, with the next item; a chunk not in RAM uses the next operation of the schedule and only if that is granted; OpCanceled if and only if it is canceled |
| Streams.Collect | body-image-futio/src/stream.rs:151-222 | under any schedule the chunks are non-empty and their concatenation is the content, and then is_end_stream is true; one operation was used and granted for each chunk not in RAM, none for those in RAM; OpCanceled is the first operation that is canceled |
| Forwarding.CarriedOn | body-image-futio/src/sink.rs:76-141 | flushing the sink or sending it the item on the way keeps the whole, and fails only if the whole is too long |
| Forwarding.Forward.Poll | body-image-futio/src/tests/forward.rs:215-251 | one poll of the forwarding future: pending only if the sink will wake the caller, or the stream will and all that was given to the sink is flushed, and then nearer to the end; ready when the sink's body is the whole |
| Forwarding.Await | body-image-futio/src/tests/forward.rs:215-251 | the transfer ends under every schedule in which waits are finite |
| Forwarding.Transfer | body-image-futio/src/tests/forward.rs:215-251 | any image through any stream into any sink over an empty RAM body: without faults Ok exactly when the length is within max_body, with the same content, in RAM exactly when within max_body_ram |
| FailingInputs.SpacedValueChanges | barc/src/lib.rs:1042-1070 | a record with the value ' x' is read back with the value 'x' |
| FailingInputs.CrowdedRecordUnreadable | barc/src/lib.rs:1042-1049 | a record with 129 meta fields and any request body is written and cannot be read, and the failed read stops at offset 830 |
| FailingInputs.LargestBlockRead | barc/src/lib.rs:1042-1049 | a record with 128 meta fields is written and read back |
| FailingInputs.FailedReadMoves | barc/src/lib.rs:883-887 | a reader on the file of that record fails with InvalidHeader and has moved its offset from 0 to 830 |
| FailingInputs.ReadOnAfterError | barc/src/lib.rs:855-888 | if the request body of that record is a serialized record, the read after the failed one returns it, although it was never written as a record |
| FailingInputs.Http3Lost | barc/src/lib.rs:489-497 | a dialog of version HTTP/3 does not convert back |
| FailingInputs.IdentityLost | barc/src/lib.rs:517-530 | a dialog with the encoding identity does not convert back |
| Literals.PlainRecordLiteral | barc/src/lib.rs:710-793 | every byte of a sample record in a plain file: head, order of the blocks, field lines and padding, as text |
| Literals.PackedRecordLiteral | barc/src/lib.rs:700-761 | what of the same record is compressed, and the lengths in its head |
| Literals.HeadAcceptedExactly | barc/src/lib.rs:934-959 | 54 bytes are a head if and only if they begin with BARC2, the flags are among R and D, and P, Z and B, and the five fields are lowercase hexadecimal; and the first errors |
| Literals.FlagLiterals | barc/src/lib.rs:560-640 | the flags of types and compression modes |
| Literals.FieldLiteral | barc/src/lib.rs:780-784 | a field line is name, colon, space, value and line end |
| Literals.FieldReadLiteral | barc/src/lib.rs:1042-1070 | a field with a name in upper case and other whitespace is read with a lowercase name and trimmed value |
| Literals.RecordLiterals | barc/src/lib.rs:324-372 | the meta headers of a dialog, by their names and texts, for every version |
| Literals.DialogLiterals | barc/src/lib.rs:472-557 | a record with these texts converts to the dialog they name, for each of the four versions |
| Literals.EncodingTexts | body-image/src/lib.rs:890-901 | the printed names of the six encodings |
| Literals.RefusedLiterals | barc/src/lib.rs:486-545 | texts of versions, status codes and encodings that are refused, and with which error |
| SplitBuffers.MemMapBuf.SplitTo | body-image-futio/src/mem_map_buf.rs:32-40 | the view is split in two non-empty parts that share the map |
| SplitBuffers.MemMapBuf.Advance | body-image-futio/src/mem_map_buf.rs:62-65 | the view without its first bytes |
| SplitBuffers.UniBodyBuf.Advance | body-image-futio/src/uni_body_buf.rs:50-56 | the view without its first bytes, in either form |
| SplitBuffers.UniBodyBuf.SplitIf | body-image-futio/src/uni_body_buf.rs:74-88 | splits off exactly max bytes if and only if there are more, and trips the map's assertions only for a map with bytes left and max 0 |
| SplitBuffers.SplitAll | body-image-futio/src/uni_body_buf.rs:74-88 | repeated splitting ends, with the items of the view |
| SplitBuffers.PiecesJoin | body-image-futio/src/uni_body_buf.rs:74-88 | the items concatenate to the view |
| SplitBuffers.PiecesFull | body-image-futio/src/uni_body_buf.rs:74-88 | all items are full but perhaps the last, and none is empty |
| SplitBuffers.PiecesFewest | body-image-futio/src/uni_body_buf.rs:74-88 | there are as few items as possible |

## Left out

Assumptions about what is not in the repository:

* A head is written or fetched in one step, and a failed writer stops between steps; torn heads are not modelled. Payload appends are atomic per step but may be of any size.
* One writer at a time: the lock on the writer, and opening and creating files, are not part of this model.
* A read may be interrupted only finitely often, and `write_all` on a file is never interrupted. After an error an object is not used again; for a reader this is needed, as `FailingInputs.ReadOnAfterError` shows.
* A file, temporary directory or source is marked as one that may fail or not; failures are otherwise nondeterministic. Errors other than the repository's own are not told apart.
* A compression codec is a pair of functions, where decoding inverts encoding. Compressed bytes reach the file when the encoder is finished, and a decoding error shows before any block is read. The choice of a compression mode by its strategy is an input, and DecoderUnsupported does not occur.
* A panic on a malformed record (a failed assertion, or an underflow, which panics in a debug build) is the error `Panicked`.
* httparse is replaced by a parser for the field-line form of section 3.2 of RFC 7230 without obsolete line folding; header maps are lists in insertion order, with lowercase token names. The URL, method and reason-phrase texts of the http crate are predicates and a function, and conversions of them to header values do not fail.
* olio's ReadPos and ReadSlice are a file with a position and an optional end, read by the standard loop of `read_exact`; a memory map is a snapshot of the bytes mapped. An image whose declared length is not that of its file is not used further.
* What becomes of the permits and dispatched operations of blocking_permit is a schedule, one for each sink and stream: any function from the count of the requests to how often the operation is pending, finitely often, and whether it is then granted or canceled; a dispatched closure is run when its future completes, which nobody can tell from any earlier moment, as it owns the adaptor. `StreamExt::forward` is modelled as the loop that sends the item at hand, polls the stream for the next one, and flushes or closes the sink.
* LenientArbiter is an arbiter that stays at Always, and the three sinks and the three streams are each one datatype instead of a trait.
* A poll by value replaces pinning; ownership by move is modelled by a `None` left behind.

Parts of the repository that are not modelled:

* The compression libraries, and the heuristic that chooses a mode in barc/src/compress.rs: wrappers and a shallow decision.
* body-image-futio's client (fetch.rs, decode.rs, wrappers.rs, tune.rs), Cleaver and YieldStream: plumbing around other crates.
* `BodySink::push` and `BodySink::write_all` are one method, as they differ only in copying; `save`, `Debug`, `Display`, `From` and getter implementations add nothing.
* barc-cli, piccolog, examples, benches, build scripts, file locking, madvise and unsafe buffer access.

Contracts that say less than could be asked:

- BarcWriting.BarcWriter.Write: assumes what the writer's assertions demand, that the record is within the format limits; a record that is not panics in the code after the reservation is written, which the protocol covers as an abandoned write.
- BarcReading.BarcReader.Read: which of several possible I/O errors is reported, and how far a faulty file was read when one is, is not stated.
- Sinks.AsyncBodySink.PollSend: the branch for an interrupted file write is left out, as `write_all` on a file retries interruptions itself and never reports one.
- BarcProtocol.ReadersSeeCommittedPrefix: it is about readers that are not used after an error, as one that is can return a record that was never written (`FailingInputs.ReadOnAfterError`); reading what is behind a head is one step; BlocksMayInterleave shows for plain records that reading each block at a time of its own comes to the same, and CommittedBytesStay that the bytes a decoder reads are the same at all times.
