/** Adaptive body storage: BodySink while a body is written, BodyImage once it can be read. */
module Storage {
  import opened Bytes
  import opened Io
  import opened Encoders

  /** Where temporary files go. Operations on files of a faulty directory may fail. */
  datatype TempDir = Reliable | Faulty

  datatype Tunables = Tunables(maxBodyRam: nat, maxBody: nat, bufferSizeRam: nat, bufferSizeFs: nat, tempDir: TempDir) {
    /** What `Tuner` asserts before it hands out tunables. */
    predicate Valid() {
      maxBodyRam <= maxBody && bufferSizeRam > 0 && bufferSizeFs > 0
    }
  }

  datatype BodyError = BodyTooLong(size: nat) | Io

  datatype SinkState = Ram(bufs: seq<bytes>) | FsWrite(dir: TempDir, written: bytes)

  class BodySink {
    var state: SinkState
    var len: nat

    constructor Empty()
      ensures Valid() && state == SinkState.Ram([]) && len == 0
    {
      state, len := SinkState.Ram([]), 0;
    }

    static method WithFs(dir: TempDir) returns (r: Result<BodySink, BodyError>)
      ensures r.Ok? ==> fresh(r.value) && r.value.Valid() && r.value.state == FsWrite(dir, []) && r.value.len == 0
      ensures r.Err? ==> dir.Faulty? && r.error == Io
    {
      var failed: bool := *;
      if dir.Faulty? && failed {
        return Err(Io);
      }
      var sink := new BodySink.Empty();
      sink.state := FsWrite(dir, []);
      return Ok(sink);
    }

    predicate IsRam()
      reads this
    {
      state.Ram?
    }

    function Content(): bytes
      reads this
    {
      match state
      case Ram(bufs) => Flatten(bufs)
      case FsWrite(_, written) => written
    }

    ghost predicate Valid()
      reads this
    {
      len == |Content()| && (state.Ram? ==> NoEmpty(state.bufs))
    }

    /** Appends to RAM or to the file; an error leaves a partly written file behind. */
    method WriteAll(buf: bytes) returns (r: Result<(), BodyError>)
      requires Valid()
      modifies this
      ensures r.Ok? ==> Valid() && Content() == old(Content()) + buf && IsRam() == old(IsRam())
      ensures old(state.Ram?) ==> state == SinkState.Ram(old(state.bufs) + if buf == [] then [] else [buf])
      ensures state.FsWrite? ==> old(state.FsWrite?) && state.dir == old(state.dir)
      ensures r.Err? ==> r.error == Io && old(state.FsWrite? && state.dir.Faulty?) && len == old(len)
    {
      assert state.Ram? ==> state.bufs + [] == state.bufs;
      if buf != [] {
        match state {
          case Ram(bufs) =>
            FlattenOne(bufs, buf);
            state := SinkState.Ram(bufs + [buf]);
          case FsWrite(dir, written) =>
            var failed: bool, n: nat := *, *;
            if dir.Faulty? && failed {
              state := FsWrite(dir, written + if n < |buf| then buf[..n] else buf);
              return Err(Io);
            }
            state := FsWrite(dir, written + buf);
        }
        len := len + |buf|;
      }
      return Ok(());
    }

    /**
     * Moves the body from RAM to a temporary file. On failure the original
     * body is gone and an empty RAM sink remains.
     */
    method WriteBack(dir: TempDir) returns (r: Result<(), BodyError>)
      requires Valid()
      modifies this
      ensures Valid()
      ensures old(state.FsWrite?) ==> r.Ok? && state == old(state) && len == old(len)
      ensures r.Ok? ==> !IsRam() && Content() == old(Content()) && (old(IsRam()) ==> state.dir == dir)
      ensures r.Err? ==> r.error == Io && dir.Faulty? && old(IsRam()) && state == SinkState.Ram([]) && len == 0
    {
      if IsRam() {
        var bufs := state.bufs;
        var olen := len;
        state := SinkState.Ram([]);
        len := 0;
        var file := WithFs(dir);
        if file.Err? {
          return Err(Io);
        }
        var f := file.value;
        for i := 0 to |bufs|
          invariant fresh(f) && f.Valid() && f.state.FsWrite? && f.state.dir == dir
          invariant f.Content() == Flatten(bufs[..i])
          invariant state == SinkState.Ram([]) && len == 0
        {
          var wrote := f.WriteAll(bufs[i]);
          if wrote.Err? {
            return Err(Io);
          }
          FlattenOne(bufs[..i], bufs[i]);
          assert bufs[..i + 1] == bufs[..i] + [bufs[i]];
        }
        assert bufs[..|bufs|] == bufs;
        state := f.state;
        len := olen;
      }
      return Ok(());
    }

    /** Consumes the sink. An empty file becomes an empty RAM image, so a file-backed image is never empty. */
    method Prepare() returns (r: Result<BodyImage, BodyError>)
      requires Valid()
      ensures r.Ok? ==>
                && fresh(r.value) && r.value.Valid() && fresh(r.value.Files())
                && r.value.Content() == Content()
                && (r.value.IsRam() <==> IsRam() || len == 0)
                && (IsRam() ==> r.value.state == ImageState.Ram(state.bufs))
                && (!r.value.IsRam() ==> r.value.state.FsRead?)
      ensures r.Err? ==> r.error == Io && state.FsWrite? && state.dir.Faulty?
    {
      match state {
        case Ram(bufs) =>
          var image := new BodyImage(ImageState.Ram(bufs), len);
          return Ok(image);
        case FsWrite(dir, written) =>
          if len == 0 {
            var image := new BodyImage(ImageState.Ram([]), 0);
            return Ok(image);
          }
          var failed: bool := *;
          if dir.Faulty? && failed {
            return Err(Io);
          }
          var file := new File(written);
          var image := new BodyImage(ImageState.FsRead(file), len);
          return Ok(image);
      }
    }
  }

  datatype ImageState =
    | Ram(bufs: seq<bytes>)
    | FsRead(file: File)
    | FsReadSlice(file: File, start: nat, end: nat)
    | MemMap(mapped: bytes)
  {
    function Files(): set<File> {
      match this
      case FsRead(file) => {file}
      case FsReadSlice(file, _, _) => {file}
      case _ => {}
    }

    function Content(): bytes
      reads Files()
    {
      match this
      case Ram(bufs) => Flatten(bufs)
      case FsRead(file) => file.data
      case FsReadSlice(file, start, end) => if start <= end <= |file.data| then file.data[start..end] else []
      case MemMap(mapped) => mapped
    }
  }

  /** What `reader` hands out. */
  datatype BodyReader =
    | Contiguous(buf: bytes)
    | Scattered(bufs: seq<bytes>)
    | FileSlice(file: File, start: nat, end: nat)

  datatype ExplodedImage = Ram(bufs: seq<bytes>) | FsRead(file: File, start: nat, end: nat) | MemMap(mapped: bytes)

  class BodyImage {
    var state: ImageState
    var len: nat

    constructor (state: ImageState, len: nat)
      ensures this.state == state && this.len == len
    {
      this.state, this.len := state, len;
    }

    function Files(): set<File>
      reads this
    {
      state.Files()
    }

    function Content(): bytes
      reads this, Files()
    {
      state.Content()
    }

    ghost predicate Valid()
      reads this, Files()
    {
      && len == |Content()|
      && match state
         case Ram(bufs) => NoEmpty(bufs)
         case FsRead(_) => len > 0
         case FsReadSlice(file, start, end) => start < end <= |file.data|
         case MemMap(_) => len > 0
    }

    predicate IsRam()
      reads this
    {
      state.Ram?
    }

    /** The declared length is taken as it is; the image is good if it is the length of the file. */
    static method FromFile(file: File, length: nat) returns (image: BodyImage)
      ensures fresh(image) && image.len == length
      ensures image.state == if length > 0 then ImageState.FsRead(file) else ImageState.Ram([])
      ensures image.Valid() <==> length == 0 || length == |file.data|
      ensures length == |file.data| ==> image.Content() == file.data
    {
      if length > 0 {
        image := new BodyImage(ImageState.FsRead(file), length);
      } else {
        image := new BodyImage(ImageState.Ram([]), 0);
      }
    }

    static method FromReadSlice(file: File, start: nat, end: nat) returns (image: BodyImage)
      requires start <= end
      ensures fresh(image) && image.len == end - start
      ensures image.state == if start < end then FsReadSlice(file, start, end) else ImageState.Ram([])
      ensures end <= |file.data| ==> image.Valid() && image.Content() == file.data[start..end]
    {
      if start < end {
        image := new BodyImage(ImageState.FsReadSlice(file, start, end), end - start);
      } else {
        image := new BodyImage(ImageState.Ram([]), 0);
      }
    }

    static method FromSlice(buf: bytes) returns (image: BodyImage)
      ensures fresh(image) && image.Valid() && image.IsRam() && image.Content() == buf
    {
      var sink := new BodySink.Empty();
      var pushed := sink.WriteAll(buf);
      var prepared := sink.Prepare();
      image := prepared.value;
    }

    /**
     * Files and slices become maps of the same bytes; the assertion that the
     * file is not empty holds. If mapping fails nothing changes.
     */
    method MemMap(mayFail: bool) returns (r: Result<(), BodyError>)
      requires Valid()
      modifies this
      ensures Valid() && Content() == old(Content()) && len == old(len)
      ensures r.Ok? ==> state == if old(IsRam()) then old(state) else ImageState.MemMap(Content())
      ensures r.Err? ==> r.error == Io && mayFail && state == old(state) && Files() != {}
    {
      var failed: bool := *;
      match state {
        case FsRead(file) =>
          assert len > 0;
          if mayFail && failed {
            return Err(Io);
          }
          state := ImageState.MemMap(file.data);
        case FsReadSlice(file, start, end) =>
          if mayFail && failed {
            return Err(Io);
          }
          state := ImageState.MemMap(file.data[start..end]);
        case _ =>
      }
      return Ok(());
    }

    /** Scattered buffers become one; the length assertion holds. */
    method Gather()
      requires Valid()
      modifies this
      ensures Valid() && Content() == old(Content()) && len == old(len)
      ensures if old(IsRam()) then IsRam() && |state.bufs| <= 1 else state == old(state)
    {
      if state.Ram? && |state.bufs| > 1 {
        var bufs := state.bufs;
        var gathered: bytes := [];
        for i := 0 to |bufs|
          invariant gathered == Flatten(bufs[..i]) && state == old(state) && len == old(len)
        {
          gathered := gathered + bufs[i];
          FlattenOne(bufs[..i], bufs[i]);
          assert bufs[..i + 1] == bufs[..i] + [bufs[i]];
        }
        assert bufs[..|bufs|] == bufs;
        assert |gathered| == len;
        assert gathered != [] by {
          assert Flatten(bufs) == bufs[0] + Flatten(bufs[1..]) && bufs[0] != [];
        }
        FlattenOne([], gathered);
        state := ImageState.Ram([] + [gathered]);
      }
    }

    /** Every kind of reader presents the content, and files are read by slices of them. */
    function Reader(): (r: BodyReader)
      requires Valid()
      reads this, Files()
      ensures match r
              case Contiguous(buf) => buf == Content()
              case Scattered(bufs) => |bufs| >= 2 && Flatten(bufs) == Content()
              case FileSlice(file, start, end) => start < end <= |file.data| && file.data[start..end] == Content()
      ensures r.FileSlice? <==> Files() != {}
      ensures r.Scattered? <==> IsRam() && |state.bufs| > 1
    {
      match state
      case Ram(bufs) =>
        if bufs == [] then Contiguous([])
        else if |bufs| == 1 then
          assert Flatten(bufs) == bufs[0] + Flatten(bufs[1..]);
          Contiguous(bufs[0])
        else Scattered(bufs)
      case FsRead(file) => FileSlice(file, 0, len)
      case FsReadSlice(file, start, end) => FileSlice(file, start, end)
      case MemMap(mapped) => Contiguous(mapped)
    }

    function Explode(): (r: ExplodedImage)
      requires Valid()
      reads this, Files()
      ensures match r
              case Ram(bufs) => IsRam() && NoEmpty(bufs) && Flatten(bufs) == Content()
              case FsRead(file, start, end) => !IsRam() && start < end <= |file.data|
                  && file.data[start..end] == Content()
              case MemMap(mapped) => !IsRam() && mapped == Content() && mapped != []
      ensures r.FsRead? <==> Files() != {}
    {
      match state
      case Ram(bufs) => ExplodedImage.Ram(bufs)
      case FsRead(file) => ExplodedImage.FsRead(file, 0, len)
      case FsReadSlice(file, start, end) => ExplodedImage.FsRead(file, start, end)
      case MemMap(mapped) => ExplodedImage.MemMap(mapped)
    }

    /**
     * Writes the content, which may itself be a slice of the file being
     * appended to, and returns its length.
     */
    method WriteTo(out: Encoder) returns (r: Result<nat, BodyError>)
      requires Valid() && out.Valid()
      requires state.FsRead? ==> state.file != out.out.file
      modifies out`held, out.out`pos, out.out.file`data
      ensures r.Err? ==>
                && out.out.faulty && r.error == Io && out.mode.Plain?
                && out.Partial(old(out.Emitted()) + old(Content()))
      ensures old(out.out.file.data) <= out.out.file.data && out.out.pos == |out.out.file.data|
      ensures Valid() && Content() == old(Content())
      ensures r.Ok? ==> out.Valid() && r.value == len && out.Emitted() == old(out.Emitted()) + Content()
    {
      var ok := true;
      match state {
        case Ram(bufs) =>
          ok := WriteBuffers(bufs, out);
        case MemMap(mapped) =>
          ok := out.WriteAll(mapped);
        case FsRead(file) =>
          ok := CopyRange(file, 0, len, None, out);
        case FsReadSlice(file, start, end) =>
          ok := CopyRange(file, start, end, Some(end), out);
      }
      return if ok then Ok(len) else Err(Io);
    }
  }

  /** A slice of a file is the same bytes while the file grows. */
  lemma SliceGrows(before: bytes, after: bytes, start: nat, end: nat)
    requires before <= after && start <= end <= |before|
    ensures after[start..end] == before[start..end]
  {
    assert after[..|before|] == before;
    assert after[start..end] == after[..|before|][start..end];
  }

  method WriteBuffers(bufs: seq<bytes>, out: Encoder) returns (ok: bool)
    requires out.Valid()
    modifies out`held, out.out`pos, out.out.file`data
    ensures !ok ==> out.out.faulty && out.mode.Plain? && out.Partial(old(out.Emitted()) + Flatten(bufs))
    ensures old(out.out.file.data) <= out.out.file.data && out.out.pos == |out.out.file.data|
    ensures ok ==> out.Valid() && out.Emitted() == old(out.Emitted()) + Flatten(bufs)
  {
    ghost var before := out.Emitted();
    assert before + [] == before;
    for i := 0 to |bufs|
      invariant out.Valid() && old(out.out.file.data) <= out.out.file.data
      invariant out.Emitted() == before + Flatten(bufs[..i])
    {
      ok := out.WriteAll(bufs[i]);
      Associative(before, Flatten(bufs[..i]), bufs[i]);
      FlattenOne(bufs[..i], bufs[i]);
      assert bufs[..i + 1] == bufs[..i] + [bufs[i]];
      if !ok {
        FlattenPrefix(bufs, i + 1);
        PrefixExtends(before, Flatten(bufs[..i + 1]), Flatten(bufs));
        return;
      }
    }
    assert bufs[..|bufs|] == bufs;
    ok := true;
  }

  /** io::copy: reads what is left of a file (or of a slice) and writes it, chunk by chunk. */
  method CopyRange(file: File, start: nat, end: nat, bound: Option<nat>, out: Encoder) returns (ok: bool)
    requires out.Valid() && start <= end <= |file.data|
    requires if bound.Some? then bound.value == end else end == |file.data| && file != out.out.file
    modifies out`held, out.out`pos, out.out.file`data
    ensures !ok ==> out.out.faulty && out.mode.Plain? && out.Partial(old(out.Emitted()) + old(file.data[start..end]))
    ensures old(out.out.file.data) <= out.out.file.data && out.out.pos == |out.out.file.data|
    ensures ok ==> out.Valid() && out.Emitted() == old(out.Emitted()) + old(file.data[start..end])
  {
    var retries: nat := *;
    var src := new Source(file, start, bound, false, retries);
    ghost var emitted := out.Emitted();
    ghost var content, done := file.data[start..end], [];
    while true
      invariant fresh(src) && src.file == file && src.bound == bound && !src.faulty
      invariant out.Valid() && old(out.out.file.data) <= out.out.file.data
      invariant end <= |file.data| && src.End() == end
      invariant content == done + src.Rest()
      invariant out.Emitted() == emitted + done
      decreases |src.Rest()|, src.interrupts
    {
      var want :| want > 0;
      var r := src.Read(want);
      if r.Got? {
        if r.chunk == [] {
          assert done + [] == done && [] + src.Rest() == src.Rest();
          return true;
        }
        Associative(done, r.chunk, src.Rest());
        Associative(emitted, done, r.chunk);
        done := done + r.chunk;
        ok := CopyChunk(src, r.chunk, end, out);
        if !ok {
          PrefixExtends(emitted, done, content);
          return false;
        }
      }
    }
  }

  /** Appending, even to the file being read, leaves the rest of the range as it was. */
  method CopyChunk(src: Source, chunk: bytes, end: nat, out: Encoder) returns (ok: bool)
    requires out.Valid() && end <= |src.file.data| && src.End() == end
    requires if src.bound.Some? then src.bound.value == end else src.file != out.out.file
    modifies out`held, out.out`pos, out.out.file`data
    ensures !ok ==> out.out.faulty && out.mode.Plain? && out.Partial(old(out.Emitted()) + chunk)
    ensures old(out.out.file.data) <= out.out.file.data && out.out.pos == |out.out.file.data|
    ensures ok ==> out.Valid() && out.Emitted() == old(out.Emitted()) + chunk
    ensures end <= |src.file.data| && src.End() == end && src.Rest() == old(src.Rest())
  {
    ghost var before := src.file.data;
    ok := out.WriteAll(chunk);
    assert before <= src.file.data;
    assert src.file.data[..end] == before[..end];
    if src.pos <= end {
      assert src.file.data[src.pos..end] == src.file.data[..end][src.pos..];
    }
  }
}
