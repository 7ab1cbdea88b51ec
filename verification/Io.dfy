/** Files and byte sources as the operating system presents them. */
module Io {
  import opened Bytes

  /** A file shared by any number of handles: a growable array of bytes. */
  class File {
    var data: bytes

    constructor (data: bytes)
      ensures this.data == data
    {
      this.data := data;
    }
  }

  /** `data` with `bs` written over it from `pos`, growing it if need be. */
  function Overwritten(data: bytes, pos: nat, bs: bytes): bytes
    requires pos <= |data|
  {
    data[..pos] + bs + (if pos + |bs| <= |data| then data[pos + |bs|..] else [])
  }

  /**
   * A file handle open for writing, with its own position. A faulty one may
   * fail in the middle of a write. `heads` is the history of the file, as it
   * was after each record head; in between bytes are only appended.
   */
  class Handle {
    const file: File
    const faulty: bool
    var pos: nat
    ghost var heads: seq<bytes>

    constructor (file: File, faulty: bool)
      ensures this.file == file && this.faulty == faulty && pos == 0 && heads == []
    {
      this.file, this.faulty, this.pos, this.heads := file, faulty, 0, [];
    }

    method SeekStart(offset: nat)
      modifies this`pos
      ensures pos == offset
    {
      pos := offset;
    }

    method SeekEnd() returns (offset: nat)
      modifies this`pos
      ensures pos == offset == |file.data|
    {
      pos := |file.data|;
      offset := pos;
    }

    /** Appends, at the end of the file. */
    method WriteAll(bs: bytes) returns (ok: bool)
      requires pos == |file.data|
      modifies this`pos, file`data
      ensures !ok ==> faulty
      ensures pos <= |file.data|
      ensures ok ==> file.data == Overwritten(old(file.data), old(pos), bs) && pos == old(pos) + |bs|
      ensures !ok ==>
                exists n ::
                  0 <= n <= |bs| && file.data == Overwritten(old(file.data), old(pos), bs[..n]) && pos == old(pos) + n
    {
      var failed: bool, n: nat := *, *;
      ok := !(faulty && failed);
      var written := if ok || |bs| < n then bs else bs[..n];
      assert bs[..|bs|] == bs;
      file.data := Overwritten(file.data, pos, written);
      pos := pos + |written|;
    }

    /** A record head reaches the file as a whole or not at all. */
    method WriteHead(head: bytes) returns (ok: bool)
      requires pos <= |file.data|
      modifies this`pos, this`heads, file`data
      ensures !ok ==> faulty && file.data == old(file.data) && pos == old(pos) && heads == old(heads)
      ensures ok ==> file.data == Overwritten(old(file.data), old(pos), head) && pos == old(pos) + |head|
      ensures ok ==> heads == old(heads) + [file.data]
    {
      var failed: bool := *;
      ok := !(faulty && failed);
      if ok {
        file.data := Overwritten(file.data, pos, head);
        pos := pos + |head|;
        heads := heads + [file.data];
      }
    }
  }

  datatype ReadResult = Got(chunk: bytes) | Interrupted | Failed

  /**
   * A `Read` with its own position: a ReadPos (no bound), a ReadSlice
   * (bounded) or a decoder's output (over a private file). A read returns a
   * chunk of any size from 1 to the size requested, or nothing at the end; it
   * may be interrupted finitely often, and fails only if the source is faulty.
   */
  class Source {
    const file: File
    const bound: Option<nat>
    const faulty: bool
    var pos: nat
    var interrupts: nat

    constructor (file: File, pos: nat, bound: Option<nat>, faulty: bool, interrupts: nat)
      ensures this.file == file && this.bound == bound && this.faulty == faulty
      ensures this.pos == pos && this.interrupts == interrupts
    {
      this.file, this.pos, this.bound, this.faulty, this.interrupts := file, pos, bound, faulty, interrupts;
    }

    function End(): nat
      reads file
    {
      if bound.Some? then Min(bound.value, |file.data|) else |file.data|
    }

    /** What remains to be read. */
    function Rest(): bytes
      reads this, file
    {
      if pos <= End() then file.data[pos..End()] else []
    }

    method Read(want: nat) returns (r: ReadResult)
      requires want > 0
      modifies this`pos, this`interrupts
      ensures r.Got? ==>
                && |r.chunk| <= want
                && (r.chunk == [] <==> old(Rest()) == [])
                && old(Rest()) == r.chunk + Rest()
                && pos == old(pos) + |r.chunk|
                && interrupts == old(interrupts)
      ensures r.Interrupted? ==> pos == old(pos) && interrupts < old(interrupts)
      ensures r.Failed? ==> faulty && pos == old(pos) && interrupts == old(interrupts)
    {
      var interrupted: bool, failed: bool := *, *;
      if interrupts > 0 && interrupted {
        interrupts := interrupts - 1;
        return Interrupted;
      }
      if faulty && failed {
        return Failed;
      }
      var rest := Rest();
      if rest == [] {
        return Got([]);
      }
      var limit := Min(want, |rest|);
      var n :| 1 <= n <= limit;
      pos := pos + n;
      return Got(rest[..n]);
    }
  }
}
