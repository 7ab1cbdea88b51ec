/** The writer a record's payload goes through: straight to the file, or compressed. */
module Encoders {
  import opened Bytes
  import opened Io
  import opened HeadCodec

  /** A compression library: what it writes for some bytes and what it reads back, if anything. */
  datatype Codec = Codec(
    encode: (Compression, bytes) -> bytes,
    decode: (Compression, bytes) -> Option<bytes>)

  ghost predicate Lossless(codec: Codec) {
    forall mode: Compression, plain: bytes :: codec.decode(mode, codec.encode(mode, plain)) == Some(plain)
  }

  /**
   * Appends to a file from `start` on. Plain bytes go straight through;
   * compressed output is complete only when finished.
   */
  class Encoder {
    const out: Handle
    const codec: Codec
    const mode: Compression
    const start: nat
    var held: bytes

    constructor (out: Handle, codec: Codec, mode: Compression)
      requires out.pos == |out.file.data|
      ensures this.out == out && this.codec == codec && this.mode == mode && start == |out.file.data|
      ensures Valid() && Emitted() == []
    {
      this.out, this.codec, this.mode, this.start, this.held := out, codec, mode, |out.file.data|, [];
    }

    ghost predicate Valid()
      reads this, out, out.file
    {
      && start <= |out.file.data|
      && out.pos == |out.file.data|
      && (mode.Plain? ==> held == [])
      && (!mode.Plain? ==> |out.file.data| == start)
    }

    /** The uncompressed bytes written so far. */
    function Emitted(): bytes
      requires start <= |out.file.data|
      reads this, out, out.file
    {
      if mode.Plain? then out.file.data[start..] else held
    }

    /** What a failed write has left in the file is the beginning of `whole`. */
    ghost predicate Partial(whole: bytes)
      reads this, out, out.file
    {
      start <= |out.file.data| && out.file.data[start..] <= whole
    }

    /** Only plain bytes can fail here, and then a part of them may have been written. */
    method WriteAll(bs: bytes) returns (ok: bool)
      requires Valid()
      modifies this`held, out`pos, out.file`data
      ensures !ok ==> out.faulty && mode.Plain? && Partial(old(Emitted()) + bs)
      ensures old(out.file.data) <= out.file.data && out.pos == |out.file.data|
      ensures ok ==> Valid() && Emitted() == old(Emitted()) + bs
    {
      if mode.Plain? {
        ghost var before, emitted := out.file.data, Emitted();
        ok := out.WriteAll(bs);
        if !ok {
          ghost var n :| 0 <= n <= |bs| && out.file.data == Overwritten(before, |before|, bs[..n]);
          assert out.file.data[start..] == emitted + bs[..n];
        }
      } else {
        held := held + bs;
        ok := true;
      }
    }

    method Finish() returns (ok: bool)
      requires Valid()
      modifies this`held, out`pos, out.file`data
      ensures !ok ==> out.faulty && Partial(Packed(codec, mode, old(Emitted())))
      ensures old(out.file.data) <= out.file.data && out.pos == |out.file.data|
      ensures ok ==> out.file.data[start..] == Packed(codec, mode, old(Emitted()))
    {
      ok := true;
      if !mode.Plain? {
        ghost var before, encoded := out.file.data, codec.encode(mode, held);
        ok := out.WriteAll(codec.encode(mode, held));
        if !ok {
          ghost var n :| 0 <= n <= |encoded| && out.file.data == Overwritten(before, |before|, encoded[..n]);
          assert out.file.data[start..] == encoded[..n];
        }
        held := [];
      }
    }
  }

  /** The bytes a payload occupies in the file. */
  function Packed(codec: Codec, mode: Compression, plain: bytes): bytes {
    if mode.Plain? then plain else codec.encode(mode, plain)
  }
}
