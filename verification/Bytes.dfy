/** Bytes, buffers and the two result datatypes every other module uses. */
module Bytes {

  newtype byte = x: int | 0 <= x < 0x100

  type bytes = seq<byte>

  datatype Option<+T> = None | Some(value: T)

  datatype Result<+T, +E> = Ok(value: T) | Err(error: E)

  const CRLF: bytes := [13, 10]

  function Min(a: nat, b: nat): nat {
    if a <= b then a else b
  }

  /** The bytes of a list of scattered buffers, in order. */
  function Flatten(bufs: seq<bytes>): bytes {
    if bufs == [] then [] else bufs[0] + Flatten(bufs[1..])
  }

  lemma {:induction false} FlattenAppend(a: seq<bytes>, b: seq<bytes>)
    ensures Flatten(a + b) == Flatten(a) + Flatten(b)
  {
    if a == [] {
      assert a + b == b;
    } else {
      FlattenAppend(a[1..], b);
      assert (a + b)[1..] == a[1..] + b;
    }
  }

  lemma FlattenOne(a: seq<bytes>, b: bytes)
    ensures Flatten(a + [b]) == Flatten(a) + b
  {
    FlattenAppend(a, [b]);
    assert Flatten([b]) == b;
  }

  lemma FlattenPrefix(bufs: seq<bytes>, n: nat)
    requires n <= |bufs|
    ensures Flatten(bufs[..n]) <= Flatten(bufs)
  {
    assert bufs == bufs[..n] + bufs[n..];
    FlattenAppend(bufs[..n], bufs[n..]);
  }

  lemma PrefixExtends(a: bytes, b: bytes, c: bytes)
    requires b <= c
    ensures a + b <= a + c
  {
    assert c == b + c[|b|..];
    Associative(a, b, c[|b|..]);
  }

  lemma Associative(a: bytes, b: bytes, c: bytes)
    ensures a + (b + c) == (a + b) + c
  {
  }

  /** `s` stands in `data` at `pos`. */
  ghost predicate At(data: bytes, pos: nat, s: bytes) {
    pos + |s| <= |data| && data[pos..pos + |s|] == s
  }

  lemma AtSplit(data: bytes, pos: nat, a: bytes, b: bytes)
    requires At(data, pos, a + b)
    ensures At(data, pos, a) && At(data, pos + |a|, b)
  {
    var ab := data[pos..pos + |a + b|];
    assert data[pos..pos + |a|] == ab[..|a|];
    assert data[pos + |a|..pos + |a| + |b|] == ab[|a|..];
  }

  ghost predicate NoEmpty(bufs: seq<bytes>) {
    forall i | 0 <= i < |bufs| :: bufs[i] != []
  }
}
