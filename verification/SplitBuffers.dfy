/** Zero-copy buffers over memory maps, and splitting them into items of bounded size. */
module SplitBuffers {
  import opened Bytes

  /** A window on a memory map. Segments split off share the map. */
  class MemMapBuf {
    const mm: bytes
    var pos: nat
    const len: nat

    constructor (mm: bytes)
      ensures Valid() && this.mm == mm && pos == 0 && View() == mm
    {
      this.mm, this.pos, this.len := mm, 0, |mm|;
    }

    constructor Segment(mm: bytes, pos: nat, len: nat)
      requires pos <= len <= |mm|
      ensures Valid() && this.mm == mm && this.pos == pos && this.len == len
    {
      this.mm, this.pos, this.len := mm, pos, len;
    }

    predicate Valid()
      reads this
    {
      pos <= len <= |mm|
    }

    /** `chunk`, `deref` and `as_ref`. */
    function View(): bytes
      requires Valid()
      reads this
    {
      mm[pos..len]
    }

    function Remaining(): (n: nat)
      requires Valid()
      reads this
      ensures n == |View()|
    {
      len - pos
    }

    method Advance(rel: nat)
      requires Valid() && rel <= Remaining()
      modifies this`pos
      ensures Valid() && View() == old(View())[rel..]
    {
      pos := pos + rel;
    }

    /** Panics unless both segments are non-empty. */
    method SplitTo(rel: nat) returns (lead: MemMapBuf)
      requires Valid() && 0 < rel < Remaining()
      modifies this`pos
      ensures Valid() && fresh(lead) && lead.Valid()
      ensures lead.View() == old(View())[..rel] && View() == old(View())[rel..]
      ensures lead.mm == mm && lead.pos == old(pos) && lead.len == pos
    {
      var abs := pos + rel;
      lead := new MemMapBuf.Segment(mm, pos, abs);
      pos := abs;
    }
  }

  datatype BufState = Held(b: bytes) | Mapped(mb: MemMapBuf)

  class UniBodyBuf {
    var buf: BufState

    constructor (buf: BufState)
      ensures this.buf == buf
    {
      this.buf := buf;
    }

    function Repr(): set<object>
      reads this
    {
      {this} + if buf.Mapped? then {buf.mb} else {}
    }

    predicate Valid()
      reads this, Repr()
    {
      buf.Mapped? ==> buf.mb.Valid()
    }

    function View(): bytes
      requires Valid()
      reads this, Repr()
    {
      if buf.Held? then buf.b else buf.mb.View()
    }

    method Advance(count: nat)
      requires Valid() && count <= |View()|
      modifies Repr()
      ensures Valid() && Repr() == old(Repr()) && View() == old(View())[count..]
    {
      match buf {
        case Held(b) => buf := Held(b[count..]);
        case Mapped(mb) => mb.Advance(count);
      }
    }

    /**
     * Whenever there is more than `max`, exactly `max` bytes are split off.
     * Only a map with something left and a `max` of 0 trips the map's
     * assertions; plain bytes then give up an empty piece.
     */
    method SplitIf(max: nat) returns (r: Option<UniBodyBuf>)
      requires Valid() && (buf.Mapped? && View() != [] ==> max > 0)
      modifies Repr()
      ensures Valid() && Repr() == old(Repr())
      ensures r.Some? <==> |old(View())| > max
      ensures r.None? ==> View() == old(View())
      ensures r.Some? ==>
                && fresh(r.value.Repr()) && r.value.Valid()
                && r.value.View() == old(View())[..max] && View() == old(View())[max..]
                && (buf.Mapped? ==> r.value.buf.Mapped? && r.value.buf.mb.mm == buf.mb.mm)
    {
      if |View()| <= max {
        return None;
      }
      var lead: UniBodyBuf;
      match buf {
        case Held(b) =>
          lead := new UniBodyBuf(Held(b[..max]));
          buf := Held(b[max..]);
        case Mapped(mb) =>
          var segment := mb.SplitTo(max);
          lead := new UniBodyBuf(Mapped(segment));
      }
      return Some(lead);
    }

    method IntoBytes() returns (b: bytes)
      requires Valid()
      ensures b == View()
    {
      match buf {
        case Held(held) => b := held;
        case Mapped(mb) => b := mb.View();
      }
    }
  }

  /** The items a buffer is delivered in. */
  function Pieces(view: bytes, max: nat): seq<bytes>
    requires max > 0
    decreases |view|
  {
    if |view| > max then [view[..max]] + Pieces(view[max..], max)
    else if view == [] then []
    else [view]
  }

  lemma {:induction false} PiecesJoin(view: bytes, max: nat)
    requires max > 0
    ensures Flatten(Pieces(view, max)) == view
    decreases |view|
  {
    if |view| > max {
      PiecesJoin(view[max..], max);
      assert Pieces(view, max)[1..] == Pieces(view[max..], max);
      assert view == view[..max] + view[max..];
    } else if view != [] {
      FlattenOne([], view);
    }
  }

  /** All full but the last, and that is not empty. */
  ghost predicate Full(items: seq<bytes>, max: nat) {
    && (forall i | 0 <= i < |items| :: 1 <= |items[i]| <= max)
    && (forall i | 0 <= i < |items| - 1 :: |items[i]| == max)
  }

  lemma {:induction false} PiecesFull(view: bytes, max: nat)
    requires max > 0
    ensures Full(Pieces(view, max), max) && (Pieces(view, max) == [] <==> view == [])
    decreases |view|
  {
    if |view| > max {
      PiecesFull(view[max..], max);
    }
  }

  /** The bytes in `n` full items. */
  function FullSize(n: nat, max: nat): nat {
    if n == 0 then 0 else FullSize(n - 1, max) + max
  }

  /** As few items as possible: one fewer, even if all full, would not do. */
  lemma {:induction false} PiecesFewest(view: bytes, max: nat)
    requires max > 0
    ensures var n := |Pieces(view, max)|;
            |view| <= FullSize(n, max) && (n > 0 ==> FullSize(n - 1, max) < |view|)
    decreases |view|
  {
    if |view| > max {
      PiecesFewest(view[max..], max);
    } else if view != [] {
      assert FullSize(1, max) == FullSize(0, max) + max;
    }
  }

  /** Splitting until nothing more is split off, and then what is left. */
  method SplitAll(buf: UniBodyBuf, max: nat) returns (items: seq<bytes>)
    requires buf.Valid() && max > 0
    modifies buf.Repr()
    ensures items == Pieces(old(buf.View()), max)
  {
    items := [];
    ghost var whole := buf.View();
    assert [] + Pieces(whole, max) == Pieces(whole, max);
    while true
      invariant buf.Valid() && buf.Repr() == old(buf.Repr())
      invariant Pieces(whole, max) == items + Pieces(buf.View(), max)
      decreases |buf.View()|
    {
      ghost var view := buf.View();
      var lead := buf.SplitIf(max);
      if lead.None? {
        var rest := buf.IntoBytes();
        assert items + [] == items;
        return if rest == [] then items else items + [rest];
      }
      var item := lead.value.IntoBytes();
      Regroup(items, item, Pieces(buf.View(), max));
      items := items + [item];
    }
  }

  lemma Regroup(a: seq<bytes>, b: bytes, c: seq<bytes>)
    ensures a + ([b] + c) == (a + [b]) + c
  {
  }
}
