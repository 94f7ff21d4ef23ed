/** How a batch of texts crosses to the translator: one length array and one run of bytes. */
module Packing {
  import opened Options

  const U32_MAX: nat := 0xffff_ffff

  type u8 = x: int | 0 <= x < 256
  type Bytes = seq<u8>

  /** Which byte strings are well-formed UTF-8. The results hold for any such notion. */
  type Encoding = Bytes -> bool

  /** A length as the 32-bit field holds it. */
  function Saturated(n: nat): nat {
    if n <= U32_MAX then n else U32_MAX
  }

  function Concat(texts: seq<Bytes>): Bytes {
    if texts == [] then [] else Concat(texts[..|texts| - 1]) + texts[|texts| - 1]
  }

  function Sum(lens: seq<nat>): nat {
    if lens == [] then 0 else Sum(lens[..|lens| - 1]) + lens[|lens| - 1]
  }

  function Lens(texts: seq<Bytes>): (lens: seq<nat>)
    ensures |lens| == |texts|
  {
    seq(|texts|, i requires 0 <= i < |texts| => Saturated(|texts[i]|))
  }

  /** What is cut out for item `i`: nothing when it is empty, overruns `bound`, or is not UTF-8. */
  function Piece(utf8: Encoding, lens: seq<nat>, bytes: Bytes, bound: nat, i: nat): Option<Bytes>
    requires bound <= |bytes| && i < |lens|
  {
    var offset := Sum(lens[..i]);
    if 0 < lens[i] && offset + lens[i] <= bound && utf8(bytes[offset..offset + lens[i]])
    then Some(bytes[offset..offset + lens[i]])
    else None
  }

  /** The receiver's pieces of a packed batch. */
  function Pieces(utf8: Encoding, texts: seq<Bytes>): (pieces: seq<Option<Bytes>>)
    ensures |pieces| == |texts|
  {
    var bytes := Concat(texts);
    seq(|texts|, i requires 0 <= i < |texts| => Piece(utf8, Lens(texts), bytes, Saturated(|bytes|), i))
  }

  method Pack(texts: seq<Bytes>) returns (lens: seq<nat>, bytes: Bytes)
    ensures lens == Lens(texts) && bytes == Concat(texts)
  {
    lens, bytes := [], [];
    for i := 0 to |texts|
      invariant lens == Lens(texts)[..i]
      invariant bytes == Concat(texts[..i])
    {
      lens := lens + [Saturated(|texts[i]|)];
      bytes := bytes + texts[i];
      assert texts[..i + 1][..i] == texts[..i];
    }
    assert texts[..|texts|] == texts;
  }

  /** The receiver's loop. Reading only inside `bytes` is part of what is checked. */
  method Split(utf8: Encoding, lens: seq<nat>, bytes: Bytes, bound: nat) returns (pieces: seq<Option<Bytes>>)
    requires bound <= |bytes|
    ensures |pieces| == |lens|
    ensures forall i :: 0 <= i < |lens| ==> pieces[i] == Piece(utf8, lens, bytes, bound, i)
  {
    pieces := [];
    var offset := 0;
    for i := 0 to |lens|
      invariant |pieces| == i && offset == Sum(lens[..i])
      invariant forall k :: 0 <= k < i ==> pieces[k] == Piece(utf8, lens, bytes, bound, k)
    {
      var len := lens[i];
      assert lens[..i + 1][..i] == lens[..i];
      if len > 0 && offset + len <= bound {
        var text := bytes[offset..offset + len];
        pieces := pieces + [if utf8(text) then Some(text) else None];
      } else {
        pieces := pieces + [None];
      }
      offset := offset + len;
    }
  }

  lemma {:induction false} ConcatAt(texts: seq<Bytes>, i: nat)
    requires i < |texts|
    ensures |Concat(texts[..i])| + |texts[i]| == |Concat(texts[..i + 1])| <= |Concat(texts)|
    ensures Concat(texts)[|Concat(texts[..i])|..|Concat(texts[..i + 1])|] == texts[i]
  {
    assert texts[..i + 1][..i] == texts[..i];
    if i + 1 == |texts| {
      assert texts[..i + 1] == texts;
    } else {
      var front := texts[..|texts| - 1];
      ConcatAt(front, i);
      assert front[..i] == texts[..i] && front[..i + 1] == texts[..i + 1];
    }
  }

  /** Saturated lengths add up to the real offset until it passes 32 bits, and beyond that stay past it. */
  lemma {:induction false} OffsetSaturates(texts: seq<Bytes>)
    ensures Saturated(|Concat(texts)|) <= Sum(Lens(texts))
    ensures |Concat(texts)| <= U32_MAX ==> Sum(Lens(texts)) == |Concat(texts)|
  {
    if texts != [] {
      var front := texts[..|texts| - 1];
      OffsetSaturates(front);
      assert Lens(texts)[..|texts| - 1] == Lens(front);
    }
  }

  /**
   * A text comes back as itself exactly when it is nonempty and ends within the first 2^32 - 1 bytes
   * of the batch. Otherwise it is left out, except that a text longer than that with nothing before it
   * comes back cut short (if the cut leaves valid UTF-8).
   */
  lemma SplitUndoesPack(utf8: Encoding, texts: seq<Bytes>, i: nat)
    requires i < |texts| && utf8(texts[i])
    ensures Pieces(utf8, texts)[i] == Some(texts[i]) <==>
            texts[i] != [] && |Concat(texts[..i + 1])| <= U32_MAX
    ensures Pieces(utf8, texts)[i] in {None, Some(texts[i])} ||
            (Concat(texts[..i]) == [] && |texts[i]| > U32_MAX && Pieces(utf8, texts)[i] == Some(texts[i][..U32_MAX]))
  {
    var lens, bytes, start := Lens(texts), Concat(texts), |Concat(texts[..i])|;
    var piece, offset := Pieces(utf8, texts)[i], Sum(lens[..i]);
    ConcatAt(texts, i);
    OffsetSaturates(texts[..i]);
    assert Lens(texts[..i]) == lens[..i];
    assert piece == Piece(utf8, lens, bytes, Saturated(|bytes|), i);
    if start + |texts[i]| <= U32_MAX {
      assert offset == start && lens[i] == |texts[i]|;
    } else {
      assert Saturated(|bytes|) == U32_MAX && Saturated(start) <= offset;
      if 0 < lens[i] && offset + lens[i] <= U32_MAX {
        assert start == 0 && offset == 0 && lens[i] == U32_MAX < |texts[i]|;
        assert bytes[start..start + |texts[i]|][..U32_MAX] == bytes[start..start + U32_MAX];
      } else {
        assert piece == None;
      }
    }
  }

  /** Nothing that is not UTF-8 is ever handed to the translator. */
  lemma PiecesAreText(utf8: Encoding, texts: seq<Bytes>, i: nat)
    requires i < |texts| && Pieces(utf8, texts)[i].Some?
    ensures utf8(Pieces(utf8, texts)[i].value) && Pieces(utf8, texts)[i].value != []
  {
  }

  /** Nothing is lost when the whole batch fits 32-bit offsets: exactly the empty texts are left out. */
  lemma SmallBatchesArriveWhole(utf8: Encoding, texts: seq<Bytes>)
    requires |Concat(texts)| <= U32_MAX && forall i :: 0 <= i < |texts| ==> utf8(texts[i])
    ensures forall i :: 0 <= i < |texts| ==>
      Pieces(utf8, texts)[i] == if texts[i] == [] then None else Some(texts[i])
  {
    forall i | 0 <= i < |texts|
      ensures Pieces(utf8, texts)[i] == if texts[i] == [] then None else Some(texts[i])
    {
      ConcatAt(texts, i);
      SplitUndoesPack(utf8, texts, i);
    }
  }

  // ---- Which pieces the translator is asked about ------------------------

  /** The translatable texts, in order. */
  function Carried(pieces: seq<Option<Bytes>>): seq<Bytes> {
    if pieces == [] then []
    else Carried(pieces[..|pieces| - 1]) +
         if pieces[|pieces| - 1].Some? then [pieces[|pieces| - 1].value] else []
  }

  /** Item `i`'s place among them. */
  function Rank(pieces: seq<Option<Bytes>>, i: nat): nat
    requires i <= |pieces|
  {
    |Carried(pieces[..i])|
  }

  lemma {:induction false} RankFindsText(pieces: seq<Option<Bytes>>, i: nat)
    requires i < |pieces| && pieces[i].Some?
    ensures Rank(pieces, i) < |Carried(pieces)| && Carried(pieces)[Rank(pieces, i)] == pieces[i].value
  {
    var front := pieces[..|pieces| - 1];
    if i + 1 == |pieces| {
    } else {
      RankFindsText(front, i);
      assert front[..i] == pieces[..i];
    }
  }

  /** The receiver's second loop: the texts to translate and the slot each one came from. */
  method Collect(pieces: seq<Option<Bytes>>) returns (texts: seq<Bytes>, slots: seq<nat>)
    ensures texts == Carried(pieces) && |slots| == |texts|
    ensures forall b :: 0 <= b < |slots| ==>
      slots[b] < |pieces| && pieces[slots[b]].Some? && Rank(pieces, slots[b]) == b
    ensures forall i :: 0 <= i < |pieces| && pieces[i].Some? ==>
      Rank(pieces, i) < |slots| && slots[Rank(pieces, i)] == i
  {
    texts, slots := [], [];
    for i := 0 to |pieces|
      invariant texts == Carried(pieces[..i]) && |slots| == |texts|
      invariant forall b :: 0 <= b < |slots| ==>
        slots[b] < i && pieces[slots[b]].Some? && Rank(pieces, slots[b]) == b
      invariant forall k :: 0 <= k < i && pieces[k].Some? ==>
        Rank(pieces, k) < |slots| && slots[Rank(pieces, k)] == k
    {
      assert pieces[..i + 1][..i] == pieces[..i];
      if pieces[i].Some? {
        texts := texts + [pieces[i].value];
        slots := slots + [i];
      }
    }
    assert pieces[..|pieces|] == pieces;
    forall i | 0 <= i < |pieces| && pieces[i].Some?
      ensures Rank(pieces, i) < |slots|
    {
      RankFindsText(pieces, i);
    }
  }
}
