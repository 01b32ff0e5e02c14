/** The chunk splitter at the top of `archive`: the text is cut into
    `NumChunks` pieces of |text| / 16 bytes, and the remainder of the division
    is appended to the last piece. */
module Splitter {
  import opened Base

  /** `std::string::substr(pos, len)` for a start position inside the string:
      at most `len` bytes from `pos`, fewer when the string ends first. */
  function Substr(s: seq<Byte>, pos: nat, len: nat): (r: seq<Byte>)
    requires pos <= |s|
    ensures |r| <= len && pos + |r| <= |s| && r == s[pos .. pos + |r|]
    ensures pos + len <= |s| ==> |r| == len
    ensures pos + len > |s| ==> |r| == |s| - pos
  {
    if pos + len <= |s| then s[pos .. pos + len] else s[pos..]
  }

  /** The chunk length of a text: its size divided by the chunk count. */
  function ChunkSize(text: seq<Byte>): nat
  {
    |text| / NumChunks
  }

  /** The sixteen chunks of `text`: `substr(i * q, q)` for each i, where
      q = |text| / 16, and then the bytes past the sixteenth chunk appended
      to the last one. */
  function Split(text: seq<Byte>): (chunks: seq<seq<Byte>>)
    ensures |chunks| == NumChunks
  {
    var base := Pieces(text, NumChunks);
    LastOffset(text);
    if |text| % NumChunks != 0 then
      base[NumChunks - 1 := base[NumChunks - 1] + text[Offset(ChunkSize(text), NumChunks) ..]]
    else
      base
  }

  /** The first `n` iterations of the loop of `substr` calls, which pushes
      the chunks one after the other. */
  function Pieces(text: seq<Byte>, n: nat): (base: seq<seq<Byte>>)
    requires n <= NumChunks
    ensures |base| == n
  {
    if n == 0 then []
    else
      StartBounds(text, n - 1);
      Pieces(text, n - 1) + [Substr(text, Offset(ChunkSize(text), n - 1), ChunkSize(text))]
  }

  /** Piece i is the `substr` at the start of chunk i. */
  lemma {:induction false} PieceAt(text: seq<Byte>, n: nat, i: nat)
    requires i < n <= NumChunks
    ensures Offset(ChunkSize(text), i) + ChunkSize(text) <= |text|
    ensures Pieces(text, n)[i] == text[Offset(ChunkSize(text), i) .. Offset(ChunkSize(text), i) + ChunkSize(text)]
  {
    StartBounds(text, i);
    if i < n - 1 {
      PieceAt(text, n - 1, i);
    }
  }

  /** Every chunk but the last holds exactly the q bytes from its start. */
  lemma SplitChunk(text: seq<Byte>, i: nat)
    requires i < NumChunks - 1
    ensures Offset(ChunkSize(text), i) + ChunkSize(text) <= |text|
    ensures Split(text)[i] == text[Offset(ChunkSize(text), i) .. Offset(ChunkSize(text), i) + ChunkSize(text)]
  {
    PieceAt(text, NumChunks, i);
  }

  /** The last chunk runs from its start to the end of the text. */
  lemma SplitLast(text: seq<Byte>)
    ensures Offset(ChunkSize(text), NumChunks - 1) <= |text|
    ensures Split(text)[NumChunks - 1] == text[Offset(ChunkSize(text), NumChunks - 1) ..]
  {
    var q := ChunkSize(text);
    StartBounds(text, NumChunks - 1);
    LastOffset(text);
    PieceAt(text, NumChunks, NumChunks - 1);
    assert text[Offset(q, NumChunks - 1) ..]
        == text[Offset(q, NumChunks - 1) .. Offset(q, NumChunks)] + text[Offset(q, NumChunks) ..];
  }

  /** Chunk i of the sixteen starts inside the text, and the next one starts
      one chunk size later. */
  lemma StartBounds(text: seq<Byte>, i: nat)
    requires i < NumChunks
    ensures Offset(ChunkSize(text), i) + ChunkSize(text) == Offset(ChunkSize(text), i + 1)
    ensures Offset(ChunkSize(text), i + 1) <= Offset(ChunkSize(text), NumChunks) <= |text|
  {
    OffsetMonotone(ChunkSize(text), i + 1, NumChunks);
    LastOffset(text);
  }

  /** The sixteen whole chunks end |text| % 16 bytes before the end. */
  lemma LastOffset(text: seq<Byte>)
    ensures Offset(ChunkSize(text), NumChunks) == |text| - |text| % NumChunks
  {
    OffsetIsProduct(ChunkSize(text), NumChunks);
  }

  /** Every chunk but the last is q bytes long; the last is q plus the
      remainder of |text| / 16. */
  lemma SplitLengths(text: seq<Byte>)
    ensures forall i :: 0 <= i < NumChunks - 1 ==> |Split(text)[i]| == |text| / NumChunks
    ensures |Split(text)[NumChunks - 1]| == |text| / NumChunks + |text| % NumChunks
  {
    forall i | 0 <= i < NumChunks - 1 ensures |Split(text)[i]| == |text| / NumChunks {
      SplitChunk(text, i);
    }
    SplitLast(text);
    LastOffset(text);
    StartBounds(text, NumChunks - 1);
  }

  /** A text shorter than sixteen bytes lands whole in the last chunk. */
  lemma SplitShort(text: seq<Byte>)
    requires |text| < NumChunks
    ensures forall i :: 0 <= i < NumChunks - 1 ==> Split(text)[i] == []
    ensures Split(text)[NumChunks - 1] == text
  {
    forall i | 0 <= i < NumChunks - 1 ensures Split(text)[i] == [] {
      SplitChunk(text, i);
    }
    SplitLast(text);
    OffsetIsProduct(0, NumChunks - 1);
  }

  /** Chunk i of a row of chunks of size q holds the q bytes from its start. */
  predicate Tile(text: seq<Byte>, chunk: seq<Byte>, q: nat, i: nat)
  {
    Offset(q, i) + q <= |text| && chunk == text[Offset(q, i) .. Offset(q, i) + q]
  }

  /** Chunks of which each holds the q bytes from its start concatenate to
      the text up to where the next chunk would start. */
  lemma {:induction false} TiledPrefix(text: seq<Byte>, chunks: seq<seq<Byte>>, q: nat)
    requires forall i :: 0 <= i < |chunks| ==> Tile(text, chunks[i], q, i)
    ensures Offset(q, |chunks|) <= |text|
    ensures Concat(chunks) == text[.. Offset(q, |chunks|)]
  {
    var n := |chunks|;
    if n > 0 {
      var init := chunks[..n - 1];
      var a := Offset(q, n - 1);
      var b := Offset(q, n);
      assert b == a + q;
      assert forall i :: 0 <= i < |init| ==> init[i] == chunks[i];
      TiledPrefix(text, init, q);
      AppendChunk(text, Concat(init), a, b, chunks[n - 1]);
      assert Concat(chunks) == Concat(init) + chunks[n - 1];
    }
  }

  /** One more chunk extends the covered prefix of the text. */
  lemma AppendChunk(text: seq<Byte>, covered: seq<Byte>, a: nat, b: nat, chunk: seq<Byte>)
    requires a <= b <= |text|
    requires covered == text[..a] && chunk == text[a .. b]
    ensures covered + chunk == text[..b]
  {
    assert text[..b] == text[..a] + text[a .. b];
  }

  /** Concatenating the chunks in index order gives back the text: no byte
      is lost or repeated by the split. */
  lemma SplitCovers(text: seq<Byte>)
    ensures Concat(Split(text)) == text
  {
    SplitTiles(text);
    SplitLast(text);
    TiledWhole(text, Split(text), ChunkSize(text));
  }

  /** Every chunk but the last holds the q bytes from its start. */
  lemma SplitTiles(text: seq<Byte>)
    ensures forall i :: 0 <= i < NumChunks - 1 ==>
              Offset(ChunkSize(text), i) + ChunkSize(text) <= |text|
              && Split(text)[i] == text[Offset(ChunkSize(text), i) .. Offset(ChunkSize(text), i) + ChunkSize(text)]
  {
    forall i | 0 <= i < NumChunks - 1
      ensures Offset(ChunkSize(text), i) + ChunkSize(text) <= |text|
      ensures Split(text)[i] == text[Offset(ChunkSize(text), i) .. Offset(ChunkSize(text), i) + ChunkSize(text)]
    {
      SplitChunk(text, i);
    }
  }

  /** Chunks that tile the text up to the last one, which runs to the end,
      concatenate to the text. */
  lemma TiledWhole(text: seq<Byte>, chunks: seq<seq<Byte>>, q: nat)
    requires |chunks| == NumChunks
    requires forall i :: 0 <= i < NumChunks - 1 ==> Tile(text, chunks[i], q, i)
    requires Offset(q, NumChunks - 1) <= |text| && chunks[NumChunks - 1] == text[Offset(q, NumChunks - 1) ..]
    ensures Concat(chunks) == text
  {
    var last := NumChunks - 1;
    var init := chunks[..last];
    assert forall i :: 0 <= i < |init| ==> init[i] == chunks[i];
    TiledPrefix(text, init, q);
    AppendChunk(text, Concat(init), Offset(q, last), |text|, chunks[last]);
    assert chunks == init + [chunks[last]];
    assert text[..|text|] == text;
  }

  /** No chunk is longer than the text. */
  lemma SplitBounded(text: seq<Byte>)
    ensures forall j :: 0 <= j < NumChunks ==> |Split(text)[j]| <= |text|
  {
    SplitLengths(text);
  }
}
