/** The two pipelines. `archive` splits the text, compresses every chunk into
    its own artifact (`compressed_part_<i>.bin`) on a pool of threads;
    `decompress_file` decodes the sixteen artifacts on a pool of threads into
    per-index slots and joins the slots in index order. Files are modelled as
    the byte sequences they hold, a missing file as an empty one. */
module Archive {
  import opened Base
  import Dictionary
  import Encoder
  import Decoder
  import RoundTrip
  import Artifact
  import Splitter
  import Dispatch

  /** The longest chunk whose codes all fit the 32-bit integers of the
      dictionary: a chunk of n bytes uses codes below 256 + n - 1. */
  const MaxChunk: nat := 0x7FFF_FF00

  /** The conversion of a dictionary size to `int32_t`: two's complement
      wrap-around modulo 2^32. */
  function Wrap(x: int): (r: Int32)
    ensures (r - x) % 0x1_0000_0000 == 0
    ensures -0x8000_0000 <= x < 0x8000_0000 ==> r == x
  {
    var u := x % 0x1_0000_0000;
    if u < 0x8000_0000 then u else u - 0x1_0000_0000
  }

  /** The codes of a chunk as the 32-bit integers the dictionary holds. */
  function AsInt32(codes: seq<int>): (r: seq<Int32>)
    ensures |r| == |codes|
  {
    seq(|codes|, i requires 0 <= i < |codes| => Wrap(codes[i]))
  }

  /** `compress_chunk`: the artifact of one chunk. An empty chunk gives an
      empty artifact; otherwise four bytes per code. */
  function CompressChunk(chunk: seq<Byte>): (artifact: seq<Byte>)
    ensures |artifact| == 4 * |Encoder.Compress(chunk)|
    ensures |artifact| == 0 <==> |chunk| == 0
  {
    Artifact.Save(AsInt32(Encoder.Compress(chunk)))
  }

  /** The codes of a chunk no longer than `MaxChunk` fit 32-bit integers, so
      no code wraps. */
  lemma CodesFit(chunk: seq<Byte>)
    requires |chunk| <= MaxChunk
    ensures AsInt32(Encoder.Compress(chunk)) == Encoder.Compress(chunk)
  {
    var codes := Encoder.Compress(chunk);
    assert forall i :: 0 <= i < |codes| ==> 0 <= codes[i] < 256 + i;
    forall i | 0 <= i < |codes| ensures AsInt32(codes)[i] == codes[i] {
      assert -0x8000_0000 <= codes[i] < 0x8000_0000;
    }
  }

  /** `decompress_chunk`: read the artifact's codes; with none, the slot is
      left as it is (`None`); otherwise decode them. A decoding error is
      thrown out of the worker. */
  function DecompressChunk(artifact: seq<Byte>): (r: Result<Option<seq<Byte>>, Decoder.DecodeError>)
    ensures r == Success(None) <==> |artifact| < 4
    ensures |artifact| >= 4 ==>
              (r.Success? <==> Decoder.Decompress(Artifact.Read(artifact)).Success?)
    ensures r.Success? && r.value.Some? ==> r.value.value == Decoder.Decompress(Artifact.Read(artifact)).value
  {
    var codes := Artifact.Read(artifact);
    if |codes| == 0 then Success(None)
    else
      match Decoder.Decompress(codes)
      case Failure(e) => Failure(e)
      case Success(text) => Success(Some(text))
  }

  /** A chunk's artifact decodes back to the chunk; an empty chunk's empty
      artifact leaves its slot untouched. */
  lemma DecompressChunkCompressChunk(chunk: seq<Byte>)
    requires |chunk| <= MaxChunk
    ensures DecompressChunk(CompressChunk(chunk)) == Success(if chunk == [] then None else Some(chunk))
  {
    var codes := Encoder.Compress(chunk);
    CodesFit(chunk);
    var stored := AsInt32(codes);
    Artifact.ReadSave(stored);
    var artifact := CompressChunk(chunk);
    assert artifact == Artifact.Save(stored);
    assert Artifact.Read(artifact) == codes;
    if chunk != [] {
      RoundTrip.DecompressCompress(chunk);
    }
  }

  /** The sixteen slots before any worker ran: empty files, empty strings. */
  function EmptySlots(): (slots: seq<seq<Byte>>)
    ensures |slots| == NumChunks && forall j :: 0 <= j < NumChunks ==> slots[j] == []
  {
    seq(NumChunks, _ => [])
  }

  /** `archive`: split the text and compress every chunk into artifact j,
      with `w` threads finishing their chunks in the order `order`. Every
      chunk is written whatever the order, so artifact j is always the
      compressed chunk j. */
  function CompressFile(text: seq<Byte>, w: int, order: seq<int>): (artifacts: seq<seq<Byte>>)
    requires Dispatch.ValidThreadCount(w) && Dispatch.CompletionOrder(w, order)
    ensures |artifacts| == NumChunks
    ensures forall j :: 0 <= j < NumChunks ==> artifacts[j] == CompressChunk(Splitter.Split(text)[j])
  {
    var writes := CompressWrites(Splitter.Split(text));
    Dispatch.FillCompletion(w, order, EmptySlots(), writes);
    Dispatch.Fill(EmptySlots(), writes, order)
  }

  /** What each chunk's worker writes: its compressed chunk, always. */
  function CompressWrites(chunks: seq<seq<Byte>>): (writes: seq<Option<seq<Byte>>>)
    ensures |writes| == |chunks|
    ensures forall j :: 0 <= j < |chunks| ==> writes[j] == Some(CompressChunk(chunks[j]))
  {
    seq(|chunks|, j requires 0 <= j < |chunks| => Some(CompressChunk(chunks[j])))
  }

  /** `decompress_file`: decode the sixteen artifacts with `w` threads in the
      completion order `order` and join the slots in index order. A decoding
      error in any chunk is thrown in a worker thread and not caught, so the
      whole run ends without output. Otherwise the result does not depend on
      the completion order: it is the decoded chunks in index order, with
      nothing for a chunk whose artifact holds no code. */
  function DecompressFile(artifacts: seq<seq<Byte>>, w: int, order: seq<int>): (r: Result<seq<Byte>, Decoder.DecodeError>)
    requires |artifacts| == NumChunks
    requires Dispatch.ValidThreadCount(w) && Dispatch.CompletionOrder(w, order)
    ensures r.Failure? <==> exists j :: 0 <= j < NumChunks && DecompressChunk(artifacts[j]).Failure?
    ensures r.Success? ==> r.value == Concat(DecodedSlots(artifacts))
  {
    if exists j :: 0 <= j < NumChunks && DecompressChunk(artifacts[j]).Failure? then
      Failure(Decoder.InvalidCompressedData)
    else
      Dispatch.FillCompletion(w, order, EmptySlots(), DecodedWrites(artifacts));
      var slots := Dispatch.Fill(EmptySlots(), DecodedWrites(artifacts), order);
      WrittenSlots(artifacts, slots);
      Success(Concat(slots))
  }

  /** What each chunk's worker writes into its slot, if anything. */
  function DecodedWrites(artifacts: seq<seq<Byte>>): (writes: seq<Option<seq<Byte>>>)
    requires |artifacts| == NumChunks
    ensures |writes| == NumChunks
  {
    seq(NumChunks, j requires 0 <= j < NumChunks =>
          var outcome := DecompressChunk(artifacts[j]);
          if outcome.Success? then outcome.value else None)
  }

  /** Slots holding every write, or nothing where nothing was written, are
      the decoded slots. */
  lemma WrittenSlots(artifacts: seq<seq<Byte>>, slots: seq<seq<Byte>>)
    requires |artifacts| == NumChunks && |slots| == NumChunks
    requires forall j :: 0 <= j < NumChunks ==>
               slots[j] == if DecodedWrites(artifacts)[j].Some? then DecodedWrites(artifacts)[j].value else EmptySlots()[j]
    ensures slots == DecodedSlots(artifacts)
  {
    forall j | 0 <= j < NumChunks ensures slots[j] == DecodedSlots(artifacts)[j] {
    }
  }

  /** The slots of a run in which every chunk decoded, in index order. */
  function DecodedSlots(artifacts: seq<seq<Byte>>): (slots: seq<seq<Byte>>)
    requires |artifacts| == NumChunks
    ensures |slots| == NumChunks
    ensures forall j :: 0 <= j < NumChunks ==> slots[j] == SlotText(DecompressChunk(artifacts[j]))
  {
    seq(NumChunks, j requires 0 <= j < NumChunks => SlotText(DecompressChunk(artifacts[j])))
  }

  /** What a slot holds after its chunk ran without error. */
  function SlotText(outcome: Result<Option<seq<Byte>>, Decoder.DecodeError>): seq<Byte>
  {
    if outcome.Success? && outcome.value.Some? then outcome.value.value else []
  }

  /** The archiver's end-to-end promise: decompressing the artifacts of a
      text gives the text back, whatever thread counts the two runs used and
      in whatever order their chunks finished. */
  lemma ArchiveRoundTrip(text: seq<Byte>, w1: int, order1: seq<int>, w2: int, order2: seq<int>)
    requires |text| <= MaxChunk
    requires Dispatch.ValidThreadCount(w1) && Dispatch.CompletionOrder(w1, order1)
    requires Dispatch.ValidThreadCount(w2) && Dispatch.CompletionOrder(w2, order2)
    ensures DecompressFile(CompressFile(text, w1, order1), w2, order2) == Success(text)
  {
    RestoresChunks(text, w1, order1, w2, order2);
    Splitter.SplitCovers(text);
  }

  /** Decompressing the artifacts of a text gives its chunks in index order. */
  lemma RestoresChunks(text: seq<Byte>, w1: int, order1: seq<int>, w2: int, order2: seq<int>)
    requires |text| <= MaxChunk
    requires Dispatch.ValidThreadCount(w1) && Dispatch.CompletionOrder(w1, order1)
    requires Dispatch.ValidThreadCount(w2) && Dispatch.CompletionOrder(w2, order2)
    ensures DecompressFile(CompressFile(text, w1, order1), w2, order2) == Success(Concat(Splitter.Split(text)))
  {
    var artifacts := CompressFile(text, w1, order1);
    Splitter.SplitBounded(text);
    SlotsOfChunks(artifacts, Splitter.Split(text));
    RunDecodes(artifacts, w2, order2);
  }

  /** Artifacts that are the compressed chunks all decode, to the chunks. */
  lemma SlotsOfChunks(artifacts: seq<seq<Byte>>, chunks: seq<seq<Byte>>)
    requires |artifacts| == NumChunks && |chunks| == NumChunks
    requires forall j :: 0 <= j < NumChunks ==> |chunks[j]| <= MaxChunk && artifacts[j] == CompressChunk(chunks[j])
    ensures forall j :: 0 <= j < NumChunks ==> DecompressChunk(artifacts[j]).Success?
    ensures DecodedSlots(artifacts) == chunks
  {
    forall j | 0 <= j < NumChunks
      ensures DecompressChunk(artifacts[j]).Success?
      ensures DecodedSlots(artifacts)[j] == chunks[j]
    {
      DecompressChunkCompressChunk(chunks[j]);
      SlotOfOutcome(DecompressChunk(artifacts[j]), chunks[j]);
    }
    SameSlots(DecodedSlots(artifacts), chunks);
  }

  /** Sixteen slots that agree pointwise are the same. */
  lemma SameSlots(a: seq<seq<Byte>>, b: seq<seq<Byte>>)
    requires |a| == NumChunks && |b| == NumChunks
    requires forall j :: 0 <= j < NumChunks ==> a[j] == b[j]
    ensures a == b
  {
  }

  /** A chunk's decoded outcome puts the chunk into its slot. */
  lemma SlotOfOutcome(outcome: Result<Option<seq<Byte>>, Decoder.DecodeError>, chunk: seq<Byte>)
    requires outcome == Success(if chunk == [] then None else Some(chunk))
    ensures outcome.Success? && SlotText(outcome) == chunk
  {
  }

  /** A run in which every chunk decodes succeeds with the decoded slots. */
  lemma RunDecodes(artifacts: seq<seq<Byte>>, w: int, order: seq<int>)
    requires |artifacts| == NumChunks
    requires Dispatch.ValidThreadCount(w) && Dispatch.CompletionOrder(w, order)
    requires forall j :: 0 <= j < NumChunks ==> DecompressChunk(artifacts[j]).Success?
    ensures DecompressFile(artifacts, w, order) == Success(Concat(DecodedSlots(artifacts)))
  {
  }

}
