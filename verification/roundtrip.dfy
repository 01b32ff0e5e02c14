/** The LZW round trip: decoding the codes of a chunk gives the chunk back.
    The decoder never sees the encoder's dictionary; the proof shows that the
    dictionary it rebuilds is the inverse of the encoder's, one entry behind:
    the encoder's newest entry is the previous string plus the first byte of
    the string not yet emitted, which the decoder learns only from the next
    code. */
module RoundTrip {
  import opened Base
  import opened Dictionary
  import Encoder
  import Decoder

  /** The decoder's dictionary names, for each of its codes, a string the
      encoder knows under that same code. */
  ghost predicate Inverts(ed: map<seq<Byte>, int>, dd: map<int, seq<Byte>>)
  {
    forall k :: 0 <= k < |dd| ==> k in dd && dd[k] in ed && ed[dd[k]] == k
  }

  /** The encoder after some codes and the decoder after reading those codes:
      the decoder knows every entry of the encoder but the newest, which is
      its previous string plus the first byte of the encoder's prefix. */
  ghost predicate Lockstep(e: Encoder.State, d: Decoder.State)
  {
    && Encoder.Valid(e)
    && Decoder.Valid(d)
    && |e.dict| == |d.dict| + 1
    && Inverts(e.dict, d.dict)
    && e.current != []
    && d.prev + [e.current[0]] in e.dict
    && e.dict[d.prev + [e.current[0]]] == |d.dict|
  }

  /** The code the encoder emits for its current prefix is resolved by the
      decoder to exactly that prefix, whether the code is one the decoder
      already knows or the one it is about to learn (the KwKwK case); the
      entry the decoder learns is the encoder's newest entry. */
  lemma ResolvesCurrent(e: Encoder.State, d: Decoder.State)
    requires Lockstep(e, d)
    ensures Decoder.Step(d, e.dict[e.current])
         == Success(Decoder.State(d.dict[|d.dict| := d.prev + [e.current[0]]], e.current, d.text + e.current))
  {
    var k := e.dict[e.current];
    var learnt := d.prev + [e.current[0]];
    if k < |d.dict| {
      assert e.dict[d.dict[k]] == k;
    } else {
      assert k == |d.dict|;
      assert e.current == learnt;
      assert e.current[0] == d.prev[0];
    }
  }

  /** Both sides learn one entry: the decoder the encoder's newest, the
      encoder the added string under the next code. */
  lemma InvertsAfterLearning(ed: map<seq<Byte>, int>, dd: map<int, seq<Byte>>, added: seq<Byte>, newest: seq<Byte>)
    requires Inverts(ed, dd)
    requires added !in ed
    requires newest in ed && ed[newest] == |dd|
    requires forall k :: k in dd <==> 0 <= k < |dd|
    ensures Inverts(ed[added := |ed|], dd[|dd| := newest])
  {
    var ed' := ed[added := |ed|];
    var dd' := dd[|dd| := newest];
    assert |dd'| == |dd| + 1;
    forall k | 0 <= k < |dd'| ensures k in dd' && dd'[k] in ed' && ed'[dd'[k]] == k {
      if k < |dd| {
        assert dd'[k] == dd[k];
      }
    }
  }

  /** After the decoder learns the encoder's newest entry and the encoder
      learns `e.current + [c]`, the two are in lockstep again. */
  lemma EmitKeepsLockstep(e: Encoder.State, d: Decoder.State, c: Byte, e': Encoder.State)
    requires Lockstep(e, d)
    requires e.current + [c] !in e.dict
    requires Encoder.Valid(e')
    requires e'.dict == e.dict[e.current + [c] := |e.dict|] && e'.current == [c]
    ensures Lockstep(e', Decoder.State(d.dict[|d.dict| := d.prev + [e.current[0]]], e.current, d.text + e.current))
  {
    var newest := d.prev + [e.current[0]];
    var d' := Decoder.State(d.dict[|d.dict| := newest], e.current, d.text + e.current);
    InvertsAfterLearning(e.dict, d.dict, e.current + [c], newest);
    Decoder.LearnKeepsValid(d, newest, e.current, d.text + e.current);
  }

  /** Extending the prefix changes neither the codes nor the dictionaries. */
  lemma ExtendKeepsLockstep(e: Encoder.State, d: Decoder.State, c: Byte)
    requires Lockstep(e, d)
    requires e.current + [c] in e.dict
    ensures Encoder.Step(e, c) == e.(current := e.current + [c])
    ensures Lockstep(Encoder.Step(e, c), d)
  {
    assert (e.current + [c])[0] == e.current[0];
  }

  /** The encoder state `e` reached after input `p`: before the first code
      the encoder is on its seed with the one-byte prefix `p`; afterwards the
      decoder, fed the codes emitted so far, is in lockstep with the encoder
      and has produced the input minus the pending prefix. */
  ghost predicate Simulates(e: Encoder.State, p: seq<Byte>)
  {
    if e.out == [] then
      |p| == 1 && e.dict == SeedCodes() && e.current == p
    else
      && |p| > 1
      && Decoder.Run(e.out).Success?
      && Lockstep(e, Decoder.Run(e.out).value)
      && Decoder.Run(e.out).value.text + e.current == p
  }

  /** The heart of the proof, by induction over the input consumed so far. */
  lemma {:induction false} Simulation(p: seq<Byte>)
    requires |p| > 0
    ensures Simulates(Encoder.Run(p), p)
  {
    var q := p[..|p| - 1];
    var c := p[|p| - 1];
    assert p == q + [c];
    assert Encoder.Run(p) == Encoder.Step(Encoder.Run(q), c);
    if |q| == 0 {
      SimulationStart(c);
    } else {
      Simulation(q);
      SimulationStep(Encoder.Run(q), q, c);
    }
  }

  /** The first byte only becomes the prefix. */
  lemma SimulationStart(c: Byte)
    ensures Simulates(Encoder.Step(Encoder.Init(), c), [c])
  {
    assert [] + [c] == [c];
  }

  /** One more input byte keeps the simulation. */
  lemma SimulationStep(e: Encoder.State, p: seq<Byte>, c: Byte)
    requires Encoder.Valid(e) && Simulates(e, p)
    ensures Simulates(Encoder.Step(e, c), p + [c])
  {
    if e.out == [] {
      FirstEmission(e, c);
    } else if e.current + [c] in e.dict {
      ExtendStep(e, p, c);
    } else {
      EmitStep(e, p, c);
    }
  }

  /** Extending the prefix: the decoder has nothing new to read. */
  lemma ExtendStep(e: Encoder.State, p: seq<Byte>, c: Byte)
    requires Encoder.Valid(e) && Simulates(e, p) && e.out != []
    requires e.current + [c] in e.dict
    ensures Simulates(Encoder.Step(e, c), p + [c])
  {
    var d := Decoder.Run(e.out).value;
    ExtendKeepsLockstep(e, d, c);
    assert d.text + (e.current + [c]) == p + [c];
  }

  /** Emitting a code: the decoder reads it, resolves it to the encoder's
      prefix, and both learn the same entry. */
  lemma EmitStep(e: Encoder.State, p: seq<Byte>, c: Byte)
    requires Encoder.Valid(e) && Simulates(e, p) && e.out != []
    requires e.current + [c] !in e.dict
    ensures Simulates(Encoder.Step(e, c), p + [c])
  {
    var e' := Encoder.Step(e, c);
    var d := Decoder.Run(e.out).value;
    var k := e.dict[e.current];
    assert e'.out == e.out + [k];
    assert e'.out[..|e'.out| - 1] == e.out;
    var d' := Decoder.State(d.dict[|d.dict| := d.prev + [e.current[0]]], e.current, d.text + e.current);
    ResolvesCurrent(e, d);
    assert Decoder.Run(e'.out) == Success(d');
    EmitKeepsLockstep(e, d, c, e');
    assert d'.text + e'.current == p + [c];
  }

  /** The first emission: the encoder's one-byte prefix [b] cannot be
      extended within the seed, so it emits b and learns [b, c]; the decoder
      reads b and is in lockstep with it. */
  lemma FirstEmission(e: Encoder.State, c: Byte)
    requires Encoder.Valid(e)
    requires e.out == [] && |e.current| == 1 && e.dict == SeedCodes()
    ensures Simulates(Encoder.Step(e, c), e.current + [c])
  {
    var b := e.current[0];
    assert e.current == [b];
    assert e.current + [c] == [b, c];
    assert e.current + [c] !in e.dict;
    var e' := Encoder.Step(e, c);
    assert e' == Encoder.State(SeedCodes()[[b, c] := 256], [c], [b]);
    assert Decoder.Run(e'.out) == Success(Decoder.First(b));
    FirstLockstep(b, c);
  }

  /** The first code: the encoder has learnt [b, c], the decoder is on its seed. */
  lemma FirstLockstep(b: Byte, c: Byte)
    ensures var e := Encoder.State(SeedCodes()[[b, c] := 256], [c], [b]);
            Encoder.Valid(e) ==> Lockstep(e, Decoder.First(b))
  {
    var e := Encoder.State(SeedCodes()[[b, c] := 256], [c], [b]);
    var d := Decoder.First(b);
    assert [b] + [c] == [b, c];
    forall k | 0 <= k < |d.dict| ensures k in d.dict && d.dict[k] in e.dict && e.dict[d.dict[k]] == k {
      assert d.dict[k] == [k];
      assert [k] in SeedCodes();
    }
  }

  /** The round-trip theorem for one chunk: every non-empty chunk decodes
      back to itself, so the error branch is never taken on encoder output. */
  lemma DecompressCompress(s: seq<Byte>)
    requires |s| > 0
    ensures Decoder.Decompress(Encoder.Compress(s)) == Success(s)
  {
    var e := Encoder.Run(s);
    Simulation(s);
    assert Encoder.Compress(s) == e.out + [e.dict[e.current]];
    Flush(e, s);
  }

  /** The flush of the last prefix completes the decoded text. */
  lemma Flush(e: Encoder.State, s: seq<Byte>)
    requires Encoder.Valid(e) && Simulates(e, s) && e.current != []
    ensures Decoder.Decompress(e.out + [e.dict[e.current]]) == Success(s)
  {
    var codes := e.out + [e.dict[e.current]];
    if e.out == [] {
      assert codes == [e.current[0]];
      assert Decoder.Run(codes) == Success(Decoder.First(e.current[0]));
    } else {
      var d := Decoder.Run(e.out).value;
      assert codes[..|codes| - 1] == e.out;
      ResolvesCurrent(e, d);
    }
  }
}
