/** The LZW decoder of one chunk (`decompress`): it rebuilds the dictionary
    in the code-to-string direction, one entry behind the encoder. */
module Decoder {
  import opened Base
  import opened Dictionary

  /** The decoder between two codes: the dictionary, the string of the
      previous code and the text produced so far. */
  datatype State = State(dict: map<int, seq<Byte>>, prev: seq<Byte>, text: seq<Byte>)

  /** The one failure `decompress` reports: a code that is neither known
      nor the next code to be assigned. */
  datatype DecodeError = InvalidCompressedData

  /** The first code. The source looks it up with `operator[]` without any
      check, so an unknown first code inserts an empty string under itself
      and decodes to nothing. */
  function First(code: int): (st: State)
    ensures code in st.dict && st.prev == st.dict[code] && st.text == st.prev
    ensures 0 <= code < 256 ==> st.dict == SeedStrings() && st.prev == [code]
    ensures !(0 <= code < 256) ==> st.prev == [] && |st.dict| == 257
    ensures forall k :: 0 <= k < 256 ==> k in st.dict && st.dict[k] == [k]
  {
    var seed := SeedStrings();
    if code in seed then
      State(seed, seed[code], seed[code])
    else
      var dict := seed[code := []];
      State(dict, dict[code], dict[code])
  }

  /** One later code: resolve it (a known code, or the code about to be
      assigned, which is the previous string plus its own first byte), append
      its string, and learn previous + first byte of the current string under
      the code |dict|. Any other code aborts. */
  function Step(st: State, code: int): (r: Result<State, DecodeError>)
    ensures r.Failure? <==> code !in st.dict && code != |st.dict|
    ensures r.Success? ==>
              && (code in st.dict ==> r.value.prev == st.dict[code])
              && (code !in st.dict ==> r.value.prev == st.prev + [Head(st.prev)])
              && r.value.text == st.text + r.value.prev
              && |st.dict| in r.value.dict
              && r.value.dict[|st.dict|] == st.prev + [Head(r.value.prev)]
              && (forall k :: k in st.dict && k != |st.dict| ==> k in r.value.dict && r.value.dict[k] == st.dict[k])
              && (forall k :: k in r.value.dict ==> k in st.dict || k == |st.dict|)
  {
    var current :=
      if code in st.dict then Success(st.dict[code])
      else if code == |st.dict| then Success(st.prev + [Head(st.prev)])
      else Failure(InvalidCompressedData);
    match current
    case Failure(e) => Failure(e)
    case Success(str) =>
      Success(State(st.dict[|st.dict| := st.prev + [Head(str)]], str, st.text + str))
  }

  /** The decoder after the codes in `codes`, or the error that stopped it. */
  function Run(codes: seq<int>): Result<State, DecodeError>
    requires |codes| > 0
  {
    if |codes| == 1 then Success(First(codes[0]))
    else
      match Run(codes[..|codes| - 1])
      case Failure(e) => Failure(e)
      case Success(st) => Step(st, codes[|codes| - 1])
  }

  /** `decompress`. The source reads `compressed_data[0]` unguarded, so the
      caller must not pass an empty sequence. A stream that starts with a
      byte value decodes exactly when it is well formed. */
  function Decompress(codes: seq<int>): (r: Result<seq<Byte>, DecodeError>)
    requires |codes| > 0
    ensures r.Success? <==> Run(codes).Success?
    ensures r.Success? ==> r.value == Run(codes).value.text
    ensures 0 <= codes[0] < 256 ==> (r.Success? <==> WellFormed(codes))
  {
    assert 0 <= codes[0] < 256 ==> (Run(codes).Success? <==> WellFormed(codes)) by {
      if 0 <= codes[0] < 256 { DecodesIffWellFormed(codes); }
    }
    match Run(codes)
    case Failure(e) => Failure(e)
    case Success(st) => Success(st.text)
  }

  /** The shape of the decoder's dictionary on a well-formed stream: codes
      0 .. |dict|-1, seed intact, no empty entry, a non-empty previous string. */
  ghost predicate Valid(st: State)
  {
    && (forall k :: k in st.dict <==> 0 <= k < |st.dict|)
    && |st.dict| >= 256
    && (forall k :: 0 <= k < 256 ==> st.dict[k] == [k])
    && (forall k :: k in st.dict ==> st.dict[k] != [])
    && st.prev != []
  }

  /** Learning a non-empty string under the next code keeps the shape. */
  lemma LearnKeepsValid(st: State, learnt: seq<Byte>, prev: seq<Byte>, text: seq<Byte>)
    requires Valid(st) && learnt != [] && prev != []
    ensures Valid(State(st.dict[|st.dict| := learnt], prev, text))
    ensures |st.dict[|st.dict| := learnt]| == |st.dict| + 1
  {
    var d := st.dict[|st.dict| := learnt];
    forall k | k in d ensures d[k] != [] {
      if k != |st.dict| { assert d[k] == st.dict[k]; }
    }
  }

  /** A stream whose first code is a byte value decodes exactly when every
      code is known to the dictionary at its position, and then the decoder
      holds one entry more than 255 per code read. */
  lemma {:induction false} DecodesIffWellFormed(codes: seq<int>)
    requires |codes| > 0 && 0 <= codes[0] < 256
    ensures Run(codes).Success? <==> WellFormed(codes)
    ensures Run(codes).Success? ==> Valid(Run(codes).value) && |Run(codes).value.dict| == 255 + |codes|
  {
    if |codes| > 1 {
      var init := codes[..|codes| - 1];
      DecodesIffWellFormed(init);
      WellFormedSnoc(codes);
      if Run(init).Success? {
        StepKeepsValid(Run(init).value, codes[|codes| - 1]);
      }
    }
  }

  /** A stream is well formed exactly when all but its last code are and the
      last code is below 256 plus its position. */
  lemma WellFormedSnoc(codes: seq<int>)
    requires |codes| > 0
    ensures WellFormed(codes) <==>
              WellFormed(codes[..|codes| - 1]) && 0 <= codes[|codes| - 1] < 256 + |codes| - 1
  {
    var init := codes[..|codes| - 1];
    if WellFormed(init) && 0 <= codes[|codes| - 1] < 256 + |init| {
      forall i | 0 <= i < |codes| ensures 0 <= codes[i] < 256 + i {
        if i < |init| { assert codes[i] == init[i]; }
      }
    }
    if WellFormed(codes) {
      forall i | 0 <= i < |init| ensures 0 <= init[i] < 256 + i {
        assert codes[i] == init[i];
      }
    }
  }

  /** On a well-shaped dictionary a step succeeds exactly for the codes
      0 .. |dict|, and then the dictionary keeps its shape with one more entry. */
  lemma StepKeepsValid(st: State, code: int)
    requires Valid(st)
    ensures Step(st, code).Success? <==> 0 <= code <= |st.dict|
    ensures Step(st, code).Success? ==>
              Valid(Step(st, code).value) && |Step(st, code).value.dict| == |st.dict| + 1
  {
    var r := Step(st, code);
    if r.Success? {
      assert r.value.dict == st.dict[|st.dict| := st.prev + [Head(r.value.prev)]];
      if code in st.dict {
        assert st.dict[code] != [];
      }
    }
  }

  /** Codes 0..255 decode to their single-byte strings at every point of
      every decoding that has not failed, whatever the first code was. */
  lemma {:induction false} SeedSurvives(codes: seq<int>)
    requires |codes| > 0
    ensures Run(codes).Success? ==>
              |Run(codes).value.dict| >= 256
              && forall k :: 0 <= k < 256 ==> k in Run(codes).value.dict && Run(codes).value.dict[k] == [k]
  {
    if |codes| > 1 {
      var init := codes[..|codes| - 1];
      SeedSurvives(init);
      if Run(init).Success? {
        assert Run(codes) == Step(Run(init).value, codes[|codes| - 1]);
      }
    }
  }

  /** The first code is not checked: a single code outside 0..255, negative
      ones included, decodes without error to no text at all. */
  lemma FirstCodeUnchecked(code: int)
    requires !(0 <= code < 256)
    ensures Decompress([code]) == Success([])
  {
  }

  /** After a byte-valued first code, a negative code anywhere in the stream
      aborts the whole decoding: no text is returned. */
  lemma NegativeCodeFails(codes: seq<int>, i: int)
    requires |codes| > 0 && 0 <= codes[0] < 256
    requires 0 < i < |codes| && codes[i] < 0
    ensures Decompress(codes).Failure?
  {
    DecodesIffWellFormed(codes);
  }
}
