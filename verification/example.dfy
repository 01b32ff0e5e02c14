/** A worked example: the 24 bytes "TOBEORNOTTOBEORTOBEORNOT", the classic
    LZW illustration, traced byte by byte through the encoder and code by
    code through the decoder. Each `...Prefix` lemma pins down the state after
    one more symbol, and the verifier checks every dictionary lookup on the
    way. The text and the codes are described position by position, so the
    statements hold of any sequence with those elements. */
module Example {
  import opened Base
  import Encoder
  import Decoder

  /** The text "TOBEORNOTTOBEORTOBEORNOT" as bytes. */
  ghost predicate IsText(s: seq<Byte>)
  {
    && |s| == 24 && s[0] == 84 && s[1] == 79 && s[2] == 66 && s[3] == 69 && s[4] == 79 && s[5] == 82
    && s[6] == 78 && s[7] == 79 && s[8] == 84 && s[9] == 84 && s[10] == 79 && s[11] == 66
    && s[12] == 69 && s[13] == 79 && s[14] == 82 && s[15] == 84 && s[16] == 79 && s[17] == 66
    && s[18] == 69 && s[19] == 79 && s[20] == 82 && s[21] == 78 && s[22] == 79 && s[23] == 84
  }

  /** The codes the encoder emits for the text. */
  ghost predicate IsCodes(codes: seq<int>)
  {
    && |codes| == 16 && codes[0] == 84 && codes[1] == 79 && codes[2] == 66 && codes[3] == 69
    && codes[4] == 79 && codes[5] == 82 && codes[6] == 78 && codes[7] == 79 && codes[8] == 84
    && codes[9] == 256 && codes[10] == 258 && codes[11] == 260 && codes[12] == 265
    && codes[13] == 259 && codes[14] == 261 && codes[15] == 263
  }

  /** The strings both sides learn on the text, in order: entry i gets
      code 256 + i. */
  const Learned: seq<seq<Byte>> :=
    [[84, 79], [79, 66], [66, 69], [69, 79], [79, 82], [82, 78], [78, 79], [79, 84],
     [84, 84], [84, 79, 66], [66, 69, 79], [79, 82, 84], [84, 79, 66, 69], [69, 79, 82], [82, 78, 79]]

  ghost predicate IsLearned(entries: seq<seq<Byte>>)
  {
    && |entries| == 15 && entries[0] == [84, 79] && entries[1] == [79, 66] && entries[2] == [66, 69]
    && entries[3] == [69, 79] && entries[4] == [79, 82] && entries[5] == [82, 78]
    && entries[6] == [78, 79] && entries[7] == [79, 84] && entries[8] == [84, 84]
    && entries[9] == [84, 79, 66] && entries[10] == [66, 69, 79] && entries[11] == [79, 82, 84]
    && entries[12] == [84, 79, 66, 69] && entries[13] == [69, 79, 82] && entries[14] == [82, 78, 79]
  }

  lemma LearnedIsLearned()
    ensures IsLearned(Learned)
  {
  }

  /** No learned string repeats an earlier one. */
  lemma LearnedFresh(entries: seq<seq<Byte>>, n: nat)
    requires IsLearned(entries) && n < |entries|
    ensures Fresh(entries, n)
  {
    if n == 1 {
      assert entries[0][0] != entries[1][0];
    } else if n == 2 {
      assert entries[0][0] != entries[2][0];
      assert entries[1][0] != entries[2][0];
    } else if n == 3 {
      assert entries[0][0] != entries[3][0];
      assert entries[1][0] != entries[3][0];
      assert entries[2][0] != entries[3][0];
    } else if n == 4 {
      assert entries[0][0] != entries[4][0];
      assert entries[1][1] != entries[4][1];
      assert entries[2][0] != entries[4][0];
      assert entries[3][0] != entries[4][0];
    } else if n == 5 {
      assert entries[0][0] != entries[5][0];
      assert entries[1][0] != entries[5][0];
      assert entries[2][0] != entries[5][0];
      assert entries[3][0] != entries[5][0];
      assert entries[4][0] != entries[5][0];
    } else if n == 6 {
      assert entries[0][0] != entries[6][0];
      assert entries[1][0] != entries[6][0];
      assert entries[2][0] != entries[6][0];
      assert entries[3][0] != entries[6][0];
      assert entries[4][0] != entries[6][0];
      assert entries[5][0] != entries[6][0];
    } else if n == 7 {
      assert entries[0][0] != entries[7][0];
      assert entries[1][1] != entries[7][1];
      assert entries[2][0] != entries[7][0];
      assert entries[3][0] != entries[7][0];
      assert entries[4][1] != entries[7][1];
      assert entries[5][0] != entries[7][0];
      assert entries[6][0] != entries[7][0];
    } else if n == 8 {
      assert entries[0][1] != entries[8][1];
      assert entries[1][0] != entries[8][0];
      assert entries[2][0] != entries[8][0];
      assert entries[3][0] != entries[8][0];
      assert entries[4][0] != entries[8][0];
      assert entries[5][0] != entries[8][0];
      assert entries[6][0] != entries[8][0];
      assert entries[7][0] != entries[8][0];
    } else if n == 9 {
      assert |entries[0]| != |entries[9]|;
      assert |entries[1]| != |entries[9]|;
      assert |entries[2]| != |entries[9]|;
      assert |entries[3]| != |entries[9]|;
      assert |entries[4]| != |entries[9]|;
      assert |entries[5]| != |entries[9]|;
      assert |entries[6]| != |entries[9]|;
      assert |entries[7]| != |entries[9]|;
      assert |entries[8]| != |entries[9]|;
    } else if n == 10 {
      assert |entries[0]| != |entries[10]|;
      assert |entries[1]| != |entries[10]|;
      assert |entries[2]| != |entries[10]|;
      assert |entries[3]| != |entries[10]|;
      assert |entries[4]| != |entries[10]|;
      assert |entries[5]| != |entries[10]|;
      assert |entries[6]| != |entries[10]|;
      assert |entries[7]| != |entries[10]|;
      assert |entries[8]| != |entries[10]|;
      assert entries[9][0] != entries[10][0];
    } else if n == 11 {
      assert |entries[0]| != |entries[11]|;
      assert |entries[1]| != |entries[11]|;
      assert |entries[2]| != |entries[11]|;
      assert |entries[3]| != |entries[11]|;
      assert |entries[4]| != |entries[11]|;
      assert |entries[5]| != |entries[11]|;
      assert |entries[6]| != |entries[11]|;
      assert |entries[7]| != |entries[11]|;
      assert |entries[8]| != |entries[11]|;
      assert entries[9][0] != entries[11][0];
      assert entries[10][0] != entries[11][0];
    } else if n == 12 {
      assert |entries[0]| != |entries[12]|;
      assert |entries[1]| != |entries[12]|;
      assert |entries[2]| != |entries[12]|;
      assert |entries[3]| != |entries[12]|;
      assert |entries[4]| != |entries[12]|;
      assert |entries[5]| != |entries[12]|;
      assert |entries[6]| != |entries[12]|;
      assert |entries[7]| != |entries[12]|;
      assert |entries[8]| != |entries[12]|;
      assert |entries[9]| != |entries[12]|;
      assert |entries[10]| != |entries[12]|;
      assert |entries[11]| != |entries[12]|;
    } else if n == 13 {
      assert |entries[0]| != |entries[13]|;
      assert |entries[1]| != |entries[13]|;
      assert |entries[2]| != |entries[13]|;
      assert |entries[3]| != |entries[13]|;
      assert |entries[4]| != |entries[13]|;
      assert |entries[5]| != |entries[13]|;
      assert |entries[6]| != |entries[13]|;
      assert |entries[7]| != |entries[13]|;
      assert |entries[8]| != |entries[13]|;
      assert entries[9][0] != entries[13][0];
      assert entries[10][0] != entries[13][0];
      assert entries[11][0] != entries[13][0];
      assert |entries[12]| != |entries[13]|;
    } else if n == 14 {
      assert |entries[0]| != |entries[14]|;
      assert |entries[1]| != |entries[14]|;
      assert |entries[2]| != |entries[14]|;
      assert |entries[3]| != |entries[14]|;
      assert |entries[4]| != |entries[14]|;
      assert |entries[5]| != |entries[14]|;
      assert |entries[6]| != |entries[14]|;
      assert |entries[7]| != |entries[14]|;
      assert |entries[8]| != |entries[14]|;
      assert entries[9][0] != entries[14][0];
      assert entries[10][0] != entries[14][0];
      assert entries[11][0] != entries[14][0];
      assert |entries[12]| != |entries[14]|;
      assert entries[13][0] != entries[14][0];
    }
  }

  /** `w` is `cur` followed by `b`, spelled out position by position for
      prefixes of up to three bytes. */
  predicate Extends(w: seq<Byte>, cur: seq<Byte>, b: Byte)
  {
    && 0 < |cur| <= 3 && |w| == |cur| + 1 && w[|cur|] == b && w[0] == cur[0]
    && (|cur| > 1 ==> w[1] == cur[1]) && (|cur| > 2 ==> w[2] == cur[2])
  }

  lemma ExtendsIsSnoc(w: seq<Byte>, cur: seq<Byte>, b: Byte)
    requires Extends(w, cur, b)
    ensures w == cur + [b]
  {
    assert forall t :: 0 <= t < |w| ==> w[t] == (cur + [b])[t];
  }

  /** No string learned before entry n equals it. */
  ghost predicate Fresh(entries: seq<seq<Byte>>, n: nat)
    requires n < |entries|
  {
    forall i :: 0 <= i < n ==> entries[i] != entries[n]
  }

  /** `text[..m]` followed by the next |str| bytes of `text`, spelled out. */
  lemma TextGrows(text: seq<Byte>, m: nat, str: seq<Byte>)
    requires m + |str| <= |text| && 0 < |str| <= 3
    requires text[m] == str[0]
    requires |str| > 1 ==> text[m + 1] == str[1]
    requires |str| > 2 ==> text[m + 2] == str[2]
    ensures text[..m] + str == text[..m + |str|]
  {
    assert text[m .. m + |str|] == str;
    assert text[..m + |str|] == text[..m] + text[m .. m + |str|];
  }

  lemma TakeOneMore<T>(xs: seq<T>, m: nat)
    requires m < |xs|
    ensures xs[..m + 1] == xs[..m] + [xs[m]]
  {
  }

  // The encoder's side.

  /** The encoder's dictionary holds the seed and exactly the first `n`
      learned strings, entry i under code 256 + i. */
  ghost predicate EncoderKnows(d: map<seq<Byte>, int>, entries: seq<seq<Byte>>, n: nat)
    requires n <= |entries|
  {
    && |d| == 256 + n
    && (forall w :: w in d && |w| != 1 ==> exists i :: 0 <= i < n && entries[i] == w)
    && (forall i :: 0 <= i < n ==> entries[i] in d && d[entries[i]] == 256 + i)
  }

  /** The encoder after the first `k` bytes of `s`: it has learned `n`
      strings, emitted the first `m` of `codes` and holds the prefix `cur`. */
  ghost predicate EncodedUpTo(s: seq<Byte>, codes: seq<int>, entries: seq<seq<Byte>>, k: nat, n: nat, m: nat,
                              cur: seq<Byte>)
    requires k <= |s| && n <= |entries| && m <= |codes|
  {
    && Encoder.Run(s[..k]).current == cur
    && Encoder.Run(s[..k]).out == codes[..m]
    && EncoderKnows(Encoder.Run(s[..k]).dict, entries, n)
  }

  lemma EncoderRunAt(s: seq<Byte>, k: nat)
    requires 0 < k <= |s|
    ensures Encoder.Run(s[..k]) == Encoder.Step(Encoder.Run(s[..k - 1]), s[k - 1])
  {
    var p := s[..k];
    assert p[..k - 1] == s[..k - 1];
    assert p[k - 1] == s[k - 1];
  }

  /** The first byte becomes the prefix. */
  lemma EncoderStart(s: seq<Byte>, codes: seq<int>, entries: seq<seq<Byte>>, cur: seq<Byte>)
    requires |s| > 0 && cur == [s[0]]
    ensures EncodedUpTo(s, codes, entries, 1, 0, 0, cur)
  {
    EncoderRunAt(s, 1);
    assert s[..0] == [];
  }

  /** The second byte never extends the first: the first byte is emitted and
      the pair becomes the first learned string. */
  lemma EncoderFirstPair(s: seq<Byte>, codes: seq<int>, entries: seq<seq<Byte>>, cur: seq<Byte>)
    requires |s| > 1 && |entries| > 0 && |codes| > 0
    requires Extends(entries[0], [s[0]], s[1]) && codes[0] == s[0] && cur == [s[1]]
    ensures EncodedUpTo(s, codes, entries, 2, 1, 1, cur)
  {
    EncoderStart(s, codes, entries, [s[0]]);
    EncoderEmit(s, codes, entries, 2, 0, 0, [s[0]], s[1], s[0], cur);
  }

  /** A byte that extends the prefix to learned string j. */
  lemma EncoderExtend(s: seq<Byte>, codes: seq<int>, entries: seq<seq<Byte>>, k: nat, n: nat, m: nat,
                      cur: seq<Byte>, b: Byte, cur': seq<Byte>, j: nat)
    requires 1 < k <= |s| && n <= |entries| && m <= |codes|
    requires EncodedUpTo(s, codes, entries, k - 1, n, m, cur)
    requires s[k - 1] == b && Extends(cur', cur, b)
    requires j < n && entries[j] == cur'
    ensures EncodedUpTo(s, codes, entries, k, n, m, cur')
  {
    EncoderRunAt(s, k);
    ExtendsIsSnoc(cur', cur, b);
  }

  /** A byte that makes the prefix unknown: `code` is emitted, learned
      string n is added and the byte starts the next prefix. */
  lemma EncoderEmit(s: seq<Byte>, codes: seq<int>, entries: seq<seq<Byte>>, k: nat, n: nat, m: nat,
                    cur: seq<Byte>, b: Byte, code: int, cur': seq<Byte>)
    requires 1 < k <= |s| && n < |entries| && m < |codes|
    requires EncodedUpTo(s, codes, entries, k - 1, n, m, cur)
    requires s[k - 1] == b && Extends(entries[n], cur, b) && Fresh(entries, n)
    requires (|cur| == 1 && code == cur[0]) || (256 <= code < 256 + n && entries[code - 256] == cur)
    requires codes[m] == code && cur' == [b]
    ensures EncodedUpTo(s, codes, entries, k, n + 1, m + 1, cur')
  {
    ExtendsIsSnoc(entries[n], cur, b);
    EncoderEmits(s, k, entries, n);
    EmitKeeps(Encoder.Run(s[..k - 1]), Encoder.Run(s[..k]), codes, entries, n, m, code, cur');
  }

  /** The bookkeeping of one emitting step, on the two states alone. */
  lemma EmitKeeps(st: Encoder.State, st': Encoder.State, codes: seq<int>, entries: seq<seq<Byte>>, n: nat, m: nat,
                  code: int, cur': seq<Byte>)
    requires Encoder.Valid(st) && n < |entries| && m < |codes|
    requires st.out == codes[..m] && EncoderKnows(st.dict, entries, n)
    requires (|st.current| == 1 && code == st.current[0]) || (256 <= code < 256 + n && entries[code - 256] == st.current)
    requires entries[n] !in st.dict && |entries[n]| != 1 && codes[m] == code
    requires st'.dict == st.dict[entries[n] := |st.dict|] && st'.current == cur'
    requires st'.out == st.out + [st.dict[st.current]]
    ensures st'.out == codes[..m + 1] && EncoderKnows(st'.dict, entries, n + 1)
  {
    KnowsOneMore(st.dict, entries, n);
    EncoderCode(st, entries, n, code);
    TakeOneMore(codes, m);
  }

  lemma EncoderEmits(s: seq<Byte>, k: nat, entries: seq<seq<Byte>>, n: nat)
    requires 1 < k <= |s| && n < |entries|
    requires EncoderKnows(Encoder.Run(s[..k - 1]).dict, entries, n)
    requires entries[n] == Encoder.Run(s[..k - 1]).current + [s[k - 1]]
    requires Fresh(entries, n)
    ensures entries[n] !in Encoder.Run(s[..k - 1]).dict
    ensures Encoder.Run(s[..k]).dict == Encoder.Run(s[..k - 1]).dict[entries[n] := |Encoder.Run(s[..k - 1]).dict|]
    ensures Encoder.Run(s[..k]).current == [s[k - 1]]
    ensures Encoder.Run(s[..k]).out
         == Encoder.Run(s[..k - 1]).out + [Encoder.Run(s[..k - 1]).dict[Encoder.Run(s[..k - 1]).current]]
  {
    EncoderRunAt(s, k);
    assert Encoder.Run(s[..k - 1]).current != [];
  }

  lemma KnowsOneMore(d: map<seq<Byte>, int>, entries: seq<seq<Byte>>, n: nat)
    requires n < |entries| && EncoderKnows(d, entries, n)
    requires entries[n] !in d && |entries[n]| != 1
    ensures EncoderKnows(d[entries[n] := |d|], entries, n + 1)
  {
    var d' := d[entries[n] := |d|];
    forall i | 0 <= i < n + 1 ensures entries[i] in d' && d'[entries[i]] == 256 + i {
      if i < n {
        assert entries[i] != entries[n];
      }
    }
  }

  lemma EncoderCode(st: Encoder.State, entries: seq<seq<Byte>>, n: nat, code: int)
    requires Encoder.Valid(st) && n <= |entries| && EncoderKnows(st.dict, entries, n)
    requires (|st.current| == 1 && code == st.current[0]) || (256 <= code < 256 + n && entries[code - 256] == st.current)
    ensures st.current in st.dict && st.dict[st.current] == code
  {
    if |st.current| == 1 && code == st.current[0] {
      assert st.current == [st.current[0]];
    }
  }

  /** The last prefix is flushed as the last code. */
  lemma EncoderFlush(s: seq<Byte>, codes: seq<int>, entries: seq<seq<Byte>>, n: nat, m: nat,
                     cur: seq<Byte>, code: int)
    requires |s| > 0 && n <= |entries| && m + 1 == |codes|
    requires EncodedUpTo(s, codes, entries, |s|, n, m, cur)
    requires (|cur| == 1 && code == cur[0]) || (256 <= code < 256 + n && entries[code - 256] == cur)
    requires codes[m] == code
    ensures Encoder.Compress(s) == codes
  {
    assert s[..|s|] == s;
    EncoderCode(Encoder.Run(s), entries, n, code);
    TakeOneMore(codes, m);
    assert codes[..m + 1] == codes;
  }

  // The encoder on the text, one byte at a time. Lemma k states the
  // prefix held, the strings learned and the codes emitted after byte k.

  lemma EncodesPrefix2(s: seq<Byte>, codes: seq<int>, entries: seq<seq<Byte>>)
    requires IsText(s) && IsCodes(codes) && IsLearned(entries)
    ensures EncodedUpTo(s, codes, entries, 2, 1, 1, [79])
  {
    EncoderFirstPair(s, codes, entries, [79]);
  }

  lemma EncodesPrefix3(s: seq<Byte>, codes: seq<int>, entries: seq<seq<Byte>>)
    requires IsText(s) && IsCodes(codes) && IsLearned(entries)
    ensures EncodedUpTo(s, codes, entries, 3, 2, 2, [66])
  {
    EncodesPrefix2(s, codes, entries);
    LearnedFresh(entries, 1);
    EncoderEmit(s, codes, entries, 3, 1, 1, [79], 66, 79, [66]);
  }

  lemma EncodesPrefix4(s: seq<Byte>, codes: seq<int>, entries: seq<seq<Byte>>)
    requires IsText(s) && IsCodes(codes) && IsLearned(entries)
    ensures EncodedUpTo(s, codes, entries, 4, 3, 3, [69])
  {
    EncodesPrefix3(s, codes, entries);
    LearnedFresh(entries, 2);
    EncoderEmit(s, codes, entries, 4, 2, 2, [66], 69, 66, [69]);
  }

  lemma EncodesPrefix5(s: seq<Byte>, codes: seq<int>, entries: seq<seq<Byte>>)
    requires IsText(s) && IsCodes(codes) && IsLearned(entries)
    ensures EncodedUpTo(s, codes, entries, 5, 4, 4, [79])
  {
    EncodesPrefix4(s, codes, entries);
    LearnedFresh(entries, 3);
    EncoderEmit(s, codes, entries, 5, 3, 3, [69], 79, 69, [79]);
  }

  lemma EncodesPrefix6(s: seq<Byte>, codes: seq<int>, entries: seq<seq<Byte>>)
    requires IsText(s) && IsCodes(codes) && IsLearned(entries)
    ensures EncodedUpTo(s, codes, entries, 6, 5, 5, [82])
  {
    EncodesPrefix5(s, codes, entries);
    LearnedFresh(entries, 4);
    EncoderEmit(s, codes, entries, 6, 4, 4, [79], 82, 79, [82]);
  }

  lemma EncodesPrefix7(s: seq<Byte>, codes: seq<int>, entries: seq<seq<Byte>>)
    requires IsText(s) && IsCodes(codes) && IsLearned(entries)
    ensures EncodedUpTo(s, codes, entries, 7, 6, 6, [78])
  {
    EncodesPrefix6(s, codes, entries);
    LearnedFresh(entries, 5);
    EncoderEmit(s, codes, entries, 7, 5, 5, [82], 78, 82, [78]);
  }

  lemma EncodesPrefix8(s: seq<Byte>, codes: seq<int>, entries: seq<seq<Byte>>)
    requires IsText(s) && IsCodes(codes) && IsLearned(entries)
    ensures EncodedUpTo(s, codes, entries, 8, 7, 7, [79])
  {
    EncodesPrefix7(s, codes, entries);
    LearnedFresh(entries, 6);
    EncoderEmit(s, codes, entries, 8, 6, 6, [78], 79, 78, [79]);
  }

  lemma EncodesPrefix9(s: seq<Byte>, codes: seq<int>, entries: seq<seq<Byte>>)
    requires IsText(s) && IsCodes(codes) && IsLearned(entries)
    ensures EncodedUpTo(s, codes, entries, 9, 8, 8, [84])
  {
    EncodesPrefix8(s, codes, entries);
    LearnedFresh(entries, 7);
    EncoderEmit(s, codes, entries, 9, 7, 7, [79], 84, 79, [84]);
  }

  lemma EncodesPrefix10(s: seq<Byte>, codes: seq<int>, entries: seq<seq<Byte>>)
    requires IsText(s) && IsCodes(codes) && IsLearned(entries)
    ensures EncodedUpTo(s, codes, entries, 10, 9, 9, [84])
  {
    EncodesPrefix9(s, codes, entries);
    LearnedFresh(entries, 8);
    EncoderEmit(s, codes, entries, 10, 8, 8, [84], 84, 84, [84]);
  }

  lemma EncodesPrefix11(s: seq<Byte>, codes: seq<int>, entries: seq<seq<Byte>>)
    requires IsText(s) && IsCodes(codes) && IsLearned(entries)
    ensures EncodedUpTo(s, codes, entries, 11, 9, 9, [84, 79])
  {
    EncodesPrefix10(s, codes, entries);
    EncoderExtend(s, codes, entries, 11, 9, 9, [84], 79, [84, 79], 0);
  }

  lemma EncodesPrefix12(s: seq<Byte>, codes: seq<int>, entries: seq<seq<Byte>>)
    requires IsText(s) && IsCodes(codes) && IsLearned(entries)
    ensures EncodedUpTo(s, codes, entries, 12, 10, 10, [66])
  {
    EncodesPrefix11(s, codes, entries);
    LearnedFresh(entries, 9);
    EncoderEmit(s, codes, entries, 12, 9, 9, [84, 79], 66, 256, [66]);
  }

  lemma EncodesPrefix13(s: seq<Byte>, codes: seq<int>, entries: seq<seq<Byte>>)
    requires IsText(s) && IsCodes(codes) && IsLearned(entries)
    ensures EncodedUpTo(s, codes, entries, 13, 10, 10, [66, 69])
  {
    EncodesPrefix12(s, codes, entries);
    EncoderExtend(s, codes, entries, 13, 10, 10, [66], 69, [66, 69], 2);
  }

  lemma EncodesPrefix14(s: seq<Byte>, codes: seq<int>, entries: seq<seq<Byte>>)
    requires IsText(s) && IsCodes(codes) && IsLearned(entries)
    ensures EncodedUpTo(s, codes, entries, 14, 11, 11, [79])
  {
    EncodesPrefix13(s, codes, entries);
    LearnedFresh(entries, 10);
    EncoderEmit(s, codes, entries, 14, 10, 10, [66, 69], 79, 258, [79]);
  }

  lemma EncodesPrefix15(s: seq<Byte>, codes: seq<int>, entries: seq<seq<Byte>>)
    requires IsText(s) && IsCodes(codes) && IsLearned(entries)
    ensures EncodedUpTo(s, codes, entries, 15, 11, 11, [79, 82])
  {
    EncodesPrefix14(s, codes, entries);
    EncoderExtend(s, codes, entries, 15, 11, 11, [79], 82, [79, 82], 4);
  }

  lemma EncodesPrefix16(s: seq<Byte>, codes: seq<int>, entries: seq<seq<Byte>>)
    requires IsText(s) && IsCodes(codes) && IsLearned(entries)
    ensures EncodedUpTo(s, codes, entries, 16, 12, 12, [84])
  {
    EncodesPrefix15(s, codes, entries);
    LearnedFresh(entries, 11);
    EncoderEmit(s, codes, entries, 16, 11, 11, [79, 82], 84, 260, [84]);
  }

  lemma EncodesPrefix17(s: seq<Byte>, codes: seq<int>, entries: seq<seq<Byte>>)
    requires IsText(s) && IsCodes(codes) && IsLearned(entries)
    ensures EncodedUpTo(s, codes, entries, 17, 12, 12, [84, 79])
  {
    EncodesPrefix16(s, codes, entries);
    EncoderExtend(s, codes, entries, 17, 12, 12, [84], 79, [84, 79], 0);
  }

  lemma EncodesPrefix18(s: seq<Byte>, codes: seq<int>, entries: seq<seq<Byte>>)
    requires IsText(s) && IsCodes(codes) && IsLearned(entries)
    ensures EncodedUpTo(s, codes, entries, 18, 12, 12, [84, 79, 66])
  {
    EncodesPrefix17(s, codes, entries);
    EncoderExtend(s, codes, entries, 18, 12, 12, [84, 79], 66, [84, 79, 66], 9);
  }

  lemma EncodesPrefix19(s: seq<Byte>, codes: seq<int>, entries: seq<seq<Byte>>)
    requires IsText(s) && IsCodes(codes) && IsLearned(entries)
    ensures EncodedUpTo(s, codes, entries, 19, 13, 13, [69])
  {
    EncodesPrefix18(s, codes, entries);
    LearnedFresh(entries, 12);
    EncoderEmit(s, codes, entries, 19, 12, 12, [84, 79, 66], 69, 265, [69]);
  }

  lemma EncodesPrefix20(s: seq<Byte>, codes: seq<int>, entries: seq<seq<Byte>>)
    requires IsText(s) && IsCodes(codes) && IsLearned(entries)
    ensures EncodedUpTo(s, codes, entries, 20, 13, 13, [69, 79])
  {
    EncodesPrefix19(s, codes, entries);
    EncoderExtend(s, codes, entries, 20, 13, 13, [69], 79, [69, 79], 3);
  }

  lemma EncodesPrefix21(s: seq<Byte>, codes: seq<int>, entries: seq<seq<Byte>>)
    requires IsText(s) && IsCodes(codes) && IsLearned(entries)
    ensures EncodedUpTo(s, codes, entries, 21, 14, 14, [82])
  {
    EncodesPrefix20(s, codes, entries);
    LearnedFresh(entries, 13);
    EncoderEmit(s, codes, entries, 21, 13, 13, [69, 79], 82, 259, [82]);
  }

  lemma EncodesPrefix22(s: seq<Byte>, codes: seq<int>, entries: seq<seq<Byte>>)
    requires IsText(s) && IsCodes(codes) && IsLearned(entries)
    ensures EncodedUpTo(s, codes, entries, 22, 14, 14, [82, 78])
  {
    EncodesPrefix21(s, codes, entries);
    EncoderExtend(s, codes, entries, 22, 14, 14, [82], 78, [82, 78], 5);
  }

  lemma EncodesPrefix23(s: seq<Byte>, codes: seq<int>, entries: seq<seq<Byte>>)
    requires IsText(s) && IsCodes(codes) && IsLearned(entries)
    ensures EncodedUpTo(s, codes, entries, 23, 15, 15, [79])
  {
    EncodesPrefix22(s, codes, entries);
    LearnedFresh(entries, 14);
    EncoderEmit(s, codes, entries, 23, 14, 14, [82, 78], 79, 261, [79]);
  }

  lemma EncodesPrefix24(s: seq<Byte>, codes: seq<int>, entries: seq<seq<Byte>>)
    requires IsText(s) && IsCodes(codes) && IsLearned(entries)
    ensures EncodedUpTo(s, codes, entries, 24, 15, 15, [79, 84])
  {
    EncodesPrefix23(s, codes, entries);
    EncoderExtend(s, codes, entries, 24, 15, 15, [79], 84, [79, 84], 7);
  }

  /** The encoder turns the text into the codes
      84 79 66 69 79 82 78 79 84 256 258 260 265 259 261 263. */
  lemma EncodesExample(s: seq<Byte>, codes: seq<int>)
    requires IsText(s) && IsCodes(codes)
    ensures Encoder.Compress(s) == codes
  {
    LearnedIsLearned();
    EncodesPrefix24(s, codes, Learned);
    EncoderFlush(s, codes, Learned, 15, 15, [79, 84], 263);
  }

  // The decoder's side.

  /** The decoder's dictionary holds codes 0 .. 255 + n: the seed and the
      first `n` learned strings, entry i under code 256 + i. */
  ghost predicate DecoderKnows(d: map<int, seq<Byte>>, entries: seq<seq<Byte>>, n: nat)
    requires n <= |entries|
  {
    && |d| == 256 + n
    && (forall c :: c in d <==> 0 <= c < 256 + n)
    && (forall c :: 0 <= c < 256 ==> d[c] == [c])
    && (forall i :: 0 <= i < n ==> d[256 + i] == entries[i])
  }

  /** The decoder after the first `k` codes: it has produced the first `m`
      bytes of `s`, the last code stood for `prev`, and it has learned
      k - 1 strings. */
  ghost predicate DecodedUpTo(s: seq<Byte>, codes: seq<int>, entries: seq<seq<Byte>>, k: nat, m: nat,
                              prev: seq<Byte>)
    requires 0 < k <= |codes| && k - 1 <= |entries|
  {
    && m <= |s|
    && Decoder.Run(codes[..k]).Success?
    && Decoder.Run(codes[..k]).value.prev == prev
    && Decoder.Run(codes[..k]).value.text == s[..m]
    && DecoderKnows(Decoder.Run(codes[..k]).value.dict, entries, k - 1)
  }

  lemma DecoderRunAt(codes: seq<int>, k: nat)
    requires 1 < k <= |codes|
    ensures Decoder.Run(codes[..k])
         == match Decoder.Run(codes[..k - 1]) {
              case Failure(e) => Failure(e)
              case Success(st) => Decoder.Step(st, codes[k - 1])
            }
  {
    var p := codes[..k];
    assert p[..k - 1] == codes[..k - 1];
    assert p[k - 1] == codes[k - 1];
  }

  /** The first code is a byte value and stands for itself. */
  lemma DecoderFirst(s: seq<Byte>, codes: seq<int>, entries: seq<seq<Byte>>)
    requires |codes| > 0 && |s| > 0 && 0 <= codes[0] < 256 && s[0] == codes[0]
    ensures DecodedUpTo(s, codes, entries, 1, 1, [s[0]])
  {
    assert codes[..1] == [codes[0]];
    assert s[..1] == [s[0]];
  }

  /** Code k resolves to `str`, which continues the text at position m, and
      the decoder learns the previous string plus the first byte of `str`. */
  lemma DecoderStep(s: seq<Byte>, codes: seq<int>, entries: seq<seq<Byte>>, k: nat, m: nat,
                    prev: seq<Byte>, str: seq<Byte>)
    requires 1 < k <= |codes| && k - 1 <= |entries|
    requires DecodedUpTo(s, codes, entries, k - 1, m, prev)
    requires prev != [] && str != []
    requires 0 <= codes[k - 1] < 256 ==> str == [codes[k - 1]]
    requires 256 <= codes[k - 1] < 255 + k - 1 ==> str == entries[codes[k - 1] - 256]
    requires codes[k - 1] == 255 + k - 1 ==> str == prev + [prev[0]]
    requires 0 <= codes[k - 1] <= 255 + k - 1
    requires Extends(entries[k - 2], prev, str[0])
    requires m + |str| <= |s| && |str| <= 3
    requires s[m] == str[0]
    requires |str| > 1 ==> s[m + 1] == str[1]
    requires |str| > 2 ==> s[m + 2] == str[2]
    ensures DecodedUpTo(s, codes, entries, k, m + |str|, str)
  {
    DecoderRunAt(codes, k);
    var st := Decoder.Run(codes[..k - 1]).value;
    ExtendsIsSnoc(entries[k - 2], prev, str[0]);
    DecoderResolves(st, codes[k - 1], entries, k - 2, str);
    DecoderLearns(st.dict, entries, k - 2);
    TextGrows(s, m, str);
  }

  lemma DecoderResolves(st: Decoder.State, code: int, entries: seq<seq<Byte>>, n: nat, str: seq<Byte>)
    requires n <= |entries| && DecoderKnows(st.dict, entries, n) && st.prev != []
    requires 0 <= code < 256 ==> str == [code]
    requires 256 <= code < 256 + n ==> str == entries[code - 256]
    requires code == 256 + n ==> str == st.prev + [st.prev[0]]
    requires 0 <= code <= 256 + n
    ensures Decoder.Step(st, code).Success?
    ensures Decoder.Step(st, code).value.prev == str
    ensures Decoder.Step(st, code).value.dict == st.dict[|st.dict| := st.prev + [Head(str)]]
    ensures Decoder.Step(st, code).value.text == st.text + str
  {
    if 256 <= code < 256 + n {
      assert st.dict[256 + (code - 256)] == entries[code - 256];
    }
  }

  lemma DecoderLearns(d: map<int, seq<Byte>>, entries: seq<seq<Byte>>, n: nat)
    requires n < |entries| && DecoderKnows(d, entries, n)
    ensures DecoderKnows(d[|d| := entries[n]], entries, n + 1)
  {
  }

  // The decoder on the codes, one code at a time. Lemma k states the
  // string of code k and how much of the text is rebuilt after it.

  lemma DecodesPrefix2(s: seq<Byte>, codes: seq<int>, entries: seq<seq<Byte>>)
    requires IsText(s) && IsCodes(codes) && IsLearned(entries)
    ensures DecodedUpTo(s, codes, entries, 2, 2, [79])
  {
    DecoderFirst(s, codes, entries);
    DecoderStep(s, codes, entries, 2, 1, [84], [79]);
  }

  lemma DecodesPrefix3(s: seq<Byte>, codes: seq<int>, entries: seq<seq<Byte>>)
    requires IsText(s) && IsCodes(codes) && IsLearned(entries)
    ensures DecodedUpTo(s, codes, entries, 3, 3, [66])
  {
    DecodesPrefix2(s, codes, entries);
    DecoderStep(s, codes, entries, 3, 2, [79], [66]);
  }

  lemma DecodesPrefix4(s: seq<Byte>, codes: seq<int>, entries: seq<seq<Byte>>)
    requires IsText(s) && IsCodes(codes) && IsLearned(entries)
    ensures DecodedUpTo(s, codes, entries, 4, 4, [69])
  {
    DecodesPrefix3(s, codes, entries);
    DecoderStep(s, codes, entries, 4, 3, [66], [69]);
  }

  lemma DecodesPrefix5(s: seq<Byte>, codes: seq<int>, entries: seq<seq<Byte>>)
    requires IsText(s) && IsCodes(codes) && IsLearned(entries)
    ensures DecodedUpTo(s, codes, entries, 5, 5, [79])
  {
    DecodesPrefix4(s, codes, entries);
    DecoderStep(s, codes, entries, 5, 4, [69], [79]);
  }

  lemma DecodesPrefix6(s: seq<Byte>, codes: seq<int>, entries: seq<seq<Byte>>)
    requires IsText(s) && IsCodes(codes) && IsLearned(entries)
    ensures DecodedUpTo(s, codes, entries, 6, 6, [82])
  {
    DecodesPrefix5(s, codes, entries);
    DecoderStep(s, codes, entries, 6, 5, [79], [82]);
  }

  lemma DecodesPrefix7(s: seq<Byte>, codes: seq<int>, entries: seq<seq<Byte>>)
    requires IsText(s) && IsCodes(codes) && IsLearned(entries)
    ensures DecodedUpTo(s, codes, entries, 7, 7, [78])
  {
    DecodesPrefix6(s, codes, entries);
    DecoderStep(s, codes, entries, 7, 6, [82], [78]);
  }

  lemma DecodesPrefix8(s: seq<Byte>, codes: seq<int>, entries: seq<seq<Byte>>)
    requires IsText(s) && IsCodes(codes) && IsLearned(entries)
    ensures DecodedUpTo(s, codes, entries, 8, 8, [79])
  {
    DecodesPrefix7(s, codes, entries);
    DecoderStep(s, codes, entries, 8, 7, [78], [79]);
  }

  lemma DecodesPrefix9(s: seq<Byte>, codes: seq<int>, entries: seq<seq<Byte>>)
    requires IsText(s) && IsCodes(codes) && IsLearned(entries)
    ensures DecodedUpTo(s, codes, entries, 9, 9, [84])
  {
    DecodesPrefix8(s, codes, entries);
    DecoderStep(s, codes, entries, 9, 8, [79], [84]);
  }

  lemma DecodesPrefix10(s: seq<Byte>, codes: seq<int>, entries: seq<seq<Byte>>)
    requires IsText(s) && IsCodes(codes) && IsLearned(entries)
    ensures DecodedUpTo(s, codes, entries, 10, 11, [84, 79])
  {
    DecodesPrefix9(s, codes, entries);
    DecoderStep(s, codes, entries, 10, 9, [84], [84, 79]);
  }

  lemma DecodesPrefix11(s: seq<Byte>, codes: seq<int>, entries: seq<seq<Byte>>)
    requires IsText(s) && IsCodes(codes) && IsLearned(entries)
    ensures DecodedUpTo(s, codes, entries, 11, 13, [66, 69])
  {
    DecodesPrefix10(s, codes, entries);
    DecoderStep(s, codes, entries, 11, 11, [84, 79], [66, 69]);
  }

  lemma DecodesPrefix12(s: seq<Byte>, codes: seq<int>, entries: seq<seq<Byte>>)
    requires IsText(s) && IsCodes(codes) && IsLearned(entries)
    ensures DecodedUpTo(s, codes, entries, 12, 15, [79, 82])
  {
    DecodesPrefix11(s, codes, entries);
    DecoderStep(s, codes, entries, 12, 13, [66, 69], [79, 82]);
  }

  lemma DecodesPrefix13(s: seq<Byte>, codes: seq<int>, entries: seq<seq<Byte>>)
    requires IsText(s) && IsCodes(codes) && IsLearned(entries)
    ensures DecodedUpTo(s, codes, entries, 13, 18, [84, 79, 66])
  {
    DecodesPrefix12(s, codes, entries);
    DecoderStep(s, codes, entries, 13, 15, [79, 82], [84, 79, 66]);
  }

  lemma DecodesPrefix14(s: seq<Byte>, codes: seq<int>, entries: seq<seq<Byte>>)
    requires IsText(s) && IsCodes(codes) && IsLearned(entries)
    ensures DecodedUpTo(s, codes, entries, 14, 20, [69, 79])
  {
    DecodesPrefix13(s, codes, entries);
    DecoderStep(s, codes, entries, 14, 18, [84, 79, 66], [69, 79]);
  }

  lemma DecodesPrefix15(s: seq<Byte>, codes: seq<int>, entries: seq<seq<Byte>>)
    requires IsText(s) && IsCodes(codes) && IsLearned(entries)
    ensures DecodedUpTo(s, codes, entries, 15, 22, [82, 78])
  {
    DecodesPrefix14(s, codes, entries);
    DecoderStep(s, codes, entries, 15, 20, [69, 79], [82, 78]);
  }

  lemma DecodesPrefix16(s: seq<Byte>, codes: seq<int>, entries: seq<seq<Byte>>)
    requires IsText(s) && IsCodes(codes) && IsLearned(entries)
    ensures DecodedUpTo(s, codes, entries, 16, 24, [79, 84])
  {
    DecodesPrefix15(s, codes, entries);
    DecoderStep(s, codes, entries, 16, 22, [82, 78], [79, 84]);
  }

  /** The decoder turns the codes back into the text. */
  lemma DecodesExample(s: seq<Byte>, codes: seq<int>)
    requires IsText(s) && IsCodes(codes)
    ensures Decoder.Decompress(codes) == Success(s)
  {
    LearnedIsLearned();
    DecodesPrefix16(s, codes, Learned);
    assert codes[..|codes|] == codes;
    assert s[..|s|] == s;
  }
}
