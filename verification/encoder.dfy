/** The LZW encoder of one chunk (`compress`): a greedy prefix match against a
    string-to-code dictionary that learns one new string per emitted code. */
module Encoder {
  import opened Base
  import opened Dictionary

  /** The encoder between two input bytes: the dictionary, the prefix
      matched so far (`current`) and the codes emitted so far. */
  datatype State = State(dict: map<seq<Byte>, int>, current: seq<Byte>, out: seq<int>)

  /** What holds of the encoder after every byte. The dictionary keeps its
      seed, its codes are exactly 0 .. |dict|-1 with no code used twice, it
      grew by one entry per emitted code, and the prefix is always a known
      string (empty only before the first byte). */
  ghost predicate Valid(st: State)
  {
    && KeepsSeed(st.dict)
    && |st.dict| == 256 + |st.out|
    && CodesBelowSize(st.dict)
    && Injective(st.dict)
    && (st.current != [] ==> st.current in st.dict)
    && (st.out != [] ==> st.current != [])
    && (st.out == [] ==> st.dict == SeedCodes())
    && WellFormed(st.out)
  }

  /** Every single-byte string is present under its own byte value. */
  ghost predicate KeepsSeed(d: map<seq<Byte>, int>)
  {
    forall b: Byte :: [b] in d && d[[b]] == b
  }

  /** The codes in use are among 0 .. |d|-1. */
  ghost predicate CodesBelowSize(d: map<seq<Byte>, int>)
  {
    forall w :: w in d ==> 0 <= d[w] < |d|
  }

  /** No code names two strings. */
  ghost predicate Injective(d: map<seq<Byte>, int>)
  {
    forall w1, w2 :: w1 in d && w2 in d && d[w1] == d[w2] ==> w1 == w2
  }

  lemma SeedCodeUnique(w1: seq<Byte>, w2: seq<Byte>)
    requires w1 in SeedCodes() && w2 in SeedCodes() && SeedCodes()[w1] == SeedCodes()[w2]
    ensures w1 == w2
  {
  }

  /** The encoder before the first byte: seeded dictionary, empty prefix. */
  function Init(): (st: State)
    ensures Valid(st)
    ensures st.current == [] && st.out == []
  {
    assert Injective(SeedCodes()) by {
      forall w1, w2 | w1 in SeedCodes() && w2 in SeedCodes() && SeedCodes()[w1] == SeedCodes()[w2]
        ensures w1 == w2
      {
        SeedCodeUnique(w1, w2);
      }
    }
    State(SeedCodes(), [], [])
  }

  /** One iteration of the loop over the chunk: extend the prefix by `c` if
      the longer string is known; otherwise emit the prefix's code, learn
      prefix+`c` under the next free code and restart the prefix at `c`. */
  function Step(st: State, c: Byte): (r: State)
    requires Valid(st)
    ensures Valid(r)
    ensures r.current == st.current + [c] || r.current == [c]
    ensures forall w :: w in st.dict ==> w in r.dict && r.dict[w] == st.dict[w]
    ensures |r.out| == |st.out| || |r.out| == |st.out| + 1
    ensures r.out[..|st.out|] == st.out
    ensures |r.out| == |st.out| + 1 ==>
              && st.current != []
              && st.current + [c] !in st.dict
              && st.current + [c] in r.dict
              && r.dict[st.current + [c]] == |st.dict|
              && r.out[|st.out|] == st.dict[st.current]
    ensures st.current + [c] in st.dict <==> r == st.(current := st.current + [c])
    ensures st.current + [c] !in st.dict ==> |r.out| == |st.out| + 1 && r.current == [c]
  {
    var next := st.current + [c];
    assert [c] in st.dict;
    assert st.current == [] ==> next == [c];
    if next in st.dict then
      st.(current := next)
    else
      LearnKeepsInvariant(st.dict, next);
      State(st.dict[next := |st.dict|], [c], st.out + [st.dict[st.current]])
  }

  /** Learning a new string of two or more bytes under code |d| keeps the
      seed, the code range and injectivity. */
  lemma LearnKeepsInvariant(d: map<seq<Byte>, int>, w: seq<Byte>)
    requires KeepsSeed(d) && CodesBelowSize(d) && Injective(d)
    requires w !in d
    ensures KeepsSeed(d[w := |d|]) && CodesBelowSize(d[w := |d|]) && Injective(d[w := |d|])
  {
    var d' := d[w := |d|];
    forall b: Byte ensures [b] in d' && d'[[b]] == b {
      assert [b] in d;
    }
    forall w1, w2 | w1 in d' && w2 in d' && d'[w1] == d'[w2] ensures w1 == w2 {
      if w1 != w && w2 != w {
        assert d[w1] == d[w2];
      }
    }
  }

  /** The encoder after consuming all of `s`, before the final flush. Every
      code emitted so far stands for at least one byte that is no longer
      pending, so codes and pending bytes together never outnumber the input. */
  function Run(s: seq<Byte>): (st: State)
    ensures Valid(st)
    ensures st.current == [] <==> s == []
    ensures |st.out| + |st.current| <= |s|
  {
    if s == [] then Init() else Step(Run(s[..|s| - 1]), s[|s| - 1])
  }

  /** `compress`: run the loop over the chunk, then flush the last prefix. */
  function Compress(s: seq<Byte>): (codes: seq<int>)
    ensures |codes| == 0 <==> |s| == 0
    ensures |codes| <= |s|
    ensures WellFormed(codes)
  {
    var st := Run(s);
    if st.current != [] then st.out + [st.dict[st.current]] else st.out
  }

  /** Every code the loop has emitted names a string the dictionary still
      holds: entries are never removed or renumbered. */
  lemma {:induction false} EmittedCodesKnown(s: seq<Byte>)
    ensures forall i :: 0 <= i < |Run(s).out| ==> Run(s).out[i] in Run(s).dict.Values
  {
    if s != [] {
      var init := s[..|s| - 1];
      EmittedCodesKnown(init);
      StepKeepsCodesKnown(Run(init), s[|s| - 1]);
    }
  }

  /** One step keeps every emitted code a value of the dictionary. */
  lemma StepKeepsCodesKnown(st: State, c: Byte)
    requires Valid(st)
    requires forall i :: 0 <= i < |st.out| ==> st.out[i] in st.dict.Values
    ensures forall i :: 0 <= i < |Step(st, c).out| ==> Step(st, c).out[i] in Step(st, c).dict.Values
  {
    var r := Step(st, c);
    forall i | 0 <= i < |r.out| ensures r.out[i] in r.dict.Values {
      var w: seq<Byte>;
      if i < |st.out| {
        assert r.out[i] == r.out[..|st.out|][i];
        w :| w in st.dict && st.dict[w] == st.out[i];
      } else {
        w := st.current;
      }
      assert w in r.dict && r.dict[w] == r.out[i];
    }
  }

  /** The final flush: a non-empty chunk's codes are the loop's codes and
      then exactly one more, the code of the pending prefix. */
  lemma CompressFlushesOnce(s: seq<Byte>)
    requires s != []
    ensures |Compress(s)| == |Run(s).out| + 1
    ensures Compress(s)[..|Run(s).out|] == Run(s).out
    ensures Run(s).current in Run(s).dict && Compress(s)[|Run(s).out|] == Run(s).dict[Run(s).current]
  {
  }
}
