/** The chunk-scoped LZW dictionary: its 256-entry seed in both directions,
    and the shape of a code stream that a dictionary growing one entry per
    code can follow. */
module Dictionary {
  import opened Base

  /** The encoder's dictionary after the first `n` rounds of its seeding
      loop: the single-byte strings below `n`, each under its byte value. */
  function SeedCodesBelow(n: nat): (d: map<seq<Byte>, int>)
    requires n <= 256
  {
    if n == 0 then map[] else SeedCodesBelow(n - 1)[[n - 1] := n - 1]
  }

  lemma {:induction false} SeedCodesBelowShape(n: nat)
    requires n <= 256
    ensures |SeedCodesBelow(n)| == n
    ensures forall w :: w in SeedCodesBelow(n) ==> |w| == 1 && w[0] < n && SeedCodesBelow(n)[w] == w[0]
    ensures forall k :: 0 <= k < n ==> [k] in SeedCodesBelow(n)
  {
    if n > 0 {
      SeedCodesBelowShape(n - 1);
      assert [n - 1] !in SeedCodesBelow(n - 1);
    }
  }

  /** The single-byte strings below `n`. */
  function SingleBytes(n: nat): set<seq<Byte>>
    requires n <= 256
  {
    set k: Byte | k < n :: [k]
  }

  /** The seeding loop after `n` rounds holds exactly the single-byte
      strings below `n`, so there are `n` of them. */
  lemma SingleBytesShape(n: nat)
    requires n <= 256
    ensures SingleBytes(n) == SeedCodesBelow(n).Keys
    ensures |SingleBytes(n)| == n
    ensures forall w :: w in SingleBytes(n) ==> |w| == 1 && w[0] < n
    ensures forall k :: 0 <= k < n ==> [k] in SingleBytes(n)
  {
    SeedCodesBelowShape(n);
    var loop := SeedCodesBelow(n);
    var strings := SingleBytes(n);
    forall w | w in loop ensures w in strings {
      assert w == [w[0]];
    }
    forall w | w in strings ensures w in loop && |w| == 1 && w[0] < n {
      var k: Byte :| k < n && w == [k];
    }
    assert loop.Keys == strings;
    assert |loop| == |loop.Keys|;
  }

  /** After `n` rounds the seeding loop maps every single-byte string below
      `n`, and nothing else, to its byte value. */
  lemma SeedLoop(n: nat)
    requires n <= 256
    ensures SeedCodesBelow(n) == map w | w in SingleBytes(n) :: w[0]
  {
    SeedCodesBelowShape(n);
    SingleBytesShape(n);
  }

  /** Encode direction, as seeded by the loop at the top of `compress`: every
      single-byte string maps to its byte value, and nothing else is present. */
  function SeedCodes(): (d: map<seq<Byte>, int>)
    ensures |d| == 256
    ensures forall w :: w in d ==> |w| == 1 && d[w] == w[0]
    ensures forall b: Byte :: [b] in d
  {
    SingleBytesShape(256);
    var d := map w | w in SingleBytes(256) :: w[0];
    assert d.Keys == SingleBytes(256);
    d
  }

  /** The decoder's strings for the codes below `n`. */
  function SeedStringsBelow(n: nat): (d: map<int, seq<Byte>>)
    requires n <= 256
  {
    map k | 0 <= k < n :: [k]
  }

  lemma {:induction false} SeedStringsBelowSize(n: nat)
    requires n <= 256
    ensures |SeedStringsBelow(n)| == n
  {
    if n > 0 {
      SeedStringsBelowSize(n - 1);
      assert SeedStringsBelow(n) == SeedStringsBelow(n - 1)[n - 1 := [n - 1]];
    } else {
      assert SeedStringsBelow(n) == map[];
    }
  }

  /** Decode direction, as seeded by the loop at the top of `decompress`:
      codes 0..255 map to their single-byte strings. */
  function SeedStrings(): (d: map<int, seq<Byte>>)
    ensures |d| == 256
    ensures forall k :: k in d ==> 0 <= k < 256 && d[k] == [k]
    ensures forall k :: 0 <= k < 256 ==> k in d
  {
    SeedStringsBelowSize(256);
    SeedStringsBelow(256)
  }

  /** A code stream in which the code at position `i` is one the dictionary
      can know at that point: a seed code, or one of the `i` codes added
      since (the last of which the decoder resolves by the KwKwK rule). */
  ghost predicate WellFormed(codes: seq<int>)
  {
    forall i :: 0 <= i < |codes| ==> 0 <= codes[i] < 256 + i
  }
}
