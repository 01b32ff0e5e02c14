/** The artifact codec (`save_compressed_data`, `read_compressed_data`): a
    chunk's codes written as raw 32-bit integers, four bytes each, with no
    header, length or checksum. The source copies the integer's bytes in the
    machine's native order; this model fixes that order to little-endian two's
    complement, the layout of the usual targets. */
module Artifact {
  import opened Base

  /** The bit pattern of a 32-bit code read as an unsigned number. */
  function Unsigned(x: Int32): (u: nat)
    ensures u < 0x1_0000_0000
    ensures u % 0x1_0000_0000 == x % 0x1_0000_0000
  {
    if x < 0 then x + 0x1_0000_0000 else x
  }

  /** The four bytes of one code, least significant first. */
  function CodeBytes(x: Int32): (b: seq<Byte>)
    ensures |b| == 4
  {
    var u0 := Unsigned(x);
    var u1 := u0 / 256;
    var u2 := u1 / 256;
    [u0 % 256, u1 % 256, u2 % 256, u2 / 256]
  }

  /** The code whose bytes are `b`, least significant first. */
  function CodeOf(b: seq<Byte>): Int32
    requires |b| == 4
  {
    var u: int := b[0] as int + 256 * (b[1] as int + 256 * (b[2] as int + 256 * b[3] as int));
    if u < 0x8000_0000 then u else u - 0x1_0000_0000
  }

  /** Reading back the bytes of a code gives the code. */
  lemma CodeOfCodeBytes(x: Int32)
    ensures CodeOf(CodeBytes(x)) == x
  {
    var u0 := Unsigned(x);
    var u1 := u0 / 256;
    var u2 := u1 / 256;
    assert u0 == u0 % 256 + 256 * (u1 % 256 + 256 * (u2 % 256 + 256 * (u2 / 256)));
  }

  /** Every 4-byte group is the encoding of exactly one code. */
  lemma CodeBytesCodeOf(b: seq<Byte>)
    requires |b| == 4
    ensures CodeBytes(CodeOf(b)) == b
  {
    var u: int := b[0] as int + 256 * (b[1] as int + 256 * (b[2] as int + 256 * b[3] as int));
    assert Unsigned(CodeOf(b)) == u;
    assert u / 256 == b[1] as int + 256 * (b[2] as int + 256 * b[3] as int);
    assert u / 256 / 256 == b[2] as int + 256 * b[3] as int;
  }

  /** `save_compressed_data`: the codes' bytes, one code after another. */
  function Save(codes: seq<Int32>): (bytes: seq<Byte>)
    ensures |bytes| == 4 * |codes|
  {
    if |codes| == 0 then [] else Save(codes[..|codes| - 1]) + CodeBytes(codes[|codes| - 1])
  }

  /** Group `i` of a saved artifact holds the bytes of code `i`. */
  lemma {:induction false} SaveGroup(codes: seq<Int32>, i: int)
    requires 0 <= i < |codes|
    ensures Save(codes)[4 * i .. 4 * i + 4] == CodeBytes(codes[i])
  {
    if i < |codes| - 1 {
      var init := codes[..|codes| - 1];
      SaveGroup(init, i);
      assert Save(codes)[4 * i .. 4 * i + 4] == Save(init)[4 * i .. 4 * i + 4];
    }
  }

  /** `read_compressed_data`: read four bytes at a time while four bytes
      remain; a trailing group of fewer than four bytes is dropped. */
  function Read(bytes: seq<Byte>): (codes: seq<Int32>)
    ensures |codes| == |bytes| / 4
  {
    if |bytes| < 4 then [] else [CodeOf(bytes[..4])] + Read(bytes[4..])
  }

  /** Code `i` read from an artifact is the code of its group `i`. */
  lemma {:induction false} ReadGroup(bytes: seq<Byte>, i: int)
    requires 0 <= i < |bytes| / 4
    ensures Read(bytes)[i] == CodeOf(bytes[4 * i .. 4 * i + 4])
  {
    if i > 0 {
      ReadGroup(bytes[4..], i - 1);
      assert bytes[4..][4 * (i - 1) .. 4 * (i - 1) + 4] == bytes[4 * i .. 4 * i + 4];
    }
  }

  /** Writing codes and reading the artifact back gives the same codes. */
  lemma ReadSave(codes: seq<Int32>)
    ensures Read(Save(codes)) == codes
  {
    var back := Read(Save(codes));
    forall i | 0 <= i < |codes| ensures back[i] == codes[i] {
      ReadGroup(Save(codes), i);
      SaveGroup(codes, i);
      CodeOfCodeBytes(codes[i]);
    }
  }

  /** Reading an artifact and writing the codes again reproduces all its whole
      4-byte groups: exactly the trailing partial group is lost. */
  lemma SaveRead(bytes: seq<Byte>)
    ensures Save(Read(bytes)) == bytes[..|bytes| - |bytes| % 4]
  {
    var again := Save(Read(bytes));
    var whole := bytes[..|bytes| - |bytes| % 4];
    assert |again| == |whole|;
    forall j | 0 <= j < |again| ensures again[j] == whole[j] {
      var i := j / 4;
      GroupSurvives(bytes, i);
      ByteOfGroup(again, i, j);
      ByteOfGroup(bytes, i, j);
    }
  }

  lemma GroupSurvives(bytes: seq<Byte>, i: int)
    requires 0 <= i < |bytes| / 4
    ensures Save(Read(bytes))[4 * i .. 4 * i + 4] == bytes[4 * i .. 4 * i + 4]
  {
    ReadGroup(bytes, i);
    SaveGroup(Read(bytes), i);
    CodeBytesCodeOf(bytes[4 * i .. 4 * i + 4]);
  }

  lemma ByteOfGroup(s: seq<Byte>, i: int, j: int)
    requires 0 <= 4 * i <= j < 4 * i + 4 <= |s|
    ensures s[j] == s[4 * i .. 4 * i + 4][j - 4 * i]
  {
  }

  /** A trailing partial group makes no difference to what is read. */
  lemma {:induction false} ReadDropsPartialGroup(bytes: seq<Byte>)
    ensures Read(bytes) == Read(bytes[..|bytes| - |bytes| % 4])
  {
    var whole := bytes[..|bytes| - |bytes| % 4];
    if |bytes| >= 4 {
      var rest := bytes[4..];
      ReadDropsPartialGroup(rest);
      assert |rest| % 4 == |bytes| % 4;
      assert whole[..4] == bytes[..4];
      assert whole[4..] == rest[..|rest| - |rest| % 4];
    }
  }
}
