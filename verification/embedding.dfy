/** The embedding column: each `Float` of the vector stored as its four bytes,
    least significant first, with no length prefix. A float is modelled by
    its 32-bit pattern, so no floating-point arithmetic is involved: writing
    copies the array's memory (`Data(buffer:)`), reading rebinds the bytes as
    floats (`bindMemory(to: Float.self)`), which keeps whole words only. */
module Embedding {
  import opened Common

  /** The four little-endian bytes of one word. */
  function WordBytes(w: Word32): (r: Bytes)
    ensures |r| == 4
  {
    [w % 256, (w / 256) % 256, (w / 65536) % 256, w / 16777216]
  }

  /** The word held by four little-endian bytes. */
  function BytesWord(b0: Byte, b1: Byte, b2: Byte, b3: Byte): Word32 {
    b0 + 256 * b1 + 65536 * b2 + 16777216 * b3
  }

  /** Writing: the embedding column bytes for a vector. */
  function Encode(v: seq<Word32>): Bytes
    decreases |v|
  {
    if |v| == 0 then [] else WordBytes(v[0]) + Encode(v[1..])
  }

  /** Reading: the vector held by the embedding column; trailing bytes that
      do not fill a whole word are ignored. */
  function Decode(b: Bytes): seq<Word32>
    decreases |b|
  {
    if |b| < 4 then [] else [BytesWord(b[0], b[1], b[2], b[3])] + Decode(b[4..])
  }

  /** n words take 4n bytes. */
  lemma {:induction false} EncodeLength(v: seq<Word32>)
    ensures |Encode(v)| == 4 * |v|
    decreases |v|
  {
    if |v| > 0 {
      EncodeLength(v[1..]);
    }
  }

  /** Reading yields as many words as whole four-byte groups. */
  lemma {:induction false} DecodeLength(b: Bytes)
    ensures |Decode(b)| == |b| / 4
    decreases |b|
  {
    if |b| >= 4 {
      DecodeLength(b[4..]);
    }
  }

  /** A partial trailing group is dropped: only the leading whole words count. */
  lemma {:induction false} DecodeIgnoresTail(b: Bytes)
    ensures Decode(b) == Decode(b[..|b| / 4 * 4])
    decreases |b|
  {
    if |b| >= 4 {
      var t := b[..|b| / 4 * 4];
      assert t[..4] == b[..4];
      assert t[4..] == b[4..][..|b[4..]| / 4 * 4];
      DecodeIgnoresTail(b[4..]);
    }
  }

  lemma WordRoundTrip(w: Word32)
    ensures var b := WordBytes(w); BytesWord(b[0], b[1], b[2], b[3]) == w
  {
    var q1 := w / 256;
    var q2 := q1 / 256;
    assert w == w % 256 + 256 * q1;
    assert q1 == q1 % 256 + 256 * q2;
    assert q2 == q2 % 256 + 256 * (q2 / 256);
    assert w / 65536 == q2;
    assert w / 16777216 == q2 / 256;
  }

  /** Reading back what was written gives the original vector. */
  lemma {:induction false} DecodeEncode(v: seq<Word32>)
    ensures Decode(Encode(v)) == v
    decreases |v|
  {
    if |v| > 0 {
      var b := Encode(v);
      EncodeLength(v[1..]);
      WordRoundTrip(v[0]);
      assert b[4..] == Encode(v[1..]);
      DecodeEncode(v[1..]);
      assert [v[0]] + v[1..] == v;
    }
  }
}
