/** Base 64 as in section 4 of RFC 4648: `Data.base64EncodedString()` and
    `Data(base64Encoded:)` without options. Every three bytes become four
    symbols of the 64-character alphabet; a final group of one or two bytes is
    padded with `=` to four symbols. The decoder accepts only whole groups of
    four alphabet symbols, with padding allowed in the last group alone. */
module Base64 {
  import opened Common

  /** The alphabet of RFC 4648 section 4, Table 1. */
  function Symbol(i: int): char
    requires 0 <= i < 64
  {
    if i < 26 then ('A' as int + i) as char
    else if i < 52 then ('a' as int + (i - 26)) as char
    else if i < 62 then ('0' as int + (i - 52)) as char
    else if i == 62 then '+'
    else '/'
  }

  /** The position of a character in the alphabet, if it is in it. */
  function Value(c: char): (r: Option<int>)
    ensures r.Some? ==> 0 <= r.value < 64
  {
    if 'A' <= c <= 'Z' then Some(c as int - 'A' as int)
    else if 'a' <= c <= 'z' then Some(c as int - 'a' as int + 26)
    else if '0' <= c <= '9' then Some(c as int - '0' as int + 52)
    else if c == '+' then Some(62)
    else if c == '/' then Some(63)
    else None
  }

  /** The alphabet lookup is a bijection between 0..63 and the 64 symbols;
      the pad character is not among them. */
  lemma ValueSymbol(i: int)
    requires 0 <= i < 64
    ensures Value(Symbol(i)) == Some(i)
    ensures Symbol(i) != '='
  {
  }

  /** Four symbols for three bytes. */
  function EncodeGroup(b0: Byte, b1: Byte, b2: Byte): string {
    [Symbol(b0 / 4), Symbol((b0 % 4) * 16 + b1 / 16), Symbol((b1 % 16) * 4 + b2 / 64), Symbol(b2 % 64)]
  }

  /** `data.base64EncodedString()`. */
  function Encode(b: Bytes): (r: string)
    ensures |r| == 4 * ((|b| + 2) / 3)
    decreases |b|
  {
    if |b| == 0 then ""
    else if |b| == 1 then [Symbol(b[0] / 4), Symbol((b[0] % 4) * 16), '=', '=']
    else if |b| == 2 then [Symbol(b[0] / 4), Symbol((b[0] % 4) * 16 + b[1] / 16), Symbol((b[1] % 16) * 4), '=']
    else EncodeGroup(b[0], b[1], b[2]) + Encode(b[3..])
  }

  /** Decodes one group of four symbols. Padding is accepted only when the
      group is the last one: `xx==` carries one byte and `xxx=` two. */
  function DecodeGroup(q: string, last: bool): (r: Option<Bytes>)
    requires |q| == 4
    ensures r.Some? ==> 1 <= |r.value| <= 3
  {
    var v0, v1, v2, v3 := Value(q[0]), Value(q[1]), Value(q[2]), Value(q[3]);
    if v0.None? || v1.None? then None
    else if v2.Some? && v3.Some? then
      Some([v0.value * 4 + v1.value / 16,
            (v1.value % 16) * 16 + v2.value / 4,
            (v2.value % 4) * 64 + v3.value])
    else if last && v2.Some? && q[3] == '=' then
      Some([v0.value * 4 + v1.value / 16, (v1.value % 16) * 16 + v2.value / 4])
    else if last && q[2] == '=' && q[3] == '=' then
      Some([v0.value * 4 + v1.value / 16])
    else None
  }

  /** `Data(base64Encoded: s)`: the bytes, or `None` for text that is not
      Base 64. */
  function Decode(s: string): (r: Option<Bytes>)
    ensures r.Some? ==> |s| % 4 == 0
    decreases |s|
  {
    if |s| == 0 then Some([])
    else if |s| < 4 then None
    else match DecodeGroup(s[..4], |s| == 4)
      case None => None
      case Some(head) =>
        if |s| == 4 then Some(head)
        else match Decode(s[4..])
          case None => None
          case Some(tail) => Some(head + tail)
  }

  /** A full group decodes to the three bytes it was made from. */
  lemma DecodeEncodeGroup(b0: Byte, b1: Byte, b2: Byte, last: bool)
    ensures DecodeGroup(EncodeGroup(b0, b1, b2), last) == Some([b0, b1, b2])
  {
    var q := EncodeGroup(b0, b1, b2);
    ValueSymbol(b0 / 4);
    ValueSymbol((b0 % 4) * 16 + b1 / 16);
    ValueSymbol((b1 % 16) * 4 + b2 / 64);
    ValueSymbol(b2 % 64);
    assert ((b0 % 4) * 16 + b1 / 16) / 16 == b0 % 4;
    assert ((b0 % 4) * 16 + b1 / 16) % 16 == b1 / 16;
    assert ((b1 % 16) * 4 + b2 / 64) / 4 == b1 % 16;
    assert ((b1 % 16) * 4 + b2 / 64) % 4 == b2 / 64;
  }

  /** A final group padded with `==` decodes to the one byte it was made from. */
  lemma DecodeEncodeOne(b0: Byte)
    ensures Decode(Encode([b0])) == Some([b0])
  {
    assert Encode([b0])[..4] == Encode([b0]);
    ValueSymbol(b0 / 4);
    ValueSymbol((b0 % 4) * 16);
    assert ((b0 % 4) * 16) / 16 == b0 % 4;
  }

  /** A final group padded with `=` decodes to the two bytes it was made from. */
  lemma DecodeEncodeTwo(b0: Byte, b1: Byte)
    ensures Decode(Encode([b0, b1])) == Some([b0, b1])
  {
    assert Encode([b0, b1])[..4] == Encode([b0, b1]);
    var v1 := (b0 % 4) * 16 + b1 / 16;
    ValueSymbol(b0 / 4);
    ValueSymbol(v1);
    ValueSymbol((b1 % 16) * 4);
    assert v1 / 16 == b0 % 4 && v1 % 16 == b1 / 16;
    assert ((b1 % 16) * 4) / 4 == b1 % 16;
  }

  /** Decoding undoes encoding: the stored `base64Data` of a clip gives back
      the bytes that were saved. */
  lemma {:induction false} DecodeEncode(b: Bytes)
    ensures Decode(Encode(b)) == Some(b)
    decreases |b|
  {
    if |b| < 3 {
      DecodeEncodeShort(b);
    } else {
      DecodeEncode(b[3..]);
      DecodeEncodeStep(b);
    }
  }

  /** Fewer than three bytes: no group, or one padded group. */
  lemma DecodeEncodeShort(b: Bytes)
    requires |b| < 3
    ensures Decode(Encode(b)) == Some(b)
  {
    if |b| == 1 {
      assert [b[0]] == b;
      DecodeEncodeOne(b[0]);
    } else if |b| == 2 {
      assert [b[0], b[1]] == b;
      DecodeEncodeTwo(b[0], b[1]);
    }
  }

  /** A full group in front of bytes that round-trip. */
  lemma DecodeEncodeStep(b: Bytes)
    requires |b| >= 3 && Decode(Encode(b[3..])) == Some(b[3..])
    ensures Decode(Encode(b)) == Some(b)
  {
    var head := EncodeGroup(b[0], b[1], b[2]);
    var tail := Encode(b[3..]);
    assert Encode(b) == head + tail;
    DecodeEncodeGroup(b[0], b[1], b[2], |tail| == 0);
    DecodeAppend(head, tail, [b[0], b[1], b[2]], b[3..]);
    SplitGroup(b);
  }

  lemma SplitGroup(b: Bytes)
    requires |b| >= 3
    ensures [b[0], b[1], b[2]] + b[3..] == b
  {
  }

  /** A group followed by further groups decodes to the group's bytes
      followed by theirs. */
  lemma DecodeAppend(head: string, tail: string, hb: Bytes, tb: Bytes)
    requires |head| == 4 && DecodeGroup(head, |tail| == 0) == Some(hb)
    requires Decode(tail) == Some(tb)
    ensures Decode(head + tail) == Some(hb + tb)
  {
    var s := head + tail;
    assert s[..4] == head;
    if |tail| == 0 {
      assert hb + tb == hb;
    } else {
      assert s[4..] == tail;
    }
  }


  /** Text containing a character outside the alphabet and the pad is never
      accepted. */
  lemma {:induction false} DecodeRejectsForeign(s: string, i: int)
    requires 0 <= i < |s| && Value(s[i]).None? && s[i] != '='
    ensures Decode(s).None?
    decreases |s|
  {
    if |s| >= 4 && i >= 4 {
      DecodeRejectsForeign(s[4..], i - 4);
    }
  }
}
