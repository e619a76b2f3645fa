/** UTF-8 as used by `String(data:encoding: .utf8)` and `Data(string.utf8)`:
    the encoding of Unicode scalar values as one to four bytes, and the
    strict decoder that refuses overlong forms, surrogates, code points above
    U+10FFFF and truncated sequences (RFC 3629 section 4). A leading
    byte-order mark is not skipped: it decodes to U+FEFF like any other
    scalar value. */
module Utf8 {
  import opened Common

  predicate IsContinuation(b: Byte) {
    0x80 <= b < 0xC0
  }

  /** The bytes of one scalar value. */
  function EncodeChar(c: char): (r: Bytes)
    ensures 1 <= |r| <= 4
  {
    var n := c as int;
    if n < 0x80 then [n]
    else if n < 0x800 then [0xC0 + n / 64, 0x80 + n % 64]
    else if n < 0x10000 then [0xE0 + n / 4096, 0x80 + (n / 64) % 64, 0x80 + n % 64]
    else [0xF0 + n / 0x40000, 0x80 + (n / 4096) % 64, 0x80 + (n / 64) % 64, 0x80 + n % 64]
  }

  /** The UTF-8 bytes of a string. */
  function Encode(s: string): Bytes
    decreases |s|
  {
    if |s| == 0 then [] else EncodeChar(s[0]) + Encode(s[1..])
  }

  /** The smallest second byte allowed after a three-byte lead. */
  function Lo3(b0: Byte): Byte {
    if b0 == 0xE0 then 0xA0 else 0x80
  }

  /** The largest second byte allowed after a three-byte lead. */
  function Hi3(b0: Byte): Byte {
    if b0 == 0xED then 0x9F else 0xBF
  }

  /** The smallest second byte allowed after a four-byte lead. */
  function Lo4(b0: Byte): Byte {
    if b0 == 0xF0 then 0x90 else 0x80
  }

  /** The largest second byte allowed after a four-byte lead. */
  function Hi4(b0: Byte): Byte {
    if b0 == 0xF4 then 0x8F else 0xBF
  }

  /** Decodes the scalar value at the start of `b`, with the number of bytes
      it occupies, or `None` when the bytes there are not well-formed. */
  function DecodeChar(b: Bytes): (r: Option<(char, nat)>)
    requires |b| > 0
    ensures r.Some? ==> 1 <= r.value.1 <= |b| && r.value.1 <= 4
  {
    var b0: int := b[0];
    if b0 < 0x80 then
      Some((b0 as char, 1))
    else if 0xC2 <= b0 <= 0xDF then
      if |b| >= 2 && IsContinuation(b[1]) then
        Some((((b0 - 0xC0) * 64 + (b[1] as int - 0x80)) as char, 2))
      else None
    else if 0xE0 <= b0 <= 0xEF then
      if |b| >= 3 && Lo3(b0) <= b[1] <= Hi3(b0) && IsContinuation(b[2]) then
        Some((((b0 - 0xE0) * 4096 + (b[1] as int - 0x80) * 64 + (b[2] as int - 0x80)) as char, 3))
      else None
    else if 0xF0 <= b0 <= 0xF4 then
      if |b| >= 4 && Lo4(b0) <= b[1] <= Hi4(b0) && IsContinuation(b[2]) && IsContinuation(b[3]) then
        Some((((b0 - 0xF0) * 0x40000 + (b[1] as int - 0x80) * 4096 + (b[2] as int - 0x80) * 64 + (b[3] as int - 0x80)) as char, 4))
      else None
    else None
  }

  /** The text the bytes spell, or `None` when they are not well-formed UTF-8. */
  function Decode(b: Bytes): Option<string>
    decreases |b|
  {
    if |b| == 0 then Some("")
    else match DecodeChar(b)
      case None => None
      case Some((c, n)) =>
        match Decode(b[n..])
        case None => None
        case Some(s) => Some([c] + s)
  }

  /** `String(data: b, encoding: .utf8) ?? ""`: undecodable bytes read as the empty text. */
  function TextOrEmpty(b: Bytes): string {
    match Decode(b)
    case Some(s) => s
    case None => ""
  }

  /** Splitting a number into base-64 digits and back. */
  lemma DivMod64(q: int, r: int)
    requires 0 <= r < 64
    ensures (q * 64 + r) / 64 == q && (q * 64 + r) % 64 == r
  {
  }

  /** The base-64 digits of a three-byte scalar value satisfy the decoder's
      range checks and recombine to the value. */
  lemma Digits3(n: int)
    requires 0x800 <= n < 0x10000 && !(0xD800 <= n < 0xE000)
    ensures var d0, d1, d2 := n / 4096, (n / 64) % 64, n % 64;
      && n == d0 * 4096 + d1 * 64 + d2
      && Lo3(0xE0 + d0) <= 0x80 + d1 <= Hi3(0xE0 + d0)
  {
  }

  /** The base-64 digits of a four-byte scalar value satisfy the decoder's
      range checks and recombine to the value. */
  lemma Digits4(n: int)
    requires 0x10000 <= n < 0x110000
    ensures var d0, d1, d2, d3 := n / 0x40000, (n / 4096) % 64, (n / 64) % 64, n % 64;
      && n == d0 * 0x40000 + d1 * 4096 + d2 * 64 + d3
      && 0 <= d0 <= 4
      && Lo4(0xF0 + d0) <= 0x80 + d1 <= Hi4(0xF0 + d0)
  {
  }

  /** A two-byte scalar value decodes back to itself, whatever follows it. */
  lemma DecodeEncodeTwo(c: char, rest: Bytes)
    requires 0x80 <= c as int < 0x800
    ensures DecodeChar(EncodeChar(c) + rest) == Some((c, 2))
  {
    var n := c as int;
    var b := EncodeChar(c) + rest;
    assert b[0] == 0xC0 + n / 64 && b[1] == 0x80 + n % 64;
  }

  /** A three-byte scalar value decodes back to itself, whatever follows it. */
  lemma DecodeEncodeThree(c: char, rest: Bytes)
    requires 0x800 <= c as int < 0x10000
    ensures DecodeChar(EncodeChar(c) + rest) == Some((c, 3))
  {
    var n := c as int;
    var b := EncodeChar(c) + rest;
    Digits3(n);
    assert b[0] == 0xE0 + n / 4096 && b[1] == 0x80 + (n / 64) % 64 && b[2] == 0x80 + n % 64;
  }

  /** A four-byte scalar value decodes back to itself, whatever follows it. */
  lemma DecodeEncodeFour(c: char, rest: Bytes)
    requires 0x10000 <= c as int
    ensures DecodeChar(EncodeChar(c) + rest) == Some((c, 4))
  {
    var n := c as int;
    var b := EncodeChar(c) + rest;
    Digits4(n);
    assert b[0] == 0xF0 + n / 0x40000 && b[1] == 0x80 + (n / 4096) % 64;
    assert b[2] == 0x80 + (n / 64) % 64 && b[3] == 0x80 + n % 64;
  }

  /** One encoded scalar value decodes back to itself, whatever follows it. */
  lemma DecodeEncodeChar(c: char, rest: Bytes)
    ensures DecodeChar(EncodeChar(c) + rest) == Some((c, |EncodeChar(c)|))
  {
    var n := c as int;
    if n < 0x80 {
    } else if n < 0x800 {
      DecodeEncodeTwo(c, rest);
    } else if n < 0x10000 {
      DecodeEncodeThree(c, rest);
    } else {
      DecodeEncodeFour(c, rest);
    }
  }

  /** Decoding undoes encoding. */
  lemma {:induction false} DecodeEncode(s: string)
    ensures Decode(Encode(s)) == Some(s)
    decreases |s|
  {
    if |s| > 0 {
      var e := EncodeChar(s[0]);
      var rest := Encode(s[1..]);
      DecodeEncodeChar(s[0], rest);
      assert (e + rest)[|e|..] == rest;
      DecodeEncode(s[1..]);
      assert [s[0]] + s[1..] == s;
    }
  }

  lemma DivMod4096(q: int, r: int)
    requires 0 <= r < 4096
    ensures (q * 4096 + r) / 4096 == q
  {
  }

  lemma DivMod262144(q: int, r: int)
    requires 0 <= r < 0x40000
    ensures (q * 0x40000 + r) / 0x40000 == q
  {
  }

  /** The scalar value a well-formed two-byte sequence stands for encodes
      back to it. */
  lemma EncodeTwo(c: char, b0: int, b1: int)
    requires 0xC2 <= b0 <= 0xDF && 0x80 <= b1 < 0xC0
    requires c as int == (b0 - 0xC0) * 64 + (b1 - 0x80)
    ensures EncodeChar(c) == [b0, b1]
  {
    DivMod64(b0 - 0xC0, b1 - 0x80);
  }

  /** The scalar value a well-formed three-byte sequence stands for encodes
      back to it. */
  lemma EncodeThree(c: char, b0: int, b1: int, b2: int)
    requires 0xE0 <= b0 <= 0xEF && Lo3(b0) <= b1 <= Hi3(b0) && 0x80 <= b2 < 0xC0
    requires c as int == (b0 - 0xE0) * 4096 + (b1 - 0x80) * 64 + (b2 - 0x80)
    ensures EncodeChar(c) == [b0, b1, b2]
  {
    var x0, x1, x2 := b0 - 0xE0, b1 - 0x80, b2 - 0x80;
    DivMod64(x0 * 64 + x1, x2);
    DivMod64(x0, x1);
    DivMod4096(x0, x1 * 64 + x2);
  }

  /** The scalar value a well-formed four-byte sequence stands for encodes
      back to it. */
  lemma EncodeFour(c: char, b0: int, b1: int, b2: int, b3: int)
    requires 0xF0 <= b0 <= 0xF4 && Lo4(b0) <= b1 <= Hi4(b0) && 0x80 <= b2 < 0xC0 && 0x80 <= b3 < 0xC0
    requires c as int == (b0 - 0xF0) * 0x40000 + (b1 - 0x80) * 4096 + (b2 - 0x80) * 64 + (b3 - 0x80)
    ensures EncodeChar(c) == [b0, b1, b2, b3]
  {
    var x0, x1, x2, x3 := b0 - 0xF0, b1 - 0x80, b2 - 0x80, b3 - 0x80;
    DivMod64((x0 * 64 + x1) * 64 + x2, x3);
    DivMod64(x0 * 64 + x1, x2);
    DivMod64(x0, x1);
    DivMod4096(x0 * 64 + x1, x2 * 64 + x3);
    DivMod262144(x0, (x1 * 64 + x2) * 64 + x3);
  }

  /** A decoded scalar value re-encodes to exactly the bytes it was read from. */
  lemma EncodeDecodeChar(b: Bytes)
    requires |b| > 0 && DecodeChar(b).Some?
    ensures EncodeChar(DecodeChar(b).value.0) == b[..DecodeChar(b).value.1]
  {
    var b0: int := b[0];
    var c := DecodeChar(b).value.0;
    if b0 < 0x80 {
    } else if b0 <= 0xDF {
      EncodeTwo(c, b0, b[1]);
      assert b[..2] == [b[0], b[1]];
    } else if b0 <= 0xEF {
      EncodeThree(c, b0, b[1], b[2]);
      assert b[..3] == [b[0], b[1], b[2]];
    } else {
      EncodeFour(c, b0, b[1], b[2], b[3]);
      assert b[..4] == [b[0], b[1], b[2], b[3]];
    }
  }

  /** Well-formed bytes are exactly the encoding of the text they decode to. */
  lemma {:induction false} EncodeDecode(b: Bytes)
    requires Decode(b).Some?
    ensures Encode(Decode(b).value) == b
    decreases |b|
  {
    if |b| > 0 {
      var n := DecodeChar(b).value.1;
      EncodeDecodeChar(b);
      EncodeDecode(b[n..]);
      EncodeCons(DecodeChar(b).value.0, Decode(b[n..]).value, b, n);
    }
  }

  /** A scalar value encoded as the first `n` bytes, followed by a text
      encoded as the rest. */
  lemma EncodeCons(c: char, t: string, b: Bytes, n: nat)
    requires n <= |b| && EncodeChar(c) == b[..n] && Encode(t) == b[n..]
    ensures Encode([c] + t) == b
  {
    assert ([c] + t)[1..] == t;
    assert b[..n] + b[n..] == b;
  }

  /** Decoding succeeds on a byte string exactly when it is the encoding of
      some text, and then yields that text. */
  lemma DecodeIff(b: Bytes, s: string)
    ensures Decode(b) == Some(s) <==> b == Encode(s)
  {
    if Decode(b) == Some(s) {
      EncodeDecode(b);
    }
    if b == Encode(s) {
      DecodeEncode(s);
    }
  }
}
