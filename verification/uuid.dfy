/** Foundation's `UUID` as far as the store uses it: sixteen bytes,
    `uuidString` (upper-case hexadecimal in groups 8-4-4-4-12) and
    `UUID(uuidString:)`, which accepts hexadecimal digits of either case in
    that layout and nothing else. */
module Uuid {
  import opened Common

  type Uuid = u: Bytes | |u| == 16 witness seq(16, i => 0)

  /** An upper-case hexadecimal digit. */
  function HexDigit(d: int): char
    requires 0 <= d < 16
  {
    if d < 10 then ('0' as int + d) as char else ('A' as int + (d - 10)) as char
  }

  /** The value of a hexadecimal digit of either case. */
  function HexValue(c: char): (r: Option<int>)
    ensures r.Some? ==> 0 <= r.value < 16
  {
    if '0' <= c <= '9' then Some(c as int - '0' as int)
    else if 'A' <= c <= 'F' then Some(c as int - 'A' as int + 10)
    else if 'a' <= c <= 'f' then Some(c as int - 'a' as int + 10)
    else None
  }

  /** Two digits per byte, high nibble first. */
  function Hex(bs: Bytes): (r: string)
    ensures |r| == 2 * |bs|
    decreases |bs|
  {
    if |bs| == 0 then "" else [HexDigit(bs[0] / 16), HexDigit(bs[0] % 16)] + Hex(bs[1..])
  }

  /** Reads pairs of hexadecimal digits back into bytes. */
  function ParseHex(h: string): Option<Bytes>
    decreases |h|
  {
    if |h| == 0 then Some([])
    else if |h| == 1 then None
    else match (HexValue(h[0]), HexValue(h[1]), ParseHex(h[2..]))
      case (Some(hi), Some(lo), Some(rest)) => Some([hi * 16 + lo] + rest)
      case _ => None
  }

  /** `uuid.uuidString`. */
  function UuidString(u: Uuid): (r: string)
    ensures |r| == 36
  {
    Hex(u[..4]) + "-" + Hex(u[4..6]) + "-" + Hex(u[6..8]) + "-" + Hex(u[8..10]) + "-" + Hex(u[10..])
  }

  /** `UUID(uuidString: s)`. */
  function Parse(s: string): (r: Option<Uuid>)
  {
    if |s| == 36 && s[8] == '-' && s[13] == '-' && s[18] == '-' && s[23] == '-' then
      match ParseHex(s[..8] + s[9..13] + s[14..18] + s[19..23] + s[24..])
      case Some(bs) => if |bs| == 16 then Some(bs) else None
      case None => None
    else None
  }

  lemma HexDigitValue(d: int)
    requires 0 <= d < 16
    ensures HexValue(HexDigit(d)) == Some(d)
  {
  }

  /** Hexadecimal text of a concatenation is the concatenation of the texts. */
  lemma {:induction false} HexConcat(a: Bytes, b: Bytes)
    ensures Hex(a + b) == Hex(a) + Hex(b)
    decreases |a|
  {
    if |a| == 0 {
      assert a + b == b;
    } else {
      assert (a + b)[1..] == a[1..] + b;
      HexConcat(a[1..], b);
    }
  }

  /** Hexadecimal text reads back as the bytes it was written from. */
  lemma {:induction false} ParseHexOfHex(bs: Bytes)
    ensures ParseHex(Hex(bs)) == Some(bs)
    decreases |bs|
  {
    if |bs| > 0 {
      var h := Hex(bs);
      HexDigitValue(bs[0] / 16);
      HexDigitValue(bs[0] % 16);
      assert h[2..] == Hex(bs[1..]);
      ParseHexOfHex(bs[1..]);
      assert [bs[0]] + bs[1..] == bs;
    }
  }

  /** `UUID(uuidString: u.uuidString) == u`: the textual id column of a
      written row parses back to the item's id. */
  lemma ParseUuidString(u: Uuid)
    ensures Parse(UuidString(u)) == Some(u)
  {
    UuidStringGroups(u);
    HexGroups(u);
    ParseHexOfHex(u);
  }

  /** The five digit groups of `uuidString` sit between dashes at 8, 13, 18
      and 23. */
  lemma UuidStringGroups(u: Uuid)
    ensures var s := UuidString(u);
      && s[8] == '-' && s[13] == '-' && s[18] == '-' && s[23] == '-'
      && s[..8] + s[9..13] + s[14..18] + s[19..23] + s[24..]
         == Hex(u[..4]) + Hex(u[4..6]) + Hex(u[6..8]) + Hex(u[8..10]) + Hex(u[10..])
  {
    var a, b, c, d, e := Hex(u[..4]), Hex(u[4..6]), Hex(u[6..8]), Hex(u[8..10]), Hex(u[10..]);
    var s := UuidString(u);
    assert s == a + "-" + b + "-" + c + "-" + d + "-" + e;
    assert s[..8] == a && s[8] == '-';
    assert s[9..13] == b && s[13] == '-';
    assert s[14..18] == c && s[18] == '-';
    assert s[19..23] == d && s[23] == '-';
    assert s[24..] == e;
  }

  /** The digits of the five groups together are the digits of all sixteen
      bytes. */
  lemma HexGroups(u: Uuid)
    ensures Hex(u[..4]) + Hex(u[4..6]) + Hex(u[6..8]) + Hex(u[8..10]) + Hex(u[10..]) == Hex(u)
  {
    HexConcat(u[..4], u[4..6]);
    HexConcat(u[..4] + u[4..6], u[6..8]);
    HexConcat(u[..4] + u[4..6] + u[6..8], u[8..10]);
    HexConcat(u[..4] + u[4..6] + u[6..8] + u[8..10], u[10..]);
    assert u[..4] + u[4..6] + u[6..8] + u[8..10] + u[10..] == u;
  }

}
