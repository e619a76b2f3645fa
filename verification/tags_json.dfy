/** The tags column: a list of strings stored as the text of a JSON array of
    JSON strings (RFC 8259, section 5 for arrays and section 7 for strings),
    as `JSONEncoder` writes it and `JSONDecoder` reads it back as `[String]`.

    The encoder writes no whitespace, escapes the quotation mark, the reverse
    solidus and the solidus, uses the two-character escapes for backspace,
    form feed, line feed, carriage return and tab, and `\u00XX` for the other
    control characters. The decoder accepts any JSON text whose value is an
    array of strings: whitespace between tokens, every escape of section 7,
    and surrogate pairs written as two `\u` escapes. */
module TagsJson {
  import opened Common

  /** Insignificant whitespace, RFC 8259 section 2. */
  predicate IsWhitespace(c: char) {
    c == ' ' || c == '\t' || c == '\n' || c == '\r'
  }

  /** Drops leading whitespace. */
  function SkipWs(s: string): (r: string)
    ensures |r| <= |s|
    ensures |r| > 0 ==> !IsWhitespace(r[0])
    decreases |s|
  {
    if |s| > 0 && IsWhitespace(s[0]) then SkipWs(s[1..]) else s
  }

  function LowerHexDigit(d: int): char
    requires 0 <= d < 16
  {
    if d < 10 then ('0' as int + d) as char else ('a' as int + (d - 10)) as char
  }

  /** How one character is written inside a string literal. */
  function EscapeChar(c: char): string {
    var n := c as int;
    if c == '"' then "\\\""
    else if c == '\\' then "\\\\"
    else if c == '/' then "\\/"
    else if n == 0x08 then "\\b"
    else if n == 0x0C then "\\f"
    else if c == '\n' then "\\n"
    else if c == '\r' then "\\r"
    else if c == '\t' then "\\t"
    else if n < 0x20 then "\\u00" + [LowerHexDigit(n / 16), LowerHexDigit(n % 16)]
    else [c]
  }

  function Escape(s: string): string
    decreases |s|
  {
    if |s| == 0 then "" else EscapeChar(s[0]) + Escape(s[1..])
  }

  /** A string literal. */
  function Quote(s: string): string {
    "\"" + Escape(s) + "\""
  }

  function QuoteAll(tags: seq<string>): (r: seq<string>)
    ensures |r| == |tags|
    decreases |tags|
  {
    if |tags| == 0 then [] else [Quote(tags[0])] + QuoteAll(tags[1..])
  }

  /** `JSONEncoder().encode(tags)`, as text. */
  function Encode(tags: seq<string>): string {
    "[" + Join(QuoteAll(tags), ",") + "]"
  }

  /** The value of a hexadecimal digit of either case. */
  function HexValue(c: char): (r: Option<int>)
    ensures r.Some? ==> 0 <= r.value < 16
  {
    if '0' <= c <= '9' then Some(c as int - '0' as int)
    else if 'a' <= c <= 'f' then Some(c as int - 'a' as int + 10)
    else if 'A' <= c <= 'F' then Some(c as int - 'A' as int + 10)
    else None
  }

  /** The code unit written by four hexadecimal digits at `s[i..i + 4]`. */
  function Hex4(s: string, i: nat): (r: Option<int>)
    ensures r.Some? ==> 0 <= r.value < 0x10000
  {
    if i + 4 > |s| then None
    else match (HexValue(s[i]), HexValue(s[i + 1]), HexValue(s[i + 2]), HexValue(s[i + 3]))
      case (Some(a), Some(b), Some(c), Some(d)) => Some(((a * 16 + b) * 16 + c) * 16 + d)
      case _ => None
  }

  /** Reads the escape that follows a reverse solidus: the character it stands
      for and the number of characters it took after the reverse solidus. A
      high surrogate must be followed by an escaped low surrogate; a lone
      surrogate is refused. */
  function Unescape(e: string): (r: Option<(char, nat)>)
    ensures r.Some? ==> 1 <= r.value.1 <= |e|
  {
    if |e| == 0 then None
    else if e[0] == '"' then Some(('"', 1))
    else if e[0] == '\\' then Some(('\\', 1))
    else if e[0] == '/' then Some(('/', 1))
    else if e[0] == 'b' then Some((0x08 as char, 1))
    else if e[0] == 'f' then Some((0x0C as char, 1))
    else if e[0] == 'n' then Some(('\n', 1))
    else if e[0] == 'r' then Some(('\r', 1))
    else if e[0] == 't' then Some(('\t', 1))
    else if e[0] == 'u' then
      match Hex4(e, 1)
      case None => None
      case Some(u) =>
        if u < 0xD800 || 0xE000 <= u then Some((u as char, 5))
        else if u < 0xDC00 && |e| >= 7 && e[5] == '\\' && e[6] == 'u' then
          match Hex4(e, 7)
          case Some(lo) =>
            if 0xDC00 <= lo < 0xE000 then
              Some(((0x10000 + (u - 0xD800) * 0x400 + (lo - 0xDC00)) as char, 11))
            else None
          case None => None
        else None
    else None
  }

  /** Reads the rest of a string literal whose opening quotation mark has been
      consumed: the string and the text after the closing quotation mark. */
  function ParseBody(s: string): (r: Option<(string, string)>)
    ensures r.Some? ==> |r.value.1| < |s|
    decreases |s|
  {
    if |s| == 0 then None
    else if s[0] == '"' then Some(("", s[1..]))
    else if s[0] == '\\' then
      match Unescape(s[1..])
      case None => None
      case Some((c, n)) =>
        match ParseBody(s[1 + n..])
        case None => None
        case Some((t, rest)) => Some(([c] + t, rest))
    else if (s[0] as int) < 0x20 then None
    else
      match ParseBody(s[1..])
      case None => None
      case Some((t, rest)) => Some(([s[0]] + t, rest))
  }

  /** Reads the elements of a non-empty array, starting at the first element
      and ending after the closing bracket. */
  function ParseItems(s: string): (r: Option<(seq<string>, string)>)
    ensures r.Some? ==> |r.value.1| < |s|
    decreases |s|
  {
    if |s| == 0 || s[0] != '"' then None
    else match ParseBody(s[1..])
      case None => None
      case Some((t, r1)) =>
        var r2 := SkipWs(r1);
        if |r2| == 0 then None
        else if r2[0] == ']' then Some(([t], r2[1..]))
        else if r2[0] == ',' then
          match ParseItems(SkipWs(r2[1..]))
          case None => None
          case Some((ts, r3)) => Some(([t] + ts, r3))
        else None
  }

  /** `try? JSONDecoder().decode([String].self, from: text)`. */
  function Decode(text: string): Option<seq<string>> {
    var s := SkipWs(text);
    if |s| == 0 || s[0] != '[' then None
    else
      var s1 := SkipWs(s[1..]);
      if |s1| > 0 && s1[0] == ']' then
        if SkipWs(s1[1..]) == "" then Some([]) else None
      else match ParseItems(s1)
        case None => None
        case Some((tags, rest)) => if SkipWs(rest) == "" then Some(tags) else None
  }

  lemma SkipWsNone(s: string)
    requires |s| > 0 && !IsWhitespace(s[0])
    ensures SkipWs(s) == s
  {
  }

  lemma HexValueLower(d: int)
    requires 0 <= d < 16
    ensures HexValue(LowerHexDigit(d)) == Some(d)
  {
  }

  /** An escape written for a character reads back as that character. */
  lemma UnescapeEscapeChar(c: char, rest: string)
    requires |EscapeChar(c)| > 1
    ensures EscapeChar(c)[0] == '\\'
    ensures Unescape(EscapeChar(c)[1..] + rest) == Some((c, |EscapeChar(c)| - 1))
  {
    var n := c as int;
    if n < 0x20 && c != '\n' && c != '\r' && c != '\t' && n != 0x08 && n != 0x0C {
      var e := EscapeChar(c)[1..] + rest;
      HexValueLower(n / 16);
      HexValueLower(n % 16);
      assert e[..5] == "u00" + [LowerHexDigit(n / 16), LowerHexDigit(n % 16)];
      assert Hex4(e, 1) == Some(n);
    }
  }

  /** A character written plainly is neither a delimiter nor a control character. */
  lemma PlainChar(c: char)
    requires |EscapeChar(c)| == 1
    ensures EscapeChar(c) == [c] && c != '"' && c != '\\' && c as int >= 0x20
  {
  }

  /** One written character, read back: it stands for itself in front of
      whatever the rest of the literal reads as. */
  lemma ParseBodyCharStep(c: char, tail: string)
    ensures ParseBody(EscapeChar(c) + tail)
      == if ParseBody(tail).Some? then Some(([c] + ParseBody(tail).value.0, ParseBody(tail).value.1)) else None
  {
    var e := EscapeChar(c);
    var s := e + tail;
    if |e| == 1 {
      PlainChar(c);
      assert s[0] == c && s[1..] == tail;
    } else {
      UnescapeEscapeChar(c, tail);
      assert s[0] == '\\';
      assert s[1..] == e[1..] + tail;
      assert s[1 + (|e| - 1)..] == tail;
    }
  }

  /** An escaped string followed by the closing quotation mark reads back as
      the string, whatever follows. */
  lemma {:induction false} ParseBodyEscape(t: string, rest: string)
    ensures ParseBody(Escape(t) + "\"" + rest) == Some((t, rest))
    decreases |t|
  {
    if |t| == 0 {
      assert Escape(t) + "\"" + rest == "\"" + rest;
    } else {
      var tail := Escape(t[1..]) + "\"" + rest;
      assert Escape(t) + "\"" + rest == EscapeChar(t[0]) + tail;
      ParseBodyEscape(t[1..], rest);
      ParseBodyCharStep(t[0], tail);
      assert [t[0]] + t[1..] == t;
    }
  }

  /** A last element followed by the closing bracket. */
  lemma ParseItemsLast(t: string, rest: string)
    ensures ParseItems(Quote(t) + "]" + rest) == Some(([t], rest))
  {
    var s := Quote(t) + "]" + rest;
    assert s == "\"" + (Escape(t) + "\"" + ("]" + rest));
    ParseBodyEscape(t, "]" + rest);
    assert s[1..] == Escape(t) + "\"" + ("]" + rest);
    SkipWsNone("]" + rest);
  }

  /** One element read, then a comma and the further elements. */
  lemma ParseItemsComma(s: string, t: string, r1: string, ts: seq<string>, r3: string)
    requires |s| > 0 && s[0] == '"' && ParseBody(s[1..]) == Some((t, r1))
    requires |r1| > 0 && r1[0] == ','
    requires ParseItems(SkipWs(r1[1..])) == Some((ts, r3))
    ensures ParseItems(s) == Some(([t] + ts, r3))
  {
    SkipWsNone(r1);
  }

  /** A written element, then a comma and further elements. */
  lemma ParseItemsQuoted(t: string, r1: string, ts: seq<string>, r3: string)
    requires |r1| > 0 && r1[0] == ','
    requires ParseItems(SkipWs(r1[1..])) == Some((ts, r3))
    ensures ParseItems(Quote(t) + r1) == Some(([t] + ts, r3))
  {
    QuoteThen(t, r1);
    ParseBodyEscape(t, r1);
    ParseItemsComma(Quote(t) + r1, t, r1, ts, r3);
  }

  /** A string literal followed by more text: the quotation mark, then the
      escaped body, the closing quotation mark and the text. */
  lemma QuoteThen(t: string, r1: string)
    ensures |Quote(t) + r1| > 0 && (Quote(t) + r1)[0] == '"'
    ensures (Quote(t) + r1)[1..] == Escape(t) + "\"" + r1
  {
    assert Quote(t) + r1 == "\"" + (Escape(t) + "\"" + r1);
  }

  /** The written elements of at least two tags: the first, a comma, the rest. */
  lemma JoinQuoteAllCons(tags: seq<string>)
    requires |tags| > 1
    ensures Join(QuoteAll(tags), ",") == Quote(tags[0]) + "," + Join(QuoteAll(tags[1..]), ",")
  {
    assert QuoteAll(tags)[1..] == QuoteAll(tags[1..]);
  }

  /** The written elements of a non-empty list start with a quotation mark. */
  lemma JoinQuoteAllHead(tags: seq<string>)
    requires |tags| > 0
    ensures |Join(QuoteAll(tags), ",")| > 0 && Join(QuoteAll(tags), ",")[0] == '"'
  {
    if |tags| > 1 {
      JoinQuoteAllCons(tags);
    }
  }

  /** The written elements of at least two tags and what follows them: the
      first literal, then a comma and the rest, which starts with a literal. */
  lemma JoinQuotedThen(tags: seq<string>, rest: string)
    requires |tags| > 1
    ensures var inner := Join(QuoteAll(tags[1..]), ",") + "]" + rest;
      && Join(QuoteAll(tags), ",") + "]" + rest == Quote(tags[0]) + ("," + inner)
      && ("," + inner)[0] == ',' && SkipWs(("," + inner)[1..]) == inner
  {
    var j := Join(QuoteAll(tags[1..]), ",");
    var inner := j + "]" + rest;
    JoinQuoteAllCons(tags);
    Reassociate(Quote(tags[0]), ",", j, "]", rest);
    JoinQuoteAllHead(tags[1..]);
    assert ("," + inner)[1..] == inner && inner[0] == '"';
    SkipWsNone(inner);
  }

  lemma Reassociate(a: string, b: string, c: string, d: string, e: string)
    ensures a + b + c + d + e == a + (b + (c + d + e))
  {
  }

  /** The elements of a non-empty array, as written, read back as the tags. */
  lemma {:induction false} ParseItemsJoin(tags: seq<string>, rest: string)
    requires |tags| > 0
    ensures ParseItems(Join(QuoteAll(tags), ",") + "]" + rest) == Some((tags, rest))
    decreases |tags|
  {
    if |tags| == 1 {
      ParseItemsLast(tags[0], rest);
      assert [tags[0]] == tags;
    } else {
      var inner := Join(QuoteAll(tags[1..]), ",") + "]" + rest;
      JoinQuotedThen(tags, rest);
      ParseItemsJoin(tags[1..], rest);
      ParseItemsQuoted(tags[0], "," + inner, tags[1..], rest);
      assert [tags[0]] + tags[1..] == tags;
    }
  }

  /** `JSONDecoder` reads back what `JSONEncoder` wrote. */
  lemma DecodeEncode(tags: seq<string>)
    ensures Decode(Encode(tags)) == Some(tags)
  {
    var s := Encode(tags);
    SkipWsNone(s);
    var body := Join(QuoteAll(tags), ",") + "]";
    assert s[1..] == body;
    if |tags| == 0 {
      assert body == "]";
    } else {
      assert body[0] == '"';
      SkipWsNone(body);
      ParseItemsJoin(tags, "");
      assert body + "" == body;
    }
  }
}
