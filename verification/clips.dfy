/** A clipboard history entry and the properties the views derive from it:
    the file-type classification of its type string, the name of the source
    application, the search match, the description and the icon. */
module Clips {
  import opened Common
  import Uuid
  import Base64
  import Utf8

  /** `ClipItem`. The payload is kept as its Base 64 text; the timestamp is
      in whole seconds. */
  datatype ClipItem = ClipItem(
    id: Uuid.Uuid,
    timestamp: int,
    kind: string,
    base64Data: string,
    applicationName: string,
    windowName: string)

  /** `ClipItem.FileType`. */
  datatype FileType = Pdf | Word | Audio | Video | None | Unknown

  /** `fileType`: the first of "pdf", "word", "audio", "video" the type
      string contains, case-sensitively; `.none` when it contains none. */
  function FileTypeOf(kind: string): (r: FileType)
    ensures r != Unknown
    ensures r == Pdf <==> Contains(kind, "pdf")
    ensures r == FileType.None <==> (!Contains(kind, "pdf") && !Contains(kind, "word")
      && !Contains(kind, "audio") && !Contains(kind, "video"))
  {
    if Contains(kind, "pdf") then Pdf
    else if Contains(kind, "word") then Word
    else if Contains(kind, "audio") then Audio
    else if Contains(kind, "video") then Video
    else FileType.None
  }

  /** The keywords in the order they are tried. */
  const Keywords: seq<(string, FileType)> :=
    [("pdf", Pdf), ("word", Word), ("audio", Audio), ("video", Video)]

  /** The file type of the first keyword in the table the type string
      contains, or `.none`. */
  function FirstMatch(kind: string, table: seq<(string, FileType)>): FileType
    decreases |table|
  {
    if |table| == 0 then FileType.None
    else if Contains(kind, table[0].0) then table[0].1
    else FirstMatch(kind, table[1..])
  }

  /** The classification is a first-match lookup in the keyword table. */
  lemma FileTypeIsFirstMatch(kind: string)
    ensures FileTypeOf(kind) == FirstMatch(kind, Keywords)
  {
    var t := Keywords;
    assert t[1..][1..][1..][1..] == [];
  }

  /** Matching is case-sensitive: an upper-case "PDF" is not a PDF. */
  lemma UpperCasePdfIsNone()
    ensures FileTypeOf("PDF") == FileType.None
  {
    AbsentFirstCharNotContained("PDF", "pdf");
    AbsentFirstCharNotContained("PDF", "word");
    AbsentFirstCharNotContained("PDF", "audio");
    AbsentFirstCharNotContained("PDF", "video");
  }

  /** A type string naming both a PDF and a video classifies as a PDF: the
      first keyword wins. */
  lemma FirstKeywordWins(kind: string)
    requires Contains(kind, "pdf") && Contains(kind, "video")
    ensures FileTypeOf(kind) == Pdf
  {
  }

  /** `sourceAppName`. */
  function SourceAppName(item: ClipItem): (r: string)
    ensures r == "Unknown App" <==> (item.applicationName == "" || item.applicationName == "Unknown App")
    ensures item.applicationName != "" ==> r == item.applicationName
    ensures |r| > 0
  {
    if item.applicationName == "" then "Unknown App" else item.applicationName
  }

  /** The payload as text: Base 64 decoded, then read as UTF-8. There is a
      text exactly when the data is Base 64 of the UTF-8 bytes of some
      string, and then it is that string. */
  function DecodedText(item: ClipItem): (r: Option<string>)
    ensures r.Some? <==> (Base64.Decode(item.base64Data).Some?
      && exists t :: Utf8.Encode(t) == Base64.Decode(item.base64Data).value)
    ensures r.Some? ==> Utf8.Encode(r.value) == Base64.Decode(item.base64Data).value
  {
    match Base64.Decode(item.base64Data)
    case None => Option.None
    case Some(bytes) =>
      match Utf8.Decode(bytes)
      case None =>
        assert forall t :: Utf8.Encode(t) != bytes by {
          forall t ensures Utf8.Encode(t) != bytes {
            Utf8.DecodeIff(bytes, t);
          }
        }
        Option.None
      case Some(text) =>
        Utf8.DecodeIff(bytes, text);
        Some(text)
  }

  /** `matches(searchText)`: the application name contains the query, or the
      payload is text that contains it, both case-insensitively. */
  function Matches(item: ClipItem, query: string): (r: bool)
    ensures FoldedContains(SourceAppName(item), query) ==> r
    ensures !FoldedContains(SourceAppName(item), query) ==>
      (r <==> DecodedText(item).Some? && FoldedContains(DecodedText(item).value, query))
    ensures query == "" ==> !r
  {
    if FoldedContains(SourceAppName(item), query) then true
    else match DecodedText(item)
      case Some(text) => FoldedContains(text, query)
      case None => false
  }

  /** `typeDescription`. */
  function TypeDescription(item: ClipItem): (r: string)
    ensures Contains(item.kind, "image") ==> r == "Image"
    ensures !Contains(item.kind, "image") && FileTypeOf(item.kind) == FileType.None ==> r == "Text"
    ensures !Contains(item.kind, "image") && FileTypeOf(item.kind) == Pdf ==> r == "PDF Document"
    ensures !Contains(item.kind, "image") && FileTypeOf(item.kind) == Word ==> r == "Word Document"
    ensures !Contains(item.kind, "image") && FileTypeOf(item.kind) == Audio ==> r == "Audio File"
    ensures !Contains(item.kind, "image") && FileTypeOf(item.kind) == Video ==> r == "Video File"
    ensures r != "File"
  {
    if Contains(item.kind, "image") then "Image"
    else match FileTypeOf(item.kind)
      case Pdf => "PDF Document"
      case Word => "Word Document"
      case Audio => "Audio File"
      case Video => "Video File"
      case Unknown => "File"
      case None => "Text"
  }

  /** `iconName`. */
  function IconName(item: ClipItem): (r: string)
    ensures FileTypeOf(item.kind) == FileType.None && Contains(item.kind, "image") ==> r == "photo"
    ensures FileTypeOf(item.kind) == FileType.None && !Contains(item.kind, "image") && Contains(item.kind, "text") ==> r == "text.quote"
    ensures FileTypeOf(item.kind) == FileType.None && !Contains(item.kind, "image") && !Contains(item.kind, "text") ==> r == "doc.on.doc"
    ensures FileTypeOf(item.kind) == Pdf ==> r == "doc.richtext.fill"
    ensures FileTypeOf(item.kind) == Word ==> r == "doc.text.fill"
    ensures FileTypeOf(item.kind) == Audio ==> r == "waveform"
    ensures FileTypeOf(item.kind) == Video ==> r == "video.fill"
    ensures r != "questionmark.diamond.fill"
  {
    match FileTypeOf(item.kind)
    case Pdf => "doc.richtext.fill"
    case Word => "doc.text.fill"
    case Audio => "waveform"
    case Video => "video.fill"
    case None =>
      if Contains(item.kind, "image") then "photo"
      else if Contains(item.kind, "text") then "text.quote"
      else "doc.on.doc"
    case Unknown => "questionmark.diamond.fill"
  }

  /** An item whose payload is UTF-8 text, stored as Base 64, matches every
      query that text contains, case-insensitively. */
  lemma MatchesStoredText(item: ClipItem, text: string, query: string)
    requires item.base64Data == Base64.Encode(Utf8.Encode(text))
    requires FoldedContains(text, query)
    ensures Matches(item, query)
  {
    DecodesStoredText(item, text);
  }

  /** Text stored as Base 64 of its UTF-8 bytes reads back as that text. */
  lemma DecodesStoredText(item: ClipItem, text: string)
    requires item.base64Data == Base64.Encode(Utf8.Encode(text))
    ensures DecodedText(item) == Some(text)
  {
    Base64.DecodeEncode(Utf8.Encode(text));
    Utf8.DecodeEncode(text);
  }

  /** The filter choices both views offer: `FilterType`. */
  datatype Category = All | Text | Images | Files

  /** The search step of both views: an empty query lets every entry
      through, otherwise the entry must match it. */
  function PassesSearch(query: string): ClipItem -> bool {
    (x: ClipItem) => query == "" || Matches(x, query)
  }

  /** The quick menu's notion of a file entry: neither text nor image, and
      classified as one of the four file types. */
  function IsFileEntry(x: ClipItem): (r: bool)
    ensures r <==> (!Contains(x.kind, "text") && !Contains(x.kind, "image")
      && FileTypeOf(x.kind) in {Pdf, Word, Audio, Video})
  {
    !Contains(x.kind, "text") && !Contains(x.kind, "image")
      && FileTypeOf(x.kind) != Unknown && FileTypeOf(x.kind) != FileType.None
  }

  /** The category test of the quick menu: a file entry is neither text nor
      image and is classified as one of the four file types. */
  function InCategory(c: Category): ClipItem -> bool {
    (x: ClipItem) =>
      match c
      case All => true
      case Text => Contains(x.kind, "text")
      case Images => Contains(x.kind, "image")
      case Files => IsFileEntry(x)
  }

  /** What both views' `filteredItems` do, given the view's category test:
      the entries that pass the search, then, unless the category is All,
      the test, in history order. */
  function Narrow(items: seq<ClipItem>, query: string, c: Category, test: Category -> ClipItem -> bool)
    : (r: seq<ClipItem>)
    ensures forall i :: 0 <= i < |r| ==> r[i] in items && PassesSearch(query)(r[i]) && (c == All || test(c)(r[i]))
    ensures forall i :: 0 <= i < |items| && PassesSearch(query)(items[i]) && (c == All || test(c)(items[i])) ==> items[i] in r
  {
    var searched := Filter(items, PassesSearch(query));
    if c == All then searched else Filter(searched, test(c))
  }

  /** An empty query with the All category shows the whole history. */
  lemma EmptyQueryShowsAll(items: seq<ClipItem>, test: Category -> ClipItem -> bool)
    ensures Narrow(items, "", All, test) == items
  {
    FilterAllPass(items, PassesSearch(""));
  }

  /** Narrowing keeps the history's order: the narrowed list of a
      concatenation is the concatenation of the narrowed parts. */
  lemma NarrowKeepsOrder(a: seq<ClipItem>, b: seq<ClipItem>, query: string, c: Category,
                         test: Category -> ClipItem -> bool)
    ensures Narrow(a + b, query, c, test) == Narrow(a, query, c, test) + Narrow(b, query, c, test)
  {
    FilterConcat(a, b, PassesSearch(query));
    var sa, sb := Filter(a, PassesSearch(query)), Filter(b, PassesSearch(query));
    FilterConcat(sa, sb, test(c));
  }

  /** The quick menu's `filteredItems`: an entry is listed exactly when it is
      in the history, passes the search and passes the quick menu's category
      test. */
  function FilteredItems(items: seq<ClipItem>, query: string, c: Category): (r: seq<ClipItem>)
    ensures forall x :: x in r <==> x in items && PassesSearch(query)(x) && InCategory(c)(x)
  {
    Narrow(items, query, c, InCategory)
  }
}
