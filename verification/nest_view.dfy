/** `NestView.filteredItems`: the main window's history list, narrowed by the
    search field and by the category picker. */
module NestView {
  import opened Common
  import Uuid
  import opened Clips

  /** The category test of the main window, as written: the Files category
      keeps every entry whose file type is not `.unknown`. */
  function InCategory(c: Category): ClipItem -> bool {
    (x: ClipItem) =>
      match c
      case All => true
      case Text => Contains(x.kind, "text")
      case Images => Contains(x.kind, "image")
      case Files => FileTypeOf(x.kind) != Unknown
  }

  /** `filteredItems`, as written: an entry is listed exactly when it is in
      the history, passes the search and, under Text or Images, has that
      word in its type; Files asks nothing more of it. */
  function FilteredItems(items: seq<ClipItem>, query: string, c: Category): (r: seq<ClipItem>)
    ensures forall x :: x in r <==> (x in items && PassesSearch(query)(x)
      && (c == Text ==> Contains(x.kind, "text"))
      && (c == Images ==> Contains(x.kind, "image")))
  {
    Narrow(items, query, c, InCategory)
  }

  /** As written, the Files category is the All category: no entry is ever
      classified `.unknown`. */
  lemma FilesShowsEverything(items: seq<ClipItem>, query: string)
    ensures FilteredItems(items, query, Files) == FilteredItems(items, query, All)
  {
    var searched := Filter(items, PassesSearch(query));
    FilterAllPass(searched, InCategory(Files));
  }

  /** A plain-text entry. */
  function PlainTextEntry(): (x: ClipItem)
    ensures Contains(x.kind, "text")
  {
    assert "public.utf8-plain-text"[18..22] == "text";
    OccursImpliesContains("public.utf8-plain-text", "text", 18);
    ClipItem(seq(16, i => 0), 0, "public.utf8-plain-text", "", "", "")
  }

  /** A plain-text entry shows up under Files. */
  lemma TextEntryShownAsFile()
    ensures PlainTextEntry() in FilteredItems([PlainTextEntry()], "", Files)
  {
    FilesShowsEverything([PlainTextEntry()], "");
    EmptyQueryShowsAll([PlainTextEntry()], InCategory);
  }

  /** With the quick menu's category test, Files shows no text entry and
      nothing the classifier calls `.none`, and the other categories are
      unchanged. */
  lemma FilesShowsOnlyFiles(items: seq<ClipItem>, query: string, c: Category)
    ensures forall i :: 0 <= i < |Clips.FilteredItems(items, query, Files)| ==>
      !Contains(Clips.FilteredItems(items, query, Files)[i].kind, "text")
      && FileTypeOf(Clips.FilteredItems(items, query, Files)[i].kind) != FileType.None
    ensures c != Files ==> Clips.FilteredItems(items, query, c) == FilteredItems(items, query, c)
  {
    if c != Files && c != All {
      var searched := Filter(items, PassesSearch(query));
      FilterSamePassing(searched, Clips.InCategory(c), InCategory(c));
    }
  }

  /** The plain-text entry is no longer shown under Files. */
  lemma TextEntryNotShownAsFile()
    ensures PlainTextEntry() !in Clips.FilteredItems([PlainTextEntry()], "", Files)
  {
    FilesShowsOnlyFiles([PlainTextEntry()], "", Files);
  }
}
