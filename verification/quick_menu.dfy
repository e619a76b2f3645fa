/** `QuickMenuView`: the menu-bar popover. It shows the first ten entries of
    the filtered history; a tap selects an entry, or toggles it in and out of
    the combine selection while combine mode is on; the combine button of a
    text entry toggles it into the selection and switches combine mode on;
    deleting an entry also drops it from both selections. Combining joins the
    selected text entries, one per line, in history order.

    The view's state is the `MenuState` value; each closure is a function
    from the state before to the state after, and the history list it acts on
    is a parameter. The pasteboard is the `Option<string>` an event yields. */
module QuickMenu {
  import opened Common
  import Uuid
  import opened Clips
  import ClipStorage
  import Base64
  import Utf8

  /** How many entries the popover lists. */
  const VisibleCount: nat := 10

  /** `filteredItems.prefix(10)`: the rows on screen. */
  function VisibleRows(items: seq<ClipItem>, query: string, c: Category): (r: seq<ClipItem>)
    ensures |r| <= VisibleCount
    ensures |r| == VisibleCount || r == FilteredItems(items, query, c)
    ensures r <= FilteredItems(items, query, c)
  {
    Prefix(FilteredItems(items, query, c), VisibleCount)
  }

  /** The rows on screen are the first entries of the whole filtered list:
      an entry of the filtered list is on screen exactly when fewer than ten
      entries come before it. */
  lemma VisibleRowsAreFirst(items: seq<ClipItem>, query: string, c: Category, i: int)
    requires 0 <= i < |FilteredItems(items, query, c)|
    ensures i < |VisibleRows(items, query, c)| <==> i < VisibleCount
    ensures i < VisibleCount ==> VisibleRows(items, query, c)[i] == FilteredItems(items, query, c)[i]
  {
  }

  /** The state of the view that the events change. */
  datatype MenuState = MenuState(
    selected: set<Uuid.Uuid>,
    combineMode: bool,
    selectedItemID: Option<Uuid.Uuid>)

  /** Keeps the text entries whose id is selected. */
  function IsSelectedText(selected: set<Uuid.Uuid>): ClipItem -> bool {
    (x: ClipItem) => x.id in selected && Contains(x.kind, "text")
  }

  /** `selectedTextItems`: the selected text entries, in history order. */
  function SelectedTextItems(items: seq<ClipItem>, selected: set<Uuid.Uuid>): (r: seq<ClipItem>)
    ensures forall i :: 0 <= i < |r| ==> r[i] in items && r[i].id in selected && Contains(r[i].kind, "text")
    ensures forall i :: 0 <= i < |items| && items[i].id in selected && Contains(items[i].kind, "text") ==> items[i] in r
  {
    Filter(items, IsSelectedText(selected))
  }

  /** `onTap`: in combine mode the entry's id goes in or out of the
      selection; otherwise the entry becomes the selected one, or stops being
      it. */
  function OnTap(st: MenuState, id: Uuid.Uuid): (r: MenuState)
    ensures r.combineMode == st.combineMode
    ensures st.combineMode ==> ((id in r.selected <==> id !in st.selected)
      && r.selected - {id} == st.selected - {id} && r.selectedItemID == st.selectedItemID)
    ensures !st.combineMode ==> (r.selected == st.selected
      && (r.selectedItemID == Some(id) <==> st.selectedItemID != Some(id))
      && (r.selectedItemID.None? <==> st.selectedItemID == Some(id)))
  {
    if st.combineMode then
      if id in st.selected then st.(selected := st.selected - {id})
      else st.(selected := st.selected + {id})
    else if st.selectedItemID == Some(id) then st.(selectedItemID := Option.None)
    else st.(selectedItemID := Some(id))
  }

  /** Tapping the same entry twice undoes the first tap, except outside
      combine mode when another entry was the selected one: the second tap
      then clears the selection instead of restoring it. */
  lemma TapTwice(st: MenuState, id: Uuid.Uuid)
    ensures OnTap(OnTap(st, id), id) == st
      <==> (st.combineMode || st.selectedItemID.None? || st.selectedItemID == Some(id))
  {
    var twice := OnTap(OnTap(st, id), id);
    if st.combineMode {
      assert twice.selected == st.selected;
    } else if st.selectedItemID.Some? && st.selectedItemID != Some(id) {
      assert twice.selectedItemID.None?;
    }
  }

  /** `onCombine`: only a text entry has the button (`None` otherwise). It
      toggles the entry's id in the selection, and adding an id switches
      combine mode on. */
  function OnCombine(st: MenuState, item: ClipItem): (r: Option<MenuState>)
    ensures r.Some? <==> Contains(item.kind, "text")
    ensures r.Some? ==> ((item.id in r.value.selected <==> item.id !in st.selected)
      && r.value.selected - {item.id} == st.selected - {item.id}
      && r.value.selectedItemID == st.selectedItemID)
    ensures r.Some? && item.id !in st.selected ==> r.value.combineMode
    ensures r.Some? && item.id in st.selected ==> r.value.combineMode == st.combineMode
  {
    if !Contains(item.kind, "text") then Option.None
    else if item.id in st.selected then Some(st.(selected := st.selected - {item.id}))
    else Some(st.(selected := st.selected + {item.id}, combineMode := true))
  }

  /** `onDelete`: the entry leaves the combine selection, nothing stays the
      selected entry, and the history loses every entry with the id. */
  function OnDelete(st: MenuState, items: seq<ClipItem>, item: ClipItem): (r: (MenuState, seq<ClipItem>))
    ensures r.0.selected == st.selected - {item.id}
    ensures r.0.selectedItemID.None? && r.0.combineMode == st.combineMode
    ensures forall i :: 0 <= i < |r.1| ==> r.1[i].id != item.id && r.1[i] in items
    ensures forall x :: x in items && x.id != item.id ==> x in r.1
    ensures r.1 == ClipStorage.Delete(items, item.id)
  {
    (st.(selected := st.selected - {item.id}, selectedItemID := Option.None),
     ClipStorage.Delete(items, item.id))
  }

  /** After a delete the selected text entries are the ones before, less the
      deleted entry. */
  lemma {:induction false} DeleteKeepsOtherSelected(items: seq<ClipItem>, selected: set<Uuid.Uuid>, id: Uuid.Uuid)
    ensures SelectedTextItems(ClipStorage.Delete(items, id), selected - {id})
      == ClipStorage.Delete(SelectedTextItems(items, selected), id)
    decreases |items|
  {
    if |items| > 0 {
      DeleteKeepsOtherSelected(items[1..], selected, id);
    }
  }

  /** The payloads of the entries that decode to text, in order:
      `compactMap` over Base 64 and UTF-8 decoding. */
  function DecodedTexts(items: seq<ClipItem>): (r: seq<string>)
    ensures |r| <= |items|
    ensures forall i :: 0 <= i < |items| && DecodedText(items[i]).Some? ==> DecodedText(items[i]).value in r
    ensures forall t :: t in r ==> exists i :: 0 <= i < |items| && DecodedText(items[i]) == Some(t)
    decreases |items|
  {
    if |items| == 0 then []
    else
      match DecodedText(items[0])
      case Some(t) => [t] + DecodedTexts(items[1..])
      case None => DecodedTexts(items[1..])
  }

  /** Decoding a concatenation is decoding each part: the texts keep the
      order of their entries. */
  lemma {:induction false} DecodedTextsConcat(a: seq<ClipItem>, b: seq<ClipItem>)
    ensures DecodedTexts(a + b) == DecodedTexts(a) + DecodedTexts(b)
    decreases |a|
  {
    if |a| == 0 {
      assert a + b == b;
    } else {
      assert (a + b)[0] == a[0] && (a + b)[1..] == a[1..] + b;
      DecodedTextsConcat(a[1..], b);
    }
  }

  /** One entry contributes its text when it decodes, and nothing otherwise. */
  lemma DecodedTextsSingle(x: ClipItem)
    ensures DecodedTexts([x]) == if DecodedText(x).Some? then [DecodedText(x).value] else []
  {
    assert [x][1..] == [];
  }

  /** The text `combineSelectedItems` puts on the pasteboard. */
  function CombinedText(items: seq<ClipItem>, selected: set<Uuid.Uuid>): string {
    Join(DecodedTexts(SelectedTextItems(items, selected)), "\n")
  }

  /** `combineSelectedItems`: the combined text, and the selection emptied. */
  function CombineSelectedItems(st: MenuState, items: seq<ClipItem>): (r: (string, MenuState))
    ensures r.0 == CombinedText(items, st.selected)
    ensures r.1 == st.(selected := {})
    ensures st.selected == {} ==> r.0 == ""
  {
    FilterNone(items, IsSelectedText({}));
    (CombinedText(items, st.selected), st.(selected := {}))
  }

  /** A newly saved text entry whose id is selected comes first in the
      combined text, on a line of its own before the older selected texts. */
  lemma CombineAfterSave(items: seq<ClipItem>, selected: set<Uuid.Uuid>, id: Uuid.Uuid, now: int,
                         kind: string, text: string, app: string, window: string)
    requires id in selected && Contains(kind, "text")
    ensures var saved := ClipStorage.Save(items, id, now, kind, Utf8.Encode(text), app, window);
      CombinedText(saved, selected)
        == if DecodedTexts(SelectedTextItems(items, selected)) == [] then text
           else text + "\n" + CombinedText(items, selected)
  {
    var saved := ClipStorage.Save(items, id, now, kind, Utf8.Encode(text), app, window);
    DecodesStoredText(saved[0], text);
    assert saved == [saved[0]] + items;
    assert SelectedTextItems(saved, selected) == [saved[0]] + SelectedTextItems(items, selected);
  }

  /** The combined text of two runs of entries is each run's combined text,
      one line break between them when both hold selected text. */
  lemma CombineConcat(a: seq<ClipItem>, b: seq<ClipItem>, selected: set<Uuid.Uuid>)
    ensures CombinedText(a + b, selected)
      == if DecodedTexts(SelectedTextItems(a, selected)) == [] then CombinedText(b, selected)
         else if DecodedTexts(SelectedTextItems(b, selected)) == [] then CombinedText(a, selected)
         else CombinedText(a, selected) + "\n" + CombinedText(b, selected)
  {
    FilterConcat(a, b, IsSelectedText(selected));
    DecodedTextsConcat(SelectedTextItems(a, selected), SelectedTextItems(b, selected));
    JoinConcat(DecodedTexts(SelectedTextItems(a, selected)), DecodedTexts(SelectedTextItems(b, selected)), "\n");
  }

  /** Entries that are not selected text do not change the combined text. */
  lemma {:induction false} CombineIgnoresUnselected(a: seq<ClipItem>, b: seq<ClipItem>, selected: set<Uuid.Uuid>)
    requires forall i :: 0 <= i < |b| ==> b[i].id !in selected || !Contains(b[i].kind, "text")
    ensures CombinedText(a + b, selected) == CombinedText(a, selected)
  {
    FilterConcat(a, b, IsSelectedText(selected));
    FilterNone(b, IsSelectedText(selected));
    assert SelectedTextItems(a + b, selected) == SelectedTextItems(a, selected);
  }

  /** A selection of entries only in combine mode: no event outside combine
      mode adds an id. */
  predicate SelectionNeedsCombineMode(st: MenuState) {
    st.selected != {} ==> st.combineMode
  }

  /** The combine-mode button, as written: it flips combine mode and, when
      that switches it off, empties the selection. */
  function ToggleButton(st: MenuState): (r: MenuState)
    ensures r.combineMode == !st.combineMode && r.selectedItemID == st.selectedItemID
    ensures st.combineMode ==> r.selected == {}
    ensures !st.combineMode ==> r.selected == st.selected
  {
    if st.combineMode then st.(combineMode := false, selected := {})
    else st.(combineMode := true)
  }

  /** `onChange(of: combineMode)`: once combine mode is off with a non-empty
      selection, the selected texts are combined onto the pasteboard. */
  function CombineModeChanged(st: MenuState, items: seq<ClipItem>): (r: (MenuState, Option<string>))
    ensures r.1.Some? <==> !st.combineMode && st.selected != {}
    ensures r.1.Some? ==> r.0 == st.(selected := {}) && r.1.value == CombinedText(items, st.selected)
    ensures r.1.None? ==> r.0 == st
  {
    if !st.combineMode && st.selected != {} then
      var (text, after) := CombineSelectedItems(st, items);
      (after, Some(text))
    else (st, Option.None)
  }

  /** Pressing the combine-mode button, as written: the button's action, then
      the change handler. Nothing ever reaches the pasteboard, and switching
      combine mode off discards the selection. */
  function ToggleCombineAsWritten(st: MenuState, items: seq<ClipItem>): (r: (MenuState, Option<string>))
    ensures r.0.combineMode == !st.combineMode && r.0.selectedItemID == st.selectedItemID
    ensures r.1.None?
    ensures r.0.selected == if st.combineMode then {} else st.selected
  {
    CombineModeChanged(ToggleButton(st), items)
  }

  /** Every event keeps a non-empty selection inside combine mode. */
  lemma EventsKeepSelectionInCombineMode(st: MenuState, items: seq<ClipItem>, item: ClipItem)
    requires SelectionNeedsCombineMode(st)
    ensures SelectionNeedsCombineMode(OnTap(st, item.id))
    ensures OnCombine(st, item).Some? ==> SelectionNeedsCombineMode(OnCombine(st, item).value)
    ensures SelectionNeedsCombineMode(OnDelete(st, items, item).0)
    ensures SelectionNeedsCombineMode(ToggleCombineAsWritten(st, items).0)
  {
  }

  /** In every state the events reach, the change handler finds nothing to
      combine: a non-empty selection only exists in combine mode. */
  lemma AsWrittenNeverCombines(st: MenuState, items: seq<ClipItem>)
    requires SelectionNeedsCombineMode(st)
    ensures CombineModeChanged(st, items).1.None?
  {
  }

  /** A text entry stored as the UTF-8 bytes of "a". */
  function SampleTextEntry(): (x: ClipItem)
    ensures Contains(x.kind, "text") && DecodedText(x) == Some("a")
  {
    var x := ClipItem(seq(16, i => 0), 0, "text", Base64.Encode(Utf8.Encode("a")), "", "");
    assert OccursAt(x.kind, "text", 0);
    OccursImpliesContains(x.kind, "text", 0);
    DecodesStoredText(x, "a");
    x
  }

  /** Selecting the sample entry with its combine button and pressing the
      combine-mode button leaves the pasteboard untouched. */
  lemma AsWrittenDropsSelection()
    ensures var x := SampleTextEntry();
      var st := OnCombine(MenuState({}, false, Option.None), x).value;
      st.selected == {x.id} && ToggleCombineAsWritten(st, [x]).1.None?
  {
  }

  /** Pressing the combine-mode button with the change handler seeing the
      selection: switching combine mode off combines the selection, if any,
      and empties it; switching it on changes nothing else. */
  function ToggleCombine(st: MenuState, items: seq<ClipItem>): (r: (MenuState, Option<string>))
    ensures r.0.combineMode == !st.combineMode && r.0.selectedItemID == st.selectedItemID
    ensures st.combineMode ==> r.0.selected == {} && (r.1.Some? <==> st.selected != {})
    ensures !st.combineMode ==> r.0.selected == st.selected && r.1.None?
    ensures r.1.Some? ==> r.1.value == CombinedText(items, st.selected)
  {
    CombineModeChanged(st.(combineMode := !st.combineMode), items)
  }

  /** The corrected button also keeps the selection inside combine mode, and
      on the sample it puts the entry's text on the pasteboard. */
  lemma ToggleCombineCombines()
    ensures forall st: MenuState, items: seq<ClipItem> :: SelectionNeedsCombineMode(st) ==>
      SelectionNeedsCombineMode(ToggleCombine(st, items).0)
    ensures var x := SampleTextEntry();
      var st := OnCombine(MenuState({}, false, Option.None), x).value;
      ToggleCombine(st, [x]).1 == Some("a")
  {
    var x := SampleTextEntry();
    var st := OnCombine(MenuState({}, false, Option.None), x).value;
    assert SelectedTextItems([x], st.selected) == [x];
  }
}
