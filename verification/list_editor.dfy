/** The list editor: the four mutations of one list (save title, add,
    delete and toggle an item) and the editor's own local state. Every
    mutation hands the whole updated list to the caller (`onUpdate`); none
    changes the list it was given. */
module ListEditor {
  import opened Lists
  import opened Text
  import opened Seqs

  const Placeholder := "Untitled List"

  /** b is a version of list a: same id and creation instant. */
  predicate SameList(a: GList, b: GList) {
    a.id == b.id && a.createdAt == b.createdAt
  }

  /** No item of items has id itemId. */
  predicate Absent(items: seq<Item>, itemId: Id) {
    forall x :: x in items ==> x.id != itemId
  }

  /** `handleDeleteItem`'s filter over the items, written out. It is proved
      equal to `Seqs.Filter` with the same test in the single-file copy; the
      plain recursion keeps the proofs of this module first-order.
      `WithoutIdKeeps` states its contract in full. */
  function WithoutId(items: seq<Item>, itemId: Id): (r: seq<Item>)
    ensures |r| <= |items|
  {
    if items == [] then []
    else if items[0].id != itemId then [items[0]] + WithoutId(items[1..], itemId)
    else WithoutId(items[1..], itemId)
  }

  /** WithoutId keeps the other items in order, each as often as before,
      and drops every item carrying itemId. */
  lemma WithoutIdKeeps(items: seq<Item>, itemId: Id)
    ensures IsSubseq(WithoutId(items, itemId), items)
    ensures forall x :: multiset(WithoutId(items, itemId))[x] == if x.id == itemId then 0 else multiset(items)[x]
    ensures Absent(items, itemId) ==> WithoutId(items, itemId) == items
  {
    WithoutIdInOrder(items, itemId);
    WithoutIdCounts(items, itemId);
    if Absent(items, itemId) {
      WithoutIdNone(items, itemId);
    }
  }

  /** The items WithoutId keeps come in their order in items. */
  lemma {:induction false} WithoutIdInOrder(items: seq<Item>, itemId: Id)
    ensures IsSubseq(WithoutId(items, itemId), items)
  {
    if items != [] {
      var x, rest := items[0], WithoutId(items[1..], itemId);
      WithoutIdInOrder(items[1..], itemId);
      if x.id != itemId {
        assert ([x] + rest)[1..] == rest;
      } else {
        WithoutIdCounts(items[1..], itemId);
        assert rest == [] || rest[0] in multiset(rest);
      }
    }
  }

  /** WithoutId keeps each other item as often as items holds it and
      drops every item carrying itemId. */
  lemma {:induction false} WithoutIdCounts(items: seq<Item>, itemId: Id)
    ensures forall x :: multiset(WithoutId(items, itemId))[x] == if x.id == itemId then 0 else multiset(items)[x]
  {
    if items != [] {
      WithoutIdCounts(items[1..], itemId);
      assert items == [items[0]] + items[1..];
    }
  }

  /** With no item carrying itemId, WithoutId returns the items unchanged. */
  lemma {:induction false} WithoutIdNone(items: seq<Item>, itemId: Id)
    requires Absent(items, itemId)
    ensures WithoutId(items, itemId) == items
  {
    if items != [] {
      WithoutIdNone(items[1..], itemId);
      assert items == [items[0]] + items[1..];
    }
  }

  /** `handleToggleItem`'s map over the items, written out. */
  function Toggled(items: seq<Item>, itemId: Id): (r: seq<Item>)
    ensures |r| == |items|
    ensures forall i :: 0 <= i < |items| ==>
      && r[i].id == items[i].id && r[i].text == items[i].text
      && (r[i].completed != items[i].completed <==> items[i].id == itemId)
  {
    if items == [] then []
    else
      var x := items[0];
      [if x.id == itemId then x.(completed := !x.completed) else x] + Toggled(items[1..], itemId)
  }

  /** `handleTitleSave`: the typed title, trimmed, or the placeholder when
      nothing but spaces was typed. */
  function SaveTitle(list: GList, typed: string): (r: GList)
    ensures SameList(list, r) && r.items == list.items
    ensures r.title != ""
    ensures !AllSpace(typed) ==> r.title == Trim(typed)
    ensures AllSpace(typed) ==> r.title == Placeholder
  {
    TrimEmptyIff(typed);
    list.(title := Or(Trim(typed), Placeholder))
  }

  /** `handleAddItem`: None when the typed text is only spaces (no update
      is sent); otherwise the list with one new, uncompleted item at the
      end carrying the trimmed text and the id newId. */
  function AddItem(list: GList, typed: string, newId: Id): (r: Option<GList>)
    ensures r.None? <==> AllSpace(typed)
    ensures r.Some? ==>
      && SameList(list, r.value) && r.value.title == list.title
      && |r.value.items| == |list.items| + 1
      && r.value.items[..|list.items|] == list.items
      && r.value.items[|list.items|] == Item(newId, Trim(typed), false)
  {
    TrimEmptyIff(typed);
    if Trim(typed) != "" then
      Some(list.(items := list.items + [Item(newId, Trim(typed), false)]))
    else None
  }

  /** `handleDeleteItem`: drops every item whose id is itemId. */
  function DeleteItem(list: GList, itemId: Id): (r: GList)
    ensures SameList(list, r) && r.title == list.title
    ensures Absent(r.items, itemId)
    ensures IsSubseq(r.items, list.items)
    ensures forall x :: x in list.items && x.id != itemId ==> x in r.items
    ensures forall x :: multiset(r.items)[x] == if x.id == itemId then 0 else multiset(list.items)[x]
    ensures Absent(list.items, itemId) ==> r == list
  {
    var r := list.(items := WithoutId(list.items, itemId));
    WithoutIdKeeps(list.items, itemId);
    assert forall x :: x in r.items <==> x in multiset(r.items);
    r
  }

  /** `handleToggleItem`: flips `completed` on every item whose id is itemId. */
  function ToggleItem(list: GList, itemId: Id): (r: GList)
    ensures SameList(list, r) && r.title == list.title
    ensures |r.items| == |list.items|
    ensures forall i :: 0 <= i < |list.items| ==>
      && r.items[i].id == list.items[i].id && r.items[i].text == list.items[i].text
      && (r.items[i].completed != list.items[i].completed <==> list.items[i].id == itemId)
  {
    list.(items := Toggled(list.items, itemId))
  }

  /** Toggling the same id twice restores the list. */
  lemma ToggleTwice(list: GList, itemId: Id)
    ensures ToggleItem(ToggleItem(list, itemId), itemId) == list
  {
    var r := ToggleItem(ToggleItem(list, itemId), itemId);
    assert forall i :: 0 <= i < |list.items| ==> r.items[i] == list.items[i];
  }

  /** Toggling an id no item carries changes nothing. */
  lemma ToggleAbsent(list: GList, itemId: Id)
    requires Absent(list.items, itemId)
    ensures ToggleItem(list, itemId) == list
  {
    var r := ToggleItem(list, itemId);
    assert forall i :: 0 <= i < |list.items| ==> list.items[i] in list.items && r.items[i] == list.items[i];
  }

  /** Deleting the item just added under a fresh id gives the list back. */
  lemma DeleteUndoesAdd(list: GList, typed: string, newId: Id)
    requires Absent(list.items, newId) && !AllSpace(typed)
    ensures DeleteItem(AddItem(list, typed, newId).value, newId) == list
  {
    var n := Item(newId, Trim(typed), false);
    assert AddItem(list, typed, newId).value.items == list.items + [n];
    WithoutIdAppend(list.items, [n], newId);
    WithoutIdKeeps(list.items, newId);
    assert WithoutId([n], newId) == WithoutId([], newId) == [];
    assert list.items + [] == list.items;
  }

  lemma {:induction false} WithoutIdAppend(a: seq<Item>, b: seq<Item>, itemId: Id)
    ensures WithoutId(a + b, itemId) == WithoutId(a, itemId) + WithoutId(b, itemId)
  {
    if a == [] {
      assert a + b == b;
    } else {
      var x, rest := a[0], a[1..];
      assert (a + b)[0] == x && (a + b)[1..] == rest + b;
      WithoutIdAppend(rest, b, itemId);
      var wr, wb := WithoutId(rest, itemId), WithoutId(b, itemId);
      if x.id != itemId {
        assert WithoutId(a + b, itemId) == [x] + (wr + wb);
        assert WithoutId(a, itemId) == [x] + wr;
        assert [x] + (wr + wb) == ([x] + wr) + wb;
      } else {
        assert WithoutId(a + b, itemId) == wr + wb;
        assert WithoutId(a, itemId) == wr;
      }
    }
  }

  /** Deleting twice is deleting once. */
  lemma DeleteIdempotent(list: GList, itemId: Id)
    ensures DeleteItem(DeleteItem(list, itemId), itemId) == DeleteItem(list, itemId)
  {
  }

  /** The initial `isEditingTitle`: the editor opens on the title field exactly
      when the list has no title yet. */
  function OpensEditingTitle(list: GList): bool {
    list.title == ""
  }

  /** A list whose title was saved never reopens on the title field. */
  lemma SavedTitleOpensClosed(list: GList, typed: string)
    ensures !OpensEditingTitle(SaveTitle(list, typed))
  {
  }

  /** The placeholder is its own trim. */
  lemma PlaceholderBare()
    ensures Trim(Placeholder) == Placeholder
  {
    assert !IsSpace(Placeholder[0]) && !IsSpace(Placeholder[|Placeholder| - 1]);
    assert Placeholder[0..|Placeholder|] == Placeholder;
    assert TrimmedAt(Placeholder, Placeholder, 0);
    TrimUnique(Placeholder, Placeholder, 0);
  }

  /** A saved title is bare and saving it again changes nothing. */
  lemma SaveTitleStable(list: GList, typed: string)
    ensures Bare(SaveTitle(list, typed).title)
    ensures SaveTitle(SaveTitle(list, typed), SaveTitle(list, typed).title) == SaveTitle(list, typed)
  {
    var saved := SaveTitle(list, typed);
    TrimEmptyIff(typed);
    if Trim(typed) != "" {
      TrimIdempotent(typed);
      assert Trim(saved.title) == saved.title;
    } else {
      PlaceholderBare();
      assert Trim(saved.title) == saved.title;
    }
    TrimEmptyIff(saved.title);
  }

  /** The editor's local state: the title being typed, the item text being
      typed, and whether the title field is shown. */
  datatype Editor = Editor(title: string, newItemText: string, isEditingTitle: bool)

  /** What a handler leaves: the editor's next local state and the list it
      passes to `onUpdate`, if any. */
  datatype Step = Step(editor: Editor, update: Option<GList>)

  /** The local state a freshly mounted editor starts from. */
  function Open(list: GList): (e: Editor)
    ensures e.title == list.title && e.newItemText == ""
    ensures e.isEditingTitle == OpensEditingTitle(list)
  {
    Editor(list.title, "", list.title == "")
  }

  /** `handleTitleSave`, with its local effect: leaves the title field. */
  function HandleTitleSave(e: Editor, list: GList): (s: Step)
    ensures s.editor == e.(isEditingTitle := false)
    ensures s.update == Some(SaveTitle(list, e.title))
  {
    Step(e.(isEditingTitle := false), Some(SaveTitle(list, e.title)))
  }

  /** `handleAddItem`, with its local effect: clears the input after an add,
      leaves everything as it was otherwise. */
  function HandleAddItem(e: Editor, list: GList, newId: Id): (s: Step)
    ensures s.update == AddItem(list, e.newItemText, newId)
    ensures s.update.None? <==> AllSpace(e.newItemText)
    ensures s.update.None? ==> s.editor == e
    ensures s.update.Some? ==> SameList(list, s.update.value) && s.editor == e.(newItemText := "")
  {
    match AddItem(list, e.newItemText, newId)
    case None => Step(e, None)
    case Some(l) => Step(e.(newItemText := ""), Some(l))
  }

  /** The add button is enabled: it is disabled while the trimmed item text is empty. */
  function AddEnabled(e: Editor): bool {
    Trim(e.newItemText) != ""
  }

  /** The button is enabled exactly when pressing it sends an update, so
      the handler's own guard only matters for the Enter key. */
  lemma AddEnabledIff(e: Editor, list: GList, newId: Id)
    ensures AddEnabled(e) <==> HandleAddItem(e, list, newId).update.Some?
  {
    TrimEmptyIff(e.newItemText);
  }
}
