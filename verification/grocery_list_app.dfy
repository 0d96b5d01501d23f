/** The single-file copy of the application: its list editor handlers and
    the collection logic of its top-level component, written with the array
    combinators of `Seqs` where the copy calls `filter` and `map`. Each
    member is proved equal to the structured model of `ListEditor`, `Index`
    or `Recency`, so every property proved there holds of this copy too.

    This copy calls the same `sort` as the structured one. JavaScript fixes
    what `sort` returns (a stable sort by the comparator) but not how it
    gets there, so here a selection sort stands in for the engine's sort,
    a second stand-in beside the insertion sort of `Recency`; `SortUnique`
    shows the two return the same sequence. */
module GroceryListApp {
  import opened Lists
  import opened Text
  import opened Seqs
  import ListEditor
  import Recency
  import Index

  /** The initial `isEditingTitle`: the title field is open on a list with no title. */
  function StartsEditingTitle(list: GList): (r: bool)
    ensures r == ListEditor.Open(list).isEditingTitle
    ensures r <==> list.title == ""
  {
    !(list.title != "")
  }

  /** `handleTitleSave`: the trimmed title, or the placeholder when that is empty. */
  function TitleSave(list: GList, title: string): (r: GList)
    ensures r == ListEditor.SaveTitle(list, title)
    ensures r.title != ""
  {
    list.(title := Or(Trim(title), "Untitled List"))
  }

  /** `handleAddItem`: no update unless the trimmed item text is non-empty. */
  function AddItem(list: GList, newItemText: string, newId: Id): (r: Option<GList>)
    ensures r == ListEditor.AddItem(list, newItemText, newId)
    ensures r.None? <==> AllSpace(newItemText)
  {
    if Trim(newItemText) != "" then
      Some(list.(items := list.items + [Item(newId, Trim(newItemText), false)]))
    else None
  }

  /** `handleDeleteItem`: the copy's filter over the items. */
  function DeleteItem(list: GList, itemId: Id): (r: GList)
    ensures r == ListEditor.DeleteItem(list, itemId)
    ensures ListEditor.Absent(r.items, itemId)
  {
    FilterWithoutId(list.items, itemId);
    list.(items := Filter(list.items, (item: Item) => item.id != itemId))
  }

  lemma {:induction false} FilterWithoutId(items: seq<Item>, itemId: Id)
    ensures Filter(items, (item: Item) => item.id != itemId) == ListEditor.WithoutId(items, itemId)
  {
    if items != [] {
      FilterWithoutId(items[1..], itemId);
    }
  }

  /** `handleToggleItem`: the copy's map over the items. */
  function ToggleItem(list: GList, itemId: Id): (r: GList)
    ensures r == ListEditor.ToggleItem(list, itemId)
    ensures |r.items| == |list.items|
  {
    var r := list.(items := Map(list.items,
      (item: Item) => if item.id == itemId then item.(completed := !item.completed) else item));
    assert r.items == ListEditor.Toggled(list.items, itemId);
    r
  }

  /** The index of the first of the newest lists of s. */
  function FirstNewest(s: seq<GList>): (i: nat)
    requires s != []
    ensures i < |s|
    ensures forall j :: 0 <= j < |s| ==> s[j].createdAt <= s[i].createdAt
    ensures forall j :: 0 <= j < i ==> s[j].createdAt < s[i].createdAt
  {
    if |s| == 1 then 0
    else
      var k := FirstNewest(s[1..]);
      if s[0].createdAt >= s[k + 1].createdAt then 0 else k + 1
  }

  /** A stable sort, newest first: repeatedly takes out the first of the
      newest remaining lists. */
  function SelectionSort(s: seq<GList>): (r: seq<GList>)
    ensures multiset(r) == multiset(s)
    decreases |s|
  {
    if s == [] then []
    else
      var i := FirstNewest(s);
      assert s == s[..i] + [s[i]] + s[i + 1..];
      [s[i]] + SelectionSort(s[..i] + s[i + 1..])
  }

  lemma SelectionSortUnfold(s: seq<GList>)
    requires s != []
    ensures SelectionSort(s) == [s[FirstNewest(s)]] + SelectionSort(s[..FirstNewest(s)] + s[FirstNewest(s) + 1..])
  {
  }

  /** Every list left after taking one out of s was in s. */
  lemma RemovedIsIn(s: seq<GList>, i: int, y: GList)
    requires 0 <= i < |s| && y in multiset(s[..i] + s[i + 1..])
    ensures y in s
  {
    assert s == s[..i] + [s[i]] + s[i + 1..];
    assert multiset(s) == multiset(s[..i] + s[i + 1..]) + multiset{s[i]};
    assert y in multiset(s);
  }

  /** Every list left after taking out the first newest one is no newer. */
  lemma NewestBoundsRest(s: seq<GList>, y: GList)
    requires s != [] && y in multiset(s[..FirstNewest(s)] + s[FirstNewest(s) + 1..])
    ensures y.createdAt <= s[FirstNewest(s)].createdAt
  {
    RemovedIsIn(s, FirstNewest(s), y);
    var h :| 0 <= h < |s| && s[h] == y;
  }

  lemma {:induction false} SelectionSortDescending(s: seq<GList>)
    ensures Recency.Descending(SelectionSort(s))
    decreases |s|
  {
    if s != [] {
      var i := FirstNewest(s);
      var rest := s[..i] + s[i + 1..];
      SelectionSortUnfold(s);
      SelectionSortDescending(rest);
      var t := SelectionSort(rest);
      forall j | 0 <= j < |t| ensures t[j].createdAt <= s[i].createdAt {
        assert t[j] in multiset(t);
        NewestBoundsRest(s, t[j]);
      }
      Recency.ConsDescending(s[i], t);
    }
  }

  /** No list of s is created at k, so none is kept. */
  lemma StampedNone(s: seq<GList>, k: int)
    requires forall j :: 0 <= j < |s| ==> s[j].createdAt != k
    ensures Recency.Stamped(s, k) == []
  {
    if Recency.Stamped(s, k) != [] {
      var x := Recency.Stamped(s, k)[0];
      Recency.StampedMembers(s, k, x);
      assert false;
    }
  }

  /** Moving m to the front reorders no instant's lists when none of the
      lists it overtakes shares its instant. */
  lemma MoveToFront(before: seq<GList>, m: GList, after: seq<GList>, k: int)
    requires m.createdAt == k ==> Recency.Stamped(before, k) == []
    ensures Recency.Stamped(before + ([m] + after), k) == Recency.Stamped([m] + (before + after), k)
  {
    Recency.StampedAppend(before, [m] + after, k);
    Recency.StampedCons(m, after, k);
    Recency.StampedCons(m, before + after, k);
    Recency.StampedAppend(before, after, k);
    var sa := Recency.Stamped(after, k);
    if m.createdAt == k {
      assert [] + ([m] + sa) == [m] + ([] + sa);
    }
  }

  /** Moving the first newest list to the front reorders no instant's lists. */
  lemma TakeOutNewestStamped(s: seq<GList>, k: int)
    requires s != []
    ensures Recency.Stamped(s, k)
         == Recency.Stamped([s[FirstNewest(s)]] + (s[..FirstNewest(s)] + s[FirstNewest(s) + 1..]), k)
  {
    var i := FirstNewest(s);
    var m, before, after := s[i], s[..i], s[i + 1..];
    assert s == before + ([m] + after);
    if m.createdAt == k {
      forall j | 0 <= j < |before| ensures before[j].createdAt != k {
        assert before[j] == s[j];
      }
      StampedNone(before, k);
    }
    MoveToFront(before, m, after, k);
  }

  lemma {:induction false} SelectionSortStable(s: seq<GList>)
    ensures Recency.StableOf(s, SelectionSort(s))
    decreases |s|
  {
    if s != [] {
      var i := FirstNewest(s);
      var m, rest := s[i], s[..i] + s[i + 1..];
      SelectionSortUnfold(s);
      SelectionSortStable(rest);
      forall k ensures Recency.Stamped(SelectionSort(s), k) == Recency.Stamped(s, k) {
        Recency.StampedCons(m, SelectionSort(rest), k);
        Recency.StampedCons(m, rest, k);
        TakeOutNewestStamped(s, k);
      }
    }
  }

  /** The copy's `recentLists`: the stand-in sort, newest first, cut at five. */
  function RecentLists(lists: seq<GList>): (r: seq<GList>)
    ensures r == Recency.RecentLists(lists)
    ensures |r| <= 5 && Recency.Descending(r)
  {
    SelectionSortDescending(lists);
    SelectionSortStable(lists);
    Recency.SortUnique(lists, SelectionSort(lists));
    Take(SelectionSort(lists), 5)
  }

  /** The copy's `searchResults`: its filter over the lists by lowercased title. */
  function SearchResults(lists: seq<GList>, searchQuery: string): (r: seq<GList>)
    ensures r == Index.SearchResults(lists, searchQuery)
    ensures forall l :: l in r <==> l in lists && Index.Matches(l, searchQuery)
  {
    FilterMatches(lists, searchQuery);
    Index.SearchFinds(lists, searchQuery);
    Filter(lists, (list: GList) => Includes(Lower(list.title), Lower(searchQuery)))
  }

  lemma {:induction false} FilterMatches(lists: seq<GList>, searchQuery: string)
    ensures Filter(lists, (list: GList) => Includes(Lower(list.title), Lower(searchQuery)))
         == Index.SearchResults(lists, searchQuery)
  {
    if lists != [] {
      FilterMatches(lists[1..], searchQuery);
    }
  }

  /** `handleCreateList`: the new list in front, and the editor opens on it. */
  function CreateList(s: Index.App, id: Id, now: int): (r: Index.App)
    ensures r == Index.CreateList(s, id, now)
    ensures r.currentList == Some(r.lists[0])
  {
    var newList := GList(id, "", [], now);
    s.(lists := [newList] + s.lists, currentList := Some(newList), currentView := Index.Editor,
       searchQuery := "", showSearchResults := false)
  }

  /** `handleViewList`. */
  function ViewList(s: Index.App, list: GList): (r: Index.App)
    ensures r == Index.ViewList(s, list)
    ensures r.currentList == Some(list) && r.currentView == Index.Editor
  {
    s.(currentList := Some(list), currentView := Index.Editor, searchQuery := "", showSearchResults := false)
  }

  /** `handleBackToHome`. */
  function BackToHome(s: Index.App): (r: Index.App)
    ensures r == Index.BackToHome(s)
    ensures r.currentView == Index.Home && r.currentList.None?
  {
    s.(currentView := Index.Home, currentList := None)
  }

  /** `handleUpdateList`'s map over the stored lists by id. */
  function UpdateLists(lists: seq<GList>, updatedList: GList): (r: seq<GList>)
    ensures r == Index.Replace(lists, updatedList)
    ensures |r| == |lists|
  {
    Map(lists, (list: GList) => if list.id == updatedList.id then updatedList else list)
  }

  /** `handleUpdateList`: the stored lists updated, and the updated list current. */
  function UpdateList(s: Index.App, updatedList: GList): (r: Index.App)
    ensures r == Index.UpdateList(s, updatedList)
    ensures r.currentList == Some(updatedList)
  {
    s.(lists := UpdateLists(s.lists, updatedList), currentList := Some(updatedList))
  }

  /** `handleSearchChange`: the dropdown flag says whether the trimmed query is non-empty. */
  function SearchChange(s: Index.App, query: string): (r: Index.App)
    ensures r == Index.SearchChange(s, query)
    ensures r.showSearchResults <==> !AllSpace(query)
  {
    TrimEmptyIff(query);
    s.(searchQuery := query, showSearchResults := |Trim(query)| > 0)
  }
}
