/** The collection manager of the home page: the stored lists, the search
    box, the two-state view (home or editor), the handlers that change
    them, and one render, which derives the recent and search views. */
module Index {
  import opened Lists
  import opened Text
  import opened Seqs
  import Recency
  import ListEditor

  datatype View = Home | Editor

  /** The page's state: `lists`, `searchQuery`, `currentView`,
      `currentList` (None for `null`) and `showSearchResults`. */
  datatype App = App(
    lists: seq<GList>,
    searchQuery: string,
    currentView: View,
    currentList: Option<GList>,
    showSearchResults: bool)

  /** What one render draws. The home screen carries the recent view and
      the search dropdown, None while the dropdown is hidden; Some([]) is a
      search that matched nothing. */
  datatype Screen =
    | EditorScreen(list: GList)
    | HomeScreen(recent: seq<GList>, search: Option<seq<GList>>)

  /** A render's outcome: the state it leaves (its sort reorders the stored
      lists in place) and the screen it draws. */
  datatype Frame = Frame(app: App, screen: Screen)

  /** The invariant the handlers keep: the editor is open exactly when a
      current list is set, that list is one of the stored lists, and the
      dropdown is shown exactly when the query has a non-space code point. */
  predicate Consistent(s: App) {
    && (s.currentView == Editor <==> s.currentList.Some?)
    && (s.currentList.Some? ==> s.currentList.value in s.lists)
    && (s.showSearchResults <==> !AllSpace(s.searchQuery))
  }

  /** The state after mounting, once the mount effect has stored the
      initial lists. */
  function Mount(initial: seq<GList>): (s: App)
    ensures s.lists == initial && s.searchQuery == ""
    ensures s.currentView == Home && s.currentList.None? && !s.showSearchResults
    ensures Consistent(s)
    ensures Render(s).screen.HomeScreen? && Render(s).screen.search.None?
  {
    App(initial, "", Home, None, false)
  }

  /** The list's lowercased title contains the lowercased query. Item texts
      play no part. */
  predicate Matches(l: GList, query: string) {
    Includes(Lower(l.title), Lower(query))
  }

  /** `searchResults`: the lists whose title matches, written out. It is
      proved equal to `Seqs.Filter` with the same test in the single-file
      copy; the plain recursion keeps the proofs of this module first-order.
      `SearchFinds` states its contract in full. */
  function SearchResults(lists: seq<GList>, query: string): (r: seq<GList>)
    ensures |r| <= |lists|
  {
    if lists == [] then []
    else if Matches(lists[0], query) then [lists[0]] + SearchResults(lists[1..], query)
    else SearchResults(lists[1..], query)
  }

  /** The search finds every matching list, with its multiplicity, in the
      order of lists, and nothing else. */
  lemma {:induction false} SearchFinds(lists: seq<GList>, query: string)
    ensures IsSubseq(SearchResults(lists, query), lists)
    ensures forall l :: multiset(SearchResults(lists, query))[l] == if Matches(l, query) then multiset(lists)[l] else 0
    ensures forall l :: l in SearchResults(lists, query) <==> l in lists && Matches(l, query)
  {
    if lists != [] {
      var l0, rest := lists[0], SearchResults(lists[1..], query);
      SearchFinds(lists[1..], query);
      assert lists == [l0] + lists[1..];
      if Matches(l0, query) {
        assert ([l0] + rest)[1..] == rest;
      } else {
        assert rest == [] || rest[0] in rest;
      }
    }
  }

  /** A list matches exactly when its lowercased title has the lowercased
      query at some offset. */
  lemma MatchesIff(l: GList, query: string)
    ensures Matches(l, query) ==> exists i :: OccursAt(Lower(l.title), Lower(query), i)
    ensures (exists i :: OccursAt(Lower(l.title), Lower(query), i)) ==> Matches(l, query)
  {
    IncludesIff(Lower(l.title), Lower(query));
  }

  /** The filter runs on the untrimmed query, and the empty query matches
      every list. */
  lemma {:induction false} SearchEmptyQuery(lists: seq<GList>)
    ensures SearchResults(lists, "") == lists
  {
    if lists != [] {
      IncludesEmpty(Lower(lists[0].title));
      SearchEmptyQuery(lists[1..]);
    }
  }

  /** Queries differing only in the case of ASCII letters find the same lists. */
  lemma {:induction false} SearchCaseInsensitive(lists: seq<GList>, q1: string, q2: string)
    requires Lower(q1) == Lower(q2)
    ensures SearchResults(lists, q1) == SearchResults(lists, q2)
  {
    if lists != [] {
      SearchCaseInsensitive(lists[1..], q1, q2);
    }
  }

  /** Filtering keeps the newest-first order of its input. */
  lemma {:induction false} SearchKeepsDescending(lists: seq<GList>, query: string)
    requires Recency.Descending(lists)
    ensures Recency.Descending(SearchResults(lists, query))
  {
    if lists != [] {
      var l0, tail := lists[0], lists[1..];
      SearchKeepsDescending(tail, query);
      SearchFinds(tail, query);
      var rest := SearchResults(tail, query);
      if Matches(l0, query) {
        forall j | 0 <= j < |rest| ensures rest[j].createdAt <= l0.createdAt {
          assert rest[j] in rest;
          var h :| 0 <= h < |tail| && tail[h] == rest[j];
          assert lists[h + 1] == rest[j];
        }
        Recency.ConsDescending(l0, rest);
      }
    }
  }

  /** `handleUpdateList`'s map over the stored lists, written out. */
  function Replace(lists: seq<GList>, u: GList): (r: seq<GList>)
    ensures |r| == |lists|
    ensures forall i :: 0 <= i < |lists| ==> r[i] == if lists[i].id == u.id then u else lists[i]
  {
    if lists == [] then [] else [if lists[0].id == u.id then u else lists[0]] + Replace(lists[1..], u)
  }

  /** With no stored list carrying u's id the update changes nothing. */
  lemma ReplaceAbsent(lists: seq<GList>, u: GList)
    requires forall l :: l in lists ==> l.id != u.id
    ensures Replace(lists, u) == lists
  {
    var r := Replace(lists, u);
    assert forall i :: 0 <= i < |lists| ==> lists[i] in lists && r[i] == lists[i];
  }

  /** Applying the same update twice is applying it once. */
  lemma ReplaceIdempotent(lists: seq<GList>, u: GList)
    ensures Replace(Replace(lists, u), u) == Replace(lists, u)
  {
  }

  /** u is stored after the update exactly when some stored list had its id
      or was u already. */
  lemma ReplaceStores(lists: seq<GList>, u: GList)
    ensures u in Replace(lists, u) <==> (exists l :: l in lists && l.id == u.id) || u in lists
  {
    var r := Replace(lists, u);
    if u in r {
      var i :| 0 <= i < |r| && r[i] == u;
      assert lists[i] in lists;
    }
    if l :| l in lists && l.id == u.id {
      var i :| 0 <= i < |lists| && lists[i] == l;
      assert r[i] == u;
    }
    if u in lists {
      var i :| 0 <= i < |lists| && lists[i] == u;
      assert r[i] == u;
    }
  }

  /** The list `handleCreateList` makes: id and instant come from two
      separate clock reads, so they are separate inputs. */
  function NewList(id: Id, now: int): (l: GList)
    ensures l.id == id && l.title == "" && l.items == [] && l.createdAt == now
    ensures ListEditor.OpensEditingTitle(l)
  {
    GList(id, "", [], now)
  }

  /** `handleCreateList`: the new list goes in front of the stored ones and
      the editor opens on it with the search cleared. */
  function CreateList(s: App, id: Id, now: int): (r: App)
    ensures |r.lists| == |s.lists| + 1 && r.lists[1..] == s.lists
    ensures r.lists[0] == NewList(id, now)
    ensures r.lists[0].title == "" && r.lists[0].items == [] && r.lists[0].id == id && r.lists[0].createdAt == now
    ensures Render(r).screen == EditorScreen(r.lists[0])
    ensures r.searchQuery == "" && !r.showSearchResults
  {
    var l := NewList(id, now);
    App([l] + s.lists, "", Editor, Some(l), false)
  }

  /** `handleViewList`: the editor opens on list with the search cleared;
      the stored lists stay as they are. */
  function ViewList(s: App, list: GList): (r: App)
    ensures r.lists == s.lists
    ensures Render(r).screen == EditorScreen(list)
    ensures r.searchQuery == "" && !r.showSearchResults
  {
    s.(currentView := Editor, currentList := Some(list), searchQuery := "", showSearchResults := false)
  }

  /** `handleUpdateList`: every stored list with u's id becomes u, and u
      becomes the current list. */
  function UpdateList(s: App, u: GList): (r: App)
    ensures |r.lists| == |s.lists|
    ensures forall i :: 0 <= i < |s.lists| ==> r.lists[i] == if s.lists[i].id == u.id then u else s.lists[i]
    ensures r.currentList == Some(u) && r.currentView == s.currentView
    ensures r.searchQuery == s.searchQuery && r.showSearchResults == s.showSearchResults
  {
    s.(lists := Replace(s.lists, u), currentList := Some(u))
  }

  /** `handleBackToHome`: back to the home screen, no current list. */
  function BackToHome(s: App): (r: App)
    ensures r.lists == s.lists && r.searchQuery == s.searchQuery && r.showSearchResults == s.showSearchResults
    ensures r.currentView == Home && r.currentList.None?
    ensures Render(r).screen.HomeScreen?
  {
    s.(currentView := Home, currentList := None)
  }

  /** `handleSearchChange`: stores the query as typed; the dropdown shows
      exactly when the query has a non-space code point. */
  function SearchChange(s: App, query: string): (r: App)
    ensures r.searchQuery == query
    ensures r.showSearchResults <==> !AllSpace(query)
    ensures r.lists == s.lists && r.currentView == s.currentView && r.currentList == s.currentList
  {
    TrimEmptyIff(query);
    s.(searchQuery := query, showSearchResults := Trim(query) != "")
  }

  /** One render. The sort of `recentLists` reorders the stored array itself, so
      the state it leaves holds the sorted lists, and the search runs on the
      sorted array. The editor is drawn when the view is the editor and a
      current list is set; otherwise the home screen. */
  function Render(s: App): (f: Frame)
    ensures f.app.lists == Recency.SortByRecency(s.lists)
    ensures f.app == s.(lists := f.app.lists)
    ensures f.screen.EditorScreen? <==> s.currentView == Editor && s.currentList.Some?
    ensures s.currentView == Editor && s.currentList.Some? ==> f.screen == EditorScreen(s.currentList.value)
    ensures f.screen.HomeScreen? ==> f.screen.recent == Recency.RecentLists(s.lists)
    ensures f.screen.HomeScreen? ==> (f.screen.search.Some? <==> s.showSearchResults)
    ensures f.screen.HomeScreen? && f.screen.search.Some? ==>
      f.screen.search.value == SearchResults(f.app.lists, s.searchQuery)
  {
    var sorted := Recency.SortByRecency(s.lists);
    var recent := Take(sorted, Recency.RecentLimit);
    var results := SearchResults(sorted, s.searchQuery);
    var screen :=
      if s.currentView == Editor && s.currentList.Some? then EditorScreen(s.currentList.value)
      else HomeScreen(recent, if s.showSearchResults then Some(results) else None);
    Frame(s.(lists := sorted), screen)
  }

  /** The editor is drawn: the view is the editor and a list is current. */
  predicate EditorShown(s: App) {
    s.currentView == Editor && s.currentList.Some?
  }

  /** What the home screen shows: the search dropdown lists every stored
      list whose title matches the typed query, newest first. */
  lemma RenderedSearch(s: App)
    requires !EditorShown(s) && s.showSearchResults
    ensures Render(s).screen.HomeScreen? && Render(s).screen.search.Some?
    ensures IsSubseq(Render(s).screen.search.value, Render(s).app.lists)
    ensures forall l :: multiset(Render(s).screen.search.value)[l] == if Matches(l, s.searchQuery) then multiset(s.lists)[l] else 0
    ensures forall l :: l in Render(s).screen.search.value <==> l in s.lists && Matches(l, s.searchQuery)
    ensures Recency.Descending(Render(s).screen.search.value)
  {
    var sorted := Recency.SortByRecency(s.lists);
    assert forall l :: l in sorted <==> l in multiset(sorted);
    assert forall l :: l in s.lists <==> l in multiset(s.lists);
    SearchFinds(sorted, s.searchQuery);
    SearchKeepsDescending(sorted, s.searchQuery);
  }

  /** Rendering again draws the same screen and leaves the same state: the
      in-place sort only reorders the stored lists the first time. */
  lemma RenderStable(s: App)
    ensures Render(Render(s).app) == Render(s)
  {
    Recency.SortIdempotent(s.lists);
    var sorted := Recency.SortByRecency(s.lists);
    assert Take(Recency.SortByRecency(sorted), Recency.RecentLimit) == Take(sorted, Recency.RecentLimit);
  }

  /** The user's intents: the header's create button, a click on a shown
      list, an update from the editor, the back button, a keystroke in the
      search box. */
  datatype Intent =
    | Create(id: Id, now: int)
    | View(list: GList)
    | Update(list: GList)
    | Back
    | Search(query: string)

  /** The intents a screen can emit: the home screen offers create, search
      and a click on a stored list (it shows only stored lists, see
      `ShownIsStored`); the editor sends versions of its own list and back. */
  predicate Offered(s: App, i: Intent) {
    match i
    case Create(_, _) => !EditorShown(s)
    case Search(_) => !EditorShown(s)
    case View(l) => !EditorShown(s) && l in s.lists
    case Update(u) => EditorShown(s) && ListEditor.SameList(s.currentList.value, u)
    case Back => EditorShown(s)
  }

  /** Handles an intent against the state the last render left. Only
      create changes how many lists are stored; no intent removes one. */
  function Dispatch(s: App, i: Intent): (r: App)
    ensures i.Create? ==> |r.lists| == |s.lists| + 1
    ensures !i.Create? ==> |r.lists| == |s.lists|
  {
    var t := Render(s).app;
    match i
    case Create(id, now) => CreateList(t, id, now)
    case View(l) => ViewList(t, l)
    case Update(u) => UpdateList(t, u)
    case Back => BackToHome(t)
    case Search(q) => SearchChange(t, q)
  }

  /** Every list the home screen shows, in the recent view or in the
      dropdown, is a stored list. */
  lemma ShownIsStored(s: App)
    ensures Render(s).screen.HomeScreen? ==> forall l :: l in Render(s).screen.recent ==> l in s.lists
    ensures Render(s).screen.HomeScreen? && Render(s).screen.search.Some? ==>
      forall l :: l in Render(s).screen.search.value ==> l in s.lists
  {
    if Render(s).screen.HomeScreen? {
      var recent := Render(s).screen.recent;
      forall l | l in recent ensures l in s.lists {
        assert l in multiset(recent);
      }
      if Render(s).screen.search.Some? {
        RenderedSearch(s);
      }
    }
  }

  /** Every intent the screen offers keeps the invariant. */
  lemma DispatchConsistent(s: App, i: Intent)
    requires Consistent(s) && Offered(s, i)
    ensures Consistent(Dispatch(s, i))
  {
    var t := Render(s).app;
    match i
    case Create(id, now) =>
    case View(l) =>
      assert l in multiset(t.lists) by {
        assert l in multiset(s.lists);
      }
    case Update(u) =>
      var c := s.currentList.value;
      assert c in multiset(t.lists) by {
        assert c in multiset(s.lists);
      }
      ReplaceStores(t.lists, u);
    case Back =>
    case Search(q) =>
  }

  /** In a consistent state the editor is drawn exactly when the view is the
      editor, and a query of spaces only never shows the dropdown, although
      the filter itself would match every list. */
  lemma ConsistentScreens(s: App)
    requires Consistent(s)
    ensures Render(s).screen.EditorScreen? <==> s.currentView == Editor
    ensures AllSpace(s.searchQuery) && s.currentView == Home ==> Render(s).screen.search.None?
  {
  }
}
