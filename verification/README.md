# Grocery list state core, in Dafny

This project models the state core of a client-side grocery list manager. Users keep
named lists of checklist items and search the lists by title. The home page shows the
five most recent lists, and a list editor changes one list at a time.

The modules follow the program's structure:

- `Lists`: the data model. An `Item` has an id, a text and a completion flag. A `GList`
  has an id, a title, its items and its creation instant in milliseconds.
- `Text`: the string primitives the handlers use. `trim` strips exactly the ECMAScript
  WhiteSpace and LineTerminator code points. `toLowerCase` is modelled on ASCII letters.
  `includes` is a left-to-right scan, proved equal to "occurs at some offset".
- `Seqs`: `filter`, `map`, `slice(0, n)` and the subsequence relation.
- `ListEditor`: the editor's four handlers (save title, add, delete, toggle), its local
  state (`isEditingTitle`, the typed texts) and the add button's enabled state.
- `Recency`: the recent view, a stable sort by `createdAt` newest first, cut at five.
  `SortUnique` shows that every stable descending sort yields the same sequence. The
  result of `sort` is therefore fixed, whatever algorithm the engine uses.
- `Index`: the home page's state (`lists`, `searchQuery`, `currentView`, `currentList`,
  `showSearchResults`), its handlers and one render. It also holds the invariant the
  handlers keep for every intent the drawn screen can emit (`DispatchConsistent`).
- `GroceryListApp`: the single-file copy of the application. Its handlers and its
  collection logic are written with the `filter` and `map` of `Seqs`, as the copy
  calls them. Each member is proved equal to its counterpart in `ListEditor`, `Index`
  or `Recency`, so every property proved there holds of this copy as well. The copy
  calls the same `sort` as the structured program. Here a selection sort stands in for
  the engine's stable sort, a second stand-in beside the insertion sort of `Recency`,
  and `SortUnique` shows that both return the same sequence.

Ids and instants come from `Date.now()` and `new Date()` in the program. Here they are
parameters. A new list takes its id and its creation instant from two separate clock
reads, so they are two inputs. Nothing makes ids unique. Delete removes every item that
carries the id, toggle flips every such item, and update replaces every list that
carries the id.

Three behaviours of the code shape the model:

- `recentLists` calls `lists.sort(...)`, which reorders the array held in state in
  place. `Index.Render` therefore leaves the stored lists sorted, and the search runs on
  the sorted array, so search results come out newest first. `RenderStable` shows that
  a second render with no intent in between reorders nothing.
- The search filter uses the untrimmed query, so an empty query matches every list
  (`SearchEmptyQuery`). Only the dropdown's visibility flag uses `trim`, so with an
  all-space query nothing is shown (`ConsistentScreens`).
- Nothing in the code makes ids unique, and the model does not assume it.

## Model

| member | source | states |
|---|---|---|
| Text.Trim | src/components/ListEditor.tsx:41 | `trim` leaves a string that neither starts nor ends with a space and is cut out of the input with only spaces before and after it |
| Text.TrimUnique | src/components/ListEditor.tsx:41 | those two conditions determine `trim`'s result: any bare string cut out of s between runs of spaces is Trim(s) |
| Text.TrimEmptyIff | src/pages/Index.tsx:135 | a string trims to the empty string exactly when every code point in it is a space |
| Text.TrimIdempotent | src/components/ListEditor.tsx:48 | trimming an already trimmed text changes nothing |
| Text.Lower | src/pages/Index.tsx:97 | lowercasing keeps the length and maps every code point by itself (ASCII letters to lower case) |
| Text.LowerIdempotent | src/pages/Index.tsx:97 | lowercasing twice is lowercasing once |
| Text.IncludesSound | src/pages/Index.tsx:97 | when `includes` is true, the needle occurs at a concrete offset of the haystack |
| Text.IncludesComplete | src/pages/Index.tsx:97 | every occurrence of the needle makes `includes` true |
| Text.IncludesIff | src/pages/Index.tsx:97 | `includes` holds exactly when the needle occurs at some offset |
| Text.IncludesEmpty | src/pages/Index.tsx:97 | every string includes the empty string |
| Text.Includes | src/pages/Index.tsx:97 | `includes` of the empty needle is true, and a needle that is included is no longer than the haystack; the full characterisation is `Text.IncludesIff` |
| Seqs.Filter | GroceryListApp.jsx:489-491 | `filter` returns the elements that pass the test, in their order in the input, each exactly as often as in the input, and nothing else |
| Seqs.Map | GroceryListApp.jsx:515-517 | `map` keeps the length and applies the function at every position |
| Seqs.Take | src/pages/Index.tsx:93 | `slice(0, n)` is the prefix of length min(n, length) |
| ListEditor.WithoutId | src/components/ListEditor.tsx:63 | the item filter never lengthens the items; its full contract is `ListEditor.WithoutIdKeeps` |
| ListEditor.WithoutIdKeeps | src/components/ListEditor.tsx:63 | the item filter keeps the other items in order, each as often as before, and drops every item with the id; with no such item it returns the items unchanged |
| ListEditor.WithoutIdAppend | src/components/ListEditor.tsx:63 | filtering a concatenation is concatenating the filtered parts |
| ListEditor.Toggled | src/components/ListEditor.tsx:70-72 | the item map keeps the length and every id and text, and flips `completed` at exactly the positions whose id matches |
| ListEditor.SaveTitle | src/components/ListEditor.tsx:39-42 | saving keeps the id, the creation instant and the items; the title is never empty; it is the trimmed typed title when that has a non-space code point and "Untitled List" otherwise |
| ListEditor.AddItem | src/components/ListEditor.tsx:44-58 | no update exactly when the typed text is all spaces; otherwise the same list with its old items as a prefix and exactly one new uncompleted item at the end, with the trimmed text and the new id |
| ListEditor.DeleteItem | src/components/ListEditor.tsx:60-65 | after a delete no item carries the id; the survivors are a subsequence of the old items, every item with another id survives as often as before, and an absent id leaves the list unchanged |
| ListEditor.ToggleItem | src/components/ListEditor.tsx:67-74 | toggling keeps the id, the title, the length and every item's id and text, and flips `completed` exactly where the id matches |
| ListEditor.ToggleTwice | src/components/ListEditor.tsx:67-74 | toggling the same id twice restores the list |
| ListEditor.ToggleAbsent | src/components/ListEditor.tsx:67-74 | toggling an id no item carries changes nothing |
| ListEditor.DeleteUndoesAdd | src/components/ListEditor.tsx:44-65 | deleting an item just added under an id no other item carries gives the original list back |
| ListEditor.DeleteIdempotent | src/components/ListEditor.tsx:60-65 | deleting the same id twice is deleting it once |
| ListEditor.SavedTitleOpensClosed | src/components/ListEditor.tsx:29 | an editor opened on a list whose title was saved does not start in title-editing mode |
| ListEditor.PlaceholderBare | src/components/ListEditor.tsx:41 | the placeholder title is its own trim |
| ListEditor.SaveTitleStable | src/components/ListEditor.tsx:39-42 | a saved title has no leading or trailing space, and saving it again changes nothing |
| ListEditor.Open | src/components/ListEditor.tsx:27-29 | the editor starts with the list's title in the title field, an empty item text, and in title-editing mode exactly when the list's title is empty |
| ListEditor.HandleTitleSave | src/components/ListEditor.tsx:39-42 | saving the title leaves title-editing mode, keeps the typed texts, and sends the saved list: same list, non-empty title |
| ListEditor.HandleAddItem | src/components/ListEditor.tsx:44-58 | the handler sends exactly what the add produces; an all-space item text sends nothing and leaves the editor as it was; an add sends a version of the same list and clears the input |
| ListEditor.OpensEditingTitle | src/components/ListEditor.tsx:29 | title editing starts on exactly the lists with an empty title, as stated by `ListEditor.Open` |
| ListEditor.AddEnabled | src/components/ListEditor.tsx:135 | the add button's enabled test, as stated by `ListEditor.AddEnabledIff` |
| ListEditor.AddEnabledIff | src/components/ListEditor.tsx:133-135 | the add button is enabled exactly when pressing it sends an update |
| Recency.SortByRecency | src/pages/Index.tsx:91-92 | the sort is a permutation of the lists, newest first |
| Recency.SortStable | src/pages/Index.tsx:92 | the sort keeps the lists created at the same instant in their original order |
| Recency.DescendingStableUnique | src/pages/Index.tsx:92 | two newest-first arrangements that order each instant's lists alike are equal |
| Recency.SortUnique | src/pages/Index.tsx:92 | every stable newest-first arrangement of the lists is the sort's result |
| Recency.SortedIsFixed | src/pages/Index.tsx:91-92 | lists already newest first are left as they are by the sort |
| Recency.SortIdempotent | src/pages/Index.tsx:91-92 | sorting the sort's own output leaves it as it is |
| Recency.PrefixStamped | src/pages/Index.tsx:91-93 | a prefix of a stable arrangement keeps, for every instant, a prefix of that instant's lists in their stored order |
| Recency.PrefixIsNewest | src/pages/Index.tsx:93 | a prefix of a newest-first arrangement is newest first and drawn from the lists, and no list left out is newer than one kept |
| Recency.RecentLists | src/pages/Index.tsx:90-93 | the recent view has min(count, 5) lists, newest first, drawn from the stored lists; it holds all of them when there are at most five, and no list left out is newer than one shown; for every instant it shows the first lists of that instant in their stored order |
| Index.Mount | src/pages/Index.tsx:79-88 | the initial state stores exactly the given lists, has an empty query, the home view, no current list and the dropdown hidden; it satisfies the invariant and draws the home screen without a dropdown |
| Index.SearchFinds | src/pages/Index.tsx:96-98 | the search keeps the matching lists in their order and with their multiplicity, and nothing else |
| Index.Matches | src/pages/Index.tsx:97 | the search test on one list, as stated by `Index.MatchesIff` |
| Index.SearchResults | src/pages/Index.tsx:96-98 | the search returns at most as many lists as are stored; its full contract is `Index.SearchFinds` |
| Index.MatchesIff | src/pages/Index.tsx:96-98 | a list matches exactly when its lowercased title contains the lowercased query at some offset |
| Index.SearchEmptyQuery | src/pages/Index.tsx:96-98 | the empty query matches every list |
| Index.SearchCaseInsensitive | src/pages/Index.tsx:96-98 | queries that differ only in the case of ASCII letters find the same lists |
| Index.SearchKeepsDescending | src/pages/Index.tsx:96-98 | searching newest-first lists returns newest-first results |
| Index.Replace | src/pages/Index.tsx:122-124 | the update keeps the length, puts the new list wherever the id matches and leaves every other position unchanged |
| Index.ReplaceAbsent | src/pages/Index.tsx:121-126 | an update whose id no stored list carries changes nothing |
| Index.ReplaceIdempotent | src/pages/Index.tsx:121-126 | applying the same update twice is applying it once |
| Index.ReplaceStores | src/pages/Index.tsx:121-126 | after an update the new list is stored exactly when some stored list had its id or it was already stored |
| Index.NewList | src/pages/Index.tsx:101-106 | a new list carries the given id, an empty title, no items and the given creation instant, so the editor opens on its title |
| Index.CreateList | src/pages/Index.tsx:100-112 | create puts the new list (the given id, empty title, no items, created at the given instant) in front of the old lists, opens the editor on it and clears the search |
| Index.ViewList | src/pages/Index.tsx:114-119 | view opens the editor on the chosen list, clears the search and keeps the stored lists |
| Index.UpdateList | src/pages/Index.tsx:121-126 | update replaces every stored list with the id, keeps the length, makes the updated list current and keeps the view, the query and the dropdown flag |
| Index.BackToHome | src/pages/Index.tsx:128-131 | back sets the view to home with no current list, so the home screen is drawn, keeping the lists, the query and the dropdown flag |
| Index.SearchChange | src/pages/Index.tsx:133-136 | the query is stored as typed, and the dropdown shows exactly when it has a non-space code point |
| Index.Render | src/pages/Index.tsx:142-151 | a render leaves the stored lists sorted, draws the editor, on the current list, exactly when the view is the editor and a list is current, and otherwise shows the recent view and a dropdown exactly when the flag is set, the dropdown holding the search over the sorted lists |
| Index.RenderedSearch | src/pages/Index.tsx:164-172 | on the home screen with the flag set, the dropdown is drawn and lists exactly the stored lists whose title matches, each as often as stored, in the order of the sorted lists, so newest first |
| Index.RenderStable | src/pages/Index.tsx:91-93 | a second render with no intent in between draws the same screen and leaves the same state |
| Index.ShownIsStored | src/pages/Index.tsx:138-140 | every list the home screen shows, in the recent view or the dropdown, and so every list it offers for viewing, is a stored list |
| Index.Dispatch | src/pages/Index.tsx:100-136 | creating a list adds exactly one stored list and every other intent keeps the number of stored lists; the invariant it keeps is `Index.DispatchConsistent` |
| Index.DispatchConsistent | src/pages/Index.tsx:100-136 | every intent the drawn screen can emit (on the home screen create, search or viewing a stored list; in the editor back or a version of the current list) keeps the invariant: the editor is open exactly when a list is current, that list is stored, and the dropdown shows exactly when the query has a non-space code point |
| Index.ConsistentScreens | src/pages/Index.tsx:143 | in a consistent state the editor is drawn exactly when the view is the editor, and an all-space query never shows the dropdown |
| GroceryListApp.StartsEditingTitle | GroceryListApp.jsx:241 | the copy opens in title-editing mode exactly when the structured editor does, that is, when the title is empty |
| GroceryListApp.TitleSave | GroceryListApp.jsx:251-254 | the copy's title save equals the structured one and never leaves the title empty |
| GroceryListApp.AddItem | GroceryListApp.jsx:256-270 | the copy's add equals the structured one and sends nothing exactly for all-space text |
| GroceryListApp.FilterWithoutId | GroceryListApp.jsx:275 | the copy's item filter is the structured model's |
| GroceryListApp.DeleteItem | GroceryListApp.jsx:272-277 | the copy's delete equals the structured one and leaves no item with the id |
| GroceryListApp.ToggleItem | GroceryListApp.jsx:279-286 | the copy's toggle equals the structured one and keeps the length |
| GroceryListApp.FirstNewest | GroceryListApp.jsx:485 | the selection step picks a newest list, and every list before it is strictly older |
| GroceryListApp.SelectionSort | GroceryListApp.jsx:485 | the copy's sort is a permutation of the lists |
| GroceryListApp.SelectionSortDescending | GroceryListApp.jsx:485 | the copy's sort is newest first |
| GroceryListApp.SelectionSortStable | GroceryListApp.jsx:485 | the copy's sort keeps the lists created at the same instant in their original order |
| GroceryListApp.RecentLists | GroceryListApp.jsx:484-486 | the copy's recent view equals the structured one: at most five lists, newest first |
| GroceryListApp.FilterMatches | GroceryListApp.jsx:489-491 | the copy's search filter is the structured model's |
| GroceryListApp.SearchResults | GroceryListApp.jsx:489-491 | the copy's search equals the structured one and finds exactly the stored lists that match |
| GroceryListApp.CreateList | GroceryListApp.jsx:493-505 | the copy's create equals the structured one and makes the new front list current |
| GroceryListApp.ViewList | GroceryListApp.jsx:507-512 | the copy's view equals the structured one |
| GroceryListApp.UpdateLists | GroceryListApp.jsx:515-517 | the copy's map-by-id equals the structured replace and keeps the length |
| GroceryListApp.UpdateList | GroceryListApp.jsx:514-519 | the copy's update equals the structured one and makes the updated list current |
| GroceryListApp.BackToHome | GroceryListApp.jsx:521-524 | the copy's back equals the structured one |
| GroceryListApp.SearchChange | GroceryListApp.jsx:526-529 | the copy's search change equals the structured one: the dropdown shows exactly for a query with a non-space code point |

## Left out

- Presentation components (`Header`, `ListCard`, `SearchResults`) and the UI primitives and style strings of the single-file copy: they draw state and hold no state logic.
- Focus management (`useRef`, `.focus()` and the focusing effect): it has no effect on the state.
- The typing handlers (`setTitle` and `setNewItemText` from the editor's inputs) and the click that reopens the title field: they are plain setters. `ListEditor.Editor` holds their values as fields.
- React's scheduling and batching: each handler is one atomic step applied to the state the last render left.
- `Date.now()` and `new Date()`: ids and creation instants are parameters. Creation instants are integers in milliseconds.
- The sample lists loaded on mount: `Index.Mount` takes the initial lists as a parameter.
- Text.Lower: models `toLowerCase` on ASCII letters only and leaves every other code point as it is, because the Unicode case-mapping tables are not modelled.
- The single-file copy's render and mount: they are the same as the structured ones, which `Index.Render` and `Index.Mount` model.
- JavaScript strings are sequences of UTF-16 code units; here a string is a sequence of Unicode scalar values, so a lone surrogate cannot be represented. On well-formed text `trim`, `toLowerCase` and `includes` behave the same either way.
