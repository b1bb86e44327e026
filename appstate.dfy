/**
  The page state of the bookmark app: the document tree, the open folder, the navigation
  history with its cursor, the selection and the active search, with the operations that
  change them. The class stands in for the page's global variables; rendering, saving and
  the notifications each operation shows are not part of it.
 */
module AppState {
  import opened Wrappers
  import opened Strings
  import opened Tree
  import opened Search
  import opened Defaults
  import opened Batch

  // ---------------------------------------------------------------------------
  // History as values
  // ---------------------------------------------------------------------------

  /** An entry of `navigationHistory`: a folder path, or a search run in a folder. */
  datatype Location = PathLocation(path: Path) | SearchLocation(searchTerm: string, path: Path)

  /** `addToHistory` keeps at most this many entries. */
  const MaxHistory: nat := 50

  /** A search entry holds a trimmed, non-blank term, as `executeSearch` stores it. */
  predicate TrimmedSearch(loc: Location) {
    loc.SearchLocation? ==> IsTrimmed(loc.searchTerm) && !IsBlank(loc.searchTerm)
  }

  /** Every search entry of the history holds a trimmed, non-blank term. */
  predicate AllTrimmed(h: seq<Location>) {
    forall i :: 0 <= i < |h| ==> TrimmedSearch(h[i])
  }

  /**
    The history after a push with the cursor at `idx`: the entries after the cursor are
    dropped and `loc` comes right after it.
   */
  function Pushed(h: seq<Location>, idx: int, loc: Location): (r: seq<Location>)
    requires -1 <= idx < |h|
    ensures |r| == idx + 2 && r[..idx + 1] == h[..idx + 1] && r[idx + 1] == loc
  {
    (if idx < |h| - 1 then h[..idx + 1] else h) + [loc]
  }

  /** The most recent `MaxHistory` entries of a history. */
  function Capped(h: seq<Location>): (r: seq<Location>)
    ensures |r| <= MaxHistory && |r| <= |h|
    ensures |h| <= MaxHistory ==> r == h
    ensures |h| > MaxHistory ==> |r| == MaxHistory
  {
    if |h| > MaxHistory then h[|h| - MaxHistory..] else h
  }

  /** Pushes, with or without the cut, keep every search term of the history trimmed. */
  lemma PushKeepsTrimmed(h: seq<Location>, idx: int, loc: Location)
    requires -1 <= idx < |h| && AllTrimmed(h) && TrimmedSearch(loc)
    ensures AllTrimmed(Pushed(h, idx, loc)) && AllTrimmed(Capped(Pushed(h, idx, loc)))
  {
    var p := Pushed(h, idx, loc);
    forall i | 0 <= i < |p| ensures TrimmedSearch(p[i]) {
      if i <= idx {
        assert p[i] == p[..idx + 1][i] == h[..idx + 1][i] == h[i];
      }
    }
    var c := Capped(p);
    forall i | 0 <= i < |c| ensures TrimmedSearch(c[i]) {
      assert c[i] == p[|p| - |c| + i];
    }
  }

  /**
    The list work of `addToHistory` (with `cap`) and `addSearchToHistory` (without): cut the
    entries after the cursor, push `loc`, and with `cap` keep only the latest `MaxHistory`.
   */
  method PushLocation(h0: seq<Location>, idx: int, loc: Location, cap: bool) returns (h: seq<Location>)
    requires -1 <= idx < |h0|
    ensures h == if cap then Capped(Pushed(h0, idx, loc)) else Pushed(h0, idx, loc)
  {
    h := h0;
    if idx < |h| - 1 {
      h := h[..idx + 1];
    }
    h := h + [loc];
    if cap && |h| > MaxHistory {
      h := h[|h| - MaxHistory..];
    }
  }

  /**
    After a folder push the cursor is on the new entry and the entry right before it is the
    one the cursor was on, even when the oldest entries were cut: "Back" returns there.
   */
  lemma PushThenBackReturns(h: seq<Location>, idx: int, loc: Location)
    requires 0 <= idx < |h|
    ensures var r := Capped(Pushed(h, idx, loc));
            |r| >= 2 && r[|r| - 1] == loc && r[|r| - 2] == h[idx]
  {
    var p := Pushed(h, idx, loc);
    var r := Capped(p);
    assert r[|r| - 2] == p[|p| - 2];
  }

  /**
    From `[root, a, b]` with the cursor on `b`, two steps back put the cursor on `root`;
    a push then drops `a` and `b`, leaves the cursor on the new entry, and there is
    nothing to go forward to.
   */
  lemma PushAfterBackDropsBranch(root: Location, a: Location, b: Location, c: Location)
    ensures var h := Capped(Pushed([root, a, b], 2 - 1 - 1, c));
            h == [root, c] && |h| - 1 == 1 && !(1 < |h| - 1)
  {
  }

  /** A search push with a full history makes it longer than `addToHistory` ever leaves it. */
  lemma SearchPushExceedsCap(h: seq<Location>, loc: Location)
    requires |h| == MaxHistory
    ensures |Pushed(h, |h| - 1, loc)| == MaxHistory + 1
  {
  }

  /**
    "Back" onto a search entry reruns the search, and when it finds something the search is
    pushed again: the entry the cursor left and everything after it are dropped, the search
    entry now occurs twice, and the cursor stays where it was, on the copy. The next "Back"
    lands on the same search entry again.
   */
  lemma {:induction false} BackOntoSearchRepushes(h: seq<Location>, i: nat)
    requires 0 < i < |h| && h[i - 1].SearchLocation? && TrimmedSearch(h[i - 1])
    ensures var loc := h[i - 1];
            Pushed(h, i - 1, SearchLocation(Trim(loc.searchTerm), loc.path)) == h[..i] + [loc]
            && |h[..i] + [loc]| - 1 == i
  {
    var loc := h[i - 1];
    TrimOfTrimmed(loc.searchTerm);
    assert SearchLocation(Trim(loc.searchTerm), loc.path) == loc;
  }

  /**
    "Forward" onto a search entry that finds something pushes it again: the search entry
    occurs twice, the cursor moves past it onto the copy, and every entry that lay ahead of
    the search is dropped.
   */
  lemma {:induction false} ForwardOntoSearchRepushes(h: seq<Location>, i: nat)
    requires i + 1 < |h| && h[i + 1].SearchLocation? && TrimmedSearch(h[i + 1])
    ensures var loc := h[i + 1];
            Pushed(h, i + 1, SearchLocation(Trim(loc.searchTerm), loc.path)) == h[..i + 2] + [loc]
  {
    var loc := h[i + 1];
    TrimOfTrimmed(loc.searchTerm);
    assert SearchLocation(Trim(loc.searchTerm), loc.path) == loc;
  }

  /** `searchResults`: what the last search found and the term it ran with. */
  datatype SearchState = SearchState(results: seq<SearchResult>, searchTerm: string)

  /** The results `performSearchOperation` gives for `text` in the folder at `cp`. */
  function Hits(root: Folder, cp: Path, text: string): seq<SearchResult>
    requires ValidPath(root, cp)
  {
    FolderHits(root, Resolve(root, cp), cp, Matcher(ParsedQuery(text)))
  }

  /** `performSearchOperation(text, getCurrentFolder(), currentPath)`. */
  method SearchIn(root: Folder, cp: Path, text: string) returns (results: seq<SearchResult>)
    requires ValidPath(root, cp)
    ensures results == Hits(root, cp, text)
  {
    results := PerformSearchOperation(root, text, cp);
  }

  /**
    What `executeSearch(text)` leaves in the history `h`, the cursor `i` and the search
    state, when it starts from the history `h0` and cursor `i0` in the folder at `cp`: blank
    text clears the search; otherwise the hits for the trimmed text are shown, and only when
    there are some is the search pushed onto the history.
   */
  predicate SearchOutcome(root: Folder, cp: Path, text: string, h0: seq<Location>, i0: int,
                          h: seq<Location>, i: int, active: bool, shown: Option<SearchState>)
    requires -1 <= i0 < |h0|
  {
    if IsBlank(text) then
      !active && shown.None? && h == h0 && i == i0
    else
      && ValidPath(root, cp)
      && var t := Trim(text);
      && var res := Hits(root, cp, t);
      && active && shown == Some(SearchState(res, t))
      && (res == [] ==> h == h0 && i == i0)
      && (res != [] ==> h == Pushed(h0, i0, SearchLocation(t, cp)) && i == |h| - 1)
  }

  /**
    The body of `executeSearch` on the values it reads and writes: blank text clears the
    search; otherwise the trimmed text is searched for in the open folder, the hits are
    shown, and the search is pushed with `addSearchToHistory` when there are some.
   */
  method SearchStep(root: Folder, cp: Path, text: string, h0: seq<Location>, i0: int)
      returns (h: seq<Location>, i: int, active: bool, shown: Option<SearchState>)
    requires ValidPath(root, cp) && -1 <= i0 < |h0| && (i0 == -1 <==> h0 == []) && AllTrimmed(h0)
    ensures SearchOutcome(root, cp, text, h0, i0, h, i, active, shown)
    ensures -1 <= i < |h| && (i == -1 <==> h == []) && AllTrimmed(h)
  {
    if IsBlank(text) {
      return h0, i0, false, None;
    }
    var trimmedSearch := Trim(text);
    TrimEmptyIffBlank(text);
    TrimOfTrimmed(trimmedSearch);
    TrimEmptyIffBlank(trimmedSearch);
    var results := SearchIn(root, cp, trimmedSearch);
    if |results| == 0 {
      return h0, i0, true, Some(SearchState([], trimmedSearch));
    }
    PushKeepsTrimmed(h0, i0, SearchLocation(trimmedSearch, cp));
    h := PushLocation(h0, i0, SearchLocation(trimmedSearch, cp), false);
    i := |h| - 1;
    active, shown := true, Some(SearchState(results, trimmedSearch));
  }

  /** The two loops of `selectAllItems`: add `folder:i` for each sub-folder, then `entry:i` for each entry. */
  method AddChildKeys(sel0: Selection, folder: Folder) returns (sel: Selection)
    ensures sel == AddAll(sel0, ChildKeys(folder))
  {
    sel := sel0;
    var n, m := |folder.folders|, |folder.entries|;
    for idx := 0 to n
      invariant sel == AddAll(sel0, FolderKeys(idx))
    {
      AddAllSnoc(sel0, FolderKeys(idx), FolderKey(idx));
      FolderKeysSnoc(idx);
      sel := Added(sel, FolderKey(idx));
    }
    var prefix := FolderKeys(n);
    assert prefix + EntryKeys(0) == prefix;
    for idx := 0 to m
      invariant sel == AddAll(sel0, prefix + EntryKeys(idx))
    {
      AddAllSnoc(sel0, prefix + EntryKeys(idx), EntryKey(idx));
      EntryKeysSnoc(prefix, idx);
      sel := Added(sel, EntryKey(idx));
    }
  }

  /** The outcomes of `deleteSelectedItemsWithConfirmation`. */
  datatype DeleteOutcome = NothingSelected | NoValidItems | Declined | Deleted(count: nat)

  // ---------------------------------------------------------------------------
  // The page state
  // ---------------------------------------------------------------------------

  class AppState {
    /** `data`, the document's root folder. */
    var root: Folder
    /** `data.settings`, absent until `initializeSettings` gives it the initial settings. */
    var settings: Option<Settings>
    var currentPath: Path
    var navigationHistory: seq<Location>
    var historyIndex: int
    var selectedItems: Selection
    var selectionMode: bool
    var isSearchActive: bool
    var searchResults: Option<SearchState>

    /**
      The open folder exists, the cursor is on an entry of the history (or the history is
      empty and the cursor is -1), the selection holds each key once, and every search
      entry holds a trimmed term.
     */
    predicate Valid()
      reads this
    {
      && ValidPath(root, currentPath)
      && -1 <= historyIndex < |navigationHistory|
      && (historyIndex == -1 <==> navigationHistory == [])
      && Distinct(selectedItems)
      && AllTrimmed(navigationHistory)
    }

    /** The page after a document has been loaded: at the root, no history, nothing selected, no search. */
    constructor(data: Folder, storedSettings: Option<Settings>)
      ensures Valid()
      ensures root == data && settings == storedSettings && currentPath == []
      ensures navigationHistory == [] && historyIndex == -1
      ensures selectedItems == [] && !selectionMode && !isSearchActive && searchResults.None?
    {
      root := data;
      settings := storedSettings;
      currentPath := [];
      navigationHistory := [];
      historyIndex := -1;
      selectedItems := [];
      selectionMode := false;
      isSearchActive := false;
      searchResults := None;
    }

    // -------------------------------------------------------------------------
    // History
    // -------------------------------------------------------------------------

    /** `initializeNavigationHistory`: an empty history starts with the root. */
    method InitializeNavigationHistory()
      requires Valid()
      modifies this
      ensures Valid()
      ensures old(navigationHistory) == [] ==> navigationHistory == [PathLocation([])] && historyIndex == 0
      ensures old(navigationHistory) != [] ==> navigationHistory == old(navigationHistory) && historyIndex == old(historyIndex)
      ensures root == old(root) && settings == old(settings) && currentPath == old(currentPath)
      ensures selectedItems == old(selectedItems) && selectionMode == old(selectionMode)
      ensures isSearchActive == old(isSearchActive) && searchResults == old(searchResults)
    {
      if |navigationHistory| == 0 {
        navigationHistory := navigationHistory + [PathLocation([])];
        historyIndex := 0;
      }
    }

    /**
      `addToHistory`: drop the entries after the cursor, push the path, put the cursor on
      it, and keep only the latest `MaxHistory` entries.
     */
    method AddToHistory(newPath: Path)
      requires Valid()
      modifies this
      ensures Valid()
      ensures navigationHistory == Capped(Pushed(old(navigationHistory), old(historyIndex), PathLocation(newPath)))
      ensures historyIndex == |navigationHistory| - 1
      ensures |navigationHistory| <= MaxHistory
      ensures root == old(root) && settings == old(settings) && currentPath == old(currentPath)
      ensures selectedItems == old(selectedItems) && selectionMode == old(selectionMode)
      ensures isSearchActive == old(isSearchActive) && searchResults == old(searchResults)
    {
      PushKeepsTrimmed(navigationHistory, historyIndex, PathLocation(newPath));
      var h := PushLocation(navigationHistory, historyIndex, PathLocation(newPath), true);
      navigationHistory, historyIndex := h, |h| - 1;
    }

    /** `addSearchToHistory`: the same push for a search in the open folder, with no limit on the length. */
    method AddSearchToHistory(searchTerm: string)
      requires Valid() && IsTrimmed(searchTerm) && !IsBlank(searchTerm)
      modifies this
      ensures Valid()
      ensures navigationHistory == Pushed(old(navigationHistory), old(historyIndex), SearchLocation(searchTerm, currentPath))
      ensures historyIndex == |navigationHistory| - 1
      ensures root == old(root) && settings == old(settings) && currentPath == old(currentPath)
      ensures selectedItems == old(selectedItems) && selectionMode == old(selectionMode)
      ensures isSearchActive == old(isSearchActive) && searchResults == old(searchResults)
    {
      PushKeepsTrimmed(navigationHistory, historyIndex, SearchLocation(searchTerm, currentPath));
      var h := PushLocation(navigationHistory, historyIndex, SearchLocation(searchTerm, currentPath), false);
      navigationHistory, historyIndex := h, |h| - 1;
    }

    // -------------------------------------------------------------------------
    // Search
    // -------------------------------------------------------------------------

    /** `clearSearch`. */
    method ClearSearch()
      modifies this
      ensures !isSearchActive && searchResults.None?
      ensures root == old(root) && settings == old(settings) && currentPath == old(currentPath)
      ensures navigationHistory == old(navigationHistory) && historyIndex == old(historyIndex)
      ensures selectedItems == old(selectedItems) && selectionMode == old(selectionMode)
    {
      isSearchActive := false;
      searchResults := None;
    }

    /** `executeSearch`. */
    method ExecuteSearch(searchText: string)
      requires Valid()
      modifies this
      ensures Valid()
      ensures SearchOutcome(root, currentPath, searchText, old(navigationHistory), old(historyIndex),
                                           navigationHistory, historyIndex, isSearchActive, searchResults)
      ensures root == old(root) && settings == old(settings) && currentPath == old(currentPath)
      ensures selectedItems == old(selectedItems) && selectionMode == old(selectionMode)
    {
      var h, i, active, shown := SearchStep(root, currentPath, searchText, navigationHistory, historyIndex);
      navigationHistory, historyIndex, isSearchActive, searchResults := h, i, active, shown;
    }

    // -------------------------------------------------------------------------
    // Navigation
    // -------------------------------------------------------------------------

    /**
      `navigateToFolder`: open a sub-folder of the open folder and push it onto the
      history. The selection and the search are left as they are.
     */
    method NavigateToFolder(folderIndex: nat)
      requires Valid() && folderIndex < |Resolve(root, currentPath).folders|
      modifies this
      ensures Valid()
      ensures currentPath == old(currentPath) + [folderIndex]
      ensures Resolve(root, currentPath) == old(Resolve(root, currentPath)).folders[folderIndex]
      ensures navigationHistory == Capped(Pushed(old(navigationHistory), old(historyIndex), PathLocation(currentPath)))
      ensures historyIndex == |navigationHistory| - 1
      ensures root == old(root) && settings == old(settings)
      ensures selectedItems == old(selectedItems) && selectionMode == old(selectionMode)
      ensures isSearchActive == old(isSearchActive) && searchResults == old(searchResults)
    {
      var newPath := currentPath + [folderIndex];
      ResolveSnoc(root, currentPath, folderIndex);
      AddToHistory(newPath);
      currentPath := newPath;
    }

    /** `navigateToPath`: open the folder at `newPath`, push it, and clear the selection and the search. */
    method NavigateToPath(newPath: Path)
      requires Valid() && ValidPath(root, newPath)
      modifies this
      ensures Valid()
      ensures currentPath == newPath
      ensures navigationHistory == Capped(Pushed(old(navigationHistory), old(historyIndex), PathLocation(newPath)))
      ensures historyIndex == |navigationHistory| - 1
      ensures root == old(root) && settings == old(settings)
      ensures selectedItems == [] && !selectionMode && !isSearchActive && searchResults.None?
    {
      AddToHistory(newPath);
      currentPath := newPath;
      ClearSelection();
      ClearSearch();
    }

    /**
      `navigateUp`: at the root nothing happens; otherwise open the parent, push it, and
      clear the selection and the search.
     */
    method NavigateUp() returns (moved: bool)
      requires Valid()
      modifies this
      ensures Valid()
      ensures moved <==> old(currentPath) != []
      ensures !moved ==> unchanged(this)
      ensures moved ==> currentPath == old(currentPath)[..|old(currentPath)| - 1]
                        && navigationHistory == Capped(Pushed(old(navigationHistory), old(historyIndex), PathLocation(currentPath)))
                        && historyIndex == |navigationHistory| - 1
                        && selectedItems == [] && !selectionMode && !isSearchActive && searchResults.None?
      ensures root == old(root) && settings == old(settings)
    {
      if |currentPath| == 0 {
        return false;
      }
      var newPath := currentPath[..|currentPath| - 1];
      ValidPrefix(root, currentPath, |currentPath| - 1);
      AddToHistory(newPath);
      currentPath := newPath;
      ClearSelection();
      ClearSearch();
      moved := true;
    }

    /**
      Open a history entry the cursor has just moved onto: a folder entry opens the folder
      and clears the search and the selection; a search entry opens its folder and reruns
      the search there, which may push it again.
     */
    method Revisit(loc: Location)
      requires Valid() && ValidPath(root, loc.path) && TrimmedSearch(loc)
      modifies this
      ensures Valid()
      ensures currentPath == loc.path && root == old(root) && settings == old(settings)
      ensures loc.PathLocation? ==> navigationHistory == old(navigationHistory) && historyIndex == old(historyIndex)
                                    && !isSearchActive && searchResults.None?
                                    && selectedItems == [] && !selectionMode
      ensures loc.SearchLocation? ==> SearchOutcome(root, currentPath, loc.searchTerm, old(navigationHistory), old(historyIndex),
                                           navigationHistory, historyIndex, isSearchActive, searchResults)
                                      && selectedItems == old(selectedItems) && selectionMode == old(selectionMode)
    {
      currentPath := loc.path;
      if loc.SearchLocation? {
        ExecuteSearch(loc.searchTerm);
      } else {
        ClearSearch();
        ClearSelection();
      }
    }

    /**
      `navigateBack`: with the cursor on the first entry (or no history) nothing happens;
      otherwise the cursor moves back one entry and that entry is opened.
     */
    method NavigateBack() returns (moved: bool)
      requires Valid()
      requires historyIndex > 0 ==> ValidPath(root, navigationHistory[historyIndex - 1].path)
      modifies this
      ensures Valid()
      ensures moved <==> old(historyIndex) > 0
      ensures !moved ==> unchanged(this)
      ensures moved ==>
                var loc := old(navigationHistory[historyIndex - 1]);
                && currentPath == loc.path && root == old(root) && settings == old(settings)
                && (loc.PathLocation? ==> navigationHistory == old(navigationHistory) && historyIndex == old(historyIndex) - 1
                                          && !isSearchActive && searchResults.None?
                                          && selectedItems == [] && !selectionMode)
                && (loc.SearchLocation? ==> SearchOutcome(root, currentPath, loc.searchTerm, old(navigationHistory), old(historyIndex) - 1,
                                           navigationHistory, historyIndex, isSearchActive, searchResults)
                                            && selectedItems == old(selectedItems) && selectionMode == old(selectionMode))
    {
      if historyIndex <= 0 {
        return false;
      }
      historyIndex := historyIndex - 1;
      var historyItem := navigationHistory[historyIndex];
      Revisit(historyItem);
      moved := true;
    }

    /**
      `navigateForward`: with the cursor on the last entry nothing happens; otherwise the
      cursor moves forward one entry and that entry is opened.
     */
    method NavigateForward() returns (moved: bool)
      requires Valid()
      requires historyIndex < |navigationHistory| - 1 ==> ValidPath(root, navigationHistory[historyIndex + 1].path)
      modifies this
      ensures Valid()
      ensures moved <==> old(historyIndex) < |old(navigationHistory)| - 1
      ensures !moved ==> unchanged(this)
      ensures moved ==>
                var loc := old(navigationHistory[historyIndex + 1]);
                && currentPath == loc.path && root == old(root) && settings == old(settings)
                && (loc.PathLocation? ==> navigationHistory == old(navigationHistory) && historyIndex == old(historyIndex) + 1
                                          && !isSearchActive && searchResults.None?
                                          && selectedItems == [] && !selectionMode)
                && (loc.SearchLocation? ==> SearchOutcome(root, currentPath, loc.searchTerm, old(navigationHistory), old(historyIndex) + 1,
                                           navigationHistory, historyIndex, isSearchActive, searchResults)
                                            && selectedItems == old(selectedItems) && selectionMode == old(selectionMode))
    {
      if historyIndex >= |navigationHistory| - 1 {
        return false;
      }
      historyIndex := historyIndex + 1;
      var historyItem := navigationHistory[historyIndex];
      Revisit(historyItem);
      moved := true;
    }

    // -------------------------------------------------------------------------
    // Selection
    // -------------------------------------------------------------------------

    /** `toggleSelection`: remove the key when it is selected, add it at the end otherwise. */
    method ToggleSelection(key: ItemKey)
      requires Valid()
      modifies this
      ensures Valid()
      ensures selectedItems == Toggled(old(selectedItems), key)
      ensures root == old(root) && settings == old(settings) && currentPath == old(currentPath)
      ensures navigationHistory == old(navigationHistory) && historyIndex == old(historyIndex)
      ensures selectionMode == old(selectionMode)
      ensures isSearchActive == old(isSearchActive) && searchResults == old(searchResults)
    {
      if key in selectedItems {
        selectedItems := Without(selectedItems, key);
      } else {
        selectedItems := Added(selectedItems, key);
      }
    }

    /** `selectAllItems`: add every sub-folder key, then every entry key, of the open folder. */
    method SelectAllItems()
      requires Valid()
      modifies this
      ensures Valid()
      ensures selectedItems == AddAll(old(selectedItems), ChildKeys(Resolve(root, currentPath)))
      ensures root == old(root) && settings == old(settings) && currentPath == old(currentPath)
      ensures navigationHistory == old(navigationHistory) && historyIndex == old(historyIndex)
      ensures selectionMode == old(selectionMode)
      ensures isSearchActive == old(isSearchActive) && searchResults == old(searchResults)
    {
      var folder := GetCurrentFolder(root, currentPath);
      selectedItems := AddChildKeys(selectedItems, folder);
    }

    /** `clearSelection`: nothing selected, and selection mode off. */
    method ClearSelection()
      modifies this
      ensures selectedItems == [] && !selectionMode
      ensures root == old(root) && settings == old(settings) && currentPath == old(currentPath)
      ensures navigationHistory == old(navigationHistory) && historyIndex == old(historyIndex)
      ensures isSearchActive == old(isSearchActive) && searchResults == old(searchResults)
    {
      selectedItems := [];
      if selectionMode {
        selectionMode := false;
      }
    }

    /** `toggleSelectionMode`: turning it off also clears the selection; turning it on keeps it. */
    method ToggleSelectionMode()
      requires Valid()
      modifies this
      ensures Valid()
      ensures selectionMode == !old(selectionMode)
      ensures selectedItems == if old(selectionMode) then [] else old(selectedItems)
      ensures root == old(root) && settings == old(settings) && currentPath == old(currentPath)
      ensures navigationHistory == old(navigationHistory) && historyIndex == old(historyIndex)
      ensures isSearchActive == old(isSearchActive) && searchResults == old(searchResults)
    {
      selectionMode := !selectionMode;
      if !selectionMode {
        ClearSelection();
      }
    }

    // -------------------------------------------------------------------------
    // Batch operations
    // -------------------------------------------------------------------------

    /**
      `performMoveOperation`: refused, changing nothing, when no destination is given or a
      selected folder encloses it; otherwise the selected children move from the open folder
      to the destination and the selection is cleared.
     */
    method PerformMoveOperation(selectedDestination: Option<Path>) returns (moved: bool)
      requires Valid()
      requires selectedDestination.Some? ==> ValidPath(root, selectedDestination.value)
      requires selectedDestination.Some? && IntoItselfCheck(root, currentPath, selectedItems, selectedDestination.value) == Allowed
               ==> KeysInRange(Resolve(root, currentPath), selectedItems)
      modifies this
      ensures Valid()
      ensures moved <==> selectedDestination.Some?
                         && IntoItselfCheck(old(root), old(currentPath), old(selectedItems), selectedDestination.value) == Allowed
      ensures !moved ==> unchanged(this)
      ensures moved ==> root == MoveTree(old(root), old(currentPath), old(selectedItems), selectedDestination.value)
                        && selectedItems == [] && !selectionMode
      ensures settings == old(settings) && currentPath == old(currentPath)
      ensures navigationHistory == old(navigationHistory) && historyIndex == old(historyIndex)
      ensures isSearchActive == old(isSearchActive) && searchResults == old(searchResults)
    {
      if selectedDestination.None? {
        return false;
      }
      var dest := selectedDestination.value;
      var validation := IntoItselfCheck(root, currentPath, selectedItems, dest);
      if validation.IntoItself? {
        return false;
      }
      var sourceFolder := GetCurrentFolder(root, currentPath);
      var itemsToMove := CollectItems(sourceFolder, selectedItems);
      var rest, movedFolders, movedEntries := RemovePicked(sourceFolder, selectedItems, itemsToMove);
      // The destination was held before the splices; after them it is found at the adjusted path.
      var spliced := UpdateAt(root, currentPath, rest);
      AdjustedPathFindsDestination(root, currentPath, selectedItems, dest);
      var d := AdjustPath(root, currentPath, selectedItems, dest);
      var destinationFolder := GetCurrentFolder(spliced, d);
      MoveKeepsCurrentFolder(root, currentPath, selectedItems, dest);
      root := UpdateAt(spliced, d, Received(destinationFolder, movedFolders, movedEntries));
      ClearSelection();
      moved := true;
    }

    /**
      `deleteSelectedItemsWithConfirmation`, with the answer to the confirmation dialog as
      `confirmed`: nothing happens with an empty selection, with no selected key naming a
      child, or when the user declines; otherwise the named children are removed from the
      open folder and the selection is cleared.
     */
    method DeleteSelectedItems(confirmed: bool) returns (outcome: DeleteOutcome)
      requires Valid()
      modifies this
      ensures Valid()
      ensures old(selectedItems) == [] ==> outcome == NothingSelected
      ensures old(selectedItems) != [] && Picks(old(Resolve(root, currentPath)), old(selectedItems)) == [] ==> outcome == NoValidItems
      ensures old(selectedItems) != [] && Picks(old(Resolve(root, currentPath)), old(selectedItems)) != [] && !confirmed ==> outcome == Declined
      ensures outcome.Deleted? <==> old(selectedItems) != [] && Picks(old(Resolve(root, currentPath)), old(selectedItems)) != [] && confirmed
      ensures !outcome.Deleted? ==> unchanged(this)
      ensures outcome.Deleted? ==>
                && outcome.count == |Picks(old(Resolve(root, currentPath)), old(selectedItems))|
                && root == UpdateAt(old(root), old(currentPath), Removed(old(Resolve(root, currentPath)), old(selectedItems)))
                && selectedItems == [] && !selectionMode
      ensures settings == old(settings) && currentPath == old(currentPath)
      ensures navigationHistory == old(navigationHistory) && historyIndex == old(historyIndex)
      ensures isSearchActive == old(isSearchActive) && searchResults == old(searchResults)
    {
      if |selectedItems| == 0 {
        return NothingSelected;
      }
      var currentFolder := GetCurrentFolder(root, currentPath);
      var itemsToDelete := CollectItems(currentFolder, selectedItems);
      if |itemsToDelete| == 0 {
        return NoValidItems;
      }
      if !confirmed {
        return Declined;
      }
      var rest, _, _ := RemovePicked(currentFolder, selectedItems, itemsToDelete);
      root := UpdateAt(root, currentPath, rest);
      ClearSelection();
      outcome := Deleted(|itemsToDelete|);
    }

    /** `duplicateSelectedItems`: copies of the selected children pushed onto the open folder, then the selection cleared. */
    method DuplicateSelectedItems()
      requires Valid() && KeysInRange(Resolve(root, currentPath), selectedItems)
      modifies this
      ensures Valid()
      ensures root == UpdateAt(old(root), old(currentPath), Duplicated(old(Resolve(root, currentPath)), old(selectedItems)))
      ensures selectedItems == [] && !selectionMode
      ensures settings == old(settings) && currentPath == old(currentPath)
      ensures navigationHistory == old(navigationHistory) && historyIndex == old(historyIndex)
      ensures isSearchActive == old(isSearchActive) && searchResults == old(searchResults)
    {
      var folder := GetCurrentFolder(root, currentPath);
      var duplicated := Batch.DuplicateSelectedItems(folder, selectedItems);
      root := UpdateAt(root, currentPath, duplicated);
      ClearSelection();
    }

    /** The duplicate button of the folder dialog: a copy named with `"/Copy"` pushed after the sub-folders. */
    method DuplicateFolder(folderIdx: nat)
      requires Valid() && folderIdx < |Resolve(root, currentPath).folders|
      modifies this
      ensures Valid()
      ensures var src := old(Resolve(root, currentPath));
              root == UpdateAt(old(root), old(currentPath), Received(src, [FolderCopy(src.folders[folderIdx], DialogCopySuffix)], []))
      ensures settings == old(settings) && currentPath == old(currentPath)
      ensures navigationHistory == old(navigationHistory) && historyIndex == old(historyIndex)
      ensures selectedItems == old(selectedItems) && selectionMode == old(selectionMode)
      ensures isSearchActive == old(isSearchActive) && searchResults == old(searchResults)
    {
      var currentFolder := GetCurrentFolder(root, currentPath);
      var targetFolder := currentFolder.folders[folderIdx];
      var duplicatedFolder := FolderCopy(targetFolder, DialogCopySuffix);
      assert currentFolder.entries + [] == currentFolder.entries;
      root := UpdateAt(root, currentPath, currentFolder.(folders := currentFolder.folders + [duplicatedFolder]));
    }

    /** The duplicate button of the entry dialog: a copy named with `"/Copy"` pushed after the entries. */
    method DuplicateEntry(entryIdx: nat)
      requires Valid() && entryIdx < |Resolve(root, currentPath).entries|
      modifies this
      ensures Valid()
      ensures var src := old(Resolve(root, currentPath));
              root == UpdateAt(old(root), old(currentPath), Received(src, [], [EntryCopy(src.entries[entryIdx], DialogCopySuffix)]))
      ensures settings == old(settings) && currentPath == old(currentPath)
      ensures navigationHistory == old(navigationHistory) && historyIndex == old(historyIndex)
      ensures selectedItems == old(selectedItems) && selectionMode == old(selectionMode)
      ensures isSearchActive == old(isSearchActive) && searchResults == old(searchResults)
    {
      var currentFolder := GetCurrentFolder(root, currentPath);
      var targetEntry := currentFolder.entries[entryIdx];
      var duplicatedEntry := EntryCopy(targetEntry, DialogCopySuffix);
      assert currentFolder.folders + [] == currentFolder.folders;
      root := UpdateAt(root, currentPath, currentFolder.(entries := currentFolder.entries + [duplicatedEntry]));
    }

    // -------------------------------------------------------------------------
    // Settings
    // -------------------------------------------------------------------------

    /** `initializeSettings`: a document without settings gets the initial ones. */
    method InitializeSettings()
      modifies this
      ensures settings == if old(settings).None? then Some(InitialSettings) else old(settings)
      ensures root == old(root) && currentPath == old(currentPath)
      ensures navigationHistory == old(navigationHistory) && historyIndex == old(historyIndex)
      ensures selectedItems == old(selectedItems) && selectionMode == old(selectionMode)
      ensures isSearchActive == old(isSearchActive) && searchResults == old(searchResults)
    {
      if settings.None? {
        settings := Some(InitialSettings);
      }
    }

    /**
      `applyDefaultSettings`: make sure the document has settings, then fill each missing
      display field of the item from them, field by field.
     */
    method ApplyDefaultSettings(item: Item) returns (r: Item)
      requires Valid()
      modifies this
      ensures Valid()
      ensures settings == if old(settings).None? then Some(InitialSettings) else old(settings)
      ensures settings.Some? && r == WithDefaults(item, settings.value)
      ensures root == old(root) && currentPath == old(currentPath)
      ensures navigationHistory == old(navigationHistory) && historyIndex == old(historyIndex)
      ensures selectedItems == old(selectedItems) && selectionMode == old(selectionMode)
      ensures isSearchActive == old(isSearchActive) && searchResults == old(searchResults)
    {
      InitializeSettings();
      var s := settings.value;
      match item
      case FolderItem(f) =>
        var g := f;
        if g.aspectRatio == "" {
          g := g.(aspectRatio := s.defaultFolderAspectRatio);
        }
        if g.color == "" {
          g := g.(color := s.defaultFolderColor);
        }
        if g.whiteText.None? {
          g := g.(whiteText := Some(s.defaultFolderWhiteText));
        }
        if g.folderTags.None? {
          g := g.(folderTags := Some([]));
        }
        r := FolderItem(g);
      case EntryItem(e) =>
        var g := e;
        if g.aspectRatio == "" {
          g := g.(aspectRatio := s.defaultEntryAspectRatio);
        }
        if g.color == "" {
          g := g.(color := s.defaultEntryColor);
        }
        if g.entryTags.None? {
          g := g.(entryTags := Some([]));
        }
        r := EntryItem(g);
    }
  }
}
