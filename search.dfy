/**
  The search box. The typed text is parsed into clauses. A clause is either general, which
  searches names, tags and links, or a keyword clause `.name term`, `.ftag term` and so on.
  Several clauses are separated by semicolons, and an item is found when it matches every
  clause. The walk starts at the current folder, lists each matching sub-folder before
  everything below it, and lists the folder's own matching entries after all of that.
 */
module Search {
  import opened Wrappers
  import opened Strings
  import opened Tree
  import opened Sorting
  import opened Arrange

  // ---------------------------------------------------------------------------
  // Query grammar
  // ---------------------------------------------------------------------------

  /** One clause: `{type: 'general', term}` or `{type: 'keyword', keyword, term}`. */
  datatype Query = General(term: string) | Keyword(keyword: string, term: string)

  /** The text uses the keyword syntax only when it holds both a '.' and a ' '. */
  predicate KeywordSyntax(text: string) {
    Contains(text, ".") && Contains(text, " ")
  }

  /** The clause one trimmed, non-empty part contributes: none for a keyword without a space or without a term. */
  function PartQueries(part: string): seq<Query> {
    if StartsWith(part, ".") then
      var spaceIndex := IndexOf(part, ' ');
      if spaceIndex > 0 then
        var term := Trim(part[spaceIndex + 1..]);
        if term != "" then [Keyword(Lower(part[1..spaceIndex]), Lower(term))] else []
      else []
    else [General(Lower(part))]
  }

  /** The clauses of the parts, in order. */
  function PartsQueries(parts: seq<string>): seq<Query> {
    if parts == [] then [] else PartsQueries(parts[..|parts| - 1]) + PartQueries(parts[|parts| - 1])
  }

  /** The parts of keyword syntax: split on ';', trimmed, empty ones dropped. */
  function QueryParts(text: string): seq<string> {
    DropEmpty(TrimAll(Split(text, ';')))
  }

  /** What `parseSearchQuery` returns for `text`. */
  function ParsedQuery(text: string): seq<Query> {
    if KeywordSyntax(text) then PartsQueries(QueryParts(text)) else [General(Lower(text))]
  }

  /** One more part appends that part's clauses. */
  lemma PartsQueriesStep(parts: seq<string>, i: nat)
    requires i < |parts|
    ensures PartsQueries(parts[..i + 1]) == PartsQueries(parts[..i]) + PartQueries(parts[i])
  {
    assert parts[..i + 1][..i] == parts[..i];
  }

  /** `parseSearchQuery`: the loop over the parts, pushing the clause each one yields. */
  method ParseSearchQuery(searchText: string) returns (queries: seq<Query>)
    ensures queries == ParsedQuery(searchText)
  {
    if KeywordSyntax(searchText) {
      var parts := QueryParts(searchText);
      queries := [];
      for i := 0 to |parts|
        invariant queries == PartsQueries(parts[..i])
      {
        PartsQueriesStep(parts, i);
        var part := parts[i];
        if StartsWith(part, ".") {
          var spaceIndex := IndexOf(part, ' ');
          if spaceIndex > 0 {
            var keyword := Lower(part[1..spaceIndex]);
            var searchTerm := Trim(part[spaceIndex + 1..]);
            if searchTerm != "" {
              queries := queries + [Keyword(keyword, Lower(searchTerm))];
            }
          }
        } else {
          queries := queries + [General(Lower(part))];
        }
      }
      assert parts[..|parts|] == parts;
    } else {
      queries := [General(Lower(searchText))];
    }
  }

  /** Text without a '.' or without a ' ' is one general clause: the whole text, lower-cased. */
  lemma PlainTextIsOneClause(text: string)
    requires !Contains(text, ".") || !Contains(text, " ")
    ensures ParsedQuery(text) == [General(Lower(text))]
  {
  }

  /** The part after the first space of a part that starts with '.'. */
  function AfterFirstSpace(part: string): string
    requires ' ' in part
  {
    part[IndexOf(part, ' ') + 1..]
  }

  /** A part yields no clause exactly when it is a keyword part with no space or with nothing after the space. */
  lemma DroppedParts(part: string)
    ensures PartQueries(part) == [] <==>
      StartsWith(part, ".") && (' ' !in part || IsBlank(AfterFirstSpace(part)))
  {
    if StartsWith(part, ".") && ' ' in part {
      assert part[0] == '.';
      TrimEmptyIffBlank(AfterFirstSpace(part));
    }
  }

  /** Every clause a part yields is a general clause of the lower-cased part, or a keyword clause with a lower-case keyword free of spaces and a non-empty lower-case term. */
  lemma PartClauseShape(part: string)
    ensures forall q :: q in PartQueries(part) ==>
      if q.General? then q.term == Lower(part) && !StartsWith(part, ".")
      else q.term != "" && Lower(q.term) == q.term && Lower(q.keyword) == q.keyword && ' ' !in q.keyword
  {
    if StartsWith(part, ".") {
      var spaceIndex := IndexOf(part, ' ');
      if spaceIndex > 0 {
        var term := Trim(part[spaceIndex + 1..]);
        LowerIdempotent(term);
        LowerIdempotent(part[1..spaceIndex]);
        LowerKeepsChar(part[1..spaceIndex], ' ');
      }
    }
  }

  /** Each part yields at most one clause, so there are never more clauses than parts. */
  lemma {:induction false} AtMostOneClausePerPart(parts: seq<string>)
    ensures |PartsQueries(parts)| <= |parts|
  {
    if parts != [] {
      AtMostOneClausePerPart(parts[..|parts| - 1]);
    }
  }

  // ---------------------------------------------------------------------------
  // Matching
  // ---------------------------------------------------------------------------

  /** The item's name. */
  function ItemName(item: Item): string {
    match item
    case FolderItem(f) => f.name
    case EntryItem(e) => e.name
  }

  /** `item.folderTags || []` for a folder, `item.entryTags || []` for an entry. */
  function ItemTags(item: Item): seq<string> {
    match item
    case FolderItem(f) => if f.folderTags.Some? then f.folderTags.value else []
    case EntryItem(e) => if e.entryTags.Some? then e.entryTags.value else []
  }

  /** `item.name && item.name.toLowerCase().includes(term)`. */
  predicate NameHas(item: Item, term: string) {
    ItemName(item) != "" && Contains(Lower(ItemName(item)), term)
  }

  /** `tags.some(tag => tag.toLowerCase().includes(term))`. */
  predicate SomeTagHas(tags: seq<string>, term: string) {
    exists i :: 0 <= i < |tags| && Contains(Lower(tags[i]), term)
  }

  /** `item.links.some(link => link && link.toLowerCase().includes(term))`, for entries only. */
  predicate SomeLinkHas(item: Item, term: string) {
    item.EntryItem? &&
    exists i :: 0 <= i < |item.entry.links| && item.entry.links[i] != "" && Contains(Lower(item.entry.links[i]), term)
  }

  /** `matchesSingleQuery`. */
  predicate MatchesSingle(item: Item, query: Query) {
    match query
    case General(term) => NameHas(item, term) || SomeTagHas(ItemTags(item), term) || SomeLinkHas(item, term)
    case Keyword(keyword, term) =>
      if keyword == "name" then NameHas(item, term)
      else if keyword == "fname" then item.FolderItem? && NameHas(item, term)
      else if keyword == "ename" then item.EntryItem? && NameHas(item, term)
      else if keyword == "link" then SomeLinkHas(item, term)
      else if keyword == "tag" then SomeTagHas(ItemTags(item), term)
      else if keyword == "ftag" then item.FolderItem? && SomeTagHas(ItemTags(item), term)
      else if keyword == "etag" then item.EntryItem? && SomeTagHas(ItemTags(item), term)
      else false
  }

  /** `matchesSearchQueries`: `queries.every(...)`, clause by clause from the left. */
  predicate MatchesAll(item: Item, queries: seq<Query>) {
    |queries| == 0 || (MatchesSingle(item, queries[0]) && MatchesAll(item, queries[1..]))
  }

  /** An item matches the clause list exactly when it matches every clause; with no clauses everything matches. */
  lemma {:induction false} MatchesAllMeans(item: Item, queries: seq<Query>)
    ensures MatchesAll(item, queries) <==> forall i :: 0 <= i < |queries| ==> MatchesSingle(item, queries[i])
    decreases |queries|
  {
    if |queries| > 0 {
      MatchesAllMeans(item, queries[1..]);
      assert forall i :: 1 <= i < |queries| ==> queries[1..][i - 1] == queries[i];
    }
  }

  /** Clauses combine by AND: matching a concatenation is matching both halves. */
  lemma MatchesAllAppend(item: Item, a: seq<Query>, b: seq<Query>)
    ensures MatchesAll(item, a + b) <==> MatchesAll(item, a) && MatchesAll(item, b)
  {
    MatchesAllMeans(item, a);
    MatchesAllMeans(item, b);
    MatchesAllMeans(item, a + b);
    if MatchesAll(item, a) && MatchesAll(item, b) {
      forall i | 0 <= i < |a + b|
        ensures MatchesSingle(item, (a + b)[i])
      {
        if i >= |a| {
          assert (a + b)[i] == b[i - |a|];
        }
      }
    }
    if MatchesAll(item, a + b) {
      forall i | 0 <= i < |a|
        ensures MatchesSingle(item, a[i])
      {
        assert (a + b)[i] == a[i];
      }
      forall i | 0 <= i < |b|
        ensures MatchesSingle(item, b[i])
      {
        assert (a + b)[|a| + i] == b[i];
      }
    }
  }

  /** Folder-only keywords never match an entry; entry-only keywords never match a folder; unknown keywords match nothing. */
  lemma KeywordKinds(item: Item, keyword: string, term: string)
    ensures (keyword == "fname" || keyword == "ftag") && item.EntryItem? ==> !MatchesSingle(item, Keyword(keyword, term))
    ensures (keyword == "ename" || keyword == "etag" || keyword == "link") && item.FolderItem? ==>
      !MatchesSingle(item, Keyword(keyword, term))
    ensures keyword !in {"name", "fname", "ename", "link", "tag", "ftag", "etag"} ==> !MatchesSingle(item, Keyword(keyword, term))
  {
  }

  /** A general clause is the union of the `name`, `tag` and `link` keyword clauses with the same term. */
  lemma GeneralIsNameTagOrLink(item: Item, term: string)
    ensures MatchesSingle(item, General(term)) <==>
      MatchesSingle(item, Keyword("name", term)) || MatchesSingle(item, Keyword("tag", term)) ||
      MatchesSingle(item, Keyword("link", term))
  {
  }

  // ---------------------------------------------------------------------------
  // The walk
  // ---------------------------------------------------------------------------

  /** One element of the results array. */
  datatype SearchResult =
    | FolderResult(folder: Folder, path: Path, pathDisplay: string)
    | EntryResult(entry: Entry, path: Path, entryIndex: nat, pathDisplay: string)

  /** `matchesSearchQueries(item, queries)`, as a test on items. The walk below is stated for any such test. */
  function Matcher(queries: seq<Query>): Item -> bool {
    item => MatchesAll(item, queries)
  }

  /** Sub-folder `i`'s own result: present exactly when the sub-folder matches. */
  function SubfolderHit(root: Folder, f: Folder, path: Path, matches: Item -> bool, i: nat): seq<SearchResult>
    requires ValidPath(root, path) && Resolve(root, path) == f && i < |f.folders|
  {
    ResolveSnoc(root, path, i);
    if matches(FolderItem(f.folders[i])) then [FolderResult(f.folders[i], path + [i], PathDisplay(root, path + [i]))] else []
  }

  /** Entry `i`'s result: present exactly when the entry matches. */
  function EntryHit(root: Folder, f: Folder, path: Path, matches: Item -> bool, i: nat): seq<SearchResult>
    requires ValidPath(root, path) && Resolve(root, path) == f && i < |f.entries|
  {
    if matches(EntryItem(f.entries[i])) then [EntryResult(f.entries[i], path, i, PathDisplay(root, path))] else []
  }

  /** The results for the sub-folders `0 .. n-1` of `f` (at `path`) and everything below them. */
  function SubfolderHits(root: Folder, f: Folder, path: Path, matches: Item -> bool, n: nat): seq<SearchResult>
    requires ValidPath(root, path) && Resolve(root, path) == f && n <= |f.folders|
    decreases f, 0, n
  {
    if n == 0 then []
    else
      ResolveSnoc(root, path, n - 1);
      SubfolderHits(root, f, path, matches, n - 1) + SubfolderHit(root, f, path, matches, n - 1)
      + FolderHits(root, f.folders[n - 1], path + [n - 1], matches)
  }

  /** The results for the entries `0 .. n-1` of `f` (at `path`). */
  function EntryHits(root: Folder, f: Folder, path: Path, matches: Item -> bool, n: nat): seq<SearchResult>
    requires ValidPath(root, path) && Resolve(root, path) == f && n <= |f.entries|
  {
    if n == 0 then [] else EntryHits(root, f, path, matches, n - 1) + EntryHit(root, f, path, matches, n - 1)
  }

  /** Everything `searchInFolder` pushes for the folder `f` at `path`: the sub-folders' results, then the entries'. */
  function FolderHits(root: Folder, f: Folder, path: Path, matches: Item -> bool): seq<SearchResult>
    requires ValidPath(root, path) && Resolve(root, path) == f
    decreases f, 1, 0
  {
    SubfolderHits(root, f, path, matches, |f.folders|) + EntryHits(root, f, path, matches, |f.entries|)
  }

  /**
    The results array after `searchInFolder` has handled the sub-folders `0 .. n-1` of `f`,
    starting from `acc`: push each matching sub-folder, then recurse into it.
   */
  function SubfolderWalk(root: Folder, f: Folder, path: Path, matches: Item -> bool, acc: seq<SearchResult>, n: nat)
    : seq<SearchResult>
    requires ValidPath(root, path) && Resolve(root, path) == f && n <= |f.folders|
    decreases f, 0, n
  {
    if n == 0 then acc
    else
      ResolveSnoc(root, path, n - 1);
      var before := SubfolderWalk(root, f, path, matches, acc, n - 1);
      var child := f.folders[n - 1];
      var mid := if matches(FolderItem(child)) then before + [FolderResult(child, path + [n - 1], PathDisplay(root, path + [n - 1]))]
                 else before;
      FolderWalk(root, child, path + [n - 1], matches, mid)
  }

  /** The results array after `searchInFolder` has handled the entries `0 .. n-1` of `f`, starting from `acc`. */
  function EntryWalk(root: Folder, f: Folder, path: Path, matches: Item -> bool, acc: seq<SearchResult>, n: nat)
    : seq<SearchResult>
    requires ValidPath(root, path) && Resolve(root, path) == f && n <= |f.entries|
  {
    if n == 0 then acc
    else
      var before := EntryWalk(root, f, path, matches, acc, n - 1);
      if matches(EntryItem(f.entries[n - 1])) then before + [EntryResult(f.entries[n - 1], path, n - 1, PathDisplay(root, path))]
      else before
  }

  /** The results array after `searchInFolder(f, path, ...)`, starting from `acc`. */
  function FolderWalk(root: Folder, f: Folder, path: Path, matches: Item -> bool, acc: seq<SearchResult>): seq<SearchResult>
    requires ValidPath(root, path) && Resolve(root, path) == f
    decreases f, 1, 0
  {
    EntryWalk(root, f, path, matches, SubfolderWalk(root, f, path, matches, acc, |f.folders|), |f.entries|)
  }

  /** Concatenation of results is associative. */
  lemma Assoc(a: seq<SearchResult>, b: seq<SearchResult>, c: seq<SearchResult>)
    ensures a + b + c == a + (b + c)
  {
  }

  /** The walk over the entries only appends: it leaves `acc` in front and adds exactly their results. */
  lemma {:induction false} EntryWalkAppends(root: Folder, f: Folder, path: Path, matches: Item -> bool, acc: seq<SearchResult>, n: nat)
    requires ValidPath(root, path) && Resolve(root, path) == f && n <= |f.entries|
    ensures EntryWalk(root, f, path, matches, acc, n) == acc + EntryHits(root, f, path, matches, n)
  {
    if n > 0 {
      EntryWalkAppends(root, f, path, matches, acc, n - 1);
      Assoc(acc, EntryHits(root, f, path, matches, n - 1), EntryHit(root, f, path, matches, n - 1));
    }
  }

  /** The walk over the sub-folders only appends: it leaves `acc` in front and adds exactly their results. */
  lemma {:induction false} SubfolderWalkAppends(root: Folder, f: Folder, path: Path, matches: Item -> bool, acc: seq<SearchResult>, n: nat)
    requires ValidPath(root, path) && Resolve(root, path) == f && n <= |f.folders|
    ensures SubfolderWalk(root, f, path, matches, acc, n) == acc + SubfolderHits(root, f, path, matches, n)
    decreases f, 0, n
  {
    if n > 0 {
      var i := n - 1;
      SubfolderWalkStep(root, f, path, matches, acc, i);
      var child, childPath := f.folders[i], path + [i];
      var before := SubfolderWalk(root, f, path, matches, acc, i);
      var own := SubfolderHit(root, f, path, matches, i);
      var below := FolderHits(root, child, childPath, matches);
      var hits := SubfolderHits(root, f, path, matches, i);
      var mid := if matches(FolderItem(child)) then before + [FolderResult(child, childPath, PathDisplay(root, childPath))]
                 else before;
      assert mid == before + own;
      assert before == acc + hits by { SubfolderWalkAppends(root, f, path, matches, acc, i); }
      assert SubfolderWalk(root, f, path, matches, acc, n) == mid + below by { FolderWalkAppends(root, child, childPath, matches, mid); }
      assert SubfolderHits(root, f, path, matches, n) == hits + own + below by { ChildBlock(root, f, path, matches, i); }
      Assoc(acc, hits, own);
      Assoc(acc, hits + own, below);
    }
  }

  /** `searchInFolder` only appends to the array it is given, and what it appends is `FolderHits`. */
  lemma {:induction false} FolderWalkAppends(root: Folder, f: Folder, path: Path, matches: Item -> bool, acc: seq<SearchResult>)
    requires ValidPath(root, path) && Resolve(root, path) == f
    ensures FolderWalk(root, f, path, matches, acc) == acc + FolderHits(root, f, path, matches)
    decreases f, 1, 0
  {
    var subs := SubfolderHits(root, f, path, matches, |f.folders|);
    SubfolderWalkAppends(root, f, path, matches, acc, |f.folders|);
    EntryWalkAppends(root, f, path, matches, acc + subs, |f.entries|);
    Assoc(acc, subs, EntryHits(root, f, path, matches, |f.entries|));
  }

  /** One more sub-folder: push it when it matches, then walk below it. */
  lemma SubfolderWalkStep(root: Folder, f: Folder, path: Path, matches: Item -> bool, acc: seq<SearchResult>, i: nat)
    requires ValidPath(root, path) && Resolve(root, path) == f && i < |f.folders|
    ensures ValidPath(root, path + [i]) && Resolve(root, path + [i]) == f.folders[i]
    ensures var before := SubfolderWalk(root, f, path, matches, acc, i);
            var child := f.folders[i];
            SubfolderWalk(root, f, path, matches, acc, i + 1)
            == FolderWalk(root, child, path + [i], matches,
                          if matches(FolderItem(child)) then before + [FolderResult(child, path + [i], PathDisplay(root, path + [i]))]
                          else before)
  {
    ResolveSnoc(root, path, i);
  }

  /** One more entry: push it when it matches. */
  lemma EntryWalkStep(root: Folder, f: Folder, path: Path, matches: Item -> bool, acc: seq<SearchResult>, i: nat)
    requires ValidPath(root, path) && Resolve(root, path) == f && i < |f.entries|
    ensures var before := EntryWalk(root, f, path, matches, acc, i);
            EntryWalk(root, f, path, matches, acc, i + 1)
            == if matches(EntryItem(f.entries[i])) then before + [EntryResult(f.entries[i], path, i, PathDisplay(root, path))]
               else before
  {
  }

  /** `searchInFolder`: push the matches below `folder` onto `results`. */
  method SearchInFolder(root: Folder, folder: Folder, folderPath: Path, matches: Item -> bool, results: seq<SearchResult>)
    returns (out: seq<SearchResult>)
    requires ValidPath(root, folderPath) && Resolve(root, folderPath) == folder
    ensures out == FolderWalk(root, folder, folderPath, matches, results)
    decreases folder
  {
    out := results;
    for index := 0 to |folder.folders|
      invariant out == SubfolderWalk(root, folder, folderPath, matches, results, index)
    {
      var subfolder := folder.folders[index];
      var subfolderPath := folderPath + [index];
      SubfolderWalkStep(root, folder, folderPath, matches, results, index);
      if matches(FolderItem(subfolder)) {
        var pathDisplay := GetPathDisplayString(root, subfolderPath);
        out := out + [FolderResult(subfolder, subfolderPath, pathDisplay)];
      }
      out := SearchInFolder(root, subfolder, subfolderPath, matches, out);
    }
    ghost var afterFolders := out;
    for index := 0 to |folder.entries|
      invariant out == EntryWalk(root, folder, folderPath, matches, afterFolders, index)
    {
      var entry := folder.entries[index];
      EntryWalkStep(root, folder, folderPath, matches, afterFolders, index);
      if matches(EntryItem(entry)) {
        var pathDisplay := GetPathDisplayString(root, folderPath);
        out := out + [EntryResult(entry, folderPath, index, pathDisplay)];
      }
    }
  }

  /** `performSearchOperation`: parse the text, then walk from the given folder. */
  method PerformSearchOperation(root: Folder, searchText: string, folderPath: Path) returns (results: seq<SearchResult>)
    requires ValidPath(root, folderPath)
    ensures results == FolderHits(root, Resolve(root, folderPath), folderPath, Matcher(ParsedQuery(searchText)))
  {
    var queries := ParseSearchQuery(searchText);
    var folder := GetCurrentFolder(root, folderPath);
    results := SearchInFolder(root, folder, folderPath, Matcher(queries), []);
    FolderWalkAppends(root, folder, folderPath, Matcher(queries), []);
  }

  /** A result is what it claims: the item really sits at its path (below `start`), matches, and shows that path's breadcrumb. */
  predicate SoundResult(root: Folder, start: Path, matches: Item -> bool, r: SearchResult) {
    match r
    case FolderResult(f, p, d) =>
      start < p && ValidPath(root, p) && Resolve(root, p) == f && d == PathDisplay(root, p) && matches(FolderItem(f))
    case EntryResult(e, p, k, d) =>
      start <= p && ValidPath(root, p) && k < |Resolve(root, p).entries| && Resolve(root, p).entries[k] == e &&
      d == PathDisplay(root, p) && matches(EntryItem(e))
  }

  /** Every result is sound for `start`; with `strict`, every result also lies strictly below it. */
  predicate AllSound(root: Folder, start: Path, matches: Item -> bool, rs: seq<SearchResult>, strict: bool) {
    forall i :: 0 <= i < |rs| ==> SoundResult(root, start, matches, rs[i]) && (strict ==> start < rs[i].path)
  }

  /** Soundness for a deeper start carries over to a shallower one. */
  lemma SoundUpward(root: Folder, start: Path, deeper: Path, matches: Item -> bool, rs: seq<SearchResult>)
    requires start < deeper && AllSound(root, deeper, matches, rs, false)
    ensures AllSound(root, start, matches, rs, true)
  {
    forall i | 0 <= i < |rs|
      ensures SoundResult(root, start, matches, rs[i]) && start < rs[i].path
    {
      assert deeper <= rs[i].path;
      assert start == rs[i].path[..|start|];
    }
  }

  /** Soundness of both halves gives soundness of the concatenation. */
  lemma SoundAppend(root: Folder, start: Path, matches: Item -> bool, a: seq<SearchResult>, b: seq<SearchResult>, strict: bool)
    requires AllSound(root, start, matches, a, strict) && AllSound(root, start, matches, b, strict)
    ensures AllSound(root, start, matches, a + b, strict)
  {
    forall i | 0 <= i < |a + b|
      ensures SoundResult(root, start, matches, (a + b)[i]) && (strict ==> start < (a + b)[i].path)
    {
      if i >= |a| {
        assert (a + b)[i] == b[i - |a|];
      } else {
        assert (a + b)[i] == a[i];
      }
    }
  }

  /** The entry results are sound and all sit at `path` itself. */
  lemma {:induction false} EntryHitsSound(root: Folder, f: Folder, path: Path, matches: Item -> bool, n: nat)
    requires ValidPath(root, path) && Resolve(root, path) == f && n <= |f.entries|
    ensures AllSound(root, path, matches, EntryHits(root, f, path, matches, n), false)
    ensures forall i :: 0 <= i < |EntryHits(root, f, path, matches, n)| ==>
      EntryHits(root, f, path, matches, n)[i].EntryResult? && EntryHits(root, f, path, matches, n)[i].path == path
  {
    if n > 0 {
      EntryHitsSound(root, f, path, matches, n - 1);
      var own := EntryHit(root, f, path, matches, n - 1);
      assert AllSound(root, path, matches, own, false);
      SoundAppend(root, path, matches, EntryHits(root, f, path, matches, n - 1), own, false);
    }
  }

  /** The sub-folder results are sound and lie strictly below `path`. */
  lemma {:induction false} SubfolderHitsSound(root: Folder, f: Folder, path: Path, matches: Item -> bool, n: nat)
    requires ValidPath(root, path) && Resolve(root, path) == f && n <= |f.folders|
    ensures AllSound(root, path, matches, SubfolderHits(root, f, path, matches, n), true)
    decreases f, 0, n
  {
    if n > 0 {
      ResolveSnoc(root, path, n - 1);
      var child := f.folders[n - 1];
      var childPath := path + [n - 1];
      SubfolderHitsSound(root, f, path, matches, n - 1);
      var own := SubfolderHit(root, f, path, matches, n - 1);
      assert AllSound(root, path, matches, own, true);
      FolderHitsSound(root, child, childPath, matches);
      SoundUpward(root, path, childPath, matches, FolderHits(root, child, childPath, matches));
      SoundAppend(root, path, matches, SubfolderHits(root, f, path, matches, n - 1), own, true);
      SoundAppend(root, path, matches, SubfolderHits(root, f, path, matches, n - 1) + own,
                  FolderHits(root, child, childPath, matches), true);
    }
  }

  /**
    Every result is sound. In particular the start folder itself is never reported: every folder
    result lies strictly below it.
   */
  lemma {:induction false} FolderHitsSound(root: Folder, f: Folder, path: Path, matches: Item -> bool)
    requires ValidPath(root, path) && Resolve(root, path) == f
    ensures AllSound(root, path, matches, FolderHits(root, f, path, matches), false)
    decreases f, 1, 0
  {
    SubfolderHitsSound(root, f, path, matches, |f.folders|);
    EntryHitsSound(root, f, path, matches, |f.entries|);
    SoundAppend(root, path, matches, SubfolderHits(root, f, path, matches, |f.folders|),
                EntryHits(root, f, path, matches, |f.entries|), false);
  }

  /** Up to position `m` every result lies strictly below `path`; from `m` on every result is an entry of `path` itself. */
  predicate EntriesFrom(hits: seq<SearchResult>, path: Path, m: int) {
    && 0 <= m <= |hits|
    && (forall i :: 0 <= i < m ==> path < hits[i].path)
    && (forall i :: m <= i < |hits| ==> hits[i].EntryResult? && hits[i].path == path)
  }

  /** Gluing a block strictly below `path` to a block of entries at `path`. */
  lemma EntriesFromAppend(a: seq<SearchResult>, b: seq<SearchResult>, path: Path)
    requires forall i :: 0 <= i < |a| ==> path < a[i].path
    requires forall i :: 0 <= i < |b| ==> b[i].EntryResult? && b[i].path == path
    ensures EntriesFrom(a + b, path, |a|)
  {
    forall i | 0 <= i < |a|
      ensures path < (a + b)[i].path
    {
      assert (a + b)[i] == a[i];
    }
    forall i | |a| <= i < |a + b|
      ensures (a + b)[i].EntryResult? && (a + b)[i].path == path
    {
      assert (a + b)[i] == b[i - |a|];
    }
  }

  /** The folder's own entries come last: all results before them lie strictly below the folder, and they all sit at it. */
  lemma OwnEntriesLast(root: Folder, f: Folder, path: Path, matches: Item -> bool)
    requires ValidPath(root, path) && Resolve(root, path) == f
    ensures exists m :: EntriesFrom(FolderHits(root, f, path, matches), path, m)
  {
    var a := SubfolderHits(root, f, path, matches, |f.folders|);
    var b := EntryHits(root, f, path, matches, |f.entries|);
    SubfolderHitsSound(root, f, path, matches, |f.folders|);
    EntryHitsSound(root, f, path, matches, |f.entries|);
    EntriesFromAppend(a, b, path);
    assert EntriesFrom(FolderHits(root, f, path, matches), path, |a|);
  }

  /** Sub-folder `i`'s block: its own result if it matches, immediately followed by everything found below it. */
  lemma ChildBlock(root: Folder, f: Folder, path: Path, matches: Item -> bool, i: nat)
    requires ValidPath(root, path) && Resolve(root, path) == f && i < |f.folders|
    ensures ValidPath(root, path + [i]) && Resolve(root, path + [i]) == f.folders[i]
    ensures SubfolderHits(root, f, path, matches, i + 1) == SubfolderHits(root, f, path, matches, i)
      + SubfolderHit(root, f, path, matches, i) + FolderHits(root, f.folders[i], path + [i], matches)
  {
    ResolveSnoc(root, path, i);
  }

  /** `a` is the front part of `b`. */
  predicate IsPrefix(a: seq<SearchResult>, b: seq<SearchResult>) {
    |a| <= |b| && b[..|a|] == a
  }

  /** Extending a sequence past a prefix keeps the prefix. */
  lemma PrefixExtend(a: seq<SearchResult>, b: seq<SearchResult>, c: seq<SearchResult>, d: seq<SearchResult>)
    requires IsPrefix(a, b)
    ensures IsPrefix(a, b + c + d)
  {
    assert (b + c + d)[..|b|] == b;
  }

  /** The results for the first `n` sub-folders are a prefix of those for the first `m`. */
  lemma SubfolderHitsPrefix(root: Folder, f: Folder, path: Path, matches: Item -> bool, n: nat, m: nat)
    requires ValidPath(root, path) && Resolve(root, path) == f && n <= m <= |f.folders|
    ensures IsPrefix(SubfolderHits(root, f, path, matches, n), SubfolderHits(root, f, path, matches, m))
  {
    var a := SubfolderHits(root, f, path, matches, n);
    var k := n;
    while k < m
      invariant n <= k <= m && IsPrefix(a, SubfolderHits(root, f, path, matches, k))
    {
      var b, c := SubfolderHits(root, f, path, matches, k), SubfolderHits(root, f, path, matches, k + 1);
      assert IsPrefix(b, c) by { SubfolderHitsExtend(root, f, path, matches, k + 1); }
      PrefixTrans(a, b, c);
      k := k + 1;
    }
  }

  /** The results for the first `n - 1` sub-folders are a prefix of those for the first `n`. */
  lemma SubfolderHitsExtend(root: Folder, f: Folder, path: Path, matches: Item -> bool, n: nat)
    requires ValidPath(root, path) && Resolve(root, path) == f && 0 < n <= |f.folders|
    ensures IsPrefix(SubfolderHits(root, f, path, matches, n - 1), SubfolderHits(root, f, path, matches, n))
  {
    ResolveSnoc(root, path, n - 1);
    var a := SubfolderHits(root, f, path, matches, n - 1);
    PrefixExtend(a, a, SubfolderHit(root, f, path, matches, n - 1), FolderHits(root, f.folders[n - 1], path + [n - 1], matches));
  }

  /** Being a prefix is transitive. */
  lemma PrefixTrans(a: seq<SearchResult>, b: seq<SearchResult>, c: seq<SearchResult>)
    requires IsPrefix(a, b) && IsPrefix(b, c)
    ensures IsPrefix(a, c)
  {
    assert c[..|a|] == b[..|a|];
  }

  /** An element of a prefix is an element of the whole. */
  lemma InPrefix(a: seq<SearchResult>, b: seq<SearchResult>, r: SearchResult)
    requires IsPrefix(a, b) && r in a
    ensures r in b
  {
    var i :| 0 <= i < |a| && a[i] == r;
    assert b[i] == r;
  }

  /** A result found among the first `n` sub-folders is still there after more of them. */
  lemma SubfolderHitsGrow(root: Folder, f: Folder, path: Path, matches: Item -> bool, n: nat, m: nat, r: SearchResult)
    requires ValidPath(root, path) && Resolve(root, path) == f && n <= m <= |f.folders|
    requires r in SubfolderHits(root, f, path, matches, n)
    ensures r in SubfolderHits(root, f, path, matches, m)
  {
    SubfolderHitsPrefix(root, f, path, matches, n, m);
    InPrefix(SubfolderHits(root, f, path, matches, n), SubfolderHits(root, f, path, matches, m), r);
  }

  /** A result found among the first `n` entries is still there after more of them. */
  lemma {:induction false} EntryHitsGrow(root: Folder, f: Folder, path: Path, matches: Item -> bool, n: nat, m: nat,
                                         r: SearchResult)
    requires ValidPath(root, path) && Resolve(root, path) == f && n <= m <= |f.entries|
    requires r in EntryHits(root, f, path, matches, n)
    ensures r in EntryHits(root, f, path, matches, m)
    decreases m
  {
    if n < m {
      EntryHitsGrow(root, f, path, matches, n, m - 1, r);
    }
  }

  /** Everything found below sub-folder `i`, and its own result, are among the folder's results. */
  lemma ChildHitsIncluded(root: Folder, f: Folder, path: Path, matches: Item -> bool, i: nat, r: SearchResult)
    requires ValidPath(root, path) && Resolve(root, path) == f && i < |f.folders|
    requires ValidPath(root, path + [i]) && Resolve(root, path + [i]) == f.folders[i]
    requires r in SubfolderHit(root, f, path, matches, i) || r in FolderHits(root, f.folders[i], path + [i], matches)
    ensures r in FolderHits(root, f, path, matches)
  {
    ChildBlock(root, f, path, matches, i);
    SubfolderHitsGrow(root, f, path, matches, i + 1, |f.folders|, r);
  }

  /** Completeness for folders: every matching folder strictly below the start is reported, with its path and breadcrumb. */
  lemma {:induction false} FolderHitsComplete(root: Folder, f: Folder, path: Path, matches: Item -> bool, s: Path)
    requires ValidPath(root, path) && Resolve(root, path) == f
    requires |s| > 0 && ValidPath(f, s) && matches(FolderItem(Resolve(f, s)))
    ensures ValidPath(root, path + s) && Resolve(root, path + s) == Resolve(f, s)
    ensures FolderResult(Resolve(f, s), path + s, PathDisplay(root, path + s)) in FolderHits(root, f, path, matches)
    decreases |s|
  {
    ResolveAppend(root, path, s);
    var i := s[0];
    ResolveSnoc(root, path, i);
    var child := f.folders[i];
    if |s| == 1 {
      assert s == [i];
      ChildHitsIncluded(root, f, path, matches, i, FolderResult(child, path + [i], PathDisplay(root, path + [i])));
    } else {
      FolderHitsComplete(root, child, path + [i], matches, s[1..]);
      SplitFirst(path, s);
      ChildHitsIncluded(root, f, path, matches, i, FolderResult(Resolve(f, s), path + s, PathDisplay(root, path + s)));
    }
  }

  /** A non-empty path is its first step followed by the rest. */
  lemma SplitFirst(path: Path, s: Path)
    requires |s| > 0
    ensures path + [s[0]] + s[1..] == path + s
  {
    assert s == [s[0]] + s[1..];
  }

  /** A matching entry of the start folder itself is reported. */
  lemma OwnEntryIncluded(root: Folder, f: Folder, path: Path, matches: Item -> bool, k: nat)
    requires ValidPath(root, path) && Resolve(root, path) == f
    requires k < |f.entries| && matches(EntryItem(f.entries[k]))
    ensures EntryResult(f.entries[k], path, k, PathDisplay(root, path)) in FolderHits(root, f, path, matches)
  {
    var r := EntryResult(f.entries[k], path, k, PathDisplay(root, path));
    assert EntryHit(root, f, path, matches, k) == [r];
    EntryHitsGrow(root, f, path, matches, k + 1, |f.entries|, r);
  }

  /** Completeness for entries: every matching entry at or below the start is reported with its folder path and index. */
  lemma {:induction false} EntryHitsComplete(root: Folder, f: Folder, path: Path, matches: Item -> bool, s: Path, k: nat)
    requires ValidPath(root, path) && Resolve(root, path) == f
    requires ValidPath(f, s) && k < |Resolve(f, s).entries| && matches(EntryItem(Resolve(f, s).entries[k]))
    ensures ValidPath(root, path + s) && Resolve(root, path + s) == Resolve(f, s)
    ensures EntryResult(Resolve(f, s).entries[k], path + s, k, PathDisplay(root, path + s)) in FolderHits(root, f, path, matches)
    decreases |s|
  {
    ResolveAppend(root, path, s);
    if |s| == 0 {
      assert path + s == path;
      OwnEntryIncluded(root, f, path, matches, k);
    } else {
      var i := s[0];
      ResolveSnoc(root, path, i);
      var child := f.folders[i];
      EntryHitsComplete(root, child, path + [i], matches, s[1..], k);
      SplitFirst(path, s);
      ChildHitsIncluded(root, f, path, matches, i,
        EntryResult(Resolve(f, s).entries[k], path + s, k, PathDisplay(root, path + s)));
    }
  }

  // ---------------------------------------------------------------------------
  // Ranking the mixed result list
  // ---------------------------------------------------------------------------

  /** The name a result card shows. */
  function ResultName(r: SearchResult): string {
    if r.FolderResult? then r.folder.name else r.entry.name
  }

  /** The count a result card shows: the entry total of a folder, the non-blank links of an entry. */
  function ResultCount(r: SearchResult): nat {
    if r.FolderResult? then TotalEntries(r.folder) else LinksCount(r.entry)
  }

  /** The comparator of `sortSearchResults` for a known sort type, as "`cmp(a, b) <= 0`". */
  function ResultLe(sortType: string, collate: (string, string) -> bool): (SearchResult, SearchResult) -> bool {
    if sortType == "name-asc" then (a: SearchResult, b: SearchResult) => collate(ResultName(a), ResultName(b))
    else if sortType == "name-desc" then (a: SearchResult, b: SearchResult) => collate(ResultName(b), ResultName(a))
    else if sortType == "count-asc" then (a: SearchResult, b: SearchResult) => ResultCount(a) <= ResultCount(b)
    else (a: SearchResult, b: SearchResult) => ResultCount(b) <= ResultCount(a)
  }

  /** The displayed order of the results, as indices into the unsorted list. */
  function ResultOrder(results: seq<SearchResult>, sortType: string, collate: (string, string) -> bool): (p: seq<nat>)
    ensures IsPermutation(p, |results|) && |p| == |results| && InRange(p, |results|)
  {
    if KnownSort(sortType) then SortOrder(results, ResultLe(sortType, collate)) else IdentityOrder(results); Range(|results|)
  }

  /** `sortSearchResults`: a sorted copy; folders and entries are ranked together in one list. */
  function SortSearchResults(results: seq<SearchResult>, sortType: string, collate: (string, string) -> bool)
    : (r: seq<SearchResult>)
    ensures r == Permute(results, ResultOrder(results, sortType, collate))
  {
    if KnownSort(sortType) then StableSort(results, ResultLe(sortType, collate))
    else
      IdentityOrder(results);
      results
  }

  /** The sorted copy holds the same results, each as often; an unknown sort type keeps the order. */
  lemma SortSearchResultsKeepsResults(results: seq<SearchResult>, sortType: string, collate: (string, string) -> bool)
    ensures multiset(SortSearchResults(results, sortType, collate)) == multiset(results)
    ensures !KnownSort(sortType) ==> SortSearchResults(results, sortType, collate) == results
  {
    if KnownSort(sortType) {
      StableSortIsPermutation(results, ResultLe(sortType, collate));
    }
  }

  /** The result comparator is consistent whenever the collation is (or the sort is by counts). */
  lemma ResultLeConsistent(sortType: string, collate: (string, string) -> bool)
    requires IsNameSort(sortType) ==> TotalPreorder(collate)
    ensures TotalPreorder(ResultLe(sortType, collate))
  {
    var le := ResultLe(sortType, collate);
    forall a: SearchResult, b: SearchResult, c: SearchResult
      ensures le(a, b) || le(b, a)
      ensures le(a, b) && le(b, c) ==> le(a, c)
    {
      if IsNameSort(sortType) {
        var x, y, z := ResultName(a), ResultName(b), ResultName(c);
        assert collate(x, y) || collate(y, x);
        assert collate(x, y) && collate(y, z) ==> collate(x, z);
        assert collate(z, y) && collate(y, x) ==> collate(z, x);
      }
    }
  }

  /** "count-asc" over mixed results: shown counts never decrease, and equal counts keep the walk's order. */
  lemma SearchCountAscOrder(results: seq<SearchResult>, collate: (string, string) -> bool)
    ensures var r := SortSearchResults(results, "count-asc", collate);
      var p := ResultOrder(results, "count-asc", collate);
      forall i, j :: 0 <= i < j < |r| ==>
        ResultCount(r[i]) <= ResultCount(r[j]) && (ResultCount(r[i]) == ResultCount(r[j]) ==> p[i] < p[j])
  {
    ResultLeConsistent("count-asc", collate);
    SortOrderSorted(results, ResultLe("count-asc", collate));
  }

  /** "count-desc" over mixed results: shown counts never increase, and equal counts keep the walk's order. */
  lemma SearchCountDescOrder(results: seq<SearchResult>, collate: (string, string) -> bool)
    ensures var r := SortSearchResults(results, "count-desc", collate);
      var p := ResultOrder(results, "count-desc", collate);
      forall i, j :: 0 <= i < j < |r| ==>
        ResultCount(r[i]) >= ResultCount(r[j]) && (ResultCount(r[i]) == ResultCount(r[j]) ==> p[i] < p[j])
  {
    ResultLeConsistent("count-desc", collate);
    SortOrderSorted(results, ResultLe("count-desc", collate));
  }

  /** "name-asc" / "name-desc" over mixed results: names in (reverse) collation order, equal names in the walk's order. */
  lemma SearchNameOrder(results: seq<SearchResult>, collate: (string, string) -> bool)
    requires TotalPreorder(collate)
    ensures var r := SortSearchResults(results, "name-asc", collate);
      var p := ResultOrder(results, "name-asc", collate);
      forall i, j :: 0 <= i < j < |r| ==>
        collate(ResultName(r[i]), ResultName(r[j])) && (collate(ResultName(r[j]), ResultName(r[i])) ==> p[i] < p[j])
    ensures var r := SortSearchResults(results, "name-desc", collate);
      var p := ResultOrder(results, "name-desc", collate);
      forall i, j :: 0 <= i < j < |r| ==>
        collate(ResultName(r[j]), ResultName(r[i])) && (collate(ResultName(r[i]), ResultName(r[j])) ==> p[i] < p[j])
  {
    ResultLeConsistent("name-asc", collate);
    SortOrderSorted(results, ResultLe("name-asc", collate));
    ResultLeConsistent("name-desc", collate);
    SortOrderSorted(results, ResultLe("name-desc", collate));
  }
}
