# Stashhub bookmark tree: a verified model

Stashhub keeps bookmarks in a tree. Folders hold sub-folders and entries, and an entry holds
links, a note and tags. The browser page (`static/app.js`) keeps the whole document in memory
and a set of page globals beside it:

- the open folder, as a path of child indices;
- a navigation history with a cursor;
- a selection of `folder:i` / `entry:i` keys;
- the active search.

This project models that in-memory engine in Dafny and proves what it promises:

- path resolution and the recursive counts;
- the stable sorts, and the search grammar, matcher and walk;
- selection and the batch delete, move, duplicate, export and open-all operations;
- the navigation history, the tag parser and validator, the colour check and the display
  defaults.

Modules follow the structure of the page:

| module | file | what it holds |
|---|---|---|
| `Wrappers` | `wrappers.dfy` | `Option` |
| `Strings` | `strings.dfy` | `trim`, ASCII lower case, `includes`, `indexOf`, `split`/`join`, UTF-16 `length` |
| `Tree` | `tree.dfy` | `Folder`/`Entry`, paths, counts, link collection, breadcrumbs, update at a path |
| `Sorting` | `sorting.dfy` | stable sort as a permutation of indices |
| `Arrange` | `arrange.dfy` | `sortFoldersAndEntries` |
| `Search` | `search.dfy` | query parsing, matching, the recursive walk, `sortSearchResults` |
| `Tags` | `tags.dfy` | tag parsing, validation, formatting, `isValidHexColor` |
| `Defaults` | `defaults.dfy` | `initializeSettings` values, `applyDefaultSettings` |
| `Batch` | `batch.dfy` | the selection as a value, the batch operations on values |
| `AppState` | `appstate.dfy` | the class `AppState` whose fields are the page globals, and its operations |

Pure code becomes functions with lemmas. Code that changes things becomes methods:

- accumulators that push into a caller's array become methods with loops;
- the index-descending splices become a method with loop invariants;
- the history, selection and batch operations become methods of `AppState`.

Each method is proved against a specification function, and the lemmas about that function
state what the page promises.

Abstractions:

- `localeCompare` is a parameter `collate`, read as "`a.localeCompare(b) <= 0`" and required
  to be a total preorder wherever order matters.
- `isValidLinkUrl` is a parameter `isValidLink`.
- JavaScript `Array.prototype.sort` is stable, so a sort is modelled as the unique stable
  order, given as a permutation of the original indices. The page finds each shown item's
  original index (`static/app.js:677`, `static/app.js:722`); the permutation gives the same
  index.

## Model

| member | source | states |
|---|---|---|
| Strings.Trim | static/app.js:2585 | the trimmed string has no white space at either end and is no longer than the input |
| Strings.TrimIsSlice | static/app.js:2585 | the trimmed string is the input with a blank prefix and a blank suffix removed |
| Strings.TrimEmptyIffBlank | static/app.js:2580 | `!s.trim()` holds exactly when the string is all white space |
| Strings.TrimOfTrimmed | static/app.js:2585 | trimming a trimmed string changes nothing |
| Strings.LowerIdempotent | static/app.js:2621 | lower-casing twice is lower-casing once |
| Strings.LowerKeepsChar | static/app.js:2607-2612 | a character that is not a letter is in the lower-cased string exactly when it is in the string |
| Strings.ContainsAt | static/app.js:2683 | `includes` holds exactly when the term occurs at some offset |
| Strings.IndexOf | static/app.js:2612 | `indexOf` is -1 exactly when the character is absent, and otherwise the position of its first occurrence |
| Strings.Split | static/app.js:2608 | `split(c)` gives at least one piece, no piece holds `c`, and joining the pieces with `c` gives the input back |
| Strings.SplitJoin | static/app.js:2936 | splitting the join of pieces free of `c` gives those pieces back |
| Strings.TrimAll | static/app.js:2937 | `map(t => t.trim())` trims each piece in place |
| Strings.DropEmpty | static/app.js:2938 | `filter(t => t.length > 0)` keeps exactly the non-empty pieces of the input |
| Strings.DropEmptyAppend | static/app.js:2938 | the filter keeps the order: filtering two runs of pieces is filtering each |
| Strings.DropEmptyKeepsNonEmpty | static/app.js:2938 | pieces that are all non-empty are all kept |
| Strings.Utf16Length | static/app.js:2962 | JavaScript's `length` counts UTF-16 code units: at least one and at most two per character |
| Strings.Utf16LengthOfBmp | static/app.js:2962 | a string of characters up to U+FFFF has as many code units as characters |
| Strings.Utf16LengthOfAstral | static/app.js:2962 | a string of characters beyond U+FFFF has twice as many code units as characters |
| Tree.Resolve | static/app.js:27-33 | the folder a path names, by `folder = folder.folders[path[i]]`; ResolveSnoc, ResolveAppend and GetCurrentFolder give its meaning |
| Tree.TotalEntries | static/app.js:35-51 | the recursive entry count; TotalEntriesCountsSubtree, SubfolderTotalAtMostParent and GetTotalEntries give its meaning |
| Tree.FolderLinks | static/app.js:1932-1952 | the links the walk collects; FolderLinksAreSubtreeLinks, ValidLinksAreOpenable and CollectAllLinksFromFolder give its meaning |
| Tree.PathDisplay | static/app.js:2728-2740 | the breadcrumb string of a path; PathDisplaySnoc and GetPathDisplayString give its meaning |
| Tree.Crumbs | static/app.js:2734-2737 | the `" / " + name` pieces of the breadcrumb; CrumbsSnoc gives its meaning |
| Tree.ResolveSnoc | static/app.js:27-33 | a path extended by `k` resolves exactly when the path resolves and `k` is below its folder count, and then it names that sub-folder |
| Tree.ResolveAppend | static/app.js:27-33 | walking `p + q` is walking `p` and then `q` from the folder reached |
| Tree.ValidPrefix | static/app.js:27-33 | every prefix of a valid path is valid |
| Tree.GetCurrentFolder | static/app.js:27-33 | the loop over the path ends at the folder the path names |
| Tree.GetTotalEntries | static/app.js:35-51 | the recursive count equals the total-entries function |
| Tree.TotalEntriesCountsSubtree | static/app.js:35-51 | the count is the number of entries anywhere in the sub-tree |
| Tree.SumTotalsCountsSubtrees | static/app.js:44-48 | the sub-folders' counts add up to the entries below them |
| Tree.SumTotalsBoundsEach | static/app.js:44-48 | no sub-folder's count exceeds the sum |
| Tree.SubfolderTotalAtMostParent | static/app.js:35-51 | a sub-folder never counts more entries than its parent |
| Tree.HasTextIsTruthyTrim | static/app.js:57 | a link counts exactly when `link && link.trim()` is truthy |
| Tree.CountWithText | static/app.js:57 | the filtered count is at most the number of links |
| Tree.CountWithTextExtremes | static/app.js:53-58 | the count is the full length exactly when every link has text, and 0 exactly when none has |
| Tree.LinksCount | static/app.js:53-58 | an entry's link count is at most its number of links |
| Tree.AggregateExample | static/app.js:35-58 | a folder holding three entries and a sub-folder with one entry counts 4 entries |
| Tree.ValidLinks | static/app.js:1937-1941 | the opened links are at most as many as the links |
| Tree.ValidLinksAreOpenable | static/app.js:1938-1939 | every collected link is non-empty, trimmed and passes `isValidLinkUrl` |
| Tree.CollectEntryLinks | static/app.js:1936-1941 | the loop appends exactly the trimmed valid links of the entry, in order |
| Tree.CollectAllLinksFromFolder | static/app.js:1932-1952 | the recursive walk appends the folder's links in pre-order: its own entries first, then each sub-folder's |
| Tree.EntriesLinksAppend | static/app.js:1934-1943 | the links of two runs of entries are the links of each, in order |
| Tree.FolderLinksAreSubtreeLinks | static/app.js:1932-1952 | the collected links are those of every entry in the sub-tree, in pre-order |
| Tree.FoldersLinksAreSubtreeLinks | static/app.js:1947-1951 | the same for a list of sub-folders |
| Tree.GetPathDisplayString | static/app.js:2728-2740 | the loop builds the breadcrumb string of the path |
| Tree.PathDisplaySnoc | static/app.js:2734-2737 | the breadcrumb of `p + [k]` is that of `p` followed by `" / "` and the reached folder's name |
| Tree.CrumbsSnoc | static/app.js:2734-2737 | each step adds `" / "` and one folder name |
| Tree.UpdateAt | static/app.js:2028-2030 | after an update at a path, the path resolves to the new folder |
| Tree.UpdateAtShape | static/app.js:2028-2030 | an update replaces one child on the way down and nothing else at the top |
| Tree.UpdateAtElsewhere | static/app.js:2028-2030 | folders on paths that branch off are unchanged |
| Tree.UpdateAtBelow | static/app.js:1917 | paths below the updated folder resolve inside the new folder |
| Tree.UpdateAtAbove | static/app.js:1917 | a folder above the updated one is itself updated at the rest of the path |
| Sorting.Range | static/app.js:81-83 | the identity order has one index per item |
| Sorting.RangeAt | static/app.js:81-83 | the identity order holds index `i` at position `i` |
| Sorting.IdentityOrder | static/app.js:81-83 | permuting by the identity order changes nothing |
| Sorting.SortOrder | static/app.js:66-79 | the sort order lists every original index exactly once |
| Sorting.StableSortIsPermutation | static/app.js:61-62 | the sorted copy holds the same items, each as often |
| Sorting.SortOrderSorted | static/app.js:66-79 | for a consistent comparator the copy is in order, and items that compare equal keep their stored order |
| Sorting.SortedOrderUnique | static/app.js:66-79 | every stable arrangement of the items is the one the sort gives |
| Sorting.SortedUnique | static/app.js:66-79 | two stable arrangements of the same indices are equal |
| Sorting.InsertSorted | static/app.js:66-79 | inserting one more index into a sorted arrangement keeps it sorted |
| Sorting.PermuteKeepsElements | static/app.js:61-62 | permuting by a permutation keeps the multiset of items |
| Arrange.FolderOrder | static/app.js:64-84 | the shown order of folders lists every original index exactly once |
| Arrange.EntryOrder | static/app.js:64-84 | the shown order of entries lists every original index exactly once |
| Arrange.SortFoldersAndEntries | static/app.js:60-87 | both copies are the inputs permuted by their shown orders |
| Arrange.SortKeepsItems | static/app.js:60-87 | both copies hold exactly the input items |
| Arrange.UnknownSortKeepsOrder | static/app.js:81-83 | an unknown sort type returns the inputs in their stored order |
| Arrange.FolderLeConsistent | static/app.js:66-78 | each folder comparator is a total preorder |
| Arrange.EntryLeConsistent | static/app.js:67-79 | each entry comparator is a total preorder |
| Arrange.FoldersSortedStably | static/app.js:64-80 | for every known sort type the folders are in order and ties keep their stored order |
| Arrange.EntriesSortedStably | static/app.js:64-80 | the same for the entries |
| Arrange.CountAscOrder | static/app.js:73-76 | "count-asc": folder totals and entry link counts never decrease, equal counts keep the stored order |
| Arrange.CountDescOrder | static/app.js:77-80 | "count-desc": the counts never increase, equal counts keep the stored order |
| Arrange.NameAscOrder | static/app.js:65-68 | "name-asc": names are in collation order, equal names keep the stored order |
| Arrange.NameDescOrder | static/app.js:69-72 | "name-desc": names are in reverse collation order, equal names keep the stored order |
| Arrange.CountAscKeepsTies | static/app.js:75 | entries with 1, 1 and 0 links are shown as the third, then the first, then the second |
| Arrange.TieKeptInPlace | static/app.js:75 | a stable arrangement of three items, where the third is strictly smallest and the first two tie, is third, first, second |
| Search.PartQueries | static/app.js:2610-2631 | the clauses one part of the query adds; DroppedParts and PartClauseShape give its meaning |
| Search.ParsedQuery | static/app.js:2604-2640 | the clause list of a query; PlainTextIsOneClause, AtMostOneClausePerPart and ParseSearchQuery give its meaning |
| Search.MatchesSingle | static/app.js:2679-2726 | whether an item matches one clause; KeywordKinds and GeneralIsNameTagOrLink give its meaning |
| Search.MatchesAll | static/app.js:2675-2677 | whether an item matches every clause; MatchesAllMeans and MatchesAllAppend give its meaning |
| Search.FolderHits | static/app.js:2642-2673 | the results below a folder; FolderHitsSound, FolderHitsComplete, EntryHitsComplete, OwnEntriesLast and PerformSearchOperation give its meaning |
| Search.ParseSearchQuery | static/app.js:2604-2640 | the loop over the parts builds exactly the parsed clause list |
| Search.PartsQueriesStep | static/app.js:2610-2631 | each part adds its own clauses after those of the earlier parts |
| Search.PlainTextIsOneClause | static/app.js:2632-2637 | text lacking `.` or a space parses to one general clause holding the lower-cased text |
| Search.DroppedParts | static/app.js:2611-2624 | a part adds no clause exactly when it starts with `.` and has no space or only white space after its first space |
| Search.PartClauseShape | static/app.js:2611-2630 | a general clause holds the lower-cased part; a keyword clause has a non-empty, lower-case term and a lower-case keyword without spaces |
| Search.AtMostOneClausePerPart | static/app.js:2610-2631 | there are never more clauses than parts |
| Search.MatchesAllMeans | static/app.js:2675-2677 | an item matches exactly when it matches every clause, so an empty clause list matches everything |
| Search.MatchesAllAppend | static/app.js:2675-2677 | matching two clause lists together is matching each |
| Search.KeywordKinds | static/app.js:2703-2722 | `fname`/`ftag` never match entries, `ename`/`etag`/`link` never match folders, unknown keywords match nothing |
| Search.GeneralIsNameTagOrLink | static/app.js:2680-2698 | a general clause matches exactly when the `name`, `tag` or `link` keyword clause with that term does |
| Search.SearchInFolder | static/app.js:2642-2673 | the recursive walk appends exactly the results of the walk function to the caller's list |
| Search.SubfolderWalkStep | static/app.js:2644-2657 | each sub-folder adds its own result, if it matches, and then its descendants' results |
| Search.EntryWalkStep | static/app.js:2661-2671 | each matching entry adds one result with its folder path and index |
| Search.EntryWalkAppends | static/app.js:2660-2672 | the entry loop appends the entry hits to what was there |
| Search.SubfolderWalkAppends | static/app.js:2643-2658 | the sub-folder loop appends the sub-folder hits to what was there |
| Search.FolderWalkAppends | static/app.js:2642-2673 | the whole walk appends the folder's hits to what was there |
| Search.PerformSearchOperation | static/app.js:2597-2602 | the results are the hits of the parsed query below the start folder |
| Search.FolderHitsSound | static/app.js:2642-2673 | every result lies strictly below the start folder (so the start folder itself is never reported) or is one of its entries; a folder result's path resolves to that folder, an entry result's path and index name that entry, each carries its path's breadcrumb, and each matches the query |
| Search.SubfolderHitsSound | static/app.js:2644-2657 | sub-folder results all lie strictly below the start folder |
| Search.EntryHitsSound | static/app.js:2660-2672 | entry results carry the folder's own path |
| Search.SoundUpward | static/app.js:2656 | sound results of a child walk are sound for the parent |
| Search.OwnEntriesLast | static/app.js:2642-2673 | a folder's own entry results come after every result from its sub-folders |
| Search.ChildBlock | static/app.js:2644-2657 | sub-folder `i` contributes its own result right before the results of its descendants |
| Search.FolderHitsComplete | static/app.js:2642-2673 | every matching folder anywhere below the start folder is reported, with its path and breadcrumb |
| Search.EntryHitsComplete | static/app.js:2642-2673 | every matching entry anywhere at or below the start folder is reported, with its folder path, index and breadcrumb |
| Search.OwnEntryIncluded | static/app.js:2660-2672 | every matching entry of the start folder itself is reported |
| Search.ChildHitsIncluded | static/app.js:2647-2656 | whatever a sub-folder reports is reported by its parent |
| Search.SubfolderHitsGrow | static/app.js:2644-2657 | sub-folder results found in an earlier part of the loop are still there at the end |
| Search.EntryHitsGrow | static/app.js:2661-2671 | the same for the entry loop |
| Search.SubfolderHitsPrefix | static/app.js:2644-2657 | the results of the first `n` sub-folders are a prefix of the results of the first `m` |
| Search.ResultOrder | static/app.js:2825-2852 | the order of search results lists every original index exactly once |
| Search.SortSearchResults | static/app.js:2825-2852 | the sorted copy is the results permuted by that order |
| Search.SortSearchResultsKeepsResults | static/app.js:2825-2852 | the sorted copy holds exactly the results, and an unknown sort type keeps their order |
| Search.ResultLeConsistent | static/app.js:2829-2848 | each result comparator is a total preorder |
| Search.SearchCountAscOrder | static/app.js:2835-2841 | folder totals and entry link counts, ranked together, never decrease, ties keep their order |
| Search.SearchCountDescOrder | static/app.js:2842-2848 | the mixed counts never increase, ties keep their order |
| Search.SearchNameOrder | static/app.js:2829-2834 | names are in collation order (or reverse order), ties keep their order |
| Tags.ParseTags | static/app.js:2931-2941 | the tags parsed from the input line; ParsedTagsAreTags and FormatThenParse give its meaning |
| Tags.TagValidation | static/app.js:2943-2971 | the answer of the validation; ValidateNothingTyped, ValidateRejectsOnlyLongTags, ValidateAcceptsTags, ValidateNamesFirstLongTag and ValidateTagInput give its meaning |
| Tags.FormatTags | static/app.js:2973-2978 | the tags as shown in the field; FormatSplits, FormatNotBlank and FormatThenParse give its meaning |
| Tags.IsValidHexColor | static/app.js:4331-4333 | `/^#[0-9A-F]{6}$/i`; HexColorIgnoresCase and InitialSettingsUsable give its meaning |
| Tags.TrimKeepsChars | static/app.js:2937 | trimming adds no character |
| Tags.ParsedTagsAreTags | static/app.js:2931-2941 | every parsed tag is non-empty, trimmed and free of `;` |
| Tags.ValidateTagInput | static/app.js:2943-2971 | the loop over the tags gives exactly the validation result |
| Tags.TagErrorFindsFirstLong | static/app.js:2955-2968 | over non-empty tags, the loop fails exactly when some tag is longer than 50 code units, and then names the first such tag |
| Tags.ValidateNothingTyped | static/app.js:2944-2946 | blank input is valid with no tags |
| Tags.ValidateRejectsOnlyLongTags | static/app.js:2949-2970 | other input is invalid exactly when some parsed tag is longer than 50 UTF-16 code units |
| Tags.ValidateAcceptsTags | static/app.js:2970 | every accepted tag is non-empty, trimmed, free of `;` and at most 50 code units long |
| Tags.ValidateNamesFirstLongTag | static/app.js:2955-2968 | a rejection names the first over-long tag and is never the empty-tag error |
| Tags.SingleTagParses | static/app.js:2931-2953 | typing one well-formed tag parses to just that tag |
| Tags.SingleTagValidation | static/app.js:2955-2970 | one well-formed tag is rejected, as too long, exactly when it is longer than 50 code units, and is otherwise accepted alone |
| Tags.WideTagRejected | static/app.js:2962-2967 | a tag of 26 characters beyond U+FFFF is 52 code units long and is rejected as too long |
| Tags.FiftyCharacterTagAccepted | static/app.js:2962-2970 | a tag of 50 characters up to U+FFFF is exactly at the limit and is accepted |
| Tags.JoinSpaced | static/app.js:2977 | joining with `"; "` is joining the spaced pieces with `";"` |
| Tags.FormatSplits | static/app.js:2973-2978 | splitting the shown text at `;` gives the spaced tags and a trailing empty piece |
| Tags.FormatNotBlank | static/app.js:2973-2978 | the shown text of a non-empty list of tags is not blank |
| Tags.DropEmptyTrimSpaced | static/app.js:2936-2938 | trimming and dropping empty pieces of the spaced tags gives the tags back |
| Tags.FormatThenParse | static/app.js:2931-2978 | parsing the shown text of trimmed, non-empty, `;`-free tags gives the same tags back |
| Tags.HexColorIgnoresCase | static/app.js:4331-4333 | the colour check ignores letter case |
| Defaults.FolderWithDefaults | static/app.js:207-219 | the folder branch of `applyDefaultSettings`; DefaultsFillOnlyMissing and StoredFalseWhiteTextKept give its meaning |
| Defaults.EntryWithDefaults | static/app.js:220-230 | the entry branch of `applyDefaultSettings`; DefaultsFillOnlyMissing gives its meaning |
| Defaults.WithDefaults | static/app.js:204-231 | the kind is kept, an item with every field present is unchanged, and usable settings leave every field present |
| Defaults.DefaultsFillOnlyMissing | static/app.js:204-231 | only missing fields change, each to the setting for its kind; the white-text flag changes only when absent; name, cover, links, note and sub-trees are kept |
| Defaults.DefaultsIdempotent | static/app.js:204-231 | applying the defaults twice is applying them once |
| Defaults.StoredFalseWhiteTextKept | static/app.js:214-216 | a stored `false` white-text flag stays `false` when the default is `true` |
| Defaults.InitialSettingsUsable | static/app.js:188-202 | the initial settings fill every field and their colours pass the colour check |
| Defaults.DefaultColoursPassCheck | static/app.js:211-225 | with default colours that pass the colour check, an item whose own colour is empty or passes ends with a colour that passes; a stored colour is kept |
| Batch.Without | static/app.js:1730 | `Set.delete` removes exactly the key and keeps the keys distinct |
| Batch.Added | static/app.js:1735 | `Set.add` adds exactly the key, keeps the keys distinct and keeps the earlier order |
| Batch.Toggled | static/app.js:1728-1742 | toggling flips exactly the key's membership |
| Batch.WithoutAbsent | static/app.js:1730 | deleting an absent key changes nothing |
| Batch.ToggleTwiceRestores | static/app.js:1728-1742 | toggling an absent key twice restores the selection |
| Batch.ToggleTwiceMovesToEnd | static/app.js:1728-1742 | toggling a present key twice moves it to the end of the insertion order |
| Batch.AddAll | static/app.js:1747-1753 | adding keys in order gives the union, distinct, with the earlier keys first |
| Batch.AddAllSnoc | static/app.js:1747-1753 | adding one more key is one more `Set.add` |
| Batch.SelectAllSelectsChildren | static/app.js:1744-1756 | after "select all" every child of the open folder is selected, nothing earlier is lost, nothing else is added |
| Batch.IntoItselfCheck | static/app.js:1954-1980 | the verdict of `isMovingFolderIntoItself`; IntoItselfIff and EnclosingKeyUnique give its meaning |
| Batch.IntoItselfIff | static/app.js:1954-1980 | the check fails exactly when some selected folder's path is a prefix of the destination, and then it names the first such folder |
| Batch.EnclosedExists | static/app.js:1962-1972 | a selected folder that encloses a valid destination exists |
| Batch.EnclosingKeyUnique | static/app.js:1962-1968 | at most one selected folder can enclose the destination |
| Batch.Picks | static/app.js:1993-2014 | the collected items are real children; when every key is in range there is one per selected key, and the item at each position is the child that key names |
| Batch.PicksMember | static/app.js:1993-2014 | an item is collected exactly when it is a child at a selected key |
| Batch.PicksSets | static/app.js:1993-2014 | the collected indices are exactly the selected, in-range ones |
| Batch.PicksFromSelection | static/app.js:1993-2014 | every collected item comes from a selected key |
| Batch.PicksDistinct | static/app.js:1993-2014 | no key is collected twice |
| Batch.SortedPicksInOrder | static/app.js:2023 | after `sort((a, b) => b.index - a.index)` indices never increase |
| Batch.SortedPicksSets | static/app.js:2023 | sorting keeps the collected indices |
| Batch.Kept | static/app.js:2021-2032 | what the descending splices leave: never more items than there were; KeptAreUnselectedInOrder and SpliceDescending give its meaning |
| Batch.Descend | static/app.js:1910-1922 | what the descending splices take out: with Kept, exactly as many items as there were; TakenAreSelectedDescending and KeptAndTakenPartition give its meaning |
| Batch.Removed | static/app.js:1993-2032 | the open folder after the delete; RemovePicked and KeptAreUnselectedInOrder give its meaning |
| Batch.KeptAreUnselectedInOrder | static/app.js:2021-2032 | what the splices leave is exactly the unselected items, in their original relative order |
| Batch.TakenAreSelectedDescending | static/app.js:1910-1922 | what the splices take out is exactly the selected items, highest index first |
| Batch.KeptAndTakenPartition | static/app.js:2021-2032 | the kept and the taken items together are the original items |
| Batch.DeleteAlternateOfFive | static/app.js:2021-2032 | deleting the items at 0, 2 and 4 of five leaves those at 1 and 3 in order |
| Batch.SpliceBelow | static/app.js:2028 | while every index removed so far is higher, `splice(d, 1)` removes the original item at `d` |
| Batch.TakeBelow | static/app.js:1916-1917 | each such splice takes out the original item at `d`, after those taken before |
| Batch.SpliceDescending | static/app.js:2026-2032 | the splice loop leaves the unselected items and takes the selected ones highest index first |
| Batch.CollectItems | static/app.js:1993-2014 | the collection loop gives exactly the collected items |
| Batch.RemovePicked | static/app.js:2021-2032 | sorting and splicing leaves the folder with its unselected children |
| Batch.MoveTree | static/app.js:1871-1930 | the tree after a move; MoveFillsDestination, MoveEmptiesSource, MoveIntoSubfolder, MoveHereIntoCurrentFolder, MoveLeavesOthers and MoveKeepsCurrentFolder give its meaning |
| Batch.AdjustPath | static/app.js:1885-1889 | the adjusted destination path has the length of the destination |
| Batch.AdjustedPathFindsDestination | static/app.js:1885-1922 | after the splices the adjusted path reaches the destination the page resolved before them |
| Batch.MoveFillsDestination | static/app.js:1913-1922 | the destination ends with the moved items appended, highest original index first |
| Batch.MoveEmptiesSource | static/app.js:1913-1922 | when the destination is elsewhere, the source keeps exactly its unselected children |
| Batch.MoveIntoSubfolder | static/app.js:1885-1922 | when the destination lies below the source, the source keeps its unselected children and the destination, found by the adjusted path, receives the moved items |
| Batch.MoveHereIntoCurrentFolder | static/app.js:1871-1930 | moving into the open folder itself is allowed and puts the moved items at its end |
| Batch.MoveLeavesOthers | static/app.js:1871-1930 | folders that are neither above nor below the source or the destination are unchanged |
| Batch.MoveKeepsCurrentFolder | static/app.js:1871-1930 | the open folder's path still resolves after a move |
| Batch.ExportDocument | static/app.js:2060-2063 | the exported document is a "Root" folder with no cover and the initial settings |
| Batch.EmptyDocumentReady | static/app.js:1632-1650 | a new document holds no entry anywhere, and its settings complete every item added to it with colours that pass the colour check |
| Batch.ExportHoldsSelection | static/app.js:2049-2063 | the exported folders and entries are exactly copies of the selected, in-range children |
| Batch.ExportSelectedItems | static/app.js:2043-2063 | the collection loop builds exactly the exported document |
| Batch.FolderCopy | static/app.js:1854-1855 | a copy differs from the original only in its name |
| Batch.EntryCopy | static/app.js:1858-1859 | a copy differs from the original only in its name |
| Batch.Duplicated | static/app.js:1829-1869 | the open folder after the duplication; DuplicatedCopiesInSelectionOrder, DuplicatedAddsCopies, DuplicatedFolder and DuplicatedEntry give its meaning |
| Batch.DuplicatedAddsCopies | static/app.js:1829-1869 | the current folder keeps its children as they were, and the children appended after them are, as a set, the `_Copy` copies of the selected children |
| Batch.SelectedFolderIndices | static/app.js:1834-1849 | the indices of the selected sub-folders that exist, in selection order; SelectedIndicesMember, SelectedIndicesAppend and SelectedIndicesDistinct give its meaning |
| Batch.SelectedEntryIndices | static/app.js:1834-1849 | the indices of the selected entries that exist, in selection order; the same lemmas give its meaning |
| Batch.SelectedIndicesMember | static/app.js:1834-1849 | an index is listed exactly when its key is selected and names a child |
| Batch.SelectedIndicesAppend | static/app.js:1834-1849 | the list follows the selection's order: listing two runs of keys lists each in turn |
| Batch.SelectedIndicesDistinct | static/app.js:1834-1849 | each child is listed at most once, since a `Set` holds each key once |
| Batch.PickedAtSelectedIndices | static/app.js:1834-1849 | the collected folders and entries are the children at the listed indices, in that order |
| Batch.DuplicatedCopiesInSelectionOrder | static/app.js:1851-1861 | exactly one `_Copy` per listed child is appended, folders and entries each in selection order |
| Batch.DuplicateOneFolderOnce | static/app.js:1829-1869 | duplicating the only folder of a folder gives that folder followed by one copy of it |
| Batch.DuplicatedFolder | static/app.js:1852-1856 | the appended folders are the `_Copy` copies of the selected folders |
| Batch.DuplicatedEntry | static/app.js:1857-1861 | the appended entries are the `_Copy` copies of the selected entries |
| Batch.PickedFoldersAreSelected | static/app.js:1834-1849 | the collected folders are the selected folders |
| Batch.PickedEntriesAreSelected | static/app.js:1834-1849 | the collected entries are the selected entries |
| Batch.DuplicateSelectedItems | static/app.js:1829-1862 | the two loops give exactly the duplicated folder |
| Batch.OpenAllSelectedItems | static/app.js:1797-1819 | the loop over the selection gathers exactly the links of the selected keys, in selection order |
| Batch.SelectionLinksOpenable | static/app.js:1807-1817 | every gathered link is non-empty, trimmed and valid |
| Batch.OpenableLinksAllOpen | static/app.js:1614-1623 | `openAllLinks` opens every gathered link, none is filtered again |
| Batch.SelectionLinksMember | static/app.js:1801-1819 | a link is gathered exactly when some selected key contributes it |
| Batch.EntriesLinksOpenable | static/app.js:1808-1812 | the links of any run of entries are openable |
| AppState.Pushed | static/app.js:979-987 | a push keeps the entries up to the cursor, in order, and puts the new entry right after them |
| AppState.Capped | static/app.js:990-993 | the cap keeps at most 50 entries, and changes nothing when there are 50 or fewer |
| AppState.PushKeepsTrimmed | static/app.js:2585-2593 | pushes keep every stored search term trimmed and non-blank |
| AppState.PushLocation | static/app.js:979-994 | the push computes the cut, the append and, when asked, the cap |
| AppState.PushThenBackReturns | static/app.js:979-994 | after a capped push, the entry before the new one is the one the cursor was on |
| AppState.PushAfterBackDropsBranch | static/app.js:928-994 | from `[root, a, b]` two steps back and a push give `[root, c]` with the cursor on `c` and nothing ahead |
| AppState.SearchPushExceedsCap | static/app.js:2916-2929 | a search push onto a full history leaves 51 entries |
| AppState.BackOntoSearchRepushes | static/app.js:934-941 | going back onto a search entry that still finds something cuts the forward history and pushes the search again |
| AppState.ForwardOntoSearchRepushes | static/app.js:956-963 | going forward onto such a search entry pushes a second copy of it |
| AppState.SearchIn | static/app.js:2586 | the search runs in the open folder with its path |
| AppState.SearchStep | static/app.js:2579-2595 | blank text clears the search; otherwise the trimmed text's hits are shown, and the search is pushed only when there are some |
| AppState.AddChildKeys | static/app.js:1747-1753 | the two loops add every folder key and then every entry key |
| AppState.AppState.constructor | static/app.js:2-20 | the page starts at the root with an empty history, no selection and no search |
| AppState.AppState.InitializeNavigationHistory | static/app.js:972-977 | an empty history becomes `[root]` with the cursor on it; otherwise nothing changes |
| AppState.AppState.AddToHistory | static/app.js:979-994 | the history is cut after the cursor, the path is pushed, at most 50 entries are kept and the cursor is on the last |
| AppState.AppState.AddSearchToHistory | static/app.js:2916-2929 | the history is cut after the cursor and the search is pushed in the open folder, without the cap |
| AppState.AppState.ClearSearch | static/app.js:2904-2914 | the search is off and its results are gone; nothing else changes |
| AppState.AppState.ExecuteSearch | static/app.js:2579-2595 | the page state after a search is the search outcome; the tree, the open folder and the selection are kept |
| AppState.AppState.NavigateToFolder | static/app.js:899-904 | the sub-folder is opened and pushed onto the history; the selection and the search are kept |
| AppState.AppState.NavigateToPath | static/app.js:906-912 | the path is opened and pushed; the selection and the search are cleared |
| AppState.AppState.NavigateUp | static/app.js:914-926 | at the root nothing changes; otherwise the parent is opened and pushed, the selection and the search are cleared |
| AppState.AppState.Revisit | static/app.js:937-947 | a path entry is opened with the search and selection cleared; a search entry is run again as a search |
| AppState.AppState.NavigateBack | static/app.js:928-948 | with the cursor at 0 or before nothing changes; otherwise the cursor moves back one and the entry there is revisited |
| AppState.AppState.NavigateForward | static/app.js:950-970 | with the cursor on the last entry nothing changes; otherwise the cursor moves forward one and the entry there is revisited |
| AppState.AppState.ToggleSelection | static/app.js:1728-1742 | the key is toggled in the selection; nothing else changes |
| AppState.AppState.SelectAllItems | static/app.js:1744-1756 | every child key of the open folder is added to the selection |
| AppState.AppState.ClearSelection | static/app.js:1758-1779 | the selection is empty and selection mode is off |
| AppState.AppState.ToggleSelectionMode | static/app.js:1710-1726 | selection mode flips, and leaving it clears the selection |
| AppState.AppState.PerformMoveOperation | static/app.js:1871-1930 | a move happens exactly when a destination is given and the check allows it; then the tree is the moved tree and the selection is cleared; otherwise nothing changes |
| AppState.AppState.DeleteSelectedItems | static/app.js:1982-2041 | nothing selected, no valid item and a declined confirmation change nothing; a confirmed delete leaves the open folder with its unselected children and clears the selection |
| AppState.AppState.DuplicateSelectedItems | static/app.js:1829-1869 | the open folder becomes the duplicated folder and the selection is cleared |
| AppState.AppState.DuplicateFolder | static/app.js:3134-3146 | one `/Copy` of the folder is appended to the open folder |
| AppState.AppState.DuplicateEntry | static/app.js:3359-3370 | one `/Copy` of the entry is appended to the open folder |
| AppState.AppState.InitializeSettings | static/app.js:188-202 | missing settings become the initial settings; present ones are kept |
| AppState.AppState.ApplyDefaultSettings | static/app.js:204-231 | the settings are initialised first, then the item gets the defaults of those settings |

## Behaviour worth knowing

These follow the code as written. The model keeps them and states them as lemmas.

- **"Move Here" with no choice targets the root.** The move dialog starts with the
  destination `[]` (`static/app.js:3416`). The `null` check in `performMoveOperation`
  (`static/app.js:1872`) is therefore never reached from the dialog. Moving into the open
  folder is excluded only by the dialog's tree builder (`static/app.js:3419-3440`), not by
  `performMoveOperation`. `Batch.MoveHereIntoCurrentFolder` shows that a move whose
  destination is the open folder itself is allowed: the moved items end up at the end of
  that folder, highest index first.
- **Going back or forward onto a search can push it again.** Both directions re-run the
  search (`static/app.js:941`, `static/app.js:963`). When it still finds something,
  `executeSearch` pushes it (`static/app.js:2593`), which drops the forward history.
  `AppState.BackOntoSearchRepushes` and `AppState.ForwardOntoSearchRepushes` state the
  resulting history.
- **Search pushes are not capped.** `addSearchToHistory` never trims to 50 entries
  (`static/app.js:2916-2929`). `AppState.SearchPushExceedsCap` shows a full history
  reaching 51 entries.
- **The empty-tag error cannot happen.** Parsing already drops empty tags, so the branch at
  `static/app.js:2956` is never taken. `Tags.ValidateNamesFirstLongTag` shows that every
  rejection is the too-long error.
- **Two different copy suffixes.** `duplicateSelectedItems` names copies `name + '_Copy'`
  (`static/app.js:1855`). The edit dialogs name them `name + '/Copy'`
  (`static/app.js:3139`, `static/app.js:3364`).

Where the app's design description and its code differ, the model follows the code:

- The history cap applies to `addToHistory` only, not to every push.
- `performMoveOperation` does not reject the open folder as a destination.
- `navigateToFolder` keeps the selection and the search. Only `navigateToPath` and
  `navigateUp` clear them.
- `clearSearch` does not clear the selection.
- Names are compared with `localeCompare` as given, which need not ignore case.

## Left out

- Rendering, every modal dialog, drag and drop, notifications and the clipboard: DOM work.
- `window.open` in `openAllLinks`: the model gathers the links that would be opened.
- Server round-trips, autosave, profile management and `app.py`: asynchronous I/O.
- The debounce timers in `performSearch`, `autoSave` and `clearSearch`.
- URL validation with the browser's `URL` parser: `isValidLinkUrl` is the parameter
  `isValidLink`, and the image-URL heuristics are not modelled.
- Colour arithmetic and image aspect ratios: presentation, and floating point.
- `localeCompare` and Unicode `toLowerCase`: a total-preorder parameter and ASCII lower case.
- `deepCloneItem`: JSON round-tripping is a value copy in the model.
- The Blob download in `exportSelectedItemsAsJson`: the model builds only the document.
- Names: a folder or entry stored without a `name` is modelled with the name "". Names are
  required when an item is created (`static/app.js:3929-3934`, `static/app.js:4012-4017`),
  so only imported or hand-edited data can lack one. The lines below name each member where
  the page then shows `undefined` and the model shows nothing.
- Tree.PathDisplay: a nameless folder's breadcrumb piece is " / ", where the page prints
  " / undefined" (`static/app.js:2736`).
- Tree.GetPathDisplayString: inherits the " / " piece of Tree.PathDisplay for a nameless
  folder on the path.
- Batch.FolderCopy: a nameless folder's batch copy is named "_Copy", where the page writes
  "undefined_Copy" (`static/app.js:1855`).
- Batch.EntryCopy: a nameless entry's batch copy is named "_Copy", where the page writes
  "undefined_Copy" (`static/app.js:1859`).
- AppState.AppState.DuplicateFolder: a nameless folder's copy is named "/Copy", where the page
  writes "undefined/Copy" (`static/app.js:3139`).
- AppState.AppState.DuplicateEntry: a nameless entry's copy is named "/Copy", where the page
  writes "undefined/Copy" (`static/app.js:3364`).
- `searchInput.value` in `navigateBack`/`navigateForward`: a DOM field, not page state.
- `displaySearchResults`: only the `isSearchActive` and `searchResults` it sets are modelled.
- The delete confirmation dialog: the parameter `confirmed` says whether the user confirmed.
- The move dialog's tree builder: `PerformMoveOperation` takes the chosen destination as a
  parameter (`None` for the unreachable `null`).
- AppState.AppState.PerformMoveOperation: requires every selected key to name a child when
  the move goes ahead. With an out-of-range key the page pushes `undefined` into the
  destination.
- AppState.AppState.DuplicateSelectedItems: requires every selected key to name a child. The
  page would `deepCloneItem(undefined)` and throw.
- Batch.DuplicateSelectedItems: the same requirement as AppState.AppState.DuplicateSelectedItems,
  for the same reason. Batch.Duplicated itself skips keys that name no child.
- Batch.OpenAllSelectedItems: requires every selected folder key to name a sub-folder, since
  the page would throw on `undefined.entries`. Entry keys out of range are skipped, as in the
  page.
- AppState.AppState.NavigateBack: requires the target history entry's path to still resolve.
  The page does not re-validate stored paths, and rendering a stale one fails.
- AppState.AppState.NavigateForward: the same requirement for the entry ahead.
- AppState.AppState.NavigateToPath: requires the path to resolve, which the breadcrumb and
  the dialogs guarantee.
- Batch.MoveTree: a selected key that names no child is skipped. The page collects
  `undefined` for it (`static/app.js:1899`, `static/app.js:1905`) and pushes that into the
  destination (`static/app.js:1917`, `static/app.js:1920`). Its only caller,
  AppState.AppState.PerformMoveOperation, requires every key to name a child.
- Batch.MoveTree: the page interleaves the splices and the pushes. The model does all the
  splices first, then appends the taken items to the destination, found by a path adjusted
  for removed lower-indexed siblings (`Batch.AdjustPath`). The two agree because the page
  resolves the destination folder before any splice.
- AppState.AppState.ApplyDefaultSettings: returns the filled item instead of assigning its
  fields in place, because items are values in the model.
