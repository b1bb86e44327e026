/**
  `sortFoldersAndEntries`: the order in which a folder view lists its sub-folders and entries.
  The sort key is the name, which `localeCompare` orders ("name-asc"/"name-desc"), or the
  count a card shows, which is the entry total for folders and the non-blank links for entries
  ("count-asc"/"count-desc"). Any other sort type leaves both lists as they are. The
  parameter `collate(a, b)` stands for `a.localeCompare(b) <= 0`.
 */
module Arrange {
  import opened Tree
  import opened Sorting

  /** The sort types the switch recognises; every other value takes the `default` branch. */
  predicate KnownSort(sortType: string) {
    sortType == "name-asc" || sortType == "name-desc" || sortType == "count-asc" || sortType == "count-desc"
  }

  /** The names are compared by the collation, not as raw sequences of characters. */
  predicate IsNameSort(sortType: string) {
    sortType == "name-asc" || sortType == "name-desc"
  }

  /** The folder comparator of a known sort type, as "`cmp(a, b) <= 0`". */
  function FolderLe(sortType: string, collate: (string, string) -> bool): (Folder, Folder) -> bool {
    if sortType == "name-asc" then (a: Folder, b: Folder) => collate(a.name, b.name)
    else if sortType == "name-desc" then (a: Folder, b: Folder) => collate(b.name, a.name)
    else if sortType == "count-asc" then (a: Folder, b: Folder) => TotalEntries(a) <= TotalEntries(b)
    else (a: Folder, b: Folder) => TotalEntries(b) <= TotalEntries(a)
  }

  /** The entry comparator of a known sort type, as "`cmp(a, b) <= 0`". */
  function EntryLe(sortType: string, collate: (string, string) -> bool): (Entry, Entry) -> bool {
    if sortType == "name-asc" then (a: Entry, b: Entry) => collate(a.name, b.name)
    else if sortType == "name-desc" then (a: Entry, b: Entry) => collate(b.name, a.name)
    else if sortType == "count-asc" then (a: Entry, b: Entry) => LinksCount(a) <= LinksCount(b)
    else (a: Entry, b: Entry) => LinksCount(b) <= LinksCount(a)
  }

  /** The displayed order of the folders, as original indices (what `findIndex` recovers when rendering). */
  function FolderOrder(folders: seq<Folder>, sortType: string, collate: (string, string) -> bool): (p: seq<nat>)
    ensures IsPermutation(p, |folders|) && |p| == |folders| && InRange(p, |folders|)
  {
    if KnownSort(sortType) then SortOrder(folders, FolderLe(sortType, collate)) else IdentityOrder(folders); Range(|folders|)
  }

  /** The displayed order of the entries, as original indices. */
  function EntryOrder(entries: seq<Entry>, sortType: string, collate: (string, string) -> bool): (p: seq<nat>)
    ensures IsPermutation(p, |entries|) && |p| == |entries| && InRange(p, |entries|)
  {
    if KnownSort(sortType) then SortOrder(entries, EntryLe(sortType, collate)) else IdentityOrder(entries); Range(|entries|)
  }

  /** The two sorted copies `sortFoldersAndEntries` returns. */
  datatype Arranged = Arranged(folders: seq<Folder>, entries: seq<Entry>)

  /** `sortFoldersAndEntries`: sorted copies. Position `i` shows the item at the original index the order gives. */
  function SortFoldersAndEntries(folders: seq<Folder>, entries: seq<Entry>, sortType: string,
                                 collate: (string, string) -> bool): (r: Arranged)
    ensures r.folders == Permute(folders, FolderOrder(folders, sortType, collate))
    ensures r.entries == Permute(entries, EntryOrder(entries, sortType, collate))
  {
    if KnownSort(sortType) then
      Arranged(StableSort(folders, FolderLe(sortType, collate)), StableSort(entries, EntryLe(sortType, collate)))
    else
      IdentityOrder(folders);
      IdentityOrder(entries);
      Arranged(folders, entries)
  }

  /** Both copies hold exactly the items they were made from, each as often. */
  lemma SortKeepsItems(folders: seq<Folder>, entries: seq<Entry>, sortType: string, collate: (string, string) -> bool)
    ensures multiset(SortFoldersAndEntries(folders, entries, sortType, collate).folders) == multiset(folders)
    ensures multiset(SortFoldersAndEntries(folders, entries, sortType, collate).entries) == multiset(entries)
  {
    if KnownSort(sortType) {
      StableSortIsPermutation(folders, FolderLe(sortType, collate));
      StableSortIsPermutation(entries, EntryLe(sortType, collate));
    }
  }

  /** An unrecognised sort type keeps the stored order. */
  lemma UnknownSortKeepsOrder(folders: seq<Folder>, entries: seq<Entry>, sortType: string, collate: (string, string) -> bool)
    requires !KnownSort(sortType)
    ensures SortFoldersAndEntries(folders, entries, sortType, collate) == Arranged(folders, entries)
    ensures FolderOrder(folders, sortType, collate) == Range(|folders|)
    ensures EntryOrder(entries, sortType, collate) == Range(|entries|)
  {
  }

  /** The folder comparator is consistent whenever the collation is (or the sort is by counts). */
  lemma FolderLeConsistent(sortType: string, collate: (string, string) -> bool)
    requires IsNameSort(sortType) ==> TotalPreorder(collate)
    ensures TotalPreorder(FolderLe(sortType, collate))
  {
    var le := FolderLe(sortType, collate);
    forall a: Folder, b: Folder, c: Folder
      ensures le(a, b) || le(b, a)
      ensures le(a, b) && le(b, c) ==> le(a, c)
    {
      if IsNameSort(sortType) {
        assert collate(a.name, b.name) || collate(b.name, a.name);
        assert collate(a.name, b.name) && collate(b.name, c.name) ==> collate(a.name, c.name);
        assert collate(c.name, b.name) && collate(b.name, a.name) ==> collate(c.name, a.name);
      }
    }
  }

  /** The entry comparator is consistent whenever the collation is (or the sort is by counts). */
  lemma EntryLeConsistent(sortType: string, collate: (string, string) -> bool)
    requires IsNameSort(sortType) ==> TotalPreorder(collate)
    ensures TotalPreorder(EntryLe(sortType, collate))
  {
    var le := EntryLe(sortType, collate);
    forall a: Entry, b: Entry, c: Entry
      ensures le(a, b) || le(b, a)
      ensures le(a, b) && le(b, c) ==> le(a, c)
    {
      if IsNameSort(sortType) {
        assert collate(a.name, b.name) || collate(b.name, a.name);
        assert collate(a.name, b.name) && collate(b.name, c.name) ==> collate(a.name, c.name);
        assert collate(c.name, b.name) && collate(b.name, a.name) ==> collate(c.name, a.name);
      }
    }
  }

  /**
    With a known sort type, every pair of listed folders is in comparator order, and folders
    that compare equal keep their original relative order.
   */
  lemma FoldersSortedStably(folders: seq<Folder>, entries: seq<Entry>, sortType: string, collate: (string, string) -> bool)
    requires KnownSort(sortType) && (IsNameSort(sortType) ==> TotalPreorder(collate))
    ensures var r := SortFoldersAndEntries(folders, entries, sortType, collate);
      var p := FolderOrder(folders, sortType, collate);
      var le := FolderLe(sortType, collate);
      forall i, j :: 0 <= i < j < |r.folders| ==> le(r.folders[i], r.folders[j]) && (le(r.folders[j], r.folders[i]) ==> p[i] < p[j])
  {
    FolderLeConsistent(sortType, collate);
    SortOrderSorted(folders, FolderLe(sortType, collate));
  }

  /** The entry half of `FoldersSortedStably`. */
  lemma EntriesSortedStably(folders: seq<Folder>, entries: seq<Entry>, sortType: string, collate: (string, string) -> bool)
    requires KnownSort(sortType) && (IsNameSort(sortType) ==> TotalPreorder(collate))
    ensures var r := SortFoldersAndEntries(folders, entries, sortType, collate);
      var p := EntryOrder(entries, sortType, collate);
      var le := EntryLe(sortType, collate);
      forall i, j :: 0 <= i < j < |r.entries| ==> le(r.entries[i], r.entries[j]) && (le(r.entries[j], r.entries[i]) ==> p[i] < p[j])
  {
    EntryLeConsistent(sortType, collate);
    SortOrderSorted(entries, EntryLe(sortType, collate));
  }

  /** "count-asc": entry totals never decrease down the list, and equal totals keep the stored order. */
  lemma CountAscOrder(folders: seq<Folder>, entries: seq<Entry>, collate: (string, string) -> bool)
    ensures var r := SortFoldersAndEntries(folders, entries, "count-asc", collate);
      var p := FolderOrder(folders, "count-asc", collate);
      var q := EntryOrder(entries, "count-asc", collate);
      && (forall i, j :: 0 <= i < j < |r.folders| ==>
            TotalEntries(r.folders[i]) <= TotalEntries(r.folders[j]) &&
            (TotalEntries(r.folders[i]) == TotalEntries(r.folders[j]) ==> p[i] < p[j]))
      && (forall i, j :: 0 <= i < j < |r.entries| ==>
            LinksCount(r.entries[i]) <= LinksCount(r.entries[j]) &&
            (LinksCount(r.entries[i]) == LinksCount(r.entries[j]) ==> q[i] < q[j]))
  {
    FoldersSortedStably(folders, entries, "count-asc", collate);
    EntriesSortedStably(folders, entries, "count-asc", collate);
  }

  /** "count-desc": entry totals never increase down the list, and equal totals keep the stored order. */
  lemma CountDescOrder(folders: seq<Folder>, entries: seq<Entry>, collate: (string, string) -> bool)
    ensures var r := SortFoldersAndEntries(folders, entries, "count-desc", collate);
      var p := FolderOrder(folders, "count-desc", collate);
      var q := EntryOrder(entries, "count-desc", collate);
      && (forall i, j :: 0 <= i < j < |r.folders| ==>
            TotalEntries(r.folders[i]) >= TotalEntries(r.folders[j]) &&
            (TotalEntries(r.folders[i]) == TotalEntries(r.folders[j]) ==> p[i] < p[j]))
      && (forall i, j :: 0 <= i < j < |r.entries| ==>
            LinksCount(r.entries[i]) >= LinksCount(r.entries[j]) &&
            (LinksCount(r.entries[i]) == LinksCount(r.entries[j]) ==> q[i] < q[j]))
  {
    FoldersSortedStably(folders, entries, "count-desc", collate);
    EntriesSortedStably(folders, entries, "count-desc", collate);
  }

  /** "name-asc": names are in collation order; names that collate equal keep the stored order. */
  lemma NameAscOrder(folders: seq<Folder>, entries: seq<Entry>, collate: (string, string) -> bool)
    requires TotalPreorder(collate)
    ensures var r := SortFoldersAndEntries(folders, entries, "name-asc", collate);
      var p := FolderOrder(folders, "name-asc", collate);
      var q := EntryOrder(entries, "name-asc", collate);
      && (forall i, j :: 0 <= i < j < |r.folders| ==>
            collate(r.folders[i].name, r.folders[j].name) &&
            (collate(r.folders[j].name, r.folders[i].name) ==> p[i] < p[j]))
      && (forall i, j :: 0 <= i < j < |r.entries| ==>
            collate(r.entries[i].name, r.entries[j].name) &&
            (collate(r.entries[j].name, r.entries[i].name) ==> q[i] < q[j]))
  {
    FoldersSortedStably(folders, entries, "name-asc", collate);
    EntriesSortedStably(folders, entries, "name-asc", collate);
  }

  /** "name-desc": names are in reverse collation order; names that collate equal keep the stored order. */
  lemma NameDescOrder(folders: seq<Folder>, entries: seq<Entry>, collate: (string, string) -> bool)
    requires TotalPreorder(collate)
    ensures var r := SortFoldersAndEntries(folders, entries, "name-desc", collate);
      var p := FolderOrder(folders, "name-desc", collate);
      var q := EntryOrder(entries, "name-desc", collate);
      && (forall i, j :: 0 <= i < j < |r.folders| ==>
            collate(r.folders[j].name, r.folders[i].name) &&
            (collate(r.folders[i].name, r.folders[j].name) ==> p[i] < p[j]))
      && (forall i, j :: 0 <= i < j < |r.entries| ==>
            collate(r.entries[j].name, r.entries[i].name) &&
            (collate(r.entries[i].name, r.entries[j].name) ==> q[i] < q[j]))
  {
    FoldersSortedStably(folders, entries, "name-desc", collate);
    EntriesSortedStably(folders, entries, "name-desc", collate);
  }

  /**
    Entries with 1, 1 and 0 links sorted "count-asc" show the third entry first and then the
    first two in their stored order: the tie between the equal counts is not reordered.
    (`SortFoldersAndEntries` shows the entries in the order `EntryOrder` gives.)
   */
  lemma CountAscKeepsTies(folders: seq<Folder>, entries: seq<Entry>, collate: (string, string) -> bool)
    requires |entries| == 3 && LinksCount(entries[0]) == 1 && LinksCount(entries[1]) == 1 && LinksCount(entries[2]) == 0
    ensures EntryOrder(entries, "count-asc", collate) == [2, 0, 1]
  {
    var le := EntryLe("count-asc", collate);
    assert le(entries[2], entries[0]) && !le(entries[0], entries[2]);
    assert le(entries[2], entries[1]) && !le(entries[1], entries[2]);
    assert le(entries[0], entries[1]) && le(entries[1], entries[0]);
    var q := EntryOrder(entries, "count-asc", collate);
    assert SortedBy(entries, le, q) by {
      EntryLeConsistent("count-asc", collate);
      SortOrderSorted(entries, le);
    }
    TieKeptInPlace(entries, le, q);
  }

  /**
    Three items where the third is strictly smallest and the first two tie: a stable
    arrangement of them is third, first, second.
   */
  lemma TieKeptInPlace<T>(s: seq<T>, le: (T, T) -> bool, q: seq<nat>)
    requires |s| == 3 && IsPermutation(q, 3) && InRange(q, 3) && SortedBy(s, le, q)
    requires le(s[2], s[0]) && !le(s[0], s[2]) && le(s[2], s[1]) && !le(s[1], s[2]) && le(s[0], s[1])
    ensures q == [2, 0, 1]
  {
    var p: seq<nat> := [2, 0, 1];
    assert multiset(p) == multiset(q) by {
      assert Range(3) == [0, 1, 2];
    }
    assert InRange(p, |s|) && SortedBy(s, le, p) by {
      ThirdFirstSorted(s, le);
    }
    SortedUnique(s, le, p, q);
  }

  /** The arrangement third, first, second is sorted when the third item is strictly smallest and the first two tie. */
  lemma ThirdFirstSorted<T>(s: seq<T>, le: (T, T) -> bool)
    requires |s| == 3
    requires le(s[2], s[0]) && !le(s[0], s[2]) && le(s[2], s[1]) && !le(s[1], s[2]) && le(s[0], s[1])
    ensures InRange([2, 0, 1], |s|) && SortedBy(s, le, [2, 0, 1])
  {
    var p: seq<nat> := [2, 0, 1];
    forall i, j | 0 <= i < j < |p|
      ensures Before(s, le, p[i], p[j])
    {
      assert i == 0 || i == 1;
      if i == 0 {
        assert p[0] == 2 && (j == 1 || j == 2);
      } else {
        assert j == 2 && p[1] == 0 && p[2] == 1;
      }
    }
  }
}
