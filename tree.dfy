/**
  The bookmark tree: folders that own sub-folders and entries, addressed by paths of
  child-folder indices from the root, with the recursive aggregates the views display
  (entry totals, link counts, the links behind "open all") and the breadcrumb string.
  Folders and entries are values, so `deepCloneItem` is a plain copy here.
 */
module Tree {
  import opened Wrappers
  import opened Strings

  /** Child-folder indices from the root to a folder; the root is the empty path. */
  type Path = seq<nat>

  /** A bookmark-like record. A missing `entryTags` array is `None`; missing strings are "". */
  datatype Entry = Entry(
    name: string, cover: string, color: string, aspectRatio: string,
    links: seq<string>, note: string, entryTags: Option<seq<string>>)

  /** A container; `whiteText` and `folderTags` may be absent (`undefined`) on stored data. */
  datatype Folder = Folder(
    name: string, cover: string, color: string, whiteText: Option<bool>, aspectRatio: string,
    folderTags: Option<seq<string>>, folders: seq<Folder>, entries: seq<Entry>)

  /** A folder or an entry, with the kind the source passes alongside as `itemType`. */
  datatype Item = FolderItem(folder: Folder) | EntryItem(entry: Entry)

  /** Every index of `path` is in range at its level, so walking it never reads `undefined`. */
  predicate ValidPath(root: Folder, path: Path)
    decreases |path|
  {
    |path| == 0 || (path[0] < |root.folders| && ValidPath(root.folders[path[0]], path[1..]))
  }

  /** The folder that `path` addresses below `root` (the walk of `getCurrentFolder`). */
  function Resolve(root: Folder, path: Path): Folder
    requires ValidPath(root, path)
    decreases |path|
  {
    if |path| == 0 then root else Resolve(root.folders[path[0]], path[1..])
  }

  /** Extending a path by one index: valid exactly when the index is in range of the folder reached. */
  lemma {:induction false} ResolveSnoc(root: Folder, p: Path, k: nat)
    ensures ValidPath(root, p + [k]) <==> ValidPath(root, p) && k < |Resolve(root, p).folders|
    ensures ValidPath(root, p + [k]) ==> Resolve(root, p + [k]) == Resolve(root, p).folders[k]
    decreases |p|
  {
    if |p| > 0 {
      assert (p + [k])[1..] == p[1..] + [k];
      if p[0] < |root.folders| {
        ResolveSnoc(root.folders[p[0]], p[1..], k);
      }
    }
  }

  /** Walking `p + q` is walking `p`, then `q` from where `p` ends. */
  lemma {:induction false} ResolveAppend(root: Folder, p: Path, q: Path)
    ensures ValidPath(root, p + q) <==> ValidPath(root, p) && ValidPath(Resolve(root, p), q)
    ensures ValidPath(root, p + q) ==> Resolve(root, p + q) == Resolve(Resolve(root, p), q)
    decreases |p|
  {
    if |p| > 0 {
      assert (p + q)[0] == p[0];
      assert (p + q)[1..] == p[1..] + q;
      if p[0] < |root.folders| {
        ResolveAppend(root.folders[p[0]], p[1..], q);
      }
    } else {
      assert p + q == q;
    }
  }

  /** Every prefix of a valid path is valid. */
  lemma ValidPrefix(root: Folder, p: Path, i: nat)
    requires ValidPath(root, p) && i <= |p|
    ensures ValidPath(root, p[..i])
  {
    assert p == p[..i] + p[i..];
    ResolveAppend(root, p[..i], p[i..]);
  }

  /** `getCurrentFolder`: walk `currentPath` from the root, one index at a time. */
  method GetCurrentFolder(root: Folder, path: Path) returns (folder: Folder)
    requires ValidPath(root, path)
    ensures folder == Resolve(root, path)
  {
    folder := root;
    var i := 0;
    while i < |path|
      invariant 0 <= i <= |path|
      invariant ValidPath(root, path[..i]) && folder == Resolve(root, path[..i])
    {
      assert path[..i + 1] == path[..i] + [path[i]];
      ValidPrefix(root, path, i + 1);
      ResolveSnoc(root, path[..i], path[i]);
      folder := folder.folders[path[i]];
      i := i + 1;
    }
    assert path[..i] == path;
  }

  // ---------------------------------------------------------------------------
  // Aggregates
  // ---------------------------------------------------------------------------

  /** `getTotalEntries`: the folder's own entries plus those of every sub-folder, recursively. */
  function TotalEntries(f: Folder): nat
    decreases f
  {
    |f.entries| + SumTotals(f.folders)
  }

  /** The sum of `TotalEntries` over a list of folders (the `forEach` accumulation). */
  function SumTotals(fs: seq<Folder>): nat
    decreases fs
  {
    if fs == [] then 0 else SumTotals(fs[..|fs| - 1]) + TotalEntries(fs[|fs| - 1])
  }

  /** Every entry of the subtree in pre-order, a folder's own entries before its sub-folders'. */
  function AllEntries(f: Folder): seq<Entry>
    decreases f
  {
    f.entries + SubtreeEntries(f.folders)
  }

  /** `AllEntries` of each folder in turn. */
  function SubtreeEntries(fs: seq<Folder>): seq<Entry>
    decreases fs
  {
    if fs == [] then [] else SubtreeEntries(fs[..|fs| - 1]) + AllEntries(fs[|fs| - 1])
  }

  /** The total a folder displays is the number of entries anywhere in its subtree. */
  lemma {:induction false} TotalEntriesCountsSubtree(f: Folder)
    ensures TotalEntries(f) == |AllEntries(f)|
    decreases f, 1
  {
    SumTotalsCountsSubtrees(f.folders);
  }

  /** `SumTotals` counts the entries of all the listed subtrees. */
  lemma {:induction false} SumTotalsCountsSubtrees(fs: seq<Folder>)
    ensures SumTotals(fs) == |SubtreeEntries(fs)|
    decreases fs, 0
  {
    if fs != [] {
      SumTotalsCountsSubtrees(fs[..|fs| - 1]);
      TotalEntriesCountsSubtree(fs[|fs| - 1]);
    }
  }

  /** The sum over folders is at least any one of them. */
  lemma {:induction false} SumTotalsBoundsEach(fs: seq<Folder>, i: nat)
    requires i < |fs|
    ensures TotalEntries(fs[i]) <= SumTotals(fs)
    decreases |fs|
  {
    if i < |fs| - 1 {
      SumTotalsBoundsEach(fs[..|fs| - 1], i);
    }
  }

  /** A sub-folder never shows a larger total than its parent. */
  lemma SubfolderTotalAtMostParent(f: Folder, i: nat)
    requires i < |f.folders|
    ensures TotalEntries(f.folders[i]) <= TotalEntries(f)
  {
    SumTotalsBoundsEach(f.folders, i);
  }

  /** A link with some character that is not whitespace. */
  predicate HasText(link: string) {
    !IsBlank(link)
  }

  /** `HasText` is the source's test `link && link.trim()`: non-empty, and non-empty after trimming. */
  lemma HasTextIsTruthyTrim(link: string)
    ensures HasText(link) <==> link != "" && Trim(link) != ""
  {
    TrimEmptyIffBlank(link);
  }

  /** The number of links that have text (`links.filter(link => link && link.trim()).length`). */
  function CountWithText(links: seq<string>): (r: nat)
    ensures r <= |links|
  {
    if links == [] then 0
    else CountWithText(links[..|links| - 1]) + (if HasText(links[|links| - 1]) then 1 else 0)
  }

  /** The count is all the links exactly when every link has text, and zero exactly when none has. */
  lemma {:induction false} CountWithTextExtremes(links: seq<string>)
    ensures CountWithText(links) == |links| <==> forall i :: 0 <= i < |links| ==> HasText(links[i])
    ensures CountWithText(links) == 0 <==> forall i :: 0 <= i < |links| ==> !HasText(links[i])
  {
    if links != [] {
      var init := links[..|links| - 1];
      CountWithTextExtremes(init);
      assert forall i :: 0 <= i < |init| ==> init[i] == links[i];
    }
  }

  /** A folder with three entries and one sub-folder holding one more shows a total of four. */
  lemma AggregateExample(e: Entry)
    ensures var sub := Folder("Sub", "", "", None, "", None, [], [e]);
      TotalEntries(Folder("Top", "", "", None, "", None, [sub], [e, e, e])) == 4
  {
    var sub := Folder("Sub", "", "", None, "", None, [], [e]);
    assert SumTotals([]) == 0;
    assert TotalEntries(sub) == 1;
    assert [sub][..0] == [];
    assert SumTotals([sub]) == 1;
  }

  /** `getTotalEntries`: the direct entries, plus each sub-folder's total in turn. */
  method GetTotalEntries(folder: Folder) returns (count: nat)
    ensures count == TotalEntries(folder)
    decreases folder
  {
    count := |folder.entries|;
    for i := 0 to |folder.folders|
      invariant count == |folder.entries| + SumTotals(folder.folders[..i])
    {
      assert folder.folders[..i + 1][..i] == folder.folders[..i];
      var sub := GetTotalEntries(folder.folders[i]);
      count := count + sub;
    }
    assert folder.folders[..|folder.folders|] == folder.folders;
  }

  /** `getLinksCount`: an entry's links that are not blank. */
  function LinksCount(e: Entry): (r: nat)
    ensures r <= |e.links|
  {
    CountWithText(e.links)
  }

  // ---------------------------------------------------------------------------
  // Link collection ("open all")
  // ---------------------------------------------------------------------------

  /** `link && link.trim() && isValidLinkUrl(link.trim())`: the link is opened, trimmed. */
  predicate Opens(link: string, isValidLink: string -> bool) {
    HasText(link) && isValidLink(Trim(link))
  }

  /** The trimmed links of a list that have text and pass `isValidLink`, in order. */
  function ValidLinks(links: seq<string>, isValidLink: string -> bool): (r: seq<string>)
    ensures |r| <= |links|
  {
    if links == [] then []
    else
      var l := links[|links| - 1];
      ValidLinks(links[..|links| - 1], isValidLink) + (if Opens(l, isValidLink) then [Trim(l)] else [])
  }

  /** One more link of a list extends `ValidLinks` of its prefix by that link's contribution. */
  lemma ValidLinksStep(links: seq<string>, j: nat, isValidLink: string -> bool)
    requires j < |links|
    ensures ValidLinks(links[..j + 1], isValidLink)
      == ValidLinks(links[..j], isValidLink) + (if Opens(links[j], isValidLink) then [Trim(links[j])] else [])
  {
    assert links[..j + 1][..j] == links[..j];
  }

  /** Every link "open all" pushes is non-empty, trimmed and accepted by the URL check. */
  lemma {:induction false} ValidLinksAreOpenable(links: seq<string>, isValidLink: string -> bool)
    ensures forall i :: 0 <= i < |ValidLinks(links, isValidLink)| ==>
      var l := ValidLinks(links, isValidLink)[i]; l != "" && IsTrimmed(l) && isValidLink(l)
  {
    if links != [] {
      var l := links[|links| - 1];
      ValidLinksAreOpenable(links[..|links| - 1], isValidLink);
      if Opens(l, isValidLink) {
        TrimEmptyIffBlank(l);
      }
    }
  }

  /** `ValidLinks` of each entry in turn. */
  function EntriesLinks(es: seq<Entry>, isValidLink: string -> bool): seq<string> {
    if es == [] then [] else EntriesLinks(es[..|es| - 1], isValidLink) + ValidLinks(es[|es| - 1].links, isValidLink)
  }

  /** The links `collectAllLinksFromFolder` gathers: direct entries first, then each sub-folder in order. */
  function FolderLinks(f: Folder, isValidLink: string -> bool): seq<string>
    decreases f
  {
    EntriesLinks(f.entries, isValidLink) + FoldersLinks(f.folders, isValidLink)
  }

  /** `FolderLinks` of each folder in turn. */
  function FoldersLinks(fs: seq<Folder>, isValidLink: string -> bool): seq<string>
    decreases fs
  {
    if fs == [] then [] else FoldersLinks(fs[..|fs| - 1], isValidLink) + FolderLinks(fs[|fs| - 1], isValidLink)
  }

  /** Link collection distributes over concatenated entry lists. */
  lemma {:induction false} EntriesLinksAppend(a: seq<Entry>, b: seq<Entry>, isValidLink: string -> bool)
    ensures EntriesLinks(a + b, isValidLink) == EntriesLinks(a, isValidLink) + EntriesLinks(b, isValidLink)
    decreases |b|
  {
    if b == [] {
      assert a + b == a;
    } else {
      var init, last := b[..|b| - 1], b[|b| - 1];
      var ab := a + b;
      assert ab[..|ab| - 1] == a + init && ab[|ab| - 1] == last;
      assert EntriesLinks(ab, isValidLink) == EntriesLinks(a + init, isValidLink) + ValidLinks(last.links, isValidLink);
      assert EntriesLinks(b, isValidLink) == EntriesLinks(init, isValidLink) + ValidLinks(last.links, isValidLink);
      EntriesLinksAppend(a, init, isValidLink);
      LinksAssoc(EntriesLinks(a, isValidLink), EntriesLinks(init, isValidLink), ValidLinks(last.links, isValidLink));
    }
  }

  /** "Open all" on a folder visits exactly the entries its total counts, in the same pre-order. */
  lemma {:induction false} FolderLinksAreSubtreeLinks(f: Folder, isValidLink: string -> bool)
    ensures FolderLinks(f, isValidLink) == EntriesLinks(AllEntries(f), isValidLink)
    decreases f, 1
  {
    FoldersLinksAreSubtreeLinks(f.folders, isValidLink);
    EntriesLinksAppend(f.entries, SubtreeEntries(f.folders), isValidLink);
  }

  /** List form of `FolderLinksAreSubtreeLinks`. */
  lemma {:induction false} FoldersLinksAreSubtreeLinks(fs: seq<Folder>, isValidLink: string -> bool)
    ensures FoldersLinks(fs, isValidLink) == EntriesLinks(SubtreeEntries(fs), isValidLink)
    decreases fs, 0
  {
    if fs != [] {
      FoldersLinksAreSubtreeLinks(fs[..|fs| - 1], isValidLink);
      FolderLinksAreSubtreeLinks(fs[|fs| - 1], isValidLink);
      EntriesLinksAppend(SubtreeEntries(fs[..|fs| - 1]), AllEntries(fs[|fs| - 1]), isValidLink);
    }
  }

  /** The inner `entry.links.forEach` of `collectAllLinksFromFolder`: push each opened link, trimmed. */
  method CollectEntryLinks(entry: Entry, isValidLink: string -> bool, linkArray: seq<string>)
    returns (out: seq<string>)
    ensures out == linkArray + ValidLinks(entry.links, isValidLink)
  {
    out := linkArray;
    for j := 0 to |entry.links|
      invariant out == linkArray + ValidLinks(entry.links[..j], isValidLink)
    {
      var link := entry.links[j];
      ValidLinksStep(entry.links, j, isValidLink);
      if Opens(link, isValidLink) {
        var trimmed := Trim(link);
        LinksAssoc(linkArray, ValidLinks(entry.links[..j], isValidLink), [trimmed]);
        out := out + [trimmed];
      } else {
        assert ValidLinks(entry.links[..j], isValidLink) + [] == ValidLinks(entry.links[..j], isValidLink);
      }
    }
    assert entry.links[..|entry.links|] == entry.links;
  }

  /** `collectAllLinksFromFolder`: append the folder's links to the caller's array. */
  method CollectAllLinksFromFolder(folder: Folder, isValidLink: string -> bool, linkArray: seq<string>)
    returns (out: seq<string>)
    ensures out == linkArray + FolderLinks(folder, isValidLink)
    decreases folder
  {
    out := linkArray;
    for i := 0 to |folder.entries|
      invariant out == linkArray + EntriesLinks(folder.entries[..i], isValidLink)
    {
      out := CollectEntryLinks(folder.entries[i], isValidLink, out);
      EntriesLinksStep(folder.entries, i, isValidLink);
      LinksAssoc(linkArray, EntriesLinks(folder.entries[..i], isValidLink), ValidLinks(folder.entries[i].links, isValidLink));
    }
    assert folder.entries[..|folder.entries|] == folder.entries;
    ghost var afterEntries := out;
    for i := 0 to |folder.folders|
      invariant out == afterEntries + FoldersLinks(folder.folders[..i], isValidLink)
    {
      out := CollectAllLinksFromFolder(folder.folders[i], isValidLink, out);
      FoldersLinksStep(folder.folders, i, isValidLink);
      LinksAssoc(afterEntries, FoldersLinks(folder.folders[..i], isValidLink), FolderLinks(folder.folders[i], isValidLink));
    }
    assert folder.folders[..|folder.folders|] == folder.folders;
    LinksAssoc(linkArray, EntriesLinks(folder.entries, isValidLink), FoldersLinks(folder.folders, isValidLink));
  }

  /** One more entry adds its valid links at the end. */
  lemma EntriesLinksStep(es: seq<Entry>, i: nat, isValidLink: string -> bool)
    requires i < |es|
    ensures EntriesLinks(es[..i + 1], isValidLink) == EntriesLinks(es[..i], isValidLink) + ValidLinks(es[i].links, isValidLink)
  {
    assert es[..i + 1][..i] == es[..i];
  }

  /** One more sub-folder adds its links at the end. */
  lemma FoldersLinksStep(fs: seq<Folder>, i: nat, isValidLink: string -> bool)
    requires i < |fs|
    ensures FoldersLinks(fs[..i + 1], isValidLink) == FoldersLinks(fs[..i], isValidLink) + FolderLinks(fs[i], isValidLink)
  {
    assert fs[..i + 1][..i] == fs[..i];
  }

  /** Concatenation of link lists is associative. */
  lemma LinksAssoc(a: seq<string>, b: seq<string>, c: seq<string>)
    ensures a + b + c == a + (b + c)
  {
  }

  // ---------------------------------------------------------------------------
  // Breadcrumbs
  // ---------------------------------------------------------------------------

  /** The " / name" steps of a path below `f`. */
  function Crumbs(f: Folder, path: Path): string
    requires ValidPath(f, path)
    decreases |path|
  {
    if |path| == 0 then "" else " / " + f.folders[path[0]].name + Crumbs(f.folders[path[0]], path[1..])
  }

  /** `getPathDisplayString`: "Root", then " / " and the name of each folder along the path. */
  function PathDisplay(root: Folder, path: Path): string
    requires ValidPath(root, path)
  {
    if |path| == 0 then "Root" else "Root" + Crumbs(root, path)
  }

  /** `getPathDisplayString`: walk the path from the root, appending " / " and each folder's name. */
  method GetPathDisplayString(root: Folder, path: Path) returns (pathString: string)
    requires ValidPath(root, path)
    ensures pathString == PathDisplay(root, path)
  {
    if |path| == 0 {
      return "Root";
    }
    pathString := "Root";
    var folder := root;
    for i := 0 to |path|
      invariant ValidPath(root, path[..i]) && folder == Resolve(root, path[..i])
      invariant pathString == "Root" + Crumbs(root, path[..i])
    {
      assert path[..i + 1] == path[..i] + [path[i]];
      ValidPrefix(root, path, i + 1);
      CrumbsSnoc(root, path[..i], path[i]);
      ResolveSnoc(root, path[..i], path[i]);
      folder := folder.folders[path[i]];
      pathString := pathString + " / " + folder.name;
    }
    assert path[..|path|] == path;
  }

  /** Going one folder deeper appends exactly one " / name" step. */
  lemma {:induction false} CrumbsSnoc(f: Folder, p: Path, k: nat)
    requires ValidPath(f, p + [k])
    ensures ValidPath(f, p) && Crumbs(f, p + [k]) == Crumbs(f, p) + " / " + Resolve(f, p + [k]).name
    decreases |p|
  {
    ResolveSnoc(f, p, k);
    if |p| > 0 {
      assert (p + [k])[0] == p[0] && (p + [k])[1..] == p[1..] + [k];
      CrumbsSnoc(f.folders[p[0]], p[1..], k);
    }
  }

  /** The breadcrumb of a path extended by one index is the parent's breadcrumb plus that folder's name. */
  lemma PathDisplaySnoc(root: Folder, p: Path, k: nat)
    requires ValidPath(root, p + [k])
    ensures ValidPath(root, p)
    ensures PathDisplay(root, p + [k]) == PathDisplay(root, p) + " / " + Resolve(root, p + [k]).name
  {
    CrumbsSnoc(root, p, k);
  }

  // ---------------------------------------------------------------------------
  // In-place replacement, as a value
  // ---------------------------------------------------------------------------

  /** The tree with the folder at `path` replaced by `f` (what an in-place mutation of that folder leaves). */
  function UpdateAt(root: Folder, path: Path, f: Folder): (r: Folder)
    requires ValidPath(root, path)
    ensures ValidPath(r, path) && Resolve(r, path) == f
    decreases |path|
  {
    if |path| == 0 then f
    else
      var child := UpdateAt(root.folders[path[0]], path[1..], f);
      var r := root.(folders := root.folders[path[0] := child]);
      assert r.folders[path[0]] == child;
      r
  }

  /** Replacing a folder keeps every field and sibling along the way; only the child on the path changes. */
  lemma UpdateAtShape(root: Folder, path: Path, f: Folder)
    requires ValidPath(root, path) && |path| > 0
    ensures UpdateAt(root, path, f) == root.(folders := root.folders[path[0] := UpdateAt(root.folders[path[0]], path[1..], f)])
  {
  }

  /** Paths that branch off from the replaced one still reach the folders they reached before. */
  lemma {:induction false} UpdateAtElsewhere(root: Folder, p: Path, f: Folder, q: Path)
    requires ValidPath(root, p) && ValidPath(root, q)
    requires !(p <= q) && !(q <= p)
    ensures ValidPath(UpdateAt(root, p, f), q) && Resolve(UpdateAt(root, p, f), q) == Resolve(root, q)
    decreases |p|
  {
    var r := UpdateAt(root, p, f);
    if p[0] == q[0] {
      UpdateAtElsewhere(root.folders[p[0]], p[1..], f, q[1..]);
    }
  }

  /** Paths through the replaced folder now continue inside the replacement. */
  lemma {:induction false} UpdateAtBelow(root: Folder, p: Path, f: Folder, s: Path)
    requires ValidPath(root, p) && ValidPath(f, s)
    ensures ValidPath(UpdateAt(root, p, f), p + s) && Resolve(UpdateAt(root, p, f), p + s) == Resolve(f, s)
  {
    ResolveAppend(UpdateAt(root, p, f), p, s);
  }

  /** A path leading to the replaced folder reaches the same folder with the replacement made below it. */
  lemma {:induction false} UpdateAtAbove(root: Folder, p: Path, f: Folder, q: Path)
    requires ValidPath(root, p) && q <= p
    ensures ValidPath(root, q) && ValidPath(Resolve(root, q), p[|q|..])
    ensures ValidPath(UpdateAt(root, p, f), q)
    ensures Resolve(UpdateAt(root, p, f), q) == UpdateAt(Resolve(root, q), p[|q|..], f)
    decreases |q|
  {
    assert p == q + p[|q|..];
    ResolveAppend(root, q, p[|q|..]);
    if |q| > 0 {
      assert q[1..] <= p[1..];
      assert p[1..][|q[1..]|..] == p[|q|..];
      UpdateAtAbove(root.folders[p[0]], p[1..], f, q[1..]);
    }
  }
}
