/**
  Selection mode and the batch operations on the selected children of the current folder:
  move (with the check that no folder is moved into itself), delete, duplicate, export and
  "open all". A selection key names a child by kind and position, as the page's
  `folder:<i>` / `entry:<i>` strings do. Removal works the way the page does it: the picked
  items are sorted by index, highest first, and spliced out one at a time, so no removal
  shifts an index still to be removed.
 */
module Batch {
  import opened Wrappers
  import opened Strings
  import opened Tree
  import opened Sorting
  import opened Defaults
  import opened Tags

  // ---------------------------------------------------------------------------
  // Selection
  // ---------------------------------------------------------------------------

  /** A selection key: `folder:<index>` or `entry:<index>` of the current folder. */
  datatype ItemKey = FolderKey(index: nat) | EntryKey(index: nat)

  /** `selectedItems`, a `Set` of keys in insertion order. */
  type Selection = seq<ItemKey>

  /** No key occurs twice, as in a `Set`. */
  predicate Distinct(sel: Selection) {
    forall i, j :: 0 <= i < j < |sel| ==> sel[i] != sel[j]
  }

  /** `Set.delete`: the selection without `key`, the other keys in their order. */
  function Without(sel: Selection, key: ItemKey): (r: Selection)
    ensures forall k :: k in r <==> k in sel && k != key
    ensures Distinct(sel) ==> Distinct(r)
  {
    if sel == [] then []
    else
      var init := Without(sel[..|sel| - 1], key);
      var last := sel[|sel| - 1];
      assert forall k :: k in sel <==> k in sel[..|sel| - 1] || k == last;
      assert Distinct(sel) ==> Distinct(sel[..|sel| - 1]) && last !in sel[..|sel| - 1];
      init + (if last == key then [] else [last])
  }

  /** `Set.add`: a key already present stays where it is; a new key goes to the end. */
  function Added(sel: Selection, key: ItemKey): (r: Selection)
    ensures forall k :: k in r <==> k in sel || k == key
    ensures Distinct(sel) ==> Distinct(r)
    ensures sel <= r
  {
    if key in sel then sel else sel + [key]
  }

  /** The selection after `toggleSelection(key)`: removed when present, added at the end otherwise. */
  function Toggled(sel: Selection, key: ItemKey): (r: Selection)
    ensures forall k :: k in r <==> (k in sel) != (k == key)
    ensures Distinct(sel) ==> Distinct(r)
  {
    if key in sel then Without(sel, key) else Added(sel, key)
  }

  /** Dropping a key that is not there changes nothing. */
  lemma {:induction false} WithoutAbsent(sel: Selection, key: ItemKey)
    requires key !in sel
    ensures Without(sel, key) == sel
  {
    if sel != [] {
      var init, last := sel[..|sel| - 1], sel[|sel| - 1];
      assert sel == init + [last];
      assert key !in init && last != key;
      assert Without(init, key) == init by { WithoutAbsent(init, key); }
    }
  }

  /** Toggling a key that was not selected twice gives back the same selection. */
  lemma ToggleTwiceRestores(sel: Selection, key: ItemKey)
    requires key !in sel
    ensures Toggled(Toggled(sel, key), key) == sel
  {
    WithoutAbsent(sel, key);
    assert (sel + [key])[..|sel + [key]| - 1] == sel;
  }

  /** Toggling a selected key twice keeps the same keys but moves that key to the end of the order. */
  lemma ToggleTwiceMovesToEnd(sel: Selection, key: ItemKey)
    requires key in sel
    ensures Toggled(Toggled(sel, key), key) == Without(sel, key) + [key]
  {
  }

  /** `Set.add` of each key in turn. */
  function AddAll(sel: Selection, keys: seq<ItemKey>): (r: Selection)
    ensures forall k :: k in r <==> k in sel || k in keys
    ensures Distinct(sel) ==> Distinct(r)
    ensures sel <= r
  {
    if keys == [] then sel
    else
      var init := keys[..|keys| - 1];
      assert forall k :: k in keys <==> k in init || k == keys[|keys| - 1];
      Added(AddAll(sel, init), keys[|keys| - 1])
  }

  /** Adding one more key at the end of the list adds it to the result. */
  lemma AddAllSnoc(sel: Selection, keys: seq<ItemKey>, k: ItemKey)
    ensures AddAll(sel, keys + [k]) == Added(AddAll(sel, keys), k)
  {
    assert (keys + [k])[..|keys|] == keys;
  }

  /** `folder:0 .. folder:n-1`. */
  function FolderKeys(n: nat): (r: seq<ItemKey>)
    ensures |r| == n && forall i :: 0 <= i < n ==> r[i] == FolderKey(i)
  {
    seq(n, i requires 0 <= i => FolderKey(i))
  }

  /** `entry:0 .. entry:n-1`. */
  function EntryKeys(n: nat): (r: seq<ItemKey>)
    ensures |r| == n && forall i :: 0 <= i < n ==> r[i] == EntryKey(i)
  {
    seq(n, i requires 0 <= i => EntryKey(i))
  }

  /** The keys of one more sub-folder. */
  lemma FolderKeysSnoc(n: nat)
    ensures FolderKeys(n + 1) == FolderKeys(n) + [FolderKey(n)]
  {
  }

  /** The keys of one more entry, after the sub-folder keys. */
  lemma EntryKeysSnoc(prefix: seq<ItemKey>, n: nat)
    ensures prefix + EntryKeys(n + 1) == (prefix + EntryKeys(n)) + [EntryKey(n)]
  {
    assert EntryKeys(n + 1) == EntryKeys(n) + [EntryKey(n)];
  }

  /** Every key of the folder: its sub-folders, then its entries, as `selectAllItems` adds them. */
  function ChildKeys(f: Folder): seq<ItemKey> {
    FolderKeys(|f.folders|) + EntryKeys(|f.entries|)
  }

  /** The key names a child that exists in `f`. */
  predicate InRangeKey(f: Folder, k: ItemKey) {
    if k.FolderKey? then k.index < |f.folders| else k.index < |f.entries|
  }

  /** Every selected key names a child of `f`. */
  predicate KeysInRange(f: Folder, sel: Selection) {
    forall i :: 0 <= i < |sel| ==> InRangeKey(f, sel[i])
  }

  /** After "select all" every child of the folder is selected, nothing selected before is lost, and the order of those keys is kept. */
  lemma SelectAllSelectsChildren(sel: Selection, f: Folder)
    ensures var r := AddAll(sel, ChildKeys(f));
            && sel <= r
            && (forall k :: InRangeKey(f, k) ==> k in r)
            && (forall k :: k in r ==> k in sel || InRangeKey(f, k))
  {
    var keys := ChildKeys(f);
    forall k | InRangeKey(f, k)
      ensures k in keys
    {
      if k.FolderKey? {
        assert keys[k.index] == k;
      } else {
        assert keys[|f.folders| + k.index] == k;
      }
    }
  }

  // ---------------------------------------------------------------------------
  // Moving a folder into itself
  // ---------------------------------------------------------------------------

  /** The outcome of `isMovingFolderIntoItself`. */
  datatype MoveCheck = Allowed | IntoItself(folderName: string)

  /** The key is a folder of the folder at `cp` that `dest` lies in (or is). */
  predicate Encloses(cp: Path, k: ItemKey, dest: Path) {
    k.FolderKey? && cp + [k.index] <= dest
  }

  /** A selected folder that encloses a valid destination exists in the current folder. */
  lemma EnclosedExists(root: Folder, cp: Path, k: ItemKey, dest: Path)
    requires ValidPath(root, cp) && ValidPath(root, dest) && Encloses(cp, k, dest)
    ensures k.index < |Resolve(root, cp).folders|
  {
    ValidPrefix(root, dest, |cp| + 1);
    assert dest[..|cp| + 1] == cp + [k.index];
    ResolveSnoc(root, cp, k.index);
  }

  /** `isMovingFolderIntoItself(selectedItems, dest)`: the first selected folder that encloses `dest`, by name. */
  function IntoItselfCheck(root: Folder, cp: Path, sel: Selection, dest: Path): MoveCheck
    requires ValidPath(root, cp) && ValidPath(root, dest)
  {
    if sel == [] then Allowed
    else if Encloses(cp, sel[0], dest) then
      EnclosedExists(root, cp, sel[0], dest);
      IntoItself(Resolve(root, cp).folders[sel[0].index].name)
    else IntoItselfCheck(root, cp, sel[1..], dest)
  }

  /**
    The move is refused exactly when some selected folder encloses the destination, and the
    message names the first such folder.
   */
  lemma {:induction false} IntoItselfIff(root: Folder, cp: Path, sel: Selection, dest: Path)
    requires ValidPath(root, cp) && ValidPath(root, dest)
    ensures IntoItselfCheck(root, cp, sel, dest).IntoItself? <==> exists i :: 0 <= i < |sel| && Encloses(cp, sel[i], dest)
    ensures IntoItselfCheck(root, cp, sel, dest).IntoItself? ==>
              exists i :: 0 <= i < |sel| && Encloses(cp, sel[i], dest) && (forall j :: 0 <= j < i ==> !Encloses(cp, sel[j], dest))
                && sel[i].index < |Resolve(root, cp).folders|
                && IntoItselfCheck(root, cp, sel, dest).folderName == Resolve(root, cp).folders[sel[i].index].name
  {
    if sel == [] {
    } else if Encloses(cp, sel[0], dest) {
      EnclosedExists(root, cp, sel[0], dest);
      assert Encloses(cp, sel[0], dest);
    } else {
      IntoItselfIff(root, cp, sel[1..], dest);
      var r := IntoItselfCheck(root, cp, sel[1..], dest);
      if r.IntoItself? {
        var i :| 0 <= i < |sel[1..]| && Encloses(cp, sel[1..][i], dest) && (forall j :: 0 <= j < i ==> !Encloses(cp, sel[1..][j], dest))
                 && sel[1..][i].index < |Resolve(root, cp).folders|
                 && r.folderName == Resolve(root, cp).folders[sel[1..][i].index].name;
        assert Encloses(cp, sel[i + 1], dest);
        forall j | 0 <= j < i + 1
          ensures !Encloses(cp, sel[j], dest)
        {
          if j > 0 {
            assert sel[j] == sel[1..][j - 1];
          }
        }
      } else {
        forall i | 0 <= i < |sel|
          ensures !Encloses(cp, sel[i], dest)
        {
          if i > 0 {
            assert sel[i] == sel[1..][i - 1];
          }
        }
      }
    }
  }

  /** At most one selected key encloses the destination, so "the first" is "the only". */
  lemma EnclosingKeyUnique(cp: Path, a: ItemKey, b: ItemKey, dest: Path)
    requires Encloses(cp, a, dest) && Encloses(cp, b, dest)
    ensures a == b
  {
    assert (cp + [a.index])[|cp|] == dest[|cp|] == (cp + [b.index])[|cp|];
  }

  // ---------------------------------------------------------------------------
  // Removal in descending index order
  // ---------------------------------------------------------------------------

  /** The elements of `xs` whose index is not in `S`, in their original order: what the splices leave. */
  function Kept<T>(xs: seq<T>, S: set<nat>): (r: seq<T>)
    ensures |r| <= |xs|
  {
    if xs == [] then []
    else Kept(xs[..|xs| - 1], S) + (if |xs| - 1 in S then [] else [xs[|xs| - 1]])
  }

  /** The elements of `xs` whose index is in `S`, highest index first: the order the splices take them out. */
  function Descend<T>(xs: seq<T>, S: set<nat>): (r: seq<T>)
    ensures |Kept(xs, S)| + |r| == |xs|
  {
    if xs == [] then []
    else (if |xs| - 1 in S then [xs[|xs| - 1]] else []) + Descend(xs[..|xs| - 1], S)
  }

  /** Every index in `S` is above `d`. */
  predicate Above(S: set<nat>, d: nat) {
    forall p :: p in S ==> d < p
  }

  /** Indices at or past the end name nothing: everything is kept and nothing is taken. */
  lemma {:induction false} KeptUntouched<T>(xs: seq<T>, S: set<nat>)
    requires forall p :: p in S ==> |xs| <= p
    ensures Kept(xs, S) == xs && Descend(xs, S) == []
  {
    if xs != [] {
      KeptUntouched(xs[..|xs| - 1], S);
      assert xs == xs[..|xs| - 1] + [xs[|xs| - 1]];
    }
  }

  /**
    One splice of the loop. When every index removed so far is above `d`, the element at `d`
    has not moved, and `splice(d, 1)` removes exactly it.
   */
  lemma {:induction false} SpliceBelow<T>(xs: seq<T>, P: set<nat>, d: nat)
    requires d < |xs| && d !in P && Above(P, d)
    ensures d < |Kept(xs, P)| && Kept(xs, P)[d] == xs[d]
    ensures Kept(xs, P)[..d] + Kept(xs, P)[d + 1..] == Kept(xs, P + {d})
    decreases |xs|
  {
    var n := |xs|;
    var init := xs[..n - 1];
    if d == n - 1 {
      KeptUntouched(init, P);
      KeptUntouched(init, P + {d});
    } else {
      SpliceBelow(init, P, d);
      SpliceStep(Kept(init, P), if n - 1 in P then [] else [xs[n - 1]], d);
    }
  }

  /** Splicing inside the front part of a concatenation leaves the back part alone. */
  lemma SpliceStep<T>(front: seq<T>, back: seq<T>, d: nat)
    requires d < |front|
    ensures (front + back)[..d] + (front + back)[d + 1..] == front[..d] + front[d + 1..] + back
    ensures (front + back)[d] == front[d]
  {
    assert (front + back)[..d] == front[..d];
    assert (front + back)[d + 1..] == front[d + 1..] + back;
  }

  /** The element spliced at `d` joins the taken ones after all of those taken before it. */
  lemma {:induction false} TakeBelow<T>(xs: seq<T>, P: set<nat>, d: nat)
    requires d < |xs| && d !in P && Above(P, d)
    ensures Descend(xs, P + {d}) == Descend(xs, P) + [xs[d]]
    decreases |xs|
  {
    var n := |xs|;
    var init := xs[..n - 1];
    var head := if n - 1 in P then [xs[n - 1]] else [];
    assert Descend(xs, P) == head + Descend(init, P);
    if d == n - 1 {
      assert head == [] && Descend(init, P) == [] by { KeptUntouched(init, P); }
      assert Descend(init, P + {d}) == [] by { KeptUntouched(init, P + {d}); }
      assert Descend(xs, P + {d}) == [xs[d]] + Descend(init, P + {d});
    } else {
      assert (n - 1 in P + {d}) == (n - 1 in P);
      assert Descend(xs, P + {d}) == head + Descend(init, P + {d});
      assert Descend(init, P + {d}) == Descend(init, P) + [xs[d]] by {
        TakeBelow(init, P, d);
        assert init[d] == xs[d];
      }
      AppendAssoc(head, Descend(init, P), [xs[d]]);
    }
  }

  /** Kept element `j` lands at the number of elements kept before it. */
  lemma {:induction false} KeptAt<T>(xs: seq<T>, S: set<nat>, j: nat)
    requires j < |xs| && j !in S
    ensures |Kept(xs[..j], S)| < |Kept(xs, S)| && Kept(xs, S)[|Kept(xs[..j], S)|] == xs[j]
    decreases |xs|
  {
    var init := xs[..|xs| - 1];
    if j < |xs| - 1 {
      KeptAt(init, S, j);
      assert init[..j] == xs[..j];
    }
  }

  /** Only the indices below the length matter. */
  lemma {:induction false} KeptAgree<T>(xs: seq<T>, S: set<nat>, S': set<nat>)
    requires forall i :: 0 <= i < |xs| ==> (i in S <==> i in S')
    ensures Kept(xs, S) == Kept(xs, S') && Descend(xs, S) == Descend(xs, S')
  {
    if xs != [] {
      KeptAgree(xs[..|xs| - 1], S, S');
    }
  }

  /** Nothing is lost or made up: the kept and the taken elements together are the original ones. */
  lemma {:induction false} KeptAndTakenPartition<T>(xs: seq<T>, S: set<nat>)
    ensures multiset(Kept(xs, S)) + multiset(Descend(xs, S)) == multiset(xs)
  {
    if xs != [] {
      KeptAndTakenPartition(xs[..|xs| - 1], S);
      assert xs == xs[..|xs| - 1] + [xs[|xs| - 1]];
    }
  }

  /**
    Deleting the items at 0, 2 and 4 of five leaves those at 1 and 3, in their order, and
    the splices take out 4, then 2, then 0.
   */
  lemma DeleteAlternateOfFive<T>(xs: seq<T>)
    requires |xs| == 5
    ensures Kept(xs, {0, 2, 4}) == [xs[1], xs[3]]
    ensures Descend(xs, {0, 2, 4}) == [xs[4], xs[2], xs[0]]
  {
    var S: set<nat> := {0, 2, 4};
    assert xs[..4][..3] == xs[..3] && xs[..3][..2] == xs[..2] && xs[..2][..1] == xs[..1] && xs[..1][..0] == [];
    assert Kept(xs[..1], S) == [] && Descend(xs[..1], S) == [xs[0]];
    assert Kept(xs[..2], S) == [xs[1]] && Descend(xs[..2], S) == [xs[0]];
    assert Kept(xs[..3], S) == [xs[1]] && Descend(xs[..3], S) == [xs[2], xs[0]];
    assert Kept(xs[..4], S) == [xs[1], xs[3]] && Descend(xs[..4], S) == [xs[2], xs[0]];
    assert xs[..5] == xs;
  }

  /** The indices below `n` that are not in `S`, ascending. */
  function KeptIndices(n: nat, S: set<nat>): (r: seq<nat>)
    ensures forall i :: 0 <= i < |r| ==> r[i] < n
  {
    if n == 0 then [] else KeptIndices(n - 1, S) + (if n - 1 in S then [] else [n - 1])
  }

  /** The indices below `n` that are in `S`, descending. */
  function TakenIndices(n: nat, S: set<nat>): (r: seq<nat>)
    ensures forall i :: 0 <= i < |r| ==> r[i] < n
  {
    if n == 0 then [] else (if n - 1 in S then [n - 1] else []) + TakenIndices(n - 1, S)
  }

  /** `KeptIndices` ascends strictly and holds exactly the indices below `n` outside `S`. */
  lemma {:induction false} KeptIndicesAscend(n: nat, S: set<nat>)
    ensures var ks := KeptIndices(n, S);
            && (forall i, j :: 0 <= i < j < |ks| ==> ks[i] < ks[j])
            && (forall i :: i in ks <==> 0 <= i < n && i !in S)
  {
    if n > 0 {
      KeptIndicesAscend(n - 1, S);
      var ks := KeptIndices(n - 1, S);
      assert n - 1 !in ks;
      assert KeptIndices(n, S) == ks + (if n - 1 in S then [] else [n - 1]);
    }
  }

  /** `TakenIndices` descends strictly and holds exactly the indices below `n` in `S`. */
  lemma {:induction false} TakenIndicesDescend(n: nat, S: set<nat>)
    ensures var ts := TakenIndices(n, S);
            && (forall i, j :: 0 <= i < j < |ts| ==> ts[i] > ts[j])
            && (forall i :: i in ts <==> i < n && i in S)
  {
    if n > 0 {
      TakenIndicesDescend(n - 1, S);
      var ts := TakenIndices(n - 1, S);
      assert n - 1 !in ts;
      assert TakenIndices(n, S) == (if n - 1 in S then [n - 1] else []) + ts;
    }
  }

  /**
    What the splices leave are exactly the unselected originals in their original relative
    order: `Kept` holds the elements at `KeptIndices`, which ascend and are the indices
    outside `S`.
   */
  lemma {:induction false} KeptAreUnselectedInOrder<T>(xs: seq<T>, S: set<nat>)
    ensures var ks := KeptIndices(|xs|, S);
            && (forall i, j :: 0 <= i < j < |ks| ==> ks[i] < ks[j])
            && (forall i :: i in ks <==> 0 <= i < |xs| && i !in S)
            && |Kept(xs, S)| == |ks| && forall i :: 0 <= i < |ks| ==> Kept(xs, S)[i] == xs[ks[i]]
  {
    KeptIndicesAscend(|xs|, S);
    KeptAtIndices(xs, S);
  }

  /** Position `i` of `Kept` holds the element at `KeptIndices[i]`. */
  lemma {:induction false} KeptAtIndices<T>(xs: seq<T>, S: set<nat>)
    ensures |Kept(xs, S)| == |KeptIndices(|xs|, S)|
    ensures forall i :: 0 <= i < |Kept(xs, S)| ==> Kept(xs, S)[i] == xs[KeptIndices(|xs|, S)[i]]
  {
    if xs != [] {
      var init := xs[..|xs| - 1];
      KeptAtIndices(init, S);
      var ks := KeptIndices(|init|, S);
      var tail := if |xs| - 1 in S then [] else [xs[|xs| - 1]];
      var kt := if |xs| - 1 in S then [] else [|xs| - 1];
      assert Kept(xs, S) == Kept(init, S) + tail;
      assert KeptIndices(|xs|, S) == ks + kt;
      forall i | 0 <= i < |ks|
        ensures Kept(xs, S)[i] == xs[KeptIndices(|xs|, S)[i]]
      {
        assert Kept(xs, S)[i] == Kept(init, S)[i] == init[ks[i]];
      }
    }
  }

  /** The taken elements are exactly the selected ones, highest index first. */
  lemma {:induction false} TakenAreSelectedDescending<T>(xs: seq<T>, S: set<nat>)
    ensures var ts := TakenIndices(|xs|, S);
            && (forall i, j :: 0 <= i < j < |ts| ==> ts[i] > ts[j])
            && (forall i :: i in ts <==> i < |xs| && i in S)
            && |Descend(xs, S)| == |ts| && forall i :: 0 <= i < |ts| ==> Descend(xs, S)[i] == xs[ts[i]]
  {
    TakenIndicesDescend(|xs|, S);
    TakenAtIndices(xs, S);
  }

  /** Position `i` of `Descend` holds the element at `TakenIndices[i]`. */
  lemma {:induction false} TakenAtIndices<T>(xs: seq<T>, S: set<nat>)
    ensures |Descend(xs, S)| == |TakenIndices(|xs|, S)|
    ensures forall i :: 0 <= i < |Descend(xs, S)| ==> Descend(xs, S)[i] == xs[TakenIndices(|xs|, S)[i]]
  {
    if xs != [] {
      var init := xs[..|xs| - 1];
      TakenAtIndices(init, S);
      var ts := TakenIndices(|init|, S);
      var head := if |xs| - 1 in S then [xs[|xs| - 1]] else [];
      var ht := if |xs| - 1 in S then [|xs| - 1] else [];
      assert Descend(xs, S) == head + Descend(init, S);
      assert TakenIndices(|xs|, S) == ht + ts;
      forall i | |head| <= i < |Descend(xs, S)|
        ensures Descend(xs, S)[i] == xs[TakenIndices(|xs|, S)[i]]
      {
        assert Descend(xs, S)[i] == Descend(init, S)[i - |head|] == init[ts[i - |head|]];
      }
    }
  }

  // ---------------------------------------------------------------------------
  // Picking, sorting and splicing
  // ---------------------------------------------------------------------------

  /** The indices of the selected sub-folders. */
  function SelectedFolders(sel: Selection): set<nat> {
    set k | k in sel && k.FolderKey? :: k.index
  }

  /** The indices of the selected entries. */
  function SelectedEntries(sel: Selection): set<nat> {
    set k | k in sel && k.EntryKey? :: k.index
  }

  /** Membership in the index sets is membership of the key. */
  lemma SelectedMember(sel: Selection, x: nat)
    ensures x in SelectedFolders(sel) <==> FolderKey(x) in sel
    ensures x in SelectedEntries(sel) <==> EntryKey(x) in sel
  {
    if FolderKey(x) in sel {
      assert FolderKey(x).index == x;
    }
    if EntryKey(x) in sel {
      assert EntryKey(x).index == x;
    }
  }

  /** An item picked for a batch operation with the index it had: the page's `{type, index, item}`. */
  datatype Picked = PickedFolder(index: nat, folder: Folder) | PickedEntry(index: nat, entry: Entry)

  /** The selection key of a picked item. */
  function KeyOf(p: Picked): ItemKey {
    if p.PickedFolder? then FolderKey(p.index) else EntryKey(p.index)
  }

  /** `p` is the child of `src` at its index. */
  predicate IsPickOf(src: Folder, p: Picked) {
    match p
    case PickedFolder(i, f) => i < |src.folders| && src.folders[i] == f
    case PickedEntry(i, e) => i < |src.entries| && src.entries[i] == e
  }

  /** The child that an in-range key names. */
  function PickAt(src: Folder, k: ItemKey): (p: Picked)
    requires InRangeKey(src, k)
    ensures IsPickOf(src, p) && KeyOf(p) == k
  {
    if k.FolderKey? then PickedFolder(k.index, src.folders[k.index]) else PickedEntry(k.index, src.entries[k.index])
  }

  /**
    The items picked for `sel`, in selection order. A key that names no child is skipped, as
    the `currentFolder.folders[idx]` test does; when every key names a child nothing is skipped.
   */
  function Picks(src: Folder, sel: Selection): (r: seq<Picked>)
    ensures forall i :: 0 <= i < |r| ==> IsPickOf(src, r[i])
    ensures KeysInRange(src, sel) ==> |r| == |sel| && forall j :: 0 <= j < |sel| ==> r[j] == PickAt(src, sel[j])
  {
    if sel == [] then []
    else
      var init, last := sel[..|sel| - 1], sel[|sel| - 1];
      assert KeysInRange(src, sel) ==> KeysInRange(src, init) by {
        if KeysInRange(src, sel) {
          forall i | 0 <= i < |init| ensures InRangeKey(src, init[i]) {
            assert init[i] == sel[i];
          }
        }
      }
      Picks(src, init) + (if InRangeKey(src, last) then [PickAt(src, last)] else [])
  }

  /** The indices of the picked sub-folders. */
  function FolderSet(items: seq<Picked>): set<nat> {
    if items == [] then {}
    else FolderSet(items[..|items| - 1]) + (if items[|items| - 1].PickedFolder? then {items[|items| - 1].index} else {})
  }

  /** The indices of the picked entries. */
  function EntrySet(items: seq<Picked>): set<nat> {
    if items == [] then {}
    else EntrySet(items[..|items| - 1]) + (if items[|items| - 1].PickedEntry? then {items[|items| - 1].index} else {})
  }

  /** An index is in a pick set exactly when some picked item of that kind has it. */
  lemma {:induction false} PickSetMember(items: seq<Picked>, x: nat)
    ensures x in FolderSet(items) <==> exists p :: p in items && KeyOf(p) == FolderKey(x)
    ensures x in EntrySet(items) <==> exists p :: p in items && KeyOf(p) == EntryKey(x)
  {
    if items != [] {
      var init := items[..|items| - 1];
      var last := items[|items| - 1];
      PickSetMember(init, x);
      assert forall p :: p in items <==> p in init || p == last;
      assert last in items;
      if exists p :: p in items && KeyOf(p) == FolderKey(x) {
        var p :| p in items && KeyOf(p) == FolderKey(x);
        assert p in init || p == last;
      }
      if exists p :: p in items && KeyOf(p) == EntryKey(x) {
        var p :| p in items && KeyOf(p) == EntryKey(x);
        assert p in init || p == last;
      }
    }
  }

  /** The pick sets of `Picks` are the selected indices that name a child. */
  lemma {:induction false} PicksSets(src: Folder, sel: Selection, x: nat)
    ensures x in FolderSet(Picks(src, sel)) <==> FolderKey(x) in sel && x < |src.folders|
    ensures x in EntrySet(Picks(src, sel)) <==> EntryKey(x) in sel && x < |src.entries|
  {
    if sel != [] {
      var init := sel[..|sel| - 1];
      var last := sel[|sel| - 1];
      PicksSets(src, init, x);
      var a := Picks(src, init);
      var b := if InRangeKey(src, last) then [PickAt(src, last)] else [];
      assert Picks(src, sel) == a + b;
      if b != [] {
        assert (a + b)[..|a|] == a;
      } else {
        assert a + b == a;
      }
      assert forall k :: k in sel <==> k in init || k == last;
      assert FolderKey(x) in sel <==> FolderKey(x) in init || FolderKey(x) == last;
      assert EntryKey(x) in sel <==> EntryKey(x) in init || EntryKey(x) == last;
    }
  }

  /** Every item's key is in the selection. */
  predicate KeysFrom(items: seq<Picked>, sel: Selection) {
    forall i :: 0 <= i < |items| ==> KeyOf(items[i]) in sel
  }

  /** Every picked item comes from a selected key. */
  lemma {:induction false} PicksFromSelection(src: Folder, sel: Selection)
    ensures KeysFrom(Picks(src, sel), sel)
  {
    if sel != [] {
      var init := sel[..|sel| - 1];
      PicksFromSelection(src, init);
      var a := Picks(src, init);
      var b := if InRangeKey(src, sel[|sel| - 1]) then [PickAt(src, sel[|sel| - 1])] else [];
      assert Picks(src, sel) == a + b;
      forall i | 0 <= i < |a|
        ensures KeyOf(a[i]) in sel
      {
        InPrefix(sel, KeyOf(a[i]));
      }
    }
  }

  /** A key of a prefix is a key of the whole selection. */
  lemma InPrefix(sel: Selection, k: ItemKey)
    requires |sel| > 0 && k in sel[..|sel| - 1]
    ensures k in sel
  {
    var i :| 0 <= i < |sel| - 1 && sel[..|sel| - 1][i] == k;
    assert sel[i] == k;
  }

  /** The keys of the picks are distinct when the selection is. */
  lemma {:induction false} PicksDistinct(src: Folder, sel: Selection)
    requires Distinct(sel)
    ensures DistinctKeys(Picks(src, sel))
  {
    if sel != [] {
      var init := sel[..|sel| - 1];
      var last := sel[|sel| - 1];
      assert Distinct(init);
      assert last !in init;
      PicksDistinct(src, init);
      PicksFromSelection(src, init);
      var a := Picks(src, init);
      var b := if InRangeKey(src, last) then [PickAt(src, last)] else [];
      var r := a + b;
      assert Picks(src, sel) == r;
      forall i, j | 0 <= i < j < |r|
        ensures KeyOf(r[i]) != KeyOf(r[j])
      {
        if j == |a| {
          assert r[i] == a[i] && KeyOf(a[i]) in init;
        } else {
          assert r[i] == a[i] && r[j] == a[j];
        }
      }
    }
  }

  /** The items come highest index first, and no key is picked twice. */
  predicate InOrder(items: seq<Picked>) {
    forall i, j :: 0 <= i < j < |items| ==> items[j].index <= items[i].index && KeyOf(items[i]) != KeyOf(items[j])
  }

  /** No key is picked twice. */
  predicate DistinctKeys(items: seq<Picked>) {
    forall i, j :: 0 <= i < j < |items| ==> KeyOf(items[i]) != KeyOf(items[j])
  }

  /** Two different positions of distinct picks hold different keys, in either order. */
  lemma DistinctAt(items: seq<Picked>, a: nat, b: nat)
    requires DistinctKeys(items) && a < |items| && b < |items| && a != b
    ensures KeyOf(items[a]) != KeyOf(items[b])
  {
    if b < a {
      assert KeyOf(items[b]) != KeyOf(items[a]);
    }
  }

  /** The comparator `(a, b) => b.index - a.index`, as `le(a, b)` read as "compares `<= 0`". */
  function ByIndexDescending(): (Picked, Picked) -> bool {
    (a: Picked, b: Picked) => a.index >= b.index
  }

  /** The comparator sorts consistently. */
  lemma ByIndexDescendingIsPreorder()
    ensures TotalPreorder(ByIndexDescending())
  {
  }

  /** Sorting the picks by the comparator puts them highest index first, with no key twice. */
  lemma SortedPicksInOrder(src: Folder, sel: Selection)
    requires Distinct(sel)
    ensures var s := Picks(src, sel); var r := StableSort(s, ByIndexDescending());
            InOrder(r) && forall i :: 0 <= i < |r| ==> IsPickOf(src, r[i])
  {
    var s := Picks(src, sel);
    var le := ByIndexDescending();
    var r := StableSort(s, le);
    var p := SortOrder(s, le);
    ByIndexDescendingIsPreorder();
    SortOrderSorted(s, le);
    PermutationDistinct(p, |s|);
    PicksDistinct(src, sel);
    forall i, j | 0 <= i < j < |r|
      ensures r[j].index <= r[i].index && KeyOf(r[i]) != KeyOf(r[j])
    {
      assert le(r[i], r[j]);
      assert r[i] == s[p[i]] && r[j] == s[p[j]] && p[i] != p[j];
      DistinctAt(s, p[i], p[j]);
    }
  }

  /** Sorting keeps the index sets of the picks. */
  lemma SortedPicksSets(s: seq<Picked>)
    ensures var r := StableSort(s, ByIndexDescending()); FolderSet(r) == FolderSet(s) && EntrySet(r) == EntrySet(s)
  {
    var r := StableSort(s, ByIndexDescending());
    StableSortIsPermutation(s, ByIndexDescending());
    assert forall p :: p in r <==> p in s by {
      forall p
        ensures p in r <==> p in s
      {
        assert p in r <==> p in multiset(r);
        assert p in s <==> p in multiset(s);
      }
    }
    forall x | x in FolderSet(r) || x in EntrySet(r) || x in FolderSet(s) || x in EntrySet(s)
      ensures (x in FolderSet(r) <==> x in FolderSet(s)) && (x in EntrySet(r) <==> x in EntrySet(s))
    {
      PickSetMember(r, x);
      PickSetMember(s, x);
    }
  }

  /** Every picked sub-folder with a lower position in the list has a higher index than `d`. */
  lemma {:induction false} ProcessedAbove(items: seq<Picked>, k: nat, d: nat)
    requires k <= |items|
    ensures (forall i :: 0 <= i < k && items[i].PickedFolder? ==> d < items[i].index) ==> Above(FolderSet(items[..k]), d)
    ensures (forall i :: 0 <= i < k && items[i].PickedEntry? ==> d < items[i].index) ==> Above(EntrySet(items[..k]), d)
  {
    if k > 0 {
      ProcessedAbove(items, k - 1, d);
      assert items[..k][..k - 1] == items[..k - 1];
    }
  }

  /**
    One turn of the splice loop for a picked sub-folder at `d`: it is still at position `d`
    of what is left, and splicing it there leaves the kept folders of one more item.
   */
  lemma SpliceFolderStep(src: Folder, items: seq<Picked>, k: nat)
    requires InOrder(items) && k < |items| && items[k].PickedFolder? && IsPickOf(src, items[k])
    ensures var d, P, P' := items[k].index, FolderSet(items[..k]), FolderSet(items[..k + 1]);
            && d < |Kept(src.folders, P)|
            && Kept(src.folders, P') == Kept(src.folders, P)[..d] + Kept(src.folders, P)[d + 1..]
            && Descend(src.folders, P') == Descend(src.folders, P) + [items[k].folder]
            && EntrySet(items[..k + 1]) == EntrySet(items[..k])
  {
    var d := items[k].index;
    assert items[..k + 1][..k] == items[..k];
    ProcessedAbove(items, k, d);
    SpliceBelow(src.folders, FolderSet(items[..k]), d);
    TakeBelow(src.folders, FolderSet(items[..k]), d);
  }

  /** One turn of the splice loop for a picked entry, as `SpliceFolderStep`. */
  lemma SpliceEntryStep(src: Folder, items: seq<Picked>, k: nat)
    requires InOrder(items) && k < |items| && items[k].PickedEntry? && IsPickOf(src, items[k])
    ensures var d, P, P' := items[k].index, EntrySet(items[..k]), EntrySet(items[..k + 1]);
            && d < |Kept(src.entries, P)|
            && Kept(src.entries, P') == Kept(src.entries, P)[..d] + Kept(src.entries, P)[d + 1..]
            && Descend(src.entries, P') == Descend(src.entries, P) + [items[k].entry]
            && FolderSet(items[..k + 1]) == FolderSet(items[..k])
  {
    var d := items[k].index;
    assert items[..k + 1][..k] == items[..k];
    ProcessedAbove(items, k, d);
    SpliceBelow(src.entries, EntrySet(items[..k]), d);
    TakeBelow(src.entries, EntrySet(items[..k]), d);
  }

  /**
    The splice loop over items sorted highest index first: each folder item is spliced out of
    the folder list and set aside, each entry item likewise. What is left are the kept
    children, and what is set aside are the picked ones, highest index first.
   */
  method SpliceDescending(src: Folder, items: seq<Picked>)
    returns (folders: seq<Folder>, entries: seq<Entry>, takenFolders: seq<Folder>, takenEntries: seq<Entry>)
    requires InOrder(items) && forall i :: 0 <= i < |items| ==> IsPickOf(src, items[i])
    ensures folders == Kept(src.folders, FolderSet(items)) && entries == Kept(src.entries, EntrySet(items))
    ensures takenFolders == Descend(src.folders, FolderSet(items)) && takenEntries == Descend(src.entries, EntrySet(items))
  {
    folders, entries, takenFolders, takenEntries := src.folders, src.entries, [], [];
    KeptUntouched(src.folders, {});
    KeptUntouched(src.entries, {});
    for k := 0 to |items|
      invariant folders == Kept(src.folders, FolderSet(items[..k])) && entries == Kept(src.entries, EntrySet(items[..k]))
      invariant takenFolders == Descend(src.folders, FolderSet(items[..k]))
      invariant takenEntries == Descend(src.entries, EntrySet(items[..k]))
    {
      match items[k]
      case PickedFolder(index, item) =>
        SpliceFolderStep(src, items, k);
        folders := folders[..index] + folders[index + 1..];
        takenFolders := takenFolders + [item];
      case PickedEntry(index, item) =>
        SpliceEntryStep(src, items, k);
        entries := entries[..index] + entries[index + 1..];
        takenEntries := takenEntries + [item];
    }
    assert items[..|items|] == items;
  }

  /** The loop that picks the items for `sel` (`selectedItems.forEach(...)` with `push`). */
  method CollectItems(src: Folder, sel: Selection) returns (items: seq<Picked>)
    ensures items == Picks(src, sel)
  {
    items := [];
    for i := 0 to |sel|
      invariant items == Picks(src, sel[..i])
    {
      assert sel[..i + 1][..i] == sel[..i];
      var key := sel[i];
      if InRangeKey(src, key) {
        match key
        case FolderKey(index) =>
          items := items + [PickedFolder(index, src.folders[index])];
        case EntryKey(index) =>
          items := items + [PickedEntry(index, src.entries[index])];
      }
    }
    assert sel[..|sel|] == sel;
  }

  /** The current folder with the selected children removed. */
  function Removed(src: Folder, sel: Selection): Folder {
    src.(folders := Kept(src.folders, SelectedFolders(sel)), entries := Kept(src.entries, SelectedEntries(sel)))
  }

  /**
    Sort the picked items highest index first and splice them out (`itemsToMove.sort(...)`
    then `forEach(... splice(index, 1) ...)`): the folder is left with its unselected children,
    and the removed ones come out highest index first.
   */
  method RemovePicked(src: Folder, sel: Selection, items: seq<Picked>)
    returns (rest: Folder, takenFolders: seq<Folder>, takenEntries: seq<Entry>)
    requires Distinct(sel) && items == Picks(src, sel)
    ensures rest == Removed(src, sel)
    ensures takenFolders == Descend(src.folders, SelectedFolders(sel))
    ensures takenEntries == Descend(src.entries, SelectedEntries(sel))
  {
    var ordered := StableSort(items, ByIndexDescending());
    SortedPicksInOrder(src, sel);
    SortedPicksSets(items);
    var folders, entries;
    folders, entries, takenFolders, takenEntries := SpliceDescending(src, ordered);
    rest := src.(folders := folders, entries := entries);
    forall x: nat
      ensures (x in SelectedFolders(sel) <==> FolderKey(x) in sel) && (x in SelectedEntries(sel) <==> EntryKey(x) in sel)
      ensures (x in FolderSet(items) <==> FolderKey(x) in sel && x < |src.folders|)
      ensures (x in EntrySet(items) <==> EntryKey(x) in sel && x < |src.entries|)
    {
      SelectedMember(sel, x);
      PicksSets(src, sel, x);
    }
    KeptAgree(src.folders, FolderSet(ordered), SelectedFolders(sel));
    KeptAgree(src.entries, EntrySet(ordered), SelectedEntries(sel));
  }

  // ---------------------------------------------------------------------------
  // Move
  // ---------------------------------------------------------------------------

  /** `dest` lies strictly inside the folder at `cp`. */
  predicate StrictlyBelow(cp: Path, dest: Path) {
    |cp| < |dest| && dest[..|cp|] == cp
  }

  /** A destination strictly inside the current folder lies in the sub-folder at `dest[|cp|]`. */
  lemma BelowEnclosed(cp: Path, dest: Path)
    requires StrictlyBelow(cp, dest)
    ensures Encloses(cp, FolderKey(dest[|cp|]), dest)
    ensures dest == cp + [dest[|cp|]] + dest[|cp| + 1..]
  {
    assert dest[..|cp| + 1] == cp + [dest[|cp|]];
  }

  /**
    The path of the destination folder once the selected children have been spliced out.
    The page holds the destination folder by reference, resolved before the splices. Here the
    tree is a value, so when the destination lies inside a sub-folder of the current folder
    its path goes through the new position of that sub-folder: the number of folders kept
    before it. Any other destination keeps its path.
   */
  function AdjustPath(root: Folder, cp: Path, sel: Selection, dest: Path): (d: Path)
    requires ValidPath(root, cp) && ValidPath(root, dest)
    ensures |d| == |dest|
  {
    if StrictlyBelow(cp, dest) then
      BelowEnclosed(cp, dest);
      EnclosedExists(root, cp, FolderKey(dest[|cp|]), dest);
      var j := dest[|cp|];
      cp + [|Kept(Resolve(root, cp).folders[..j], SelectedFolders(sel))|] + dest[|cp| + 1..]
    else dest
  }

  /** The folder with `fs` and `es` pushed onto its lists. */
  function Received(f: Folder, fs: seq<Folder>, es: seq<Entry>): Folder {
    f.(folders := f.folders + fs, entries := f.entries + es)
  }

  /** What the destination folder is after the splices, before anything is pushed onto it. */
  function DestinationAfterSplices(root: Folder, cp: Path, sel: Selection, dest: Path): Folder
    requires ValidPath(root, cp) && ValidPath(root, dest)
  {
    if dest <= cp then
      UpdateAtAbove(root, cp, Removed(Resolve(root, cp), sel), dest);
      UpdateAt(Resolve(root, dest), cp[|dest|..], Removed(Resolve(root, cp), sel))
    else Resolve(root, dest)
  }

  /**
    The destination resolved by reference before the splices is the folder at the adjusted
    path after them. When it is the current folder or one of its ancestors it contains the
    spliced current folder; otherwise it is the folder it was.
   */
  lemma {:induction false} AdjustedPathFindsDestination(root: Folder, cp: Path, sel: Selection, dest: Path)
    requires ValidPath(root, cp) && ValidPath(root, dest) && IntoItselfCheck(root, cp, sel, dest) == Allowed
    ensures var root1 := UpdateAt(root, cp, Removed(Resolve(root, cp), sel));
            var d := AdjustPath(root, cp, sel, dest);
            ValidPath(root1, d) && Resolve(root1, d) == DestinationAfterSplices(root, cp, sel, dest)
  {
    var src := Resolve(root, cp);
    var rest := Removed(src, sel);
    var root1 := UpdateAt(root, cp, rest);
    if dest <= cp {
      UpdateAtAbove(root, cp, rest, dest);
    } else if StrictlyBelow(cp, dest) {
      BelowEnclosed(cp, dest);
      var j := dest[|cp|];
      var tail := dest[|cp| + 1..];
      EnclosedExists(root, cp, FolderKey(j), dest);
      IntoItselfIff(root, cp, sel, dest);
      SelectedMember(sel, j);
      assert FolderKey(j) !in sel;
      KeptAt(src.folders, SelectedFolders(sel), j);
      var j' := |Kept(src.folders[..j], SelectedFolders(sel))|;
      ResolveSnoc(root, cp, j);
      ResolveAppend(root, cp + [j], tail);
      ResolveSnoc(root1, cp, j');
      ResolveAppend(root1, cp + [j'], tail);
    } else {
      assert !(cp <= dest);
      UpdateAtElsewhere(root, cp, rest, dest);
    }
  }

  /**
    `performMoveOperation` once the checks have passed: splice the selected children out of
    the current folder, highest index first, and push each onto the destination folder held
    from before the splices, so the destination receives the moved folders and entries
    highest original index first.
   */
  function MoveTree(root: Folder, cp: Path, sel: Selection, dest: Path): Folder
    requires ValidPath(root, cp) && ValidPath(root, dest) && IntoItselfCheck(root, cp, sel, dest) == Allowed
  {
    var src := Resolve(root, cp);
    var root1 := UpdateAt(root, cp, Removed(src, sel));
    AdjustedPathFindsDestination(root, cp, sel, dest);
    var d := AdjustPath(root, cp, sel, dest);
    var target := DestinationAfterSplices(root, cp, sel, dest);
    UpdateAt(root1, d, Received(target, Descend(src.folders, SelectedFolders(sel)), Descend(src.entries, SelectedEntries(sel))))
  }

  /**
    The destination ends with its own children first and the moved folders and entries after
    them, highest original index first.
   */
  lemma MoveFillsDestination(root: Folder, cp: Path, sel: Selection, dest: Path)
    requires ValidPath(root, cp) && ValidPath(root, dest) && IntoItselfCheck(root, cp, sel, dest) == Allowed
    ensures var src := Resolve(root, cp);
            var d := AdjustPath(root, cp, sel, dest);
            ValidPath(MoveTree(root, cp, sel, dest), d) &&
            Resolve(MoveTree(root, cp, sel, dest), d) ==
              Received(DestinationAfterSplices(root, cp, sel, dest),
                       Descend(src.folders, SelectedFolders(sel)), Descend(src.entries, SelectedEntries(sel)))
  {
  }

  /**
    When the destination is neither the current folder nor inside it, the current folder ends
    with exactly its unselected children, in their old order.
   */
  lemma {:induction false} MoveEmptiesSource(root: Folder, cp: Path, sel: Selection, dest: Path)
    requires ValidPath(root, cp) && ValidPath(root, dest) && IntoItselfCheck(root, cp, sel, dest) == Allowed
    requires dest != cp && !StrictlyBelow(cp, dest)
    ensures ValidPath(MoveTree(root, cp, sel, dest), cp)
    ensures Resolve(MoveTree(root, cp, sel, dest), cp) == Removed(Resolve(root, cp), sel)
  {
    var src := Resolve(root, cp);
    var rest := Removed(src, sel);
    var root1 := UpdateAt(root, cp, rest);
    AdjustedPathFindsDestination(root, cp, sel, dest);
    var d := AdjustPath(root, cp, sel, dest);
    var target := DestinationAfterSplices(root, cp, sel, dest);
    var moved := Received(target, Descend(src.folders, SelectedFolders(sel)), Descend(src.entries, SelectedEntries(sel)));
    assert d == dest;
    if dest <= cp {
      var s := cp[|dest|..];
      assert cp == dest + s;
      assert |s| > 0;
      ResolveAppend(root1, dest, s);
      ReceivedKeepsPaths(target, Descend(src.folders, SelectedFolders(sel)), Descend(src.entries, SelectedEntries(sel)), s);
      UpdateAtBelow(root1, dest, moved, s);
    } else {
      UpdateAtElsewhere(root1, dest, moved, cp);
    }
  }

  /** Pushing onto a folder's lists leaves every non-empty path that was valid in it where it was. */
  lemma ReceivedKeepsPaths(f: Folder, fs: seq<Folder>, es: seq<Entry>, s: Path)
    requires ValidPath(f, s) && |s| > 0
    ensures ValidPath(Received(f, fs, es), s) && Resolve(Received(f, fs, es), s) == Resolve(f, s)
  {
    assert Received(f, fs, es).folders[s[0]] == f.folders[s[0]];
  }

  /**
    When the destination lies inside the current folder, the current folder keeps its
    unselected children and the moved ones land inside the sub-folder they were moved to.
   */
  lemma {:induction false} MoveIntoSubfolder(root: Folder, cp: Path, sel: Selection, dest: Path)
    requires ValidPath(root, cp) && ValidPath(root, dest) && IntoItselfCheck(root, cp, sel, dest) == Allowed
    requires StrictlyBelow(cp, dest)
    ensures var src := Resolve(root, cp);
            var d := AdjustPath(root, cp, sel, dest);
            ValidPath(MoveTree(root, cp, sel, dest), cp) &&
            ValidPath(Removed(src, sel), d[|cp|..]) &&
            Resolve(MoveTree(root, cp, sel, dest), cp) ==
              UpdateAt(Removed(src, sel), d[|cp|..],
                       Received(Resolve(root, dest), Descend(src.folders, SelectedFolders(sel)), Descend(src.entries, SelectedEntries(sel))))
  {
    var src := Resolve(root, cp);
    var rest := Removed(src, sel);
    var root1 := UpdateAt(root, cp, rest);
    AdjustedPathFindsDestination(root, cp, sel, dest);
    var d := AdjustPath(root, cp, sel, dest);
    var moved := Received(Resolve(root, dest), Descend(src.folders, SelectedFolders(sel)), Descend(src.entries, SelectedEntries(sel)));
    assert cp <= d;
    UpdateAtAbove(root1, d, moved, cp);
  }

  /**
    "Move Here" with the current folder as destination (the default choice of the move dialog,
    the root, while the root is open) moves nothing out: the selected children go to the end
    of the current folder's lists, highest index first.
   */
  lemma MoveHereIntoCurrentFolder(root: Folder, cp: Path, sel: Selection)
    requires ValidPath(root, cp) && IntoItselfCheck(root, cp, sel, cp) == Allowed
    ensures var src := Resolve(root, cp);
            ValidPath(MoveTree(root, cp, sel, cp), cp) &&
            Resolve(MoveTree(root, cp, sel, cp), cp) ==
              Received(Removed(src, sel), Descend(src.folders, SelectedFolders(sel)), Descend(src.entries, SelectedEntries(sel)))
  {
    MoveFillsDestination(root, cp, sel, cp);
    assert cp[|cp|..] == [];
  }

  /** Folders off both the current folder's path and the destination's are left as they were. */
  lemma {:induction false} MoveLeavesOthers(root: Folder, cp: Path, sel: Selection, dest: Path, q: Path)
    requires ValidPath(root, cp) && ValidPath(root, dest) && IntoItselfCheck(root, cp, sel, dest) == Allowed
    requires ValidPath(root, q) && !(q <= cp) && !(cp <= q) && !(q <= dest) && !(dest <= q)
    ensures ValidPath(MoveTree(root, cp, sel, dest), q) && Resolve(MoveTree(root, cp, sel, dest), q) == Resolve(root, q)
  {
    var src := Resolve(root, cp);
    var rest := Removed(src, sel);
    var root1 := UpdateAt(root, cp, rest);
    AdjustedPathFindsDestination(root, cp, sel, dest);
    var d := AdjustPath(root, cp, sel, dest);
    var moved := Received(DestinationAfterSplices(root, cp, sel, dest), Descend(src.folders, SelectedFolders(sel)), Descend(src.entries, SelectedEntries(sel)));
    UpdateAtElsewhere(root, cp, rest, q);
    if StrictlyBelow(cp, dest) {
      BranchesOff(cp, d, q);
    }
    UpdateAtElsewhere(root1, d, moved, q);
  }

  /** A path that branches off from `cp` also branches off from every path through `cp`. */
  lemma BranchesOff(cp: Path, d: Path, q: Path)
    requires cp <= d && !(q <= cp) && !(cp <= q)
    ensures !(q <= d) && !(d <= q)
  {
  }

  // ---------------------------------------------------------------------------
  // Picked children: export and duplicate
  // ---------------------------------------------------------------------------

  /** A picked item is the pick of a selected key exactly when it is a child of `src` under a selected key. */
  lemma {:induction false} PicksMember(src: Folder, sel: Selection, p: Picked)
    ensures p in Picks(src, sel) <==> IsPickOf(src, p) && KeyOf(p) in sel
  {
    if sel != [] {
      var init, last := sel[..|sel| - 1], sel[|sel| - 1];
      assert sel == init + [last];
      PicksMember(src, init, p);
      if InRangeKey(src, last) {
        assert Picks(src, sel) == Picks(src, init) + [PickAt(src, last)];
      } else {
        assert Picks(src, sel) == Picks(src, init);
      }
    }
  }

  /** The folders among the picked items, in order. */
  function PickedFolders(items: seq<Picked>): seq<Folder> {
    if items == [] then []
    else
      var p := items[|items| - 1];
      PickedFolders(items[..|items| - 1]) + (if p.PickedFolder? then [p.folder] else [])
  }

  /** The entries among the picked items, in order. */
  function PickedEntries(items: seq<Picked>): seq<Entry> {
    if items == [] then []
    else
      var p := items[|items| - 1];
      PickedEntries(items[..|items| - 1]) + (if p.PickedEntry? then [p.entry] else [])
  }

  /** A folder is among the picked folders exactly when some picked item carries it. */
  lemma {:induction false} PickedFoldersMember(items: seq<Picked>, f: Folder)
    ensures f in PickedFolders(items) <==> exists p :: p in items && p.PickedFolder? && p.folder == f
  {
    if items != [] {
      var init, p := items[..|items| - 1], items[|items| - 1];
      assert items == init + [p];
      PickedFoldersMember(init, f);
      if f in PickedFolders(items) && f !in PickedFolders(init) {
        assert p.PickedFolder? && p.folder == f;
      }
      if exists q :: q in items && q.PickedFolder? && q.folder == f {
        var q :| q in items && q.PickedFolder? && q.folder == f;
        if q != p {
          assert q in init;
        }
      }
    }
  }

  /** An entry is among the picked entries exactly when some picked item carries it. */
  lemma {:induction false} PickedEntriesMember(items: seq<Picked>, e: Entry)
    ensures e in PickedEntries(items) <==> exists p :: p in items && p.PickedEntry? && p.entry == e
  {
    if items != [] {
      var init, p := items[..|items| - 1], items[|items| - 1];
      assert items == init + [p];
      PickedEntriesMember(init, e);
      if e in PickedEntries(items) && e !in PickedEntries(init) {
        assert p.PickedEntry? && p.entry == e;
      }
      if exists q :: q in items && q.PickedEntry? && q.entry == e {
        var q :| q in items && q.PickedEntry? && q.entry == e;
        if q != p {
          assert q in init;
        }
      }
    }
  }

  /** The picked folders are the children of `src` under a selected folder key, and no others. */
  lemma PickedFoldersAreSelected(src: Folder, sel: Selection, f: Folder)
    ensures f in PickedFolders(Picks(src, sel)) <==>
              exists i :: 0 <= i < |src.folders| && FolderKey(i) in sel && src.folders[i] == f
  {
    PickedFoldersMember(Picks(src, sel), f);
    if exists i :: 0 <= i < |src.folders| && FolderKey(i) in sel && src.folders[i] == f {
      var i :| 0 <= i < |src.folders| && FolderKey(i) in sel && src.folders[i] == f;
      PicksMember(src, sel, PickedFolder(i, f));
    }
    if f in PickedFolders(Picks(src, sel)) {
      var p :| p in Picks(src, sel) && p.PickedFolder? && p.folder == f;
      PicksMember(src, sel, p);
      assert FolderKey(p.index) in sel;
    }
  }

  /** The picked entries are the children of `src` under a selected entry key, and no others. */
  lemma PickedEntriesAreSelected(src: Folder, sel: Selection, e: Entry)
    ensures e in PickedEntries(Picks(src, sel)) <==>
              exists i :: 0 <= i < |src.entries| && EntryKey(i) in sel && src.entries[i] == e
  {
    PickedEntriesMember(Picks(src, sel), e);
    if exists i :: 0 <= i < |src.entries| && EntryKey(i) in sel && src.entries[i] == e {
      var i :| 0 <= i < |src.entries| && EntryKey(i) in sel && src.entries[i] == e;
      PicksMember(src, sel, PickedEntry(i, e));
    }
    if e in PickedEntries(Picks(src, sel)) {
      var p :| p in Picks(src, sel) && p.PickedEntry? && p.entry == e;
      PicksMember(src, sel, p);
      assert EntryKey(p.index) in sel;
    }
  }

  /** The document `exportSelectedItemsAsJson` writes. */
  datatype Document = Document(name: string, cover: string, folders: seq<Folder>, entries: seq<Entry>, settings: Settings)

  /** `createEmptyJsonData`: the root of a new document, empty, with the initial settings. */
  function CreateEmptyJsonData(): (d: Document)
    ensures d.folders == [] && d.entries == [] && d.settings == InitialSettings
  {
    Document("Root", "", [], [], InitialSettings)
  }

  /**
    A new document holds no entry anywhere, and its settings complete every folder or entry
    added to it with colours that pass the colour check.
   */
  lemma EmptyDocumentReady(item: Item)
    requires ItemColor(item) == "" || IsValidHexColor(ItemColor(item))
    ensures var d := CreateEmptyJsonData();
            SumTotals(d.folders) + |d.entries| == 0
            && HasDisplayFields(WithDefaults(item, d.settings))
            && IsValidHexColor(ItemColor(WithDefaults(item, d.settings)))
  {
    InitialSettingsUsable();
    DefaultColoursPassCheck(item, InitialSettings);
  }

  /**
    `exportSelectedItemsAsJson`: an empty document holding copies of the selected children
    that exist, folders and entries each in the order they were selected.
   */
  function ExportDocument(src: Folder, sel: Selection): (d: Document)
    ensures d.name == "Root" && d.cover == "" && d.settings == InitialSettings
  {
    var items := Picks(src, sel);
    CreateEmptyJsonData().(folders := PickedFolders(items), entries := PickedEntries(items))
  }

  /** The exported document holds exactly the selected children that exist. */
  lemma ExportHoldsSelection(src: Folder, sel: Selection)
    ensures forall f :: f in ExportDocument(src, sel).folders <==>
              exists i :: 0 <= i < |src.folders| && FolderKey(i) in sel && src.folders[i] == f
    ensures forall e :: e in ExportDocument(src, sel).entries <==>
              exists i :: 0 <= i < |src.entries| && EntryKey(i) in sel && src.entries[i] == e
  {
    forall f: Folder {
      PickedFoldersAreSelected(src, sel, f);
    }
    forall e: Entry {
      PickedEntriesAreSelected(src, sel, e);
    }
  }

  /** One more key adds its pick, when it names a child that exists. */
  lemma PicksStep(src: Folder, sel: Selection, i: nat)
    requires i < |sel|
    ensures Picks(src, sel[..i + 1]) == Picks(src, sel[..i]) + (if InRangeKey(src, sel[i]) then [PickAt(src, sel[i])] else [])
  {
    assert sel[..i + 1][..i] == sel[..i];
  }

  /** One more picked item adds its folder or its entry at the end. */
  lemma PickedSnoc(items: seq<Picked>, p: Picked)
    ensures PickedFolders(items + [p]) == PickedFolders(items) + (if p.PickedFolder? then [p.folder] else [])
    ensures PickedEntries(items + [p]) == PickedEntries(items) + (if p.PickedEntry? then [p.entry] else [])
  {
    assert (items + [p])[..|items|] == items;
  }

  /**
    The collecting loop of `exportSelectedItemsAsJson`: each selected key naming a child that
    exists adds a copy of it, then the lists go into an empty document.
   */
  method ExportSelectedItems(src: Folder, sel: Selection) returns (d: Document)
    ensures d == ExportDocument(src, sel)
  {
    var selectedFolders, selectedEntries := [], [];
    for i := 0 to |sel|
      invariant selectedFolders == PickedFolders(Picks(src, sel[..i]))
      invariant selectedEntries == PickedEntries(Picks(src, sel[..i]))
    {
      var k := sel[i];
      PicksStep(src, sel, i);
      if InRangeKey(src, k) {
        PickedSnoc(Picks(src, sel[..i]), PickAt(src, k));
        if k.FolderKey? {
          selectedFolders := selectedFolders + [src.folders[k.index]];
        } else {
          selectedEntries := selectedEntries + [src.entries[k.index]];
        }
      } else {
        assert Picks(src, sel[..i + 1]) == Picks(src, sel[..i]);
      }
    }
    assert sel[..|sel|] == sel;
    d := CreateEmptyJsonData();
    d := d.(folders := selectedFolders, entries := selectedEntries);
  }

  /** The name the batch "Duplicate" gives a copy. */
  const BatchCopySuffix := "_Copy"

  /** The name the duplicate button of the edit dialogs gives a copy. */
  const DialogCopySuffix := "/Copy"

  /** A copy of a folder named with `suffix` appended. */
  function FolderCopy(f: Folder, suffix: string): (c: Folder)
    ensures c.(name := f.name) == f
  {
    f.(name := f.name + suffix)
  }

  /** A copy of an entry named with `suffix` appended. */
  function EntryCopy(e: Entry, suffix: string): (c: Entry)
    ensures c.(name := e.name) == e
  {
    e.(name := e.name + suffix)
  }

  /** Each folder copied in turn. */
  function FolderCopies(fs: seq<Folder>, suffix: string): (r: seq<Folder>)
    ensures |r| == |fs|
  {
    seq(|fs|, i requires 0 <= i < |fs| => FolderCopy(fs[i], suffix))
  }

  /** Each entry copied in turn. */
  function EntryCopies(es: seq<Entry>, suffix: string): (r: seq<Entry>)
    ensures |r| == |es|
  {
    seq(|es|, i requires 0 <= i < |es| => EntryCopy(es[i], suffix))
  }

  /** `duplicateSelectedItems`: the copies of the selected children pushed after the originals, in selection order. */
  function Duplicated(src: Folder, sel: Selection): Folder {
    var items := Picks(src, sel);
    src.(folders := src.folders + FolderCopies(PickedFolders(items), BatchCopySuffix),
         entries := src.entries + EntryCopies(PickedEntries(items), BatchCopySuffix))
  }

  /** A copy is in the list of copies exactly when it copies a folder of the list. */
  lemma FolderCopiesMember(fs: seq<Folder>, suffix: string, c: Folder)
    ensures c in FolderCopies(fs, suffix) <==> exists f :: f in fs && c == FolderCopy(f, suffix)
  {
    if exists f :: f in fs && c == FolderCopy(f, suffix) {
      var f :| f in fs && c == FolderCopy(f, suffix);
      var k :| 0 <= k < |fs| && fs[k] == f;
      assert FolderCopies(fs, suffix)[k] == c;
    }
  }

  /** A copy is in the list of copies exactly when it copies an entry of the list. */
  lemma EntryCopiesMember(es: seq<Entry>, suffix: string, c: Entry)
    ensures c in EntryCopies(es, suffix) <==> exists e :: e in es && c == EntryCopy(e, suffix)
  {
    if exists e :: e in es && c == EntryCopy(e, suffix) {
      var e :| e in es && c == EntryCopy(e, suffix);
      var k :| 0 <= k < |es| && es[k] == e;
      assert EntryCopies(es, suffix)[k] == c;
    }
  }

  /** The folders the duplicate adds are exactly the copies of the selected folders. */
  lemma DuplicatedFolder(src: Folder, sel: Selection, c: Folder)
    ensures c in FolderCopies(PickedFolders(Picks(src, sel)), BatchCopySuffix) <==>
              exists i :: 0 <= i < |src.folders| && FolderKey(i) in sel && c == FolderCopy(src.folders[i], BatchCopySuffix)
  {
    var fs := PickedFolders(Picks(src, sel));
    FolderCopiesMember(fs, BatchCopySuffix, c);
    if c in FolderCopies(fs, BatchCopySuffix) {
      var f :| f in fs && c == FolderCopy(f, BatchCopySuffix);
      PickedFoldersAreSelected(src, sel, f);
    }
    if exists i :: 0 <= i < |src.folders| && FolderKey(i) in sel && c == FolderCopy(src.folders[i], BatchCopySuffix) {
      var i :| 0 <= i < |src.folders| && FolderKey(i) in sel && c == FolderCopy(src.folders[i], BatchCopySuffix);
      PickedFoldersAreSelected(src, sel, src.folders[i]);
    }
  }

  /** The entries the duplicate adds are exactly the copies of the selected entries. */
  lemma DuplicatedEntry(src: Folder, sel: Selection, c: Entry)
    ensures c in EntryCopies(PickedEntries(Picks(src, sel)), BatchCopySuffix) <==>
              exists i :: 0 <= i < |src.entries| && EntryKey(i) in sel && c == EntryCopy(src.entries[i], BatchCopySuffix)
  {
    var es := PickedEntries(Picks(src, sel));
    EntryCopiesMember(es, BatchCopySuffix, c);
    if c in EntryCopies(es, BatchCopySuffix) {
      var e :| e in es && c == EntryCopy(e, BatchCopySuffix);
      PickedEntriesAreSelected(src, sel, e);
    }
    if exists i :: 0 <= i < |src.entries| && EntryKey(i) in sel && c == EntryCopy(src.entries[i], BatchCopySuffix) {
      var i :| 0 <= i < |src.entries| && EntryKey(i) in sel && c == EntryCopy(src.entries[i], BatchCopySuffix);
      PickedEntriesAreSelected(src, sel, src.entries[i]);
    }
  }

  /**
    The duplicate keeps every original where it was, and the children it adds are exactly
    the copies of the selected children.
   */
  lemma DuplicatedAddsCopies(src: Folder, sel: Selection)
    ensures var r := Duplicated(src, sel);
            && |src.folders| <= |r.folders| && r.folders[..|src.folders|] == src.folders
            && |src.entries| <= |r.entries| && r.entries[..|src.entries|] == src.entries
    ensures forall c :: c in Duplicated(src, sel).folders[|src.folders|..] <==>
              exists i :: 0 <= i < |src.folders| && FolderKey(i) in sel && c == FolderCopy(src.folders[i], BatchCopySuffix)
    ensures forall c :: c in Duplicated(src, sel).entries[|src.entries|..] <==>
              exists i :: 0 <= i < |src.entries| && EntryKey(i) in sel && c == EntryCopy(src.entries[i], BatchCopySuffix)
  {
    var items := Picks(src, sel);
    var r := Duplicated(src, sel);
    assert r.folders[|src.folders|..] == FolderCopies(PickedFolders(items), BatchCopySuffix);
    assert r.entries[|src.entries|..] == EntryCopies(PickedEntries(items), BatchCopySuffix);
    forall c: Folder {
      DuplicatedFolder(src, sel, c);
    }
    forall c: Entry {
      DuplicatedEntry(src, sel, c);
    }
  }

  /**
    The indices of the selected sub-folders that exist, in selection order: the folder keys
    of `sel`, with those naming no sub-folder left out.
   */
  function SelectedFolderIndices(src: Folder, sel: Selection): (r: seq<nat>)
    ensures |r| <= |sel| && forall j :: 0 <= j < |r| ==> r[j] < |src.folders|
  {
    if sel == [] then []
    else
      var last := sel[|sel| - 1];
      SelectedFolderIndices(src, sel[..|sel| - 1]) + (if last.FolderKey? && last.index < |src.folders| then [last.index] else [])
  }

  /** The indices of the selected entries that exist, in selection order. */
  function SelectedEntryIndices(src: Folder, sel: Selection): (r: seq<nat>)
    ensures |r| <= |sel| && forall j :: 0 <= j < |r| ==> r[j] < |src.entries|
  {
    if sel == [] then []
    else
      var last := sel[|sel| - 1];
      SelectedEntryIndices(src, sel[..|sel| - 1]) + (if last.EntryKey? && last.index < |src.entries| then [last.index] else [])
  }

  /** An index is listed exactly when its key is selected and names a child. */
  lemma {:induction false} SelectedIndicesMember(src: Folder, sel: Selection, x: nat)
    ensures x in SelectedFolderIndices(src, sel) <==> FolderKey(x) in sel && x < |src.folders|
    ensures x in SelectedEntryIndices(src, sel) <==> EntryKey(x) in sel && x < |src.entries|
  {
    if sel != [] {
      var init, last := sel[..|sel| - 1], sel[|sel| - 1];
      assert sel == init + [last];
      SelectedIndicesMember(src, init, x);
    }
  }

  /** Listing the indices of two runs of keys lists each run in turn, so selection order is kept. */
  lemma {:induction false} SelectedIndicesAppend(src: Folder, a: Selection, b: Selection)
    ensures SelectedFolderIndices(src, a + b) == SelectedFolderIndices(src, a) + SelectedFolderIndices(src, b)
    ensures SelectedEntryIndices(src, a + b) == SelectedEntryIndices(src, a) + SelectedEntryIndices(src, b)
    decreases |b|
  {
    if b == [] {
      assert a + b == a;
    } else {
      var ab := a + b;
      var init, last := b[..|b| - 1], b[|b| - 1];
      assert ab[..|ab| - 1] == a + init && ab[|ab| - 1] == last;
      SelectedIndicesAppend(src, a, init);
    }
  }

  /** Each selected child is listed once, because a `Set` holds each key once. */
  lemma {:induction false} SelectedIndicesDistinct(src: Folder, sel: Selection)
    requires Distinct(sel)
    ensures var r := SelectedFolderIndices(src, sel); forall i, j :: 0 <= i < j < |r| ==> r[i] != r[j]
    ensures var r := SelectedEntryIndices(src, sel); forall i, j :: 0 <= i < j < |r| ==> r[i] != r[j]
  {
    if sel != [] {
      var init, last := sel[..|sel| - 1], sel[|sel| - 1];
      assert Distinct(init);
      assert last !in init by {
        forall i | 0 <= i < |init| ensures init[i] != last {
          assert init[i] == sel[i];
        }
      }
      SelectedIndicesDistinct(src, init);
      SelectedIndicesMember(src, init, last.index);
    }
  }

  /** The picked folders and entries are the children at the listed indices, in that order. */
  lemma {:induction false} PickedAtSelectedIndices(src: Folder, sel: Selection)
    ensures var ks, fs := SelectedFolderIndices(src, sel), PickedFolders(Picks(src, sel));
            |fs| == |ks| && forall j :: 0 <= j < |ks| ==> fs[j] == src.folders[ks[j]]
    ensures var ks, es := SelectedEntryIndices(src, sel), PickedEntries(Picks(src, sel));
            |es| == |ks| && forall j :: 0 <= j < |ks| ==> es[j] == src.entries[ks[j]]
  {
    if sel != [] {
      var init, last := sel[..|sel| - 1], sel[|sel| - 1];
      PickedAtSelectedIndices(src, init);
      var items := Picks(src, sel);
      var b := if InRangeKey(src, last) then [PickAt(src, last)] else [];
      assert items == Picks(src, init) + b;
      if b != [] {
        assert items[..|items| - 1] == Picks(src, init);
      } else {
        assert items == Picks(src, init);
      }
    }
  }

  /**
    `duplicateSelectedItems` pushes one `_Copy` per selected child that exists, folders and
    entries each in selection order, after the originals.
   */
  lemma DuplicatedCopiesInSelectionOrder(src: Folder, sel: Selection)
    ensures var ks, added := SelectedFolderIndices(src, sel), Duplicated(src, sel).folders[|src.folders|..];
            |added| == |ks| && forall j :: 0 <= j < |ks| ==> added[j] == FolderCopy(src.folders[ks[j]], BatchCopySuffix)
    ensures var ks, added := SelectedEntryIndices(src, sel), Duplicated(src, sel).entries[|src.entries|..];
            |added| == |ks| && forall j :: 0 <= j < |ks| ==> added[j] == EntryCopy(src.entries[ks[j]], BatchCopySuffix)
  {
    var items := Picks(src, sel);
    var r := Duplicated(src, sel);
    assert r.folders[|src.folders|..] == FolderCopies(PickedFolders(items), BatchCopySuffix);
    assert r.entries[|src.entries|..] == EntryCopies(PickedEntries(items), BatchCopySuffix);
    PickedAtSelectedIndices(src, sel);
  }

  /** Duplicating the one folder of a folder adds exactly one copy of it. */
  lemma DuplicateOneFolderOnce(src: Folder, a: Folder)
    requires src.folders == [a]
    ensures Duplicated(src, [FolderKey(0)]).folders == [a, FolderCopy(a, BatchCopySuffix)]
  {
    var sel := [FolderKey(0)];
    assert SelectedFolderIndices(src, sel) == [0] by {
      assert sel[..0] == [];
    }
    DuplicatedCopiesInSelectionOrder(src, sel);
    var r := Duplicated(src, sel).folders;
    assert r == r[..1] + r[1..];
  }

  /** Copying one more folder appends its copy. */
  lemma FolderCopiesSnoc(fs: seq<Folder>, f: Folder, suffix: string)
    ensures FolderCopies(fs + [f], suffix) == FolderCopies(fs, suffix) + [FolderCopy(f, suffix)]
  {
  }

  /** Copying one more entry appends its copy. */
  lemma EntryCopiesSnoc(es: seq<Entry>, e: Entry, suffix: string)
    ensures EntryCopies(es + [e], suffix) == EntryCopies(es, suffix) + [EntryCopy(e, suffix)]
  {
  }

  /** Concatenation is associative. */
  lemma AppendAssoc<T>(a: seq<T>, b: seq<T>, c: seq<T>)
    ensures a + b + c == a + (b + c)
  {
  }

  /** One more picked item extends the picked folders and entries by its own. */
  lemma PickedStep(items: seq<Picked>, k: nat)
    requires k < |items|
    ensures PickedFolders(items[..k + 1]) == PickedFolders(items[..k]) + (if items[k].PickedFolder? then [items[k].folder] else [])
    ensures PickedEntries(items[..k + 1]) == PickedEntries(items[..k]) + (if items[k].PickedEntry? then [items[k].entry] else [])
  {
    assert items[..k + 1][..k] == items[..k];
  }

  /** The loop of `duplicateSelectedItems`: collect the selected children, then push a renamed copy of each. */
  method DuplicateSelectedItems(src: Folder, sel: Selection) returns (r: Folder)
    requires KeysInRange(src, sel)
    ensures r == Duplicated(src, sel)
  {
    var items := CollectItems(src, sel);
    var folders, entries := src.folders, src.entries;
    for k := 0 to |items|
      invariant folders == src.folders + FolderCopies(PickedFolders(items[..k]), BatchCopySuffix)
      invariant entries == src.entries + EntryCopies(PickedEntries(items[..k]), BatchCopySuffix)
    {
      var pickedFolders, pickedEntries := PickedFolders(items[..k]), PickedEntries(items[..k]);
      PickedStep(items, k);
      match items[k]
      case PickedFolder(_, item) =>
        var copy := FolderCopy(item, BatchCopySuffix);
        assert PickedEntries(items[..k + 1]) == pickedEntries + [];
        assert FolderCopies(pickedFolders + [item], BatchCopySuffix) == FolderCopies(pickedFolders, BatchCopySuffix) + [copy] by {
          FolderCopiesSnoc(pickedFolders, item, BatchCopySuffix);
        }
        AppendAssoc(src.folders, FolderCopies(pickedFolders, BatchCopySuffix), [copy]);
        folders := folders + [copy];
      case PickedEntry(_, item) =>
        var copy := EntryCopy(item, BatchCopySuffix);
        assert PickedFolders(items[..k + 1]) == pickedFolders + [];
        assert EntryCopies(pickedEntries + [item], BatchCopySuffix) == EntryCopies(pickedEntries, BatchCopySuffix) + [copy] by {
          EntryCopiesSnoc(pickedEntries, item, BatchCopySuffix);
        }
        AppendAssoc(src.entries, EntryCopies(pickedEntries, BatchCopySuffix), [copy]);
        entries := entries + [copy];
    }
    assert items[..|items|] == items;
    r := src.(folders := folders, entries := entries);
  }

  // ---------------------------------------------------------------------------
  // Open all
  // ---------------------------------------------------------------------------

  /** Every selected folder key names a sub-folder of `f` (entry keys may be stale). */
  predicate FolderKeysInRange(f: Folder, sel: Selection) {
    forall i :: 0 <= i < |sel| && sel[i].FolderKey? ==> sel[i].index < |f.folders|
  }

  /**
    What one selected key contributes to "open all": every link below a selected folder, the
    links of a selected entry that exists, nothing for an entry key out of range.
   */
  function KeyLinks(src: Folder, k: ItemKey, isValidLink: string -> bool): seq<string>
    requires k.FolderKey? ==> k.index < |src.folders|
  {
    if k.FolderKey? then FolderLinks(src.folders[k.index], isValidLink)
    else if k.index < |src.entries| then ValidLinks(src.entries[k.index].links, isValidLink)
    else []
  }

  /** The links `openAllSelectedItems` gathers, key by key in selection order. */
  function SelectionLinks(src: Folder, sel: Selection, isValidLink: string -> bool): seq<string>
    requires FolderKeysInRange(src, sel)
  {
    if sel == [] then []
    else
      assert FolderKeysInRange(src, sel[..|sel| - 1]);
      SelectionLinks(src, sel[..|sel| - 1], isValidLink) + KeyLinks(src, sel[|sel| - 1], isValidLink)
  }

  /** `openAllSelectedItems`, up to the hand-over to `openAllLinks`. */
  method OpenAllSelectedItems(src: Folder, sel: Selection, isValidLink: string -> bool) returns (allLinks: seq<string>)
    requires FolderKeysInRange(src, sel)
    ensures allLinks == SelectionLinks(src, sel, isValidLink)
  {
    allLinks := [];
    for i := 0 to |sel|
      invariant FolderKeysInRange(src, sel[..i])
      invariant allLinks == SelectionLinks(src, sel[..i], isValidLink)
    {
      assert sel[..i + 1][..i] == sel[..i];
      assert FolderKeysInRange(src, sel[..i + 1]);
      match sel[i]
      case EntryKey(idx) =>
        if idx < |src.entries| {
          allLinks := CollectEntryLinks(src.entries[idx], isValidLink, allLinks);
        }
      case FolderKey(idx) =>
        allLinks := CollectAllLinksFromFolder(src.folders[idx], isValidLink, allLinks);
    }
    assert sel[..|sel|] == sel;
  }

  /** Every link of the list is non-empty, trimmed and accepted by the URL check. */
  predicate Openable(links: seq<string>, isValidLink: string -> bool) {
    forall i :: 0 <= i < |links| ==> links[i] != "" && IsTrimmed(links[i]) && isValidLink(links[i])
  }

  /** Joining openable lists gives an openable list. */
  lemma OpenableAppend(a: seq<string>, b: seq<string>, isValidLink: string -> bool)
    requires Openable(a, isValidLink) && Openable(b, isValidLink)
    ensures Openable(a + b, isValidLink)
  {
    forall i | 0 <= i < |a + b|
      ensures (a + b)[i] != "" && IsTrimmed((a + b)[i]) && isValidLink((a + b)[i])
    {
      if i >= |a| {
        assert (a + b)[i] == b[i - |a|];
      }
    }
  }

  /** The links of a list of entries can all be opened. */
  lemma {:induction false} EntriesLinksOpenable(es: seq<Entry>, isValidLink: string -> bool)
    ensures Openable(EntriesLinks(es, isValidLink), isValidLink)
  {
    if es != [] {
      EntriesLinksOpenable(es[..|es| - 1], isValidLink);
      ValidLinksAreOpenable(es[|es| - 1].links, isValidLink);
      OpenableAppend(EntriesLinks(es[..|es| - 1], isValidLink), ValidLinks(es[|es| - 1].links, isValidLink), isValidLink);
    }
  }

  /** Every link "open all" gathers from a selection is non-empty, trimmed and accepted by the URL check. */
  lemma {:induction false} SelectionLinksOpenable(src: Folder, sel: Selection, isValidLink: string -> bool)
    requires FolderKeysInRange(src, sel)
    ensures Openable(SelectionLinks(src, sel, isValidLink), isValidLink)
  {
    if sel != [] {
      var k := sel[|sel| - 1];
      assert FolderKeysInRange(src, sel[..|sel| - 1]);
      SelectionLinksOpenable(src, sel[..|sel| - 1], isValidLink);
      if k.FolderKey? {
        FolderLinksAreSubtreeLinks(src.folders[k.index], isValidLink);
        EntriesLinksOpenable(AllEntries(src.folders[k.index]), isValidLink);
      } else if k.index < |src.entries| {
        ValidLinksAreOpenable(src.entries[k.index].links, isValidLink);
      }
      OpenableAppend(SelectionLinks(src, sel[..|sel| - 1], isValidLink), KeyLinks(src, k, isValidLink), isValidLink);
    }
  }

  /**
    `openAllLinks` filters and trims once more: on links that are already openable that
    changes nothing, so every gathered link is opened, in order.
   */
  lemma {:induction false} OpenableLinksAllOpen(links: seq<string>, isValidLink: string -> bool)
    requires Openable(links, isValidLink)
    ensures ValidLinks(links, isValidLink) == links
  {
    if links != [] {
      var init, l := links[..|links| - 1], links[|links| - 1];
      assert links == init + [l];
      assert Openable(init, isValidLink) by {
        forall i | 0 <= i < |init| ensures init[i] == links[i] {}
      }
      OpenableLinksAllOpen(init, isValidLink);
      OpenableLinkOpens(l, isValidLink);
    }
  }

  /** A non-empty trimmed link the URL check accepts is opened as it is. */
  lemma OpenableLinkOpens(l: string, isValidLink: string -> bool)
    requires l != "" && IsTrimmed(l) && isValidLink(l)
    ensures Opens(l, isValidLink) && Trim(l) == l
  {
    TrimOfTrimmed(l);
    assert !IsWhitespace(l[0]);
  }

  /** A link is gathered exactly when some selected key contributes it. */
  lemma {:induction false} SelectionLinksMember(src: Folder, sel: Selection, isValidLink: string -> bool, l: string)
    requires FolderKeysInRange(src, sel)
    ensures l in SelectionLinks(src, sel, isValidLink) <==> exists i :: 0 <= i < |sel| && l in KeyLinks(src, sel[i], isValidLink)
  {
    if sel != [] {
      var init := sel[..|sel| - 1];
      assert FolderKeysInRange(src, init);
      SelectionLinksMember(src, init, isValidLink, l);
      if exists i :: 0 <= i < |sel| && l in KeyLinks(src, sel[i], isValidLink) {
        var i :| 0 <= i < |sel| && l in KeyLinks(src, sel[i], isValidLink);
        if i < |sel| - 1 {
          assert init[i] == sel[i];
        }
      }
      if l in SelectionLinks(src, init, isValidLink) {
        var i :| 0 <= i < |init| && l in KeyLinks(src, init[i], isValidLink);
        assert sel[i] == init[i];
      }
    }
  }

  /** However the move goes, the open folder is still there afterwards. */
  lemma MoveKeepsCurrentFolder(root: Folder, cp: Path, sel: Selection, dest: Path)
    requires ValidPath(root, cp) && ValidPath(root, dest) && IntoItselfCheck(root, cp, sel, dest) == Allowed
    ensures ValidPath(MoveTree(root, cp, sel, dest), cp)
  {
    if dest == cp {
      MoveHereIntoCurrentFolder(root, cp, sel);
    } else if StrictlyBelow(cp, dest) {
      MoveIntoSubfolder(root, cp, sel, dest);
    } else {
      MoveEmptiesSource(root, cp, sel, dest);
    }
  }
}
