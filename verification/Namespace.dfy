/**
 The namespace the image stands for: a map from inode numbers to directories and
 files, what it means for it to be a tree, and the two ways an operation changes it.
 */
module Namespace {
  import opened Images

  const ROOT: nat := 0

  datatype Node = Dir(entries: seq<Dentry>, links: nat) | File(content: seq<bv8>)

  type Tree = map<nat, Node>

  lemma SetTwice(a: Tree, i: nat, x: Node, y: Node)
    ensures a[i := x][i := y] == a[i := y]
  {
  }

  predicate IsDir(a: Tree, d: nat) {
    d in a && a[d].Dir?
  }

  /** Directory d has an entry number k. */
  predicate HasEntry(a: Tree, d: nat, k: nat) {
    IsDir(a, d) && k < |a[d].entries|
  }

  function Child(a: Tree, d: nat, k: nat): nat
    requires HasEntry(a, d, k)
  {
    a[d].entries[k].ino
  }

  function DirBit(a: Tree, i: nat): nat {
    if IsDir(a, i) then 1 else 0
  }

  /** How many of the entries name directories. */
  function Subdirs(a: Tree, entries: seq<Dentry>): nat {
    if entries == [] then 0
    else Subdirs(a, entries[..|entries| - 1]) + DirBit(a, entries[|entries| - 1].ino)
  }

  predicate ValidName(name: string) {
    |name| > 0 && '/' !in name
  }

  /** Where an inode is named, and how many steps below the root. */
  datatype Spot = Spot(dir: nat, index: nat, depth: nat)

  function Depth(spots: map<nat, Spot>, i: nat): nat {
    if i != ROOT && i in spots then spots[i].depth else 0
  }

  predicate DistinctNames(entries: seq<Dentry>) {
    forall j, k | 0 <= j < k < |entries| :: entries[j].name != entries[k].name
  }

  /**
   A directory's names are distinct, and its link count is exact: its own entry, ".",
   and the ".." of every subdirectory.
   */
  predicate DirectoryOk(a: Tree, d: nat)
    requires IsDir(a, d)
  {
    DistinctNames(a[d].entries) && a[d].links == 2 + Subdirs(a, a[d].entries)
  }

  /** Entry k of directory d names a live inode, by a legal component, and leads one level down. */
  predicate EntryOk(a: Tree, spots: map<nat, Spot>, d: nat, k: nat)
    requires HasEntry(a, d, k)
  {
    var i := Child(a, d, k);
    i in a && i != ROOT && ValidName(a[d].entries[k].name)
    && i in spots && spots[i] == Spot(d, k, Depth(spots, d) + 1)
  }

  /** Inode i is named at the spot recorded for it. */
  predicate SpotOk(a: Tree, spots: map<nat, Spot>, i: nat) {
    i in spots && HasEntry(a, spots[i].dir, spots[i].index) && Child(a, spots[i].dir, spots[i].index) == i
  }

  ghost predicate TreeBy(a: Tree, spots: map<nat, Spot>) {
    && IsDir(a, ROOT)
    && (forall d: nat, k: nat {:trigger EntryOk(a, spots, d, k)} | HasEntry(a, d, k) :: EntryOk(a, spots, d, k))
    && (forall i: nat {:trigger SpotOk(a, spots, i)} | i in a && i != ROOT :: SpotOk(a, spots, i))
    && (forall d: nat {:trigger DirectoryOk(a, d)} | IsDir(a, d) :: DirectoryOk(a, d))
  }

  /** The namespace is a tree rooted at inode 0. */
  ghost predicate IsTree(a: Tree) {
    exists spots :: TreeBy(a, spots)
  }

  /** Every entry names a live node. Lookup relies on no more than this. */
  ghost predicate Closed(a: Tree) {
    IsDir(a, ROOT) && forall d: nat, k: nat {:trigger Child(a, d, k)} | HasEntry(a, d, k) :: Child(a, d, k) in a
  }

  lemma TreeIsClosed(a: Tree)
    requires IsTree(a)
    ensures Closed(a)
  {
    var spots: map<nat, Spot> :| TreeBy(a, spots);
    forall d: nat, k: nat | HasEntry(a, d, k) ensures Child(a, d, k) in a {
      assert EntryOk(a, spots, d, k);
    }
  }

  // The two namespace changes

  /** A new node, named by a new last entry of directory p. */
  function Attach(a: Tree, p: nat, name: string, ino: nat, node: Node): Tree
    requires IsDir(a, p)
  {
    a[p := Dir(a[p].entries + [Dentry(ino, name)], a[p].links + (if node.Dir? then 1 else 0))][ino := node]
  }

  /** The list without entry k, whose place the last one takes. */
  function SwapOut(entries: seq<Dentry>, k: nat): seq<Dentry>
    requires k < |entries|
  {
    entries[k := entries[|entries| - 1]][..|entries| - 1]
  }

  function Detach(a: Tree, p: nat, k: nat): Tree
    requires HasEntry(a, p, k)
  {
    var t := Child(a, p, k);
    (a - {t})[p := Dir(SwapOut(a[p].entries, k), Minus(a[p].links, DirBit(a, t)))]
  }

  /** As a multiset, swapping out removes exactly the entry k. */
  lemma SwapOutMultiset(entries: seq<Dentry>, k: nat)
    requires k < |entries|
    ensures multiset(SwapOut(entries, k)) == multiset(entries) - multiset{entries[k]}
  {
    var n := |entries| - 1;
    var swapped := entries[k := entries[n]];
    assert entries == entries[..n] + [entries[n]];
    assert swapped == swapped[..n] + [swapped[n]];
    if k < n {
      assert multiset(swapped) == multiset(entries) - multiset{entries[k]} + multiset{entries[n]};
    }
  }

  lemma {:induction false} SubdirsAgree(a: Tree, b: Tree, entries: seq<Dentry>)
    requires forall k | 0 <= k < |entries| :: DirBit(a, entries[k].ino) == DirBit(b, entries[k].ino)
    ensures Subdirs(a, entries) == Subdirs(b, entries)
  {
    if entries != [] {
      SubdirsAgree(a, b, entries[..|entries| - 1]);
    }
  }

  lemma {:induction false} SubdirsUpdate(a: Tree, entries: seq<Dentry>, k: nat, e: Dentry)
    requires k < |entries|
    ensures Subdirs(a, entries[k := e]) + DirBit(a, entries[k].ino) == Subdirs(a, entries) + DirBit(a, e.ino)
  {
    var n := |entries| - 1;
    if k == n {
      assert entries[k := e][..n] == entries[..n];
    } else {
      SubdirsUpdate(a, entries[..n], k, e);
      assert entries[k := e][..n] == entries[..n][k := e];
    }
  }

  lemma SubdirsSwapOut(a: Tree, entries: seq<Dentry>, k: nat)
    requires k < |entries|
    ensures Subdirs(a, SwapOut(entries, k)) + DirBit(a, entries[k].ino) == Subdirs(a, entries)
  {
    SubdirsUpdate(a, entries, k, entries[|entries| - 1]);
  }

  lemma AttachDirectory(a: Tree, spots: map<nat, Spot>, p: nat, name: string, ino: nat, node: Node, d: nat)
    requires TreeBy(a, spots) && IsDir(a, p) && ino !in a
    requires forall k | 0 <= k < |a[p].entries| :: a[p].entries[k].name != name
    requires node.Dir? ==> node == Dir([], 2)
    requires IsDir(Attach(a, p, name, ino, node), d)
    ensures DirectoryOk(Attach(a, p, name, ino, node), d)
  {
    var b := Attach(a, p, name, ino, node);
    if d != ino {
      var before := a[d].entries;
      forall k: nat | k < |before| ensures DirBit(a, before[k].ino) == DirBit(b, before[k].ino) {
        assert HasEntry(a, d, k) && EntryOk(a, spots, d, k);
      }
      assert DirectoryOk(a, d);
      SubdirsAgree(a, b, before);
      if d == p {
        assert b[p].entries[..|before|] == before;
      }
    }
  }

  lemma AttachKeepsTree(a: Tree, p: nat, name: string, ino: nat, node: Node)
    requires IsTree(a) && IsDir(a, p) && ino !in a && ValidName(name)
    requires forall k | 0 <= k < |a[p].entries| :: a[p].entries[k].name != name
    requires node.Dir? ==> node == Dir([], 2)
    ensures IsTree(Attach(a, p, name, ino, node))
  {
    var spots: map<nat, Spot> :| TreeBy(a, spots);
    var b := Attach(a, p, name, ino, node);
    var last := |a[p].entries|;
    var spots' := spots[ino := Spot(p, last, Depth(spots, p) + 1)];
    forall d: nat, k: nat | HasEntry(b, d, k) ensures EntryOk(b, spots', d, k) {
      if !(d == p && k == last) {
        assert HasEntry(a, d, k) && EntryOk(a, spots, d, k);
      }
    }
    forall i: nat | i in b && i != ROOT ensures SpotOk(b, spots', i) {
      if i != ino {
        assert SpotOk(a, spots, i);
      }
    }
    forall d: nat | IsDir(b, d) ensures DirectoryOk(b, d) {
      AttachDirectory(a, spots, p, name, ino, node, d);
    }
    assert TreeBy(b, spots');
  }

  /** Where an entry of the shortened list stood before. */
  function OldPosition(a: Tree, p: nat, k: nat, d: nat, j: nat): nat
    requires HasEntry(a, p, k)
  {
    if d == p && j == k then |a[p].entries| - 1 else j
  }

  lemma DetachEntry(a: Tree, spots: map<nat, Spot>, p: nat, k: nat, d: nat, j: nat)
    requires TreeBy(a, spots) && HasEntry(a, p, k) && HasEntry(Detach(a, p, k), d, j)
    ensures var j0 := OldPosition(a, p, k, d, j);
            && HasEntry(a, d, j0) && a[d].entries[j0] == Detach(a, p, k)[d].entries[j]
            && EntryOk(a, spots, d, j0)
            && d != Child(a, p, k) && Child(a, d, j0) != Child(a, p, k)
  {
    assert EntryOk(a, spots, p, k);
    var j0 := OldPosition(a, p, k, d, j);
    assert HasEntry(a, d, j0) && EntryOk(a, spots, d, j0);
  }

  lemma DetachDirectory(a: Tree, spots: map<nat, Spot>, p: nat, k: nat, d: nat)
    requires TreeBy(a, spots) && HasEntry(a, p, k) && IsDir(Detach(a, p, k), d)
    ensures DirectoryOk(Detach(a, p, k), d)
  {
    var b := Detach(a, p, k);
    assert EntryOk(a, spots, p, k);
    forall j: nat | j < |b[d].entries| ensures DirBit(a, b[d].entries[j].ino) == DirBit(b, b[d].entries[j].ino) {
      assert HasEntry(b, d, j);
      DetachEntry(a, spots, p, k, d, j);
    }
    SubdirsAgree(a, b, b[d].entries);
    assert DirectoryOk(a, d);
    if d == p {
      SubdirsSwapOut(a, a[p].entries, k);
    }
  }

  /** The spots after a detachment: the target's goes, the moved entry's index changes. */
  function DetachSpots(a: Tree, spots: map<nat, Spot>, p: nat, k: nat): map<nat, Spot>
    requires HasEntry(a, p, k)
  {
    var n := |a[p].entries| - 1;
    var moved := Child(a, p, n);
    var kept := spots - {Child(a, p, k)};
    if k < n && moved in kept then kept[moved := kept[moved].(index := k)] else kept
  }

  lemma DetachEntryOk(a: Tree, spots: map<nat, Spot>, p: nat, k: nat, d: nat, j: nat)
    requires TreeBy(a, spots) && HasEntry(a, p, k) && HasEntry(Detach(a, p, k), d, j)
    ensures EntryOk(Detach(a, p, k), DetachSpots(a, spots, p, k), d, j)
  {
    DetachEntry(a, spots, p, k, d, j);
    assert EntryOk(a, spots, p, k) && EntryOk(a, spots, p, |a[p].entries| - 1);
  }

  lemma DetachSpotOk(a: Tree, spots: map<nat, Spot>, p: nat, k: nat, i: nat)
    requires TreeBy(a, spots) && HasEntry(a, p, k)
    requires IsDir(a, Child(a, p, k)) ==> a[Child(a, p, k)].entries == []
    requires i in Detach(a, p, k) && i != ROOT
    ensures SpotOk(Detach(a, p, k), DetachSpots(a, spots, p, k), i)
  {
    assert EntryOk(a, spots, p, k) && EntryOk(a, spots, p, |a[p].entries| - 1);
    if i != p || i in a {
      assert SpotOk(a, spots, i);
    }
  }

  /** Removing an entry for a file or an empty directory leaves a tree. */
  lemma DetachKeepsTree(a: Tree, p: nat, k: nat)
    requires IsTree(a) && HasEntry(a, p, k)
    requires IsDir(a, Child(a, p, k)) ==> a[Child(a, p, k)].entries == []
    ensures IsTree(Detach(a, p, k))
  {
    var spots: map<nat, Spot> :| TreeBy(a, spots);
    var b := Detach(a, p, k);
    forall d: nat, j: nat | HasEntry(b, d, j) ensures EntryOk(b, DetachSpots(a, spots, p, k), d, j) {
      DetachEntryOk(a, spots, p, k, d, j);
    }
    forall i: nat | i in b && i != ROOT ensures SpotOk(b, DetachSpots(a, spots, p, k), i) {
      DetachSpotOk(a, spots, p, k, i);
    }
    forall d: nat | IsDir(b, d) ensures DirectoryOk(b, d) {
      DetachDirectory(a, spots, p, k, d);
    }
    assert EntryOk(a, spots, p, k);
    assert TreeBy(b, DetachSpots(a, spots, p, k));
  }

  lemma SetContentDirectory(a: Tree, i: nat, content: seq<bv8>, d: nat)
    requires i in a && a[i].File? && IsDir(a, d) && DirectoryOk(a, d)
    ensures DirectoryOk(a[i := File(content)], d)
  {
    SubdirsAgree(a, a[i := File(content)], a[d].entries);
  }

  lemma SetContentKeepsTree(a: Tree, i: nat, content: seq<bv8>)
    requires IsTree(a) && i in a && a[i].File?
    ensures IsTree(a[i := File(content)])
  {
    var spots: map<nat, Spot> :| TreeBy(a, spots);
    var b := a[i := File(content)];
    assert forall d: nat, k: nat :: HasEntry(b, d, k) <==> HasEntry(a, d, k);
    assert forall d: nat, k: nat | HasEntry(a, d, k) :: EntryOk(a, spots, d, k) ==> EntryOk(b, spots, d, k);
    assert forall j: nat | j in a :: SpotOk(a, spots, j) ==> SpotOk(b, spots, j);
    forall d: nat | IsDir(b, d) ensures DirectoryOk(b, d) {
      SetContentDirectory(a, i, content, d);
    }
    assert TreeBy(b, spots);
  }

  /** A freshly attached node can be detached again, which restores the tree. */
  lemma DetachAfterAttach(a: Tree, p: nat, name: string, ino: nat, node: Node)
    requires IsDir(a, p) && ino !in a
    ensures var b := Attach(a, p, name, ino, node);
            && HasEntry(b, p, |a[p].entries|)
            && Child(b, p, |a[p].entries|) == ino
            && Detach(b, p, |a[p].entries|) == a
  {
    var b := Attach(a, p, name, ino, node);
    var n := |a[p].entries|;
    assert SwapOut(b[p].entries, n) == a[p].entries;
    assert Detach(b, p, n)[p] == a[p];
  }
}
