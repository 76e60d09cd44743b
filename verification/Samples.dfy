/** Images that satisfy the invariant, one for each way in which the code as written fails. */
module Samples {
  import opened Bitmap
  import opened Images
  import opened Namespace
  import opened Paths
  import opened Resolution
  import opened Soundness
  import opened Room
  import opened Growth
  import opened FileData
  import opened Calls

  /**
   A root directory of some entries, all naming files, the first of which may hold blocks.
   The root's blocks are one extent each; the file's are one extent, or one each.
   */
  datatype Shape = Shape(
    inodes: nat, blocks: nat, entries: nat, rootTable: nat, rootStart: nat,
    fileTable: nat, fileStart: nat, fileBlocks: nat, fileSize: nat, split: bool)
  {
    function RootBlocks(): nat {
      (entries + 15) / 16
    }

    function FileExtents(): seq<Extent> {
      if fileBlocks == 0 then [] else if split then Singles(fileStart, fileBlocks) else [Extent(fileStart, fileBlocks)]
    }

    function RootOwned(): set<nat> {
      {rootTable} + Span(rootStart, RootBlocks())
    }

    function FileOwned(): set<nat> {
      if fileBlocks == 0 then {} else {fileTable} + Span(fileStart, fileBlocks)
    }

    predicate Fits() {
      && 0 < entries < inodes <= 0x8000 && blocks < 0x8000 && RootBlocks() <= 512 && fileBlocks <= 512
      && rootTable < blocks && rootStart + RootBlocks() <= blocks && rootTable !in Span(rootStart, RootBlocks())
      && (fileBlocks > 0 ==>
            && fileTable < blocks && fileStart + fileBlocks <= blocks && fileTable !in Span(fileStart, fileBlocks)
            && fileTable !in RootOwned() && rootTable !in FileOwned()
            && Span(rootStart, RootBlocks()) !! Span(fileStart, fileBlocks))
      && CeilBlocks(fileSize) == fileBlocks
    }

    function Record(i: nat): Inode {
      if i == ROOT then Inode(Directory, 2, 256 * entries, RootBlocks(), rootTable, entries)
      else if i == 1 then Inode(Regular, 1, fileSize, |FileExtents()|, fileTable, 0)
      else Inode(Regular, 1, 0, 0, 0, 0)
    }

    function TableEntry(b: nat, k: nat): Extent {
      if b == rootTable && k < RootBlocks() then Extent(rootStart + k, 1)
      else if b == fileTable && k < |FileExtents()| then FileExtents()[k]
      else Extent(0, 0)
    }

    function SlotEntry(j: int): Dentry {
      if 0 <= j then Dentry(j + 1, Name(j)) else Dentry(0, "")
    }

    /** Every byte of the data region is 1. */
    function Build(): Image
      requires Fits()
    {
      Image(inodes, blocks, 0x8000, 0x8000, Below(entries + 1), RootOwned() + FileOwned(),
            inodes - entries - 1, Minus(blocks, |RootOwned() + FileOwned()|),
            seq(inodes, (i: nat) => Record(i)),
            seq(512 * blocks, (j: nat) => TableEntry(j / 512, j % 512)),
            seq(16 * blocks, (j: nat) => SlotEntry(j - 16 * rootStart)),
            seq(4096 * blocks, (j: nat) => 1 as bv8), false)
    }
  }

  /** The k-th name: k + 1 letters. */
  function Name(k: nat): string {
    seq(k + 1, _ => 'a')
  }

  /** Extents of one block each. */
  function Singles(start: nat, count: nat): seq<Extent> {
    seq(count, (j: nat) => Extent(start + j, 1))
  }

  lemma {:induction false} FlatSingles(start: nat, count: nat)
    ensures FlatBlocks(Singles(start, count)) == Range(start, count)
    decreases count
  {
    if count > 0 {
      FlatSingles(start, count - 1);
      assert Singles(start, count)[..count - 1] == Singles(start, count - 1);
    }
  }

  lemma {:induction false} SpanSize(from: nat, length: nat)
    ensures |Span(from, length)| == length
    decreases length
  {
    if length > 0 {
      SpanSize(from, length - 1);
    }
  }

  lemma BuildRecord(x: Shape, s: Image, i: nat)
    requires x.Fits() && s == x.Build() && i < x.inodes
    ensures s.Ino(i) == x.Record(i)
  {
  }

  lemma BuildTable(x: Shape, s: Image, b: nat)
    requires x.Fits() && s == x.Build() && b < x.blocks
    ensures forall k: nat | k < 512 :: s.Ext(b, k) == x.TableEntry(b, k)
  {
    hide Shape.Fits, Shape.TableEntry, Span;
    assert |s.tables| == 512 * x.blocks;
    forall k: nat | k < 512 ensures s.Ext(b, k) == x.TableEntry(b, k) {
      assert (b * 512 + k) / 512 == b && (b * 512 + k) % 512 == k;
    }
  }

  lemma BuildSlot(x: Shape, s: Image, b: nat, k: nat)
    requires x.Fits() && s == x.Build() && b < x.blocks && k < 16
    ensures s.Slot(b, k) == x.SlotEntry((b - x.rootStart) * 16 + k)
  {
  }

  lemma BuildByte(x: Shape, s: Image, b: nat, k: nat)
    requires x.Fits() && s == x.Build() && b < x.blocks && k < 4096
    ensures s.Byte(b, k) == 1
  {
  }

  lemma BuildCounts(x: Shape, s: Image)
    requires x.Fits() && s == x.Build()
    ensures LayoutOk(s) && CountersOk(s)
  {
    hide CountersOk, Span, RunLength, Below, Shape.TableEntry, Shape.SlotEntry, Shape.Record;
    OwnedInRegion(x);
    CountsAre(s, x.entries + 1, x.RootOwned() + x.FileOwned());
  }

  lemma CountsAre(s: Image, inodes: nat, used: set<nat>)
    requires s.usedInodes == Below(inodes) && inodes <= s.numInodes && s.freeInodes == s.numInodes - inodes
    requires s.usedBlocks == used <= Below(s.numBlocks) && s.freeBlocks == Minus(s.numBlocks, |used|)
    ensures CountersOk(s)
  {
    BelowSize(inodes);
    BelowSize(s.numBlocks);
    SubsetSize(used, Below(s.numBlocks));
  }

  lemma OwnedInRegion(x: Shape)
    requires x.Fits()
    ensures x.RootOwned() + x.FileOwned() <= Below(x.blocks)
  {
  }

  lemma OwnedElements(table: nat, start: nat, count: nat)
    ensures Elements([table] + Range(start, count)) == {table} + Span(start, count)
    ensures table !in Span(start, count) ==> NoDuplicates([table] + Range(start, count))
  {
    var owned := [table] + Range(start, count);
    assert forall j {:trigger owned[j + 1]} | 0 <= j < count :: owned[j + 1] == start + j;
    forall b: nat | b in Span(start, count) ensures b in owned {
      assert owned[b - start + 1] == b;
    }
  }

  /** The shape of an inode, from its table. */
  lemma HoldsBlocks(s: Image, i: nat, table: nat, extents: seq<Extent>, start: nat, count: nat)
    requires s.Ino(i).extentNum == |extents| && 0 < |extents| <= 512 && s.Ino(i).indirect == table
    requires forall k: nat | k < |extents| :: s.Ext(table, k) == extents[k] && extents[k].count >= 1
    requires FlatBlocks(extents) == Range(start, count) && table !in Span(start, count)
    requires {table} + Span(start, count) <= s.usedBlocks && s.Ino(i).size > 0 && CeilBlocks(s.Ino(i).size) == count
    requires s.Ino(i).kind.Regular? ==> s.Ino(i).numEntries == 0 && s.Ino(i).links == 1
    requires s.Ino(i).kind.Directory? ==> s.Ino(i).size == 256 * s.Ino(i).numEntries
    ensures s.Extents(i) == extents && s.Blocks(i) == Range(start, count)
    ensures Elements(s.Owned(i)) == {table} + Span(start, count) && InodeOk(s, i)
  {
    assert s.Extents(i) == extents;
    assert s.Owned(i) == [table] + Range(start, count);
    OwnedElements(table, start, count);
  }

  lemma BuildRoot(x: Shape, s: Image)
    requires x.Fits() && s == x.Build()
    ensures s.Blocks(ROOT) == Range(x.rootStart, x.RootBlocks())
    ensures Elements(s.Owned(ROOT)) == x.RootOwned() && InodeOk(s, ROOT)
  {
    hide FlatBlocks, InodeOk, Image.Ino, Image.Ext, Image.Blocks, Image.Owned, Image.Extents, Span;
    BuildRecord(x, s, ROOT);
    BuildTable(x, s, x.rootTable);
    FlatSingles(x.rootStart, x.RootBlocks());
    HoldsBlocks(s, ROOT, x.rootTable, Singles(x.rootStart, x.RootBlocks()), x.rootStart, x.RootBlocks());
  }

  /** The live entries. */
  function Listing(entries: nat): seq<Dentry> {
    seq(entries, (k: nat) => Dentry(k + 1, Name(k)))
  }

  lemma BuildEntries(x: Shape, s: Image)
    requires x.Fits() && s == x.Build() && s.Blocks(ROOT) == Range(x.rootStart, x.RootBlocks())
    ensures s.Entries(ROOT) == Listing(x.entries)
  {
    hide FlatBlocks, Image.Blocks, Image.Slot, Image.Ino, Name, Shape.Fits, Shape.Build;
    BuildHasOne(x);
    BuildRecord(x, s, ROOT);
    var all := s.AllSlots(ROOT);
    forall k: nat | k < x.entries ensures all[k] == Dentry(k + 1, Name(k)) {
      var q := k / 16;
      assert s.Blocks(ROOT)[q] == x.rootStart + q;
      BuildSlot(x, s, x.rootStart + q, k % 16);
    }
    assert all[..x.entries] == Listing(x.entries);
  }

  lemma BuildFile(x: Shape, s: Image)
    requires x.Fits() && s == x.Build() && x.fileBlocks > 0
    ensures s.Extents(1) == x.FileExtents() && s.Blocks(1) == Range(x.fileStart, x.fileBlocks)
    ensures Elements(s.Owned(1)) == x.FileOwned() && InodeOk(s, 1)
  {
    hide FlatBlocks, InodeOk, Image.Ino, Image.Ext, Image.Blocks, Image.Owned, Image.Extents, Span;
    BuildRecord(x, s, 1);
    BuildTable(x, s, x.fileTable);
    FlatFile(x);
    HoldsBlocks(s, 1, x.fileTable, x.FileExtents(), x.fileStart, x.fileBlocks);
  }

  lemma FlatFile(x: Shape)
    requires x.fileBlocks > 0
    ensures FlatBlocks(x.FileExtents()) == Range(x.fileStart, x.fileBlocks)
  {
    if x.split {
      FlatSingles(x.fileStart, x.fileBlocks);
    } else {
      assert x.FileExtents()[..0] == [];
    }
  }

  lemma BuildEmpty(x: Shape, s: Image, i: nat)
    requires x.Fits() && s == x.Build() && 0 < i <= x.entries && (i == 1 ==> x.fileBlocks == 0)
    ensures s.Extents(i) == [] && s.Owned(i) == [] && InodeOk(s, i)
  {
    BuildRecord(x, s, i);
    assert s.Extents(i) == [];
  }

  lemma BuildInode(x: Shape, s: Image, i: nat)
    requires x.Fits() && s == x.Build() && i <= x.entries
    ensures InodeOk(s, i)
    ensures Elements(s.Owned(i)) == if i == ROOT then x.RootOwned() else if i == 1 then x.FileOwned() else {}
  {
    hide InodeOk, Image.Owned, Shape.RootOwned, Shape.Build;
    if i == ROOT {
      BuildRoot(x, s);
    } else if i == 1 && x.fileBlocks > 0 {
      BuildFile(x, s);
    } else {
      BuildEmpty(x, s, i);
    }
  }

  lemma BuildApart(x: Shape, s: Image, i: nat, j: nat)
    requires x.Fits() && s == x.Build() && i <= x.entries && j <= x.entries && i != j
    ensures Apart(s, i, j)
  {
    hide InodeOk, Image.Owned, Shape.Build;
    BuildInode(x, s, i);
    BuildInode(x, s, j);
  }

  lemma BuildCovered(x: Shape, s: Image, b: nat)
    requires x.Fits() && s == x.Build() && b in s.usedBlocks
    ensures Covered(s, b)
  {
    hide InodeOk, Image.Owned, Shape.RootOwned, Shape.FileOwned;
    BuildInode(x, s, ROOT);
    BuildInode(x, s, 1);
    assert b in Elements(s.Owned(ROOT)) || b in Elements(s.Owned(1));
    assert ROOT in s.usedInodes && 1 in s.usedInodes;
  }

  lemma BuildSound(x: Shape, s: Image)
    requires x.Fits() && s == x.Build()
    ensures Sound(s) && forall i: nat :: i in s.usedInodes <==> i <= x.entries
  {
    hide InodeOk, Image.Owned, Shape.RootOwned, Shape.FileOwned, LayoutOk, CountersOk, Covered, Apart;
    BuildCounts(x, s);
    forall i: nat | i in s.usedInodes ensures InodeOk(s, i) {
      BuildInode(x, s, i);
    }
    forall i: nat, j: nat | i in s.usedInodes && j in s.usedInodes && i != j ensures Apart(s, i, j) {
      BuildApart(x, s, i, j);
    }
    forall b: nat | b in s.usedBlocks ensures Covered(s, b) {
      BuildCovered(x, s, b);
    }
  }

  /** A root that lists m files and nothing else. */
  ghost predicate FlatRoot(a: Tree, m: nat) {
    && (forall i: nat :: i in a <==> i <= m)
    && a[ROOT] == Dir(Listing(m), 2)
    && forall i: nat | 0 < i <= m :: a[i].File?
  }

  lemma {:induction false} NoSubdirs(a: Tree, entries: seq<Dentry>)
    requires forall k | 0 <= k < |entries| :: !IsDir(a, entries[k].ino)
    ensures Subdirs(a, entries) == 0
    decreases |entries|
  {
    if entries != [] {
      NoSubdirs(a, entries[..|entries| - 1]);
    }
  }

  lemma NamesDiffer(m: nat)
    ensures DistinctNames(Listing(m)) && forall k | 0 <= k < m :: ValidName(Listing(m)[k].name)
    ensures forall k | 0 <= k < m :: Listing(m)[k].name != "f" && (Listing(m)[k].name == "a" <==> k == 0)
  {
    forall j, k | 0 <= j < k < m ensures Listing(m)[j].name != Listing(m)[k].name {
      assert |Listing(m)[j].name| == j + 1 && |Listing(m)[k].name| == k + 1;
    }
    forall k | 0 <= k < m ensures Listing(m)[k].name != "f" && (Listing(m)[k].name == "a" <==> k == 0) {
      assert Listing(m)[k].name[0] == 'a' && |Listing(m)[k].name| == k + 1;
      assert Listing(m)[k].name == "a" <==> k == 0;
    }
  }

  lemma FlatRootIsTree(a: Tree, m: nat)
    requires FlatRoot(a, m)
    ensures IsTree(a)
  {
    hide Listing;
    NamesDiffer(m);
    var spots := map i: nat | i in a && i != ROOT :: Spot(ROOT, i - 1, 1);
    ListingAt(m);
    forall d: nat, k: nat | HasEntry(a, d, k) ensures EntryOk(a, spots, d, k) {
      assert d == ROOT && Child(a, d, k) == k + 1;
    }
    forall i: nat | i in a && i != ROOT ensures SpotOk(a, spots, i) {
      assert Child(a, ROOT, i - 1) == i;
    }
    NoSubdirs(a, Listing(m));
    assert forall d: nat | IsDir(a, d) :: d == ROOT && DirectoryOk(a, d);
    assert TreeBy(a, spots);
  }

  lemma ListingAt(m: nat)
    ensures |Listing(m)| == m && forall k | 0 <= k < m :: Listing(m)[k].ino == k + 1
  {
  }

  /** Every shape that fits gives an image that satisfies the invariant. */
  lemma BuildIsInvariant(x: Shape, s: Image)
    requires x.Fits() && s == x.Build()
    ensures Invariant(s) && FlatRoot(Abs(s), x.entries)
  {
    hide Sound, Shape.Fits, Shape.Build, IsTree, Image.Entries, Image.Content;
    BuildSound(x, s);
    BuildRoot(x, s);
    BuildEntries(x, s);
    forall i: nat | i <= x.entries ensures i in Abs(s) && (i > 0 ==> Abs(s)[i].File?) {
      BuildKind(x, s, i);
    }
    BuildKind(x, s, ROOT);
    FlatRootIsTree(Abs(s), x.entries);
  }

  lemma BuildKind(x: Shape, s: Image, i: nat)
    requires x.Fits() && s == x.Build() && i <= x.entries
    ensures s.Ino(i) == x.Record(i) && (i == ROOT <==> s.Ino(i).kind.Directory?)
    ensures i == ROOT ==> s.Ino(i).links == 2
  {
    BuildRecord(x, s, i);
  }

  lemma BuildPaths(x: Shape, s: Image)
    requires x.Fits() && s == x.Build()
    ensures IsFileAt(Abs(s), "/a") && InodeAt(s, "/a") == 1
    ensures IsFree(Abs(s), "/f") && InodeAt(s, "/") == ROOT
  {
    hide Shape.Build, Shape.Fits, Invariant, Abs, Name, Listing;
    var a: Tree := Abs(s);
    BuildIsInvariant(x, s);
    BuildHasOne(x);
    PathOfOneName("/a", "a");
    PathOfOneName("/f", "f");
    NamesDiffer(x.entries);
    ListingAt(x.entries);
    assert FindName(a[ROOT].entries, "a") == Some(0) && FindName(a[ROOT].entries, "f") == None;
    assert Walk(a, ROOT, ["a"]) == Walk(a, 1, []);
  }

  lemma BuildHasOne(x: Shape)
    requires x.Fits()
    ensures 0 < x.entries < x.inodes && x.rootStart + x.RootBlocks() <= x.blocks
  {
  }

  lemma BuildFree(x: Shape, s: Image)
    requires x.Fits() && s == x.Build()
    ensures s.freeBlocks == x.blocks - 1 - x.RootBlocks() - (if x.fileBlocks == 0 then 0 else 1 + x.fileBlocks)
    ensures s.freeInodes == x.inodes - x.entries - 1 && s.numBlocks == x.blocks
  {
    BuildCounts(x, s);
    SpanSize(x.rootStart, x.RootBlocks());
    SpanSize(x.fileStart, x.fileBlocks);
    if x.fileBlocks > 0 {
      assert x.RootOwned() !! x.FileOwned();
    }
    assert |x.RootOwned() + x.FileOwned()| == |x.RootOwned()| + |x.FileOwned()|;
  }

  lemma BuildRootNumbers(x: Shape, s: Image)
    requires x.Fits() && s == x.Build()
    ensures s.Ino(ROOT) == x.Record(ROOT) && s.LastBlock(ROOT) == x.rootStart + x.RootBlocks() - 1
  {
    hide Image.Blocks, InodeOk, FlatBlocks;
    BuildRecord(x, s, ROOT);
    BuildTable(x, s, x.rootTable);
    assert s.LastExtent(ROOT) == Extent(x.rootStart + x.RootBlocks() - 1, 1);
  }

  lemma BuildFileLive(x: Shape, s: Image)
    requires x.Fits() && s == x.Build()
    ensures LiveFile(s, 1) && |s.Content(1)| == x.fileSize
  {
    hide InodeOk, Image.Content, FlatBlocks;
    BuildSound(x, s);
    BuildRecord(x, s, 1);
    FileShape(s, 1);
  }

  lemma BuildFileNumbers(x: Shape, s: Image)
    requires x.Fits() && s == x.Build() && x.fileBlocks > 0
    ensures s.Ino(1) == x.Record(1) && |s.Blocks(1)| == x.fileBlocks
    ensures s.LastBlock(1) == x.fileStart + x.fileBlocks - 1
  {
    hide InodeOk, FlatBlocks, Span;
    BuildFile(x, s);
    BuildRecord(x, s, 1);
    LastBlockIsLast(s, 1);
  }
}
