/**
 What the code as written does to a file, also where it deviates: which blocks a growth
 takes and marks, and what the file holds afterwards.
 */
module Literal {
  import opened Bitmap
  import opened Images
  import opened Operations
  import opened Namespace
  import opened Soundness
  import opened Growth
  import opened FileData
  import opened Room
  import opened Truncation
  import opened Deviations

  /** The sizes of the regions. */
  predicate Regions(s: Image) {
    LayoutOk(s.(fault := false))
  }

  predicate Zeroed(s: Image, b: nat) {
    forall k: nat | k < 4096 :: s.Byte(b, k) == 0
  }

  /**
   What is left of the invariant for file i after growths that deviate: its blocks may be
   unmarked, or lie past the region, but then they read as zeros; the other inodes are
   as they were.
   */
  ghost predicate Shaped(s: Image, i: nat) {
    && Regions(s) && LiveFile(s, i) && i < |s.inodes|
    && s.freeBlocks + |s.usedBlocks * Below(s.numBlocks)| <= s.numBlocks
    && TableOk(s, i)
    && (forall r: nat | r < |s.Blocks(i)| && s.Blocks(i)[r] !in s.usedBlocks :: Zeroed(s, s.Blocks(i)[r]))
    && (forall j: nat {:trigger InodeOk(s, j)} | j in s.usedInodes && j != i :: InodeOk(s, j) && Apart(s, i, j))
  }

  predicate TableOk(s: Image, i: nat) {
    var x := s.Ino(i);
    && x.extentNum <= 512 && (x.size == 0 <==> x.extentNum == 0)
    && (forall k | 0 <= k < |s.Extents(i)| :: s.Extents(i)[k].count >= 1)
    && (x.extentNum > 0 ==> x.indirect < s.numBlocks && x.indirect in s.usedBlocks)
  }

  lemma SoundIsShaped(s: Image, i: nat)
    requires Sound(s) && LiveFile(s, i)
    ensures Shaped(s, i)
  {
    assert InodeOk(s, i);
    FileShape(s, i);
    if s.Ino(i).size > 0 {
      OwnedInRange(s, i, 0);
    }
    assert s.usedBlocks * Below(s.numBlocks) == s.usedBlocks;
    forall r: nat | r < |s.Blocks(i)| ensures s.Blocks(i)[r] in s.usedBlocks {
      OwnedInRange(s, i, r);
    }
    forall j: nat | j in s.usedInodes && j != i ensures InodeOk(s, j) && Apart(s, i, j) {
    }
  }

  /** A counter that is not zero still promises a clear bit. */
  lemma ShapedHasFree(s: Image)
    requires s.freeBlocks > 0 && s.freeBlocks + |s.usedBlocks * Below(s.numBlocks)| <= s.numBlocks
    ensures s.FirstFreeBlock() < s.numBlocks && s.FirstFreeBlock() !in s.usedBlocks
  {
    BelowSize(s.numBlocks);
    var marked := s.usedBlocks * Below(s.numBlocks);
    assert marked + (Below(s.numBlocks) - marked) == Below(s.numBlocks);
    var clear :| clear in Below(s.numBlocks) - marked;
  }

  /** From s to t, inode i takes block b into its table; the block itself is not yet written. */
  ghost predicate Pushed(s: Image, t: Image, i: nat, b: nat) {
    && TakesNext(AsWritten, s, t, i, b) && b !in s.usedBlocks
    && t.Blocks(i) == s.Blocks(i) + [b]
    && t == s.(tables := t.tables, usedBlocks := t.usedBlocks, freeBlocks := t.freeBlocks, inodes := t.inodes,
               fault := t.fault)
    && |t.tables| == |s.tables| && (t.fault <==> s.fault || b >= s.blockBits)
    && i < |s.inodes|
    && t.inodes == s.inodes[i := s.Ino(i).(extentNum := |t.Extents(i)|, indirect := t.Ino(i).indirect)]
    && 0 < |t.Extents(i)| <= 512 && (forall k | 0 <= k < |t.Extents(i)| :: t.Extents(i)[k].count >= 1)
    && t.Ino(i).indirect < s.numBlocks && t.Ino(i).indirect in t.usedBlocks
    && (s.Ino(i).size == 0 ==> t.Ino(i).indirect !in s.usedBlocks)
    && (forall c: nat, k: nat | c != t.Ino(i).indirect && k < 512 :: t.Ext(c, k) == s.Ext(c, k))
  }

  lemma MergePushes(s: Image, t: Image, i: nat, b: nat)
    requires Shaped(s, i) && s.Ino(i).size > 0 && s.freeBlocks > 0
    requires MayMerge(AsWritten, s, i) && t == Merge(s, i) && b == s.LastBlock(i) + 1
    ensures Pushed(s, t, i, b)
  {
    hide Zeroed, FlatBlocks, InodeOk, Apart, Image.Blocks, TakesNext;
    var m := s.Ino(i).extentNum - 1;
    var e := s.Extents(i)[m];
    assert e == s.LastExtent(i);
    PutExtentEffect(s.TakeBlock(b), t, s.Ino(i).indirect, m, e.(count := e.count + 1));
    MergeTable(s, t, i, b, m, e);
    assert s.inodes == s.inodes[i := s.Ino(i)];
  }

  lemma MergeTable(s: Image, t: Image, i: nat, b: nat, m: nat, e: Extent)
    requires s.Ino(i).size > 0 && m + 1 == s.Ino(i).extentNum <= 512 && e == s.Extents(i)[m] && s.freeBlocks > 0
    requires MayMerge(AsWritten, s, i) && b == s.LastBlock(i) + 1 && e.count >= 1
    requires t == s.TakeBlock(b).(tables := t.tables)
    requires forall k: nat | k < 512 ::
               t.Ext(s.Ino(i).indirect, k) == (if k == m then e.(count := e.count + 1) else s.Ext(s.Ino(i).indirect, k))
    ensures TakesNext(AsWritten, s, t, i, b) && t.Blocks(i) == s.Blocks(i) + [b]
    ensures t.Extents(i) == s.Extents(i)[m := e.(count := e.count + 1)]
  {
    hide FlatBlocks;
    assert t.Extents(i) == s.Extents(i)[m := e.(count := e.count + 1)];
    FlatBlocksMerge(s.Extents(i));
  }

  lemma OpenPushes(s: Image, t: Image, i: nat, b: nat)
    requires Shaped(s, i) && s.Ino(i).size > 0 && s.freeBlocks > 0 && s.Ino(i).extentNum < 512
    requires !MayMerge(AsWritten, s, i) && t == Open(s, i) && b == s.FirstFreeBlock()
    ensures Pushed(s, t, i, b)
  {
    hide Zeroed, FlatBlocks, InodeOk, Apart, FirstFree, Image.Blocks, TakesNext;
    ShapedHasFree(s);
    var m := s.Ino(i).extentNum;
    var s1 := s.TakeBlock(b);
    PutExtentEffect(s1, s1.PutExtent(s.Ino(i).indirect, m, Extent(b, 1)), s.Ino(i).indirect, m, Extent(b, 1));
    OpenTable(s, t, i, b, m);
  }

  lemma OpenTable(s: Image, t: Image, i: nat, b: nat, m: nat)
    requires s.Ino(i).size > 0 && m == s.Ino(i).extentNum < 512 && i < |s.inodes| && s.freeBlocks > 0
    requires !MayMerge(AsWritten, s, i) && b == s.FirstFreeBlock() && b < s.blockBits
    requires t == s.TakeBlock(b).(tables := t.tables, inodes := s.inodes[i := s.Ino(i).(extentNum := m + 1)])
    requires forall k: nat | k < 512 ::
               t.Ext(s.Ino(i).indirect, k) == (if k == m then Extent(b, 1) else s.Ext(s.Ino(i).indirect, k))
    ensures TakesNext(AsWritten, s, t, i, b) && t.Blocks(i) == s.Blocks(i) + [b]
    ensures t.Extents(i) == s.Extents(i) + [Extent(b, 1)]
  {
    hide FlatBlocks, FirstFree;
    assert t.Extents(i) == s.Extents(i) + [Extent(b, 1)];
    FlatBlocksPush(s.Extents(i), b);
  }

  lemma StartPushes(s: Image, t: Image, i: nat, b: nat)
    requires Shaped(s, i) && s.Ino(i).size == 0 && s.freeBlocks >= 2 && (t, b) == Start(AsWritten, s, i)
    ensures Pushed(s, t, i, b)
  {
    hide Zeroed, InodeOk, Apart, FirstFree;
    var x := s.FirstFreeBlock();
    ShapedHasFree(s);
    var s1 := s.TakeBlock(x);
    OneMoreUsed(s.usedBlocks, s.numBlocks, x);
    ShapedHasFree(s1);
    var s2 := s1.TakeBlock(x);
    assert s2.usedBlocks == s.usedBlocks + {x};
    var s3 := s2.PutExtent(x, 0, Extent(b, 1));
    PutExtentEffect(s2, s3, x, 0, Extent(b, 1));
    StartOwned(s3, t, i, x, b);
    assert s.Extents(i) == [] && s.Blocks(i) == [];
  }

  lemma OneMoreUsed(used: set<nat>, size: nat, x: nat)
    ensures |(used + {x}) * Below(size)| <= |used * Below(size)| + 1
  {
    assert (used + {x}) * Below(size) <= used * Below(size) + {x};
    SubsetSize((used + {x}) * Below(size), used * Below(size) + {x});
  }

  // The end of a growth

  /** From s to u, file i has grown by block b as the code is written. */
  ghost predicate Grew(s: Image, u: Image, i: nat, b: nat) {
    && TakesNext(AsWritten, s, u, i, b) && b !in s.usedBlocks && u.Blocks(i) == s.Blocks(i) + [b]
    && u.Ino(i) == s.Ino(i).(size := 4096 * |u.Blocks(i)|, extentNum := |u.Extents(i)|, indirect := u.Ino(i).indirect)
    && OthersAlike(s, u, i)
    && (u.fault <==> s.fault || b >= s.numBlocks)
  }

  /** The other inodes have the same records and stand for the same nodes. */
  ghost predicate OthersAlike(s: Image, u: Image, i: nat) {
    && u.usedInodes == s.usedInodes && u.freeInodes == s.freeInodes
    && (forall j: nat {:trigger u.Ino(j)} | j != i :: u.Ino(j) == s.Ino(j))
    && (forall j: nat {:trigger NodeOf(u, j)} | j in s.usedInodes && j != i :: NodeOf(u, j) == NodeOf(s, j))
  }

  /** What finishing a growth leaves of the image. */
  ghost predicate Finished(t: Image, u: Image, i: nat, b: nat) {
    && u == t.(data := u.data, inodes := u.inodes, fault := u.fault)
    && i < |t.inodes| && u.inodes == t.inodes[i := t.Ino(i).(size := 4096 * |t.Blocks(i)|)]
    && |u.data| == |t.data| && (u.fault <==> t.fault || b >= t.numBlocks)
    && (forall c: nat, k: nat | k < 4096 :: u.Byte(c, k) == if c == b then 0 else t.Byte(c, k))
  }

  lemma FinishFinishes(t: Image, u: Image, i: nat, n: nat, b: nat)
    requires |t.data| == 4096 * t.numBlocks && i < |t.inodes| && |t.Blocks(i)| == n + 1 && u == Finish(t, i, n, b)
    ensures Finished(t, u, i, b)
  {
    hide FlatBlocks, Image.Blocks, Image.PutBytes;
    var t1 := t.SetSize(i, 4096 * (n + 1));
    assert forall c: nat, k: nat :: t1.Byte(c, k) == t.Byte(c, k);
    if b < t.numBlocks {
      PutBytesEffect(t1, u, b, 0, Zeros(4096));
    } else {
      ZerosOutside(t1, u, b);
    }
  }

  lemma ZerosOutside(t: Image, u: Image, b: nat)
    requires |t.data| == 4096 * t.numBlocks && b >= t.numBlocks && u == t.PutBytes(b * 4096, Zeros(4096))
    ensures u == t.(fault := true) && forall k: nat :: t.Byte(b, k) == 0
  {
  }

  /** Blocks that another inode holds are not written. */
  lemma FinishedFrame(s: Image, t: Image, u: Image, i: nat, b: nat, j: nat)
    requires Shaped(s, i) && Pushed(s, t, i, b) && Finished(t, u, i, b) && j in s.usedInodes && j != i
    ensures u.Ino(j) == s.Ino(j) && NodeOf(u, j) == NodeOf(s, j)
    ensures u.Owned(j) == s.Owned(j) && u.Extents(j) == s.Extents(j)
    ensures InodeOk(u, j) && Apart(u, i, j)
  {
    hide FlatBlocks, Zeroed, Regions, TakesNext, TableOk, NoDuplicates;
    assert InodeOk(s, j) && Apart(s, i, j);
    TakenIsFree(s, t, i, b);
    forall c: nat | c in s.Owned(j) ensures Kept(s, u, c) {
      assert c in Elements(s.Owned(j));
      assert c in s.usedBlocks && c != b && c != t.Ino(i).indirect;
      assert forall k: nat :: u.Ext(c, k) == t.Ext(c, k) && u.Slot(c, k) == s.Slot(c, k);
      assert forall k: nat :: t.Byte(c, k) == s.Byte(c, k);
    }
    NodeFrame(s, u, j);
    FinishedOwned(s, t, u, i, b, j);
  }

  /** The table is the inode's own or was free. */
  lemma TakenIsFree(s: Image, t: Image, i: nat, b: nat)
    requires Shaped(s, i) && Pushed(s, t, i, b)
    ensures t.Ino(i).indirect in s.usedBlocks ==> t.Ino(i).indirect in Elements(s.Owned(i))
    ensures s.usedBlocks <= t.usedBlocks
  {
    hide FlatBlocks, Zeroed, Regions, InodeOk, Apart;
    if s.Ino(i).size > 0 {
      assert s.Owned(i)[0] == s.Ino(i).indirect;
    }
  }

  lemma FinishedOwned(s: Image, t: Image, u: Image, i: nat, b: nat, j: nat)
    requires Shaped(s, i) && Pushed(s, t, i, b) && Finished(t, u, i, b) && j in s.usedInodes && j != i
    requires u.Ino(j) == s.Ino(j) && u.Owned(j) == s.Owned(j) && u.Extents(j) == s.Extents(j)
    ensures InodeOk(u, j) && Apart(u, i, j)
  {
    hide FlatBlocks, Zeroed, Regions, TakesNext, NoDuplicates;
    assert InodeOk(s, j) && Apart(s, i, j);
    TakenIsFree(s, t, i, b);
    SameTables(t, u, i);
    assert u.Blocks(j) == s.Blocks(j) by { SameBlocks(s, u, j); }
    forall c | c in Elements(u.Owned(i)) ensures c !in Elements(s.Owned(j)) {
      assert c == t.Ino(i).indirect || c in s.Blocks(i) || c == b;
      BlocksOwned(s, i, c);
    }
  }

  lemma BlocksOwned(s: Image, i: nat, c: nat)
    ensures c in s.Blocks(i) ==> c in s.Owned(i)
  {
    if c in s.Blocks(i) {
      assert s.Ino(i).extentNum > 0;
      var r :| 0 <= r < |s.Blocks(i)| && s.Blocks(i)[r] == c;
      assert s.Owned(i)[r + 1] == c;
    }
  }

  lemma SameBlocks(s: Image, u: Image, j: nat)
    requires u.Extents(j) == s.Extents(j)
    ensures u.Blocks(j) == s.Blocks(j)
  {
  }

  /** The old blocks read as before (a block taken again was zero), and the new one as zeros. */
  lemma FinishedBytes(s: Image, t: Image, u: Image, i: nat, b: nat)
    requires Shaped(s, i) && Pushed(s, t, i, b) && Finished(t, u, i, b)
    ensures u.Blocks(i) == s.Blocks(i) + [b] && u.Extents(i) == t.Extents(i)
    ensures u.AllBytes(i) == s.AllBytes(i) + Zeros(4096)
  {
    hide FlatBlocks, Regions, TakesNext, InodeOk, Apart, TableOk, Image.Blocks;
    SameTables(t, u, i);
    assert forall c: nat, k: nat :: t.Byte(c, k) == s.Byte(c, k);
    var n, bytes := |s.Blocks(i)|, s.AllBytes(i) + Zeros(4096);
    forall k: nat | k < 4096 * (n + 1) ensures u.AllBytes(i)[k] == bytes[k] {
      if k < 4096 * n {
        var c := s.Blocks(i)[k / 4096];
        assert c == b ==> Zeroed(s, c);
      }
    }
  }

  lemma FinishedZeroed(s: Image, t: Image, u: Image, i: nat, b: nat, r: nat)
    requires Shaped(s, i) && Pushed(s, t, i, b) && Finished(t, u, i, b)
    requires u.Blocks(i) == s.Blocks(i) + [b] && r < |u.Blocks(i)| && u.Blocks(i)[r] !in u.usedBlocks
    ensures Zeroed(u, u.Blocks(i)[r])
  {
    hide FlatBlocks, Regions, TakesNext, InodeOk, Apart, TableOk, Image.Blocks;
    TakenIsFree(s, t, i, b);
    var c := u.Blocks(i)[r];
    if c != b {
      assert c == s.Blocks(i)[r] && c !in s.usedBlocks;
      assert Zeroed(s, c);
      assert forall k: nat | k < 4096 :: s.Byte(c, k) == 0;
      assert forall k: nat :: t.Byte(c, k) == s.Byte(c, k);
    }
  }

  lemma FinishedCounts(s: Image, t: Image, i: nat, b: nat)
    requires Shaped(s, i) && Pushed(s, t, i, b)
    ensures t.freeBlocks + |t.usedBlocks * Below(t.numBlocks)| <= t.numBlocks
  {
    hide FlatBlocks, Regions, InodeOk, Apart, TableOk, Image.Blocks, NextBlock, GrownExtents, Zeroed;
    var x := if s.Ino(i).size == 0 then s.FirstFreeBlock() else b;
    OneMoreUsed(s.usedBlocks, s.numBlocks, x);
    SubsetSize(t.usedBlocks * Below(t.numBlocks), (s.usedBlocks + {x}) * Below(s.numBlocks));
  }

  lemma GrewIsShaped(s: Image, t: Image, u: Image, i: nat, b: nat)
    requires Shaped(s, i) && Pushed(s, t, i, b) && Finished(t, u, i, b)
    ensures Shaped(u, i)
  {
    hide FlatBlocks, InodeOk, Apart, Image.Blocks, Zeroed, NextBlock, GrownExtents, BlocksTaken;
    FinishedBytes(s, t, u, i, b);
    FinishedCounts(s, t, i, b);
    forall r: nat | r < |u.Blocks(i)| && u.Blocks(i)[r] !in u.usedBlocks ensures Zeroed(u, u.Blocks(i)[r]) {
      FinishedZeroed(s, t, u, i, b, r);
    }
    forall j: nat | j in u.usedInodes && j != i ensures InodeOk(u, j) && Apart(u, i, j) {
      FinishedFrame(s, t, u, i, b, j);
    }
  }

  lemma FinishedGrew(s: Image, t: Image, u: Image, i: nat, b: nat)
    requires Shaped(s, i) && Pushed(s, t, i, b) && Finished(t, u, i, b)
    ensures Grew(s, u, i, b) && Shaped(u, i) && u.AllBytes(i) == s.AllBytes(i) + Zeros(4096)
  {
    hide FlatBlocks, InodeOk, Apart, Image.Blocks, Zeroed, NextBlock, GrownExtents, BlocksTaken, NodeOf, Shaped;
    FinishedBytes(s, t, u, i, b);
    GrewIsShaped(s, t, u, i, b);
    ShapedRegion(s, i);
    forall j: nat | j in s.usedInodes && j != i ensures NodeOf(u, j) == NodeOf(s, j) {
      FinishedFrame(s, t, u, i, b, j);
    }
  }

  lemma ShapedRegion(s: Image, i: nat)
    requires Shaped(s, i)
    ensures s.numBlocks < s.blockBits && |s.data| == 4096 * s.numBlocks && i < |s.inodes|
  {
  }

  // Growing

  /** When a growth succeeds: the end of the region is not looked at. */
  predicate GrowsAsWritten(s: Image, i: nat) {
    if s.Ino(i).size == 0 then s.freeBlocks >= 2
    else s.freeBlocks >= 1 && (MayMerge(AsWritten, s, i) || s.Ino(i).extentNum < 512)
  }

  /** A growth of a file without a hole at its end. */
  lemma GrowClosed(s: Image, u: Image, i: nat)
    requires Shaped(s, i) && GrowsAsWritten(s, i)
    requires u == if s.Ino(i).size == 0 then Finish(Start(AsWritten, s, i).0, i, 0, Start(AsWritten, s, i).1)
                  else if MayMerge(AsWritten, s, i) then
                    Finish(Merge(s, i), i, |s.Blocks(i)|, s.LastBlock(i) + 1)
                  else Finish(Open(s, i), i, |s.Blocks(i)|, s.FirstFreeBlock())
    ensures Grew(s, u, i, NextBlock(AsWritten, s, i)) && Shaped(u, i)
    ensures u.AllBytes(i) == s.AllBytes(i) + Zeros(4096)
  {
    hide Start, Merge, Open, Finish, MayMerge, FlatBlocks, InodeOk, Apart, Zeroed, Grew, Regions, FirstFree;
    ShapedRegion(s, i);
    var b := NextBlock(AsWritten, s, i);
    if s.Ino(i).size == 0 {
      var (t, c) := Start(AsWritten, s, i);
      StartPushes(s, t, i, c);
      NothingYet(s, i);
      PushedRegion(s, t, i, c);
      FinishFinishes(t, u, i, 0, c);
      FinishedGrew(s, t, u, i, c);
    } else if MayMerge(AsWritten, s, i) {
      MergePushes(s, Merge(s, i), i, b);
      PushedRegion(s, Merge(s, i), i, b);
      FinishFinishes(Merge(s, i), u, i, |s.Blocks(i)|, b);
      FinishedGrew(s, Merge(s, i), u, i, b);
    } else {
      OpenPushes(s, Open(s, i), i, b);
      PushedRegion(s, Open(s, i), i, b);
      FinishFinishes(Open(s, i), u, i, |s.Blocks(i)|, b);
      FinishedGrew(s, Open(s, i), u, i, b);
    }
  }

  lemma NothingYet(s: Image, i: nat)
    requires Shaped(s, i) && s.Ino(i).size == 0
    ensures s.Blocks(i) == [] && s.AllBytes(i) == []
  {
    assert s.Extents(i) == [];
  }

  lemma PushedRegion(s: Image, t: Image, i: nat, b: nat)
    requires Pushed(s, t, i, b)
    ensures t.numBlocks == s.numBlocks && |t.data| == |s.data| && |t.inodes| == |s.inodes|
    ensures t.Blocks(i) == s.Blocks(i) + [b] && b == NextBlock(AsWritten, s, i)
  {
  }

  /** A growth of a file that ends with its last block, or is empty. */
  lemma GrowWhole(s: Image, u: Image, ok: bool, i: nat)
    requires Shaped(s, i) && s.Ino(i).size % 4096 == 0 && (u, ok) == Grow(AsWritten, s, i)
    ensures ok <==> GrowsAsWritten(s, i)
    ensures ok ==> Grew(s, u, i, NextBlock(AsWritten, s, i)) && Shaped(u, i)
    ensures ok ==> u.AllBytes(i) == s.AllBytes(i) + Zeros(4096)
    ensures !ok ==> u == s
  {
    hide Start, Merge, Open, Finish, FlatBlocks, Shaped, Grew, Image.Blocks;
    TableFits(s, i);
    if GrowsAsWritten(s, i) {
      GrowClosed(s, u, i);
    }
  }

  lemma TableFits(s: Image, i: nat)
    requires Shaped(s, i)
    ensures s.Ino(i).extentNum <= 512
  {
  }

  /**
   A growth as written, from any state that satisfies the block invariant: whether it
   succeeds, which block it takes, what it marks, and what the file holds.
   */
  lemma GrowLiterally(s: Image, u: Image, ok: bool, i: nat)
    requires Sound(s) && LiveFile(s, i) && (u, ok) == Grow(AsWritten, s, i)
    ensures ok <==> GrowsAsWritten(s, i)
    ensures ok ==> Grew(s, u, i, NextBlock(AsWritten, s, i)) && Shaped(u, i)
    ensures ok ==> u.AllBytes(i) == Pad(s.Content(i), 4096 * (|s.Blocks(i)| + 1))
    ensures !ok ==> u == s.(data := u.data) && Sound(u) && Abs(u) == Abs(s)
  {
    hide Start, Merge, Open, Finish, FlatBlocks, Shaped, Grew, Image.Blocks, Sound, Pad, NextBlock;
    var s0 := CloseHole(s, i);
    CloseHoleZeroes(s, s0, i);
    SoundIsShaped(s, i);
    SoundIsShaped(s0, i);
    TableFits(s, i);
    SameNext(AsWritten, s, s0, i);
    if GrowsAsWritten(s, i) {
      GrowClosed(s0, u, i);
      GrewBefore(s, s0, u, i, NextBlock(AsWritten, s, i));
      PadBlock(s.Content(i), |s.Blocks(i)|);
      FileShape(s, i);
    }
  }

  lemma PadBlock(c: seq<bv8>, n: nat)
    requires |c| <= 4096 * n
    ensures Pad(c, 4096 * n) + Zeros(4096) == Pad(c, 4096 * (n + 1))
  {
  }

  lemma GrewBefore(s: Image, s0: Image, u: Image, i: nat, b: nat)
    requires s0 == s.(data := s0.data) && Abs(s0) == Abs(s) && Grew(s0, u, i, b)
    ensures Grew(s, u, i, b)
  {
    hide NextBlock, GrownExtents, BlocksTaken, FlatBlocks, NodeOf;
    SameNext(AsWritten, s, s0, i);
    forall j: nat | j in s.usedInodes && j != i ensures NodeOf(u, j) == NodeOf(s, j) {
      assert Abs(s0)[j] == NodeOf(s0, j) && Abs(s)[j] == NodeOf(s, j);
    }
  }

  /**
   The first growth of a file as written: the least free block x becomes the extent table
   and is marked, the least free one above it becomes the file's block and is not.
   */
  lemma FirstGrowthLiterally(s: Image, u: Image, ok: bool, i: nat) returns (x: nat, b: nat)
    requires Sound(s) && LiveFile(s, i) && s.Ino(i).size == 0 && s.freeBlocks >= 2
    requires (u, ok) == Grow(AsWritten, s, i)
    ensures ok && x !in s.usedBlocks && b !in s.usedBlocks && x < b < s.numBlocks
    ensures forall c: nat | c < b :: c in s.usedBlocks || c == x
    ensures u.Blocks(i) == [b] && u.Ino(i).indirect == x && u.Ino(i).size == 4096 && u.AllBytes(i) == Zeros(4096)
    ensures u.usedBlocks == s.usedBlocks + {x} && u.freeBlocks == s.freeBlocks - 2
    ensures OthersAlike(s, u, i) && !u.fault
  {
    hide FlatBlocks, Shaped, Image.Blocks, FirstFree, OthersAlike, Sound, Abs;
    GrowLiterally(s, u, ok, i);
    FileShape(s, i);
    FirstTwo(s, i);
    x, b := s.FirstFreeBlock(), NextBlock(AsWritten, s, i);
  }

  /** The two least free blocks. */
  lemma FirstTwo(s: Image, i: nat)
    requires Sound(s) && s.Ino(i).size == 0 && s.freeBlocks >= 2
    ensures var x, b := s.FirstFreeBlock(), NextBlock(AsWritten, s, i);
            && x !in s.usedBlocks && b !in s.usedBlocks && x < b < s.numBlocks
            && (forall c: nat | c < b :: c in s.usedBlocks || c == x)
    ensures !s.fault
  {
    hide FirstFree, InodeOk, Covered, Apart;
    LeastFree(s);
    StartTwo(s, i);
    assert NextBlock(AsWritten, s, i) == NextBlock(Repaired, s, i);
  }

  /** As written, a file whose last block is the last of the region goes on past it; nothing is stored there. */
  lemma GrowthPastEnd(s: Image, u: Image, ok: bool, i: nat)
    requires Sound(s) && LiveFile(s, i) && s.Ino(i).size > 0 && s.LastBlock(i) + 1 == s.numBlocks && s.freeBlocks >= 1
    requires (u, ok) == Grow(AsWritten, s, i)
    ensures ok && u.Blocks(i) == s.Blocks(i) + [s.numBlocks] && u.Ino(i).extentNum == s.Ino(i).extentNum
    ensures u.Ino(i).size == 4096 * |u.Blocks(i)| && u.AllBytes(i) == Pad(s.Content(i), 4096 * |u.Blocks(i)|)
    ensures u.usedBlocks == s.usedBlocks + {s.numBlocks} && u.freeBlocks == s.freeBlocks - 1
    ensures OthersAlike(s, u, i) && u.fault
  {
    hide FlatBlocks, Shaped, Image.Blocks, FirstFree, OthersAlike, Pad, Sound, Image.AllBytes, Abs;
    PastEndIsFree(s, i);
    GrowLiterally(s, u, ok, i);
    FileShape(s, i);
  }

  lemma PastEndIsFree(s: Image, i: nat)
    requires Sound(s)
    ensures s.numBlocks !in s.usedBlocks && s.numBlocks < s.blockBits && !s.fault
  {
  }

  // Growing several times

  /** From s to u, file i has grown by k blocks; only whole blocks, once it has grown at all. */
  ghost predicate GrewBy(s: Image, u: Image, i: nat, k: nat) {
    && |u.Blocks(i)| == |s.Blocks(i)| + k && s.Blocks(i) <= u.Blocks(i)
    && s.usedBlocks <= u.usedBlocks && u.numBlocks == s.numBlocks
    && u.freeBlocks + k + (if k > 0 && s.Ino(i).size == 0 then 1 else 0) == s.freeBlocks
    && (if k > 0 then u.Ino(i).size == 4096 * |u.Blocks(i)| else u.Ino(i) == s.Ino(i))
    && OthersAlike(s, u, i)
  }

  lemma GrewOnce(s: Image, s1: Image, u: Image, i: nat, b: nat, k: nat)
    requires Grew(s, s1, i, b) && GrewBy(s1, u, i, k)
    ensures GrewBy(s, u, i, k + 1)
  {
    hide NextBlock, GrownExtents, BlocksTaken, FlatBlocks, Image.Blocks;
    OthersTwice(s, s1, u, i);
  }

  lemma OthersTwice(s: Image, s1: Image, u: Image, i: nat)
    requires OthersAlike(s, s1, i) && OthersAlike(s1, u, i)
    ensures OthersAlike(s, u, i)
  {
    hide NodeOf;
    forall j: nat | j in s.usedInodes && j != i ensures NodeOf(u, j) == NodeOf(s, j) {
      assert NodeOf(s1, j) == NodeOf(s, j);
    }
  }

  lemma GrewNothing(s: Image, u: Image, i: nat)
    requires u == s
    ensures GrewBy(s, u, i, 0)
  {
  }

  lemma {:induction false} GrowByWhole(s: Image, u: Image, ok: bool, i: nat, c: seq<bv8>, n: nat) returns (k: nat)
    requires Shaped(s, i) && s.Ino(i).size % 4096 == 0 && (u, ok) == GrowBy(AsWritten, s, i, n)
    requires |c| <= 4096 * |s.Blocks(i)| && s.AllBytes(i) == Pad(c, 4096 * |s.Blocks(i)|)
    ensures k <= n && (ok <==> k == n) && GrewBy(s, u, i, k) && Shaped(u, i)
    ensures u.AllBytes(i) == Pad(c, 4096 * |u.Blocks(i)|) && (!ok ==> !GrowsAsWritten(u, i))
    decreases n
  {
    hide Grow, Shaped, Pad, GrowsAsWritten, GrewBy, Image.AllBytes, FlatBlocks;
    k := 0;
    if n == 0 {
      GrewNothing(s, u, i);
    } else {
      var (s1, ok1) := Grow(AsWritten, s, i);
      GrowByOnce(AsWritten, s, s1, ok1, i, n);
      GrowWhole(s, s1, ok1, i);
      if !ok1 {
        GrewNothing(s, u, i);
      } else {
        GrewWhole(s, s1, i, c);
        k := GrowByWhole(s1, u, ok, i, c, n - 1);
        GrewOnce(s, s1, u, i, NextBlock(AsWritten, s, i), k);
        k := k + 1;
      }
    }
  }

  lemma GrewWhole(s: Image, s1: Image, i: nat, c: seq<bv8>)
    requires Grew(s, s1, i, NextBlock(AsWritten, s, i)) && s1.AllBytes(i) == s.AllBytes(i) + Zeros(4096)
    requires |c| <= 4096 * |s.Blocks(i)| && s.AllBytes(i) == Pad(c, 4096 * |s.Blocks(i)|)
    ensures s1.Ino(i).size % 4096 == 0 && |s1.Blocks(i)| == |s.Blocks(i)| + 1
    ensures s1.AllBytes(i) == Pad(c, 4096 * |s1.Blocks(i)|)
  {
    hide NextBlock, Image.Blocks, Image.AllBytes, FlatBlocks, OthersAlike;
    PadBlock(c, |s.Blocks(i)|);
  }

  /**
   n growths as written: how many succeed, until one cannot; every one adds a block and
   costs the counter one (the first of an empty file two), and the file holds its old
   content followed by zeros.
   */
  lemma GrowByLiterally(s: Image, u: Image, ok: bool, i: nat, n: nat) returns (k: nat)
    requires Sound(s) && LiveFile(s, i) && n > 0 && (u, ok) == GrowBy(AsWritten, s, i, n)
    ensures k <= n && (ok <==> k == n) && GrewBy(s, u, i, k)
    ensures k > 0 ==> Shaped(u, i) && u.AllBytes(i) == Pad(s.Content(i), 4096 * |u.Blocks(i)|)
    ensures k == 0 ==> Sound(u) && Abs(u) == Abs(s) && !GrowsAsWritten(s, i)
    ensures !ok ==> !GrowsAsWritten(u, i)
  {
    hide Grow, Shaped, Pad, GrowsAsWritten, Image.AllBytes, FlatBlocks, Sound, GrewBy, Image.Blocks;
    hide NextBlock, Image.Content;
    var (s1, ok1) := Grow(AsWritten, s, i);
    GrowByOnce(AsWritten, s, s1, ok1, i, n);
    GrowLiterally(s, s1, ok1, i);
    if !ok1 {
      k := 0;
      GrewOnlyData(s, u, i);
    } else {
      FileShape(s, i);
      WholeAfterGrowth(s, s1, i);
      k := GrowByWhole(s1, u, ok, i, s.Content(i), n - 1);
      GrewOnce(s, s1, u, i, NextBlock(AsWritten, s, i), k);
      k := k + 1;
    }
  }

  lemma WholeAfterGrowth(s: Image, s1: Image, i: nat)
    requires Grew(s, s1, i, NextBlock(AsWritten, s, i))
    ensures s1.Ino(i).size % 4096 == 0 && |s1.Blocks(i)| == |s.Blocks(i)| + 1
  {
    hide NextBlock, Image.Blocks, OthersAlike;
  }

  lemma GrewOnlyData(s: Image, u: Image, i: nat)
    requires u == s.(data := u.data) && Abs(u) == Abs(s)
    ensures GrewBy(s, u, i, 0) && GrowsAsWritten(u, i) == GrowsAsWritten(s, i)
  {
    hide NodeOf, FlatBlocks;
    SameNext(AsWritten, s, u, i);
    forall j: nat | j in s.usedInodes ensures NodeOf(u, j) == NodeOf(s, j) {
      assert Abs(u)[j] == NodeOf(u, j) && Abs(s)[j] == NodeOf(s, j);
    }
  }

  // Writing past the allocation

  lemma LastOf(s: Image, i: nat)
    requires TableOk(s, i) && |s.Blocks(i)| > 0
    ensures s.LastBlock(i) == s.Blocks(i)[|s.Blocks(i)| - 1] && s.LastBlock(i) in s.Owned(i)
  {
    var m := s.Ino(i).extentNum - 1;
    assert s.Extents(i)[..0] == [];
    assert m >= 0 && s.Extents(i)[m].count >= 1;
    FlatBlocksAt(s.Extents(i), m, s.Extents(i)[m].count - 1);
    assert s.Extents(i)[..m + 1] == s.Extents(i);
    BlocksOwned(s, i, s.LastBlock(i));
  }

  /** Byte k of the file after buf has been put at `at` in block b. */
  function Poked(s: Image, i: nat, b: nat, at: nat, buf: seq<bv8>, k: nat): bv8
    requires k < |s.AllBytes(i)|
  {
    if b < s.numBlocks && s.Blocks(i)[k / 4096] == b && at <= k % 4096 < at + |buf| then buf[k % 4096 - at]
    else s.AllBytes(i)[k]
  }

  /** The data goes into the last block, wherever the file holds that block, or is lost when it lies past the region. */
  ghost predicate LastWritten(s: Image, t: Image, i: nat, b: nat, at: nat, buf: seq<bv8>, size: nat) {
    && t == s.(data := t.data, inodes := t.inodes, fault := t.fault)
    && t.Ino(i) == s.Ino(i).(size := size) && t.Extents(i) == s.Extents(i) && t.Blocks(i) == s.Blocks(i)
    && OthersAlike(s, t, i) && (t.fault <==> s.fault || b >= s.numBlocks)
    && |t.AllBytes(i)| == |s.AllBytes(i)|
    && forall k: nat | k < |s.AllBytes(i)| :: t.AllBytes(i)[k] == Poked(s, i, b, at, buf, k)
  }

  lemma LastWriteWrites(s: Image, t: Image, i: nat, b: nat, at: nat, buf: seq<bv8>, size: nat)
    requires Shaped(s, i) && |s.Blocks(i)| > 0 && b == s.Blocks(i)[|s.Blocks(i)| - 1]
    requires 0 < |buf| && at + |buf| <= 4096 && t == WriteLast(s, i, buf, at, size)
    ensures LastWritten(s, t, i, b, at, buf, size)
  {
    hide FlatBlocks, Image.Blocks, Image.PutBytes, Zeroed, InodeOk, Apart, NodeOf, Regions, Poked;
    LastOf(s, i);
    ShapedRegion(s, i);
    var s1 := s.PutBytes(b * 4096 + at, buf);
    PokeEffect(s, s1, b, at, buf);
    SameTables(s, t, i);
    assert forall c: nat, k: nat :: t.Byte(c, k) == s1.Byte(c, k);
    LastWriteBytes(s, t, i, b, at, buf);
    LastWriteOthers(s, t, i, b);
  }

  lemma PokeEffect(s: Image, t: Image, b: nat, at: nat, buf: seq<bv8>)
    requires |s.data| == 4096 * s.numBlocks && 0 < |buf| && at + |buf| <= 4096 && t == s.PutBytes(b * 4096 + at, buf)
    ensures t == s.(data := t.data, fault := t.fault) && |t.data| == |s.data|
    ensures t.fault <==> s.fault || b >= s.numBlocks
    ensures forall c: nat, k: nat | k < 4096 ::
              t.Byte(c, k) == if b < s.numBlocks && c == b && at <= k < at + |buf| then buf[k - at] else s.Byte(c, k)
  {
    if b < s.numBlocks {
      PutBytesEffect(s, t, b, at, buf);
    }
  }

  lemma LastWriteBytes(s: Image, t: Image, i: nat, b: nat, at: nat, buf: seq<bv8>)
    requires t.Blocks(i) == s.Blocks(i)
    requires forall c: nat, k: nat | k < 4096 ::
               t.Byte(c, k) == if b < s.numBlocks && c == b && at <= k < at + |buf| then buf[k - at] else s.Byte(c, k)
    ensures |t.AllBytes(i)| == |s.AllBytes(i)|
    ensures forall k: nat | k < |s.AllBytes(i)| :: t.AllBytes(i)[k] == Poked(s, i, b, at, buf, k)
  {
  }

  lemma LastWriteOthers(s: Image, t: Image, i: nat, b: nat)
    requires Shaped(s, i) && b in s.Owned(i) && t.tables == s.tables && t.slots == s.slots
    requires t.usedInodes == s.usedInodes && t.freeInodes == s.freeInodes
    requires forall j: nat {:trigger t.Ino(j)} | j != i :: t.Ino(j) == s.Ino(j)
    requires forall c: nat, k: nat | k < 4096 && c != b :: t.Byte(c, k) == s.Byte(c, k)
    ensures OthersAlike(s, t, i)
  {
    hide FlatBlocks, Image.Blocks, Zeroed, NodeOf, Regions, TableOk;
    forall j: nat | j in s.usedInodes && j != i ensures NodeOf(t, j) == NodeOf(s, j) {
      assert InodeOk(s, j) && Apart(s, i, j);
      assert forall c: nat, k: nat :: t.Ext(c, k) == s.Ext(c, k) && t.Slot(c, k) == s.Slot(c, k);
      forall c: nat | c in s.Owned(j) ensures Kept(s, t, c) {
        assert c in Elements(s.Owned(j)) && b in Elements(s.Owned(i));
      }
      NodeFrame(s, t, j);
    }
  }

  /** A write goes through as many growths as it lacks blocks, and then only writes data and the size. */
  lemma WriteGrowsBy(
    code: Code, s: Image, g: Image, ok: bool, t: Image, status: Status, i: nat, buf: seq<bv8>, off: nat)
    requires |buf| > 0 && off + |buf| > s.Ino(i).size
    requires 4096 * |s.Blocks(i)| < off + |buf| <= 4096 * (|s.Blocks(i)| + 2)
    requires (g, ok) == GrowBy(code, s, i, Lacking(s, i, off + |buf|)) && (t, status) == Write(code, s, i, buf, off)
    ensures status == if ok then Done else NoSpace
    ensures t == if !ok then g else
                   WriteLast(g, i, buf,
                             if code.AsWritten? && Lacking(s, i, off + |buf|) == 2 then 0 else off % 4096, off + |buf|)
    ensures BlocksAsIn(g, t, i) && (ok && i < |g.inodes| ==> t.Ino(i) == g.Ino(i).(size := off + |buf|))
  {
    hide Grow, WriteLast, Image.Blocks, Lacking;
    LackingOneOrTwo(s, i, off + |buf|);
    var (s1, ok1) := Grow(code, s, i);
    GrowByOnce(code, s, s1, ok1, i, Lacking(s, i, off + |buf|));
    if ok1 && Lacking(s, i, off + |buf|) == 2 {
      var (s2, ok2) := Grow(code, s1, i);
      GrowByOnce(code, s1, s2, ok2, i, 1);
    }
    SameBlocksAsIn(g, i);
    LastKeepsBlocks(g, i, buf, off % 4096, off + |buf|);
    LastKeepsBlocks(g, i, buf, 0, off + |buf|);
  }

  lemma LastKeepsBlocks(g: Image, i: nat, buf: seq<bv8>, at: nat, size: nat)
    ensures BlocksAsIn(g, WriteLast(g, i, buf, at, size), i)
    ensures i < |g.inodes| ==> WriteLast(g, i, buf, at, size).Ino(i) == g.Ino(i).(size := size)
  {
    SameTables(g, WriteLast(g, i, buf, at, size), i);
  }

  /** Blocks, extents, bitmaps, counters and tables as after the growths alone. */
  predicate BlocksAsIn(g: Image, t: Image, i: nat) {
    && t.Blocks(i) == g.Blocks(i) && t.Extents(i) == g.Extents(i) && t.tables == g.tables
    && t.usedBlocks == g.usedBlocks && t.freeBlocks == g.freeBlocks
  }

  /**
   A write one block past the allocation, as written: when it succeeds, the block it takes,
   and the content; data for a block past the region is lost.
   */
  lemma WriteOneBlockLiterally(s: Image, t: Image, status: Status, i: nat, buf: seq<bv8>, off: nat) returns (b: nat)
    requires Sound(s) && LiveFile(s, i) && |buf| > 0 && WriteAllowed(s, i, buf, off)
    requires 4096 * |s.Blocks(i)| < off + |buf| <= 4096 * (|s.Blocks(i)| + 1)
    requires (t, status) == Write(AsWritten, s, i, buf, off)
    ensures b == NextBlock(AsWritten, s, i)
    ensures status == if GrowsAsWritten(s, i) then Done else NoSpace
    ensures status.NoSpace? ==> Sound(t) && Abs(t) == Abs(s) && t == s.(data := t.data)
    ensures status.Done? ==> TakesNext(AsWritten, s, t, i, b) && t.Blocks(i) == s.Blocks(i) + [b]
    ensures status.Done? ==> OthersAlike(s, t, i)
    ensures status.Done? ==> t.Ino(i).size == off + |buf| && (t.fault <==> b >= s.numBlocks)
    ensures status.Done? && b < s.numBlocks ==> t.Content(i) == Overlay(s.Content(i), off, buf)
    ensures status.Done? && b >= s.numBlocks ==> t.Content(i) == Pad(s.Content(i), off + |buf|)
  {
    hide Grow, WriteLast, FlatBlocks, Image.Blocks, Image.AllBytes, Image.Content, Shaped, Sound, NextBlock, Poked;
    hide GrownExtents, BlocksTaken, OthersAlike, Overlay, Pad, Abs, Write;
    FileShape(s, i);
    var (g, ok) := Grow(AsWritten, s, i);
    b := NextBlock(AsWritten, s, i);
    LackingOneOrTwo(s, i, off + |buf|);
    GrowByOnce(AsWritten, s, g, ok, i, 1);
    WriteGrowsBy(AsWritten, s, g, ok, t, status, i, buf, off);
    GrowLiterally(s, g, ok, i);
    if ok {
      OneBlockData(s, g, t, i, b, buf, off);
    }
  }

  lemma OneBlockData(s: Image, g: Image, t: Image, i: nat, b: nat, buf: seq<bv8>, off: nat)
    requires Sound(s) && LiveFile(s, i) && |buf| > 0 && off / 4096 == (off + |buf| - 1) / 4096
    requires 4096 * |s.Blocks(i)| < off + |buf| <= 4096 * (|s.Blocks(i)| + 1)
    requires Grew(s, g, i, b) && Shaped(g, i) && b == NextBlock(AsWritten, s, i)
    requires g.AllBytes(i) == Pad(s.Content(i), 4096 * (|s.Blocks(i)| + 1))
    requires t == WriteLast(g, i, buf, off % 4096, off + |buf|)
    ensures TakesNext(AsWritten, s, t, i, b) && t.Blocks(i) == s.Blocks(i) + [b] && OthersAlike(s, t, i)
    ensures t.Ino(i).size == off + |buf| && (t.fault <==> b >= s.numBlocks)
    ensures b < s.numBlocks ==> t.Content(i) == Overlay(s.Content(i), off, buf)
    ensures b >= s.numBlocks ==> t.Content(i) == Pad(s.Content(i), off + |buf|)
  {
    hide WriteLast, FlatBlocks, Image.Blocks, Shaped, NextBlock, GrownExtents, BlocksTaken, OthersAlike;
    hide Image.AllBytes, Overlay, Pad;
    NextIsNew(s, i, b);
    LastWriteWrites(g, t, i, b, off % 4096, buf, off + |buf|);
    OthersTwice(s, g, t, i);
    FileShape(s, i);
    OneBlockBytes(s, g, t, i, b, buf, off);
  }

  lemma NextIsNew(s: Image, i: nat, b: nat)
    requires Sound(s) && LiveFile(s, i) && b !in s.usedBlocks
    ensures b !in s.Blocks(i) && !s.fault
  {
    hide FlatBlocks, Image.Blocks;
    forall r: nat | r < |s.Blocks(i)| ensures s.Blocks(i)[r] in s.usedBlocks {
      OwnedInRange(s, i, r);
    }
  }

  lemma OneBlockBytes(s: Image, g: Image, t: Image, i: nat, b: nat, buf: seq<bv8>, off: nat)
    requires |buf| > 0 && off / 4096 == (off + |buf| - 1) / 4096 && |s.Content(i)| <= 4096 * |s.Blocks(i)|
    requires 4096 * |s.Blocks(i)| < off + |buf| <= 4096 * (|s.Blocks(i)| + 1)
    requires g.Blocks(i) == s.Blocks(i) + [b] && b !in s.Blocks(i) && g.numBlocks == s.numBlocks
    requires g.AllBytes(i) == Pad(s.Content(i), 4096 * (|s.Blocks(i)| + 1))
    requires LastWritten(g, t, i, b, off % 4096, buf, off + |buf|)
    ensures b < s.numBlocks ==> t.Content(i) == Overlay(s.Content(i), off, buf)
    ensures b >= s.numBlocks ==> t.Content(i) == Pad(s.Content(i), off + |buf|)
  {
    hide FlatBlocks, Image.Blocks, Image.AllBytes, OthersAlike;
    var n, end, c := |s.Blocks(i)|, off + |buf|, s.Content(i);
    var want := if b < s.numBlocks then Overlay(c, off, buf) else Pad(c, end);
    assert t.Content(i) == t.AllBytes(i)[..end] && |want| == end;
    forall k: nat | k < end ensures t.AllBytes(i)[k] == want[k] {
      assert t.AllBytes(i)[k] == Poked(g, i, b, off % 4096, buf, k);
      assert k / 4096 < n ==> g.Blocks(i)[k / 4096] == s.Blocks(i)[k / 4096];
      assert k / 4096 < n ==> s.Blocks(i)[k / 4096] in s.Blocks(i);
      assert k / 4096 == n ==> g.Blocks(i)[k / 4096] == b;
    }
  }

  /**
   The first write to a file, as written: it succeeds when two blocks are free, and the
   file holds the data behind zeros. Only the bitmap is wrong afterwards.
   */
  lemma FirstWriteLiterally(s: Image, t: Image, status: Status, i: nat, buf: seq<bv8>, off: nat)
    returns (x: nat, b: nat)
    requires Sound(s) && LiveFile(s, i) && s.Ino(i).size == 0 && s.freeBlocks >= 2
    requires |buf| > 0 && off + |buf| <= 4096 && (t, status) == Write(AsWritten, s, i, buf, off)
    ensures status == Done && t.Ino(i).size == off + |buf| && t.Content(i) == Overlay([], off, buf)
    ensures x !in s.usedBlocks && b !in s.usedBlocks && x < b < s.numBlocks
    ensures forall c: nat | c < b :: c in s.usedBlocks || c == x
    ensures t.Blocks(i) == [b] && t.Ino(i).indirect == x && t.usedBlocks == s.usedBlocks + {x}
    ensures t.freeBlocks == s.freeBlocks - 2 && OthersAlike(s, t, i) && !t.fault
  {
    hide Grow, FlatBlocks, Image.Blocks, FirstFree, OthersAlike, Write, Overlay, Abs, Sound;
    FileShape(s, i);
    FirstTwo(s, i);
    b := WriteOneBlockLiterally(s, t, status, i, buf, off);
    x := s.FirstFreeBlock();
  }

  /** A write that grows past the end of the region, as written: it succeeds, and the data is lost. */
  lemma WritePastEndLiterally(s: Image, t: Image, status: Status, i: nat, buf: seq<bv8>, off: nat)
    requires Sound(s) && LiveFile(s, i) && |buf| > 0 && WriteAllowed(s, i, buf, off)
    requires s.Ino(i).size > 0 && s.LastBlock(i) + 1 == s.numBlocks && s.freeBlocks >= 1
    requires 4096 * |s.Blocks(i)| < off + |buf| <= 4096 * (|s.Blocks(i)| + 1)
    requires (t, status) == Write(AsWritten, s, i, buf, off)
    ensures status == Done && t.Ino(i).size == off + |buf| && t.Content(i) == Pad(s.Content(i), off + |buf|) && t.fault
    ensures t.Blocks(i) == s.Blocks(i) + [s.numBlocks] && t.usedBlocks == s.usedBlocks + {s.numBlocks}
    ensures t.freeBlocks == s.freeBlocks - 1 && OthersAlike(s, t, i)
  {
    hide Grow, FlatBlocks, Image.Blocks, FirstFree, OthersAlike, Write, Overlay, Abs, Pad, WriteAllowed, Sound;
    PastEndIsFree(s, i);
    var b := WriteOneBlockLiterally(s, t, status, i, buf, off);
  }

  /** Byte k after a write two blocks past the allocation: the data stands at the start of the last block. */
  function MisplacedByte(c: seq<bv8>, blocks: seq<nat>, size: nat, buf: seq<bv8>, k: nat): bv8
    requires k < 4096 * |blocks|
  {
    var b := blocks[|blocks| - 1];
    if b < size && blocks[k / 4096] == b && k % 4096 < |buf| then buf[k % 4096]
    else if k < |c| then c[k] else 0
  }

  /**
   A write two blocks past the allocation, as written: the growths that succeed, and the
   content, byte by byte.
   */
  lemma WriteTwoBlocksLiterally(s: Image, g: Image, ok: bool, t: Image, status: Status, i: nat, buf: seq<bv8>, off: nat)
    returns (k: nat)
    requires Sound(s) && LiveFile(s, i) && |buf| > 0 && WriteAllowed(s, i, buf, off)
    requires off + |buf| > 4096 * (|s.Blocks(i)| + 1)
    requires (g, ok) == GrowBy(AsWritten, s, i, 2) && (t, status) == Write(AsWritten, s, i, buf, off)
    ensures k <= 2 && GrewBy(s, g, i, k) && BlocksAsIn(g, t, i) && OthersAlike(s, t, i)
    ensures status == if k == 2 then Done else NoSpace
    ensures k < 2 ==> t == g && !GrowsAsWritten(t, i)
    ensures k == 0 ==> Abs(t) == Abs(s)
    ensures k == 1 ==> t.Content(i) == Pad(s.Content(i), 4096 * (|s.Blocks(i)| + 1))
    ensures k == 2 ==> t.Ino(i).size == |t.Content(i)| == off + |buf|
    ensures k == 2 ==> forall j: nat | j < |t.Content(i)| && j < 4096 * |t.Blocks(i)| ::
                         t.Content(i)[j] == MisplacedByte(s.Content(i), t.Blocks(i), s.numBlocks, buf, j)
  {
    hide Grow, WriteLast, FlatBlocks, Image.Blocks, Image.AllBytes, Image.Content, Shaped, Sound, Write, GrewBy;
    hide OthersAlike, Pad, Abs, BlocksAsIn, MisplacedByte;
    FileShape(s, i);
    LackingOneOrTwo(s, i, off + |buf|);
    WriteGrowsBy(AsWritten, s, g, ok, t, status, i, buf, off);
    k := GrowByLiterally(s, g, ok, i, 2);
    GrewNumbers(s, g, i, k);
    if ok {
      TwoBlocksData(s, g, t, i, buf, off);
    } else {
      SameBlocksAsIn(g, i);
      if k == 1 {
        WholeContent(g, i);
      }
    }
  }

  lemma GrewNumbers(s: Image, g: Image, i: nat, k: nat)
    requires GrewBy(s, g, i, k)
    ensures |g.Blocks(i)| == |s.Blocks(i)| + k && OthersAlike(s, g, i) && g.numBlocks == s.numBlocks
    ensures k > 0 ==> g.Ino(i).size == 4096 * |g.Blocks(i)|
  {
    hide OthersAlike;
  }

  lemma SameBlocksAsIn(g: Image, i: nat)
    ensures BlocksAsIn(g, g, i)
  {
  }

  lemma WholeContent(g: Image, i: nat)
    requires g.Ino(i).size == 4096 * |g.Blocks(i)|
    ensures g.Content(i) == g.AllBytes(i)
  {
  }

  lemma TwoBlocksData(s: Image, g: Image, t: Image, i: nat, buf: seq<bv8>, off: nat)
    requires |s.Content(i)| <= 4096 * |s.Blocks(i)| && 0 < |buf| <= 4096
    requires 4096 * (|s.Blocks(i)| + 1) < off + |buf| <= 4096 * (|s.Blocks(i)| + 2)
    requires GrewBy(s, g, i, 2) && Shaped(g, i) && g.AllBytes(i) == Pad(s.Content(i), 4096 * |g.Blocks(i)|)
    requires t == WriteLast(g, i, buf, 0, off + |buf|)
    ensures BlocksAsIn(g, t, i) && OthersAlike(s, t, i) && t.Ino(i).size == |t.Content(i)| == off + |buf|
    ensures forall j: nat | j < |t.Content(i)| && j < 4096 * |t.Blocks(i)| ::
              t.Content(i)[j] == MisplacedByte(s.Content(i), t.Blocks(i), s.numBlocks, buf, j)
  {
    hide WriteLast, FlatBlocks, Image.Blocks, Shaped, OthersAlike, Image.AllBytes;
    var b := g.Blocks(i)[|g.Blocks(i)| - 1];
    LastWriteWrites(g, t, i, b, 0, buf, off + |buf|);
    OthersTwice(s, g, t, i);
    WholeContent(g, i);
    assert |g.AllBytes(i)| == 4096 * |g.Blocks(i)|;
    forall j: nat | j < off + |buf|
      ensures t.AllBytes(i)[j] == MisplacedByte(s.Content(i), t.Blocks(i), s.numBlocks, buf, j)
    {
      assert t.AllBytes(i)[j] == Poked(g, i, b, 0, buf, j);
    }
    assert t.Content(i) == t.AllBytes(i)[..off + |buf|];
  }

  // Extending

  /** How many blocks an extension adds: what the file lacks, or, from 2^32 bytes on, what 32 bits leave of it. */
  predicate AddsBlocks(s: Image, i: nat, size: nat, more: nat) {
    more == if size < 0x1_0000_0000 then Lacking(s, i, size)
            else Wrap32(Wrap32(size) / 4096 + (if size % 4096 == 0 then 0 else 1) - |s.Blocks(i)|)
  }

  /** The bytes an extension leaves: the old ones as they were, or padded with zeros when it has grown. */
  function ExtendedBytes(s: Image, i: nat, k: nat): seq<bv8> {
    if k == 0 then s.AllBytes(i) else Pad(s.Content(i), 4096 * (|s.Blocks(i)| + k))
  }

  /** As much as there is of the first n bytes. */
  function UpTo(bytes: seq<bv8>, n: nat): seq<bv8> {
    if n <= |bytes| then bytes[..n] else bytes
  }

  /**
   An extending truncation as written: the growths that succeed, the size (which is the
   new one even when the file has no blocks for it), and the content.
   */
  lemma ExtendLiterally(s: Image, g: Image, ok: bool, t: Image, status: Status, i: nat, size: nat, more: nat)
    returns (k: nat)
    requires Sound(s) && LiveFile(s, i) && size > s.Ino(i).size && AddsBlocks(s, i, size, more)
    requires (g, ok) == GrowBy(AsWritten, s, i, more) && (t, status) == Truncate(AsWritten, s, i, size)
    ensures k <= more && GrewBy(s, g, i, k) && BlocksAsIn(g, t, i) && OthersAlike(s, t, i)
    ensures status == if k == more then Done else NoSpace
    ensures k < more ==> t == g && !GrowsAsWritten(t, i)
    ensures status.Done? ==> t.Ino(i).size == size && t.Content(i) == UpTo(ExtendedBytes(s, i, k), size)
    ensures status.NoSpace? ==>
              t.Content(i) == if k == 0 then s.Content(i) else Pad(s.Content(i), 4096 * (|s.Blocks(i)| + k))
  {
    hide Grow, GrowBy, FlatBlocks, Image.Blocks, Image.AllBytes, Image.Content, Shaped, Sound, GrewBy, OthersAlike, Pad;
    hide Abs, BlocksAsIn, BlocksToAdd, Lacking;
    AddsAreBlocksToAdd(s, i, size, more);
    LiveInTable(s, i);
    if more == 0 {
      k := 0;
      GrewNothing(s, s, i);
      GrownNone(s, i);
      SizeOnly(s, t, i, size);
    } else {
      k := GrowByLiterally(s, g, ok, i, more);
      GrewNumbers(s, g, i, k);
      if ok {
        ShapedRegion(g, i);
        SizeOnly(g, t, i, size);
        OthersTwice(s, g, t, i);
      } else {
        SameBlocksAsIn(g, i);
        if k > 0 {
          WholeContent(g, i);
        } else {
          SameContent(s, g, i);
        }
      }
    }
  }

  /** On both readings an extension grows the file by the blocks it adds, and then only sets the size. */
  lemma ExtendGrowsBy(code: Code, s: Image, g: Image, ok: bool, t: Image, status: Status, i: nat, size: nat, more: nat)
    requires size > s.Ino(i).size && i < |s.inodes| && more == BlocksToAdd(code, s, i, size) && |g.inodes| == |s.inodes|
    requires (g, ok) == GrowBy(code, s, i, more) && (t, status) == Truncate(code, s, i, size)
    ensures status == if ok then Done else NoSpace
    ensures BlocksAsIn(g, t, i) && t.Ino(i) == if ok then g.Ino(i).(size := size) else g.Ino(i)
  {
    hide GrowBy, FlatBlocks, Image.PutBytes;
    if code.Repaired? && more == 0 {
      RepairedNone(s, i);
      RepairedNone(CloseHole(s, i), i);
      HoleKeepsBlocks(s, i);
    }
    SameTables(g, t, i);
  }

  lemma RepairedNone(s: Image, i: nat)
    ensures GrowBy(Repaired, s, i, 0) == (s, true)
  {
  }

  lemma HoleKeepsBlocks(s: Image, i: nat)
    ensures BlocksAsIn(s, CloseHole(s, i), i) && CloseHole(s, i).inodes == s.inodes
  {
    SameTables(s, CloseHole(s, i), i);
  }

  lemma AddsAreBlocksToAdd(s: Image, i: nat, size: nat, more: nat)
    requires Sound(s) && LiveFile(s, i) && size > s.Ino(i).size && AddsBlocks(s, i, size, more)
    ensures more == BlocksToAdd(AsWritten, s, i, size)
  {
    if size < 0x1_0000_0000 {
      BlocksToAddAgree(s, i, size);
    }
  }

  lemma LiveInTable(s: Image, i: nat)
    requires Sound(s) && i in s.usedInodes
    ensures i < |s.inodes|
  {
  }

  lemma GrownNone(s: Image, i: nat)
    ensures GrowBy(AsWritten, s, i, 0) == (s, true)
  {
  }

  lemma SameContent(s: Image, g: Image, i: nat)
    requires LiveFile(s, i) && Abs(g) == Abs(s)
    ensures g.Content(i) == s.Content(i)
  {
    assert Abs(g)[i] == NodeOf(g, i) && Abs(s)[i] == NodeOf(s, i);
  }

  lemma SizeOnly(g: Image, t: Image, i: nat, size: nat)
    requires i < |g.inodes| && t == g.SetSize(i, size)
    ensures BlocksAsIn(g, t, i) && OthersAlike(g, t, i) && t.Ino(i).size == size
    ensures t.Content(i) == UpTo(g.AllBytes(i), size)
  {
    SameTables(g, t, i);
    SameViews(g, t, i);
    forall j: nat | j in g.usedInodes && j != i ensures NodeOf(t, j) == NodeOf(g, j) {
      UnchangedNode(g, t, j);
    }
  }

  // Cutting

  /** Releasing blocks that may lie past the bitmap. */
  lemma {:induction false} ReleaseAllAny(s: Image, t: Image, bs: seq<nat>)
    requires (forall b | b in s.usedBlocks :: b < s.blockBits) && t == s.ReleaseAll(bs)
    ensures t == s.(usedBlocks := s.usedBlocks - Elements(bs), freeBlocks := s.freeBlocks + |bs|, fault := t.fault)
    ensures t.fault <==> s.fault || exists k :: 0 <= k < |bs| && bs[k] >= s.blockBits
    decreases |bs|
  {
    if bs == [] {
      assert s.usedBlocks - Elements(bs) == s.usedBlocks;
    } else {
      var m := |bs| - 1;
      assert bs == bs[..m] + [bs[m]];
      var s1 := s.ReleaseAll(bs[..m]);
      ReleaseAllAny(s, s1, bs[..m]);
      assert Elements(bs) == Elements(bs[..m]) + {bs[m]};
      assert s.usedBlocks - Elements(bs) == s1.usedBlocks - {bs[m]};
      assert forall k | 0 <= k < m :: bs[..m][k] == bs[k];
    }
  }

  /** The data region taken for a bitmap. */
  lemma {:induction false} ScribbleAllBits(s: Image, t: Image, bs: seq<nat>)
    requires t == s.ScribbleAll(bs) && forall k | 0 <= k < |bs| :: bs[k] < 8 * |s.data|
    ensures t == s.(data := t.data, freeBlocks := s.freeBlocks + |bs|) && |t.data| == |s.data|
    ensures Bits(t.data) == Bits(s.data) - Elements(bs)
    decreases |bs|
  {
    if bs == [] {
      assert Bits(s.data) - Elements(bs) == Bits(s.data);
    } else {
      var m := |bs| - 1;
      var s1 := s.ScribbleAll(bs[..m]);
      ScribbleAllBits(s, s1, bs[..m]);
      ClearBitBits(s1.data, bs[m]);
      assert bs == bs[..m] + [bs[m]];
      assert Elements(bs) == Elements(bs[..m]) + {bs[m]};
    }
  }

  /** Two byte sequences of the same length with the same bits are the same. */
  lemma SameBitsSameBytes(x: seq<bv8>, y: seq<bv8>)
    requires |x| == |y| && Bits(x) == Bits(y)
    ensures x == y
  {
    forall k | 0 <= k < |x| ensures x[k] == y[k] {
      forall j: nat | j < 8 ensures x[k] & Mask(j) != 0 <==> y[k] & Mask(j) != 0 {
        assert IsBitSet(x, 8 * k + j) <==> 8 * k + j in Bits(x);
        assert IsBitSet(y, 8 * k + j) <==> 8 * k + j in Bits(y);
      }
      SameMasksSameByte(x[k], y[k]);
    }
  }

  lemma SameMasksSameByte(a: bv8, b: bv8)
    requires forall j: nat | j < 8 :: a & Mask(j) != 0 <==> b & Mask(j) != 0
    ensures a == b
  {
    assert Mask(0) == 1 && Mask(1) == 2 && Mask(2) == 4 && Mask(3) == 8;
    assert Mask(4) == 16 && Mask(5) == 32 && Mask(6) == 64 && Mask(7) == 128;
  }

  /** What a cut as written leaves: all but the blocks it frees is told by the extents before it. */
  ghost predicate CutLeaves(s: Image, t: Image, i: nat, size: nat, m: nat, kept: nat, freed: set<nat>) {
    && m < |s.Extents(i)|
    && t == s.(usedBlocks := s.usedBlocks - freed, freeBlocks := s.freeBlocks + Minus(|s.Blocks(i)|, CeilBlocks(size)),
               tables := t.tables, data := t.data, inodes := t.inodes, fault := t.fault)
    && t.Extents(i) == s.Extents(i)[..m] + [s.Extents(i)[m].(count := kept)]
    && t.Ino(i) == s.Ino(i).(extentNum := m + 1, size := size)
    && (forall j: nat {:trigger t.Ino(j)} | j != i :: t.Ino(j) == s.Ino(j))
    && (forall c: nat, k: nat | c != s.Ino(i).indirect && k < 512 :: t.Ext(c, k) == s.Ext(c, k))
    && |t.data| == |s.data| && Bits(t.data) == Bits(s.data) - Elements(FlatBlocks(s.Extents(i)[m + 1..]))
  }

  /** The tail of the cut extent, shifted by one. */
  lemma TailElements(tail: seq<nat>, from: nat, count: nat)
    requires 0 < from && from + count <= 0x1_0000_0000 && tail == CutTail(AsWritten, from, count)
    ensures |tail| == count && Elements(tail) == Span(from - 1, count)
    ensures forall k | 0 <= k < count :: tail[k] == from - 1 + k
  {
    forall k: nat | k < count ensures tail[k] == from - 1 + k {
      assert Wrap32(from + k - 1) == from + k - 1;
    }
    forall b: nat | b in Span(from - 1, count) ensures b in tail {
      assert tail[b - (from - 1)] == b;
    }
  }

  lemma LaterInRange(s: Image, i: nat, m: nat)
    requires Sound(s) && i in s.usedInodes && m < |s.Extents(i)|
    ensures var e := s.Extents(i)[m]; e.start + e.count <= s.numBlocks && e.count >= 1
    ensures var later := FlatBlocks(s.Extents(i)[m + 1..]);
            && |FlatBlocks(s.Extents(i)[..m])| + s.Extents(i)[m].count + |later| == |s.Blocks(i)|
            && forall k | 0 <= k < |later| :: later[k] < s.numBlocks
  {
    hide FlatBlocks, Covered, Apart;
    assert InodeOk(s, i);
    LaterSplits(s.Extents(i), m);
    var e, c, later := s.Extents(i)[m], |FlatBlocks(s.Extents(i)[..m])|, FlatBlocks(s.Extents(i)[m + 1..]);
    OwnedInRange(s, i, c + e.count - 1);
    forall k | 0 <= k < |later| ensures later[k] < s.numBlocks {
      OwnedInRange(s, i, c + e.count + k);
    }
  }

  /** The blocks before extent m, its last block, and the blocks after it. */
  lemma LaterSplits(extents: seq<Extent>, m: nat)
    requires m < |extents| && extents[m].count >= 1
    ensures var e, c, later := extents[m], |FlatBlocks(extents[..m])|, FlatBlocks(extents[m + 1..]);
            && c + e.count + |later| == |FlatBlocks(extents)|
            && FlatBlocks(extents)[c + e.count - 1] == e.start + e.count - 1
            && forall k | 0 <= k < |later| :: later[k] == FlatBlocks(extents)[c + e.count + k]
  {
    hide FlatBlocks;
    var e := extents[m];
    CutBlocks(extents, m, e.count);
    FlatBlocksAt(extents, m, e.count - 1);
    assert Range(e.start + e.count, 0) + FlatBlocks(extents[m + 1..]) == FlatBlocks(extents[m + 1..]);
  }

  lemma CutLeavesAll(s: Image, t: Image, i: nat, size: nat, m: nat, kept: nat, tail: seq<nat>)
    requires Sound(s) && LiveFile(s, i) && m < |s.Extents(i)| && kept <= s.Extents(i)[m].count
    requires |FlatBlocks(s.Extents(i)[..m])| + kept == CeilBlocks(size)
    requires tail == CutTail(AsWritten, s.Extents(i)[m].start + kept, s.Extents(i)[m].count - kept)
    requires t == CutAt(AsWritten, s, i, size, m, kept)
    ensures CutLeaves(s, t, i, size, m, kept, Elements(tail))
    ensures t.fault <==> exists k :: 0 <= k < |tail| && tail[k] >= s.blockBits
  {
    hide InodeOk, CutPoint, CeilBlocks, FlatBlocks, Image.ReleaseAll, Image.ScribbleAll, Abs, Apart, Covered;
    FileShape(s, i);
    OwnedInRange(s, i, 0);
    LaterInRange(s, i, m);
    var e, ind := s.Extents(i)[m].(count := kept), s.Ino(i).indirect;
    var s1 := s.ReleaseAll(tail);
    ReleaseAllAny(s, s1, tail);
    var s2 := s1.PutExtent(ind, m, e);
    PutExtentEffect(s1, s2, ind, m, e);
    var later := FlatBlocks(s.Extents(i)[m + 1..]);
    var s3 := s2.ScribbleAll(later);
    ScribbleAllBits(s2, s3, later);
    assert t == s3.PutInode(i, s.Ino(i).(extentNum := m + 1, size := size));
    CutTable(s, s2, t, i, m, kept);
    assert forall c: nat, k: nat :: t.Ext(c, k) == s2.Ext(c, k);
  }

  /**
   A cut inside or between extents, as written: the cut extent frees the blocks one before
   those it gives up, the later ones clear bits of the data region instead, and the
   counter goes up by all of them.
   */
  lemma CutLiterally(s: Image, t: Image, status: Status, i: nat, size: nat, m: nat, kept: nat)
    requires Sound(s) && LiveFile(s, i) && IsCut(s, i, size, m, kept)
    requires (t, status) == Truncate(AsWritten, s, i, size)
    ensures status == Done && m < |s.Extents(i)| && kept >= 1
    ensures var e := s.Extents(i)[m];
            CutLeaves(s, t, i, size, m, kept, Span(e.start + kept - 1, e.count - kept))
    ensures !t.fault
  {
    hide CutAt, CutPoint, FlatBlocks, CeilBlocks, CutTail, CutLeaves, InodeOk;
    var e := s.Extents(i)[m];
    var tail := CutTail(AsWritten, e.start + kept, e.count - kept);
    LaterInRange(s, i, m);
    TailElements(tail, e.start + kept, e.count - kept);
    CutLeavesAll(s, t, i, size, m, kept, tail);
  }

  /**
   A cut to nothing, as written: all blocks of the first extent are to go, but freeing
   starts one before it; for an extent at block 0 that is outside the bitmap.
   */
  lemma CutToNothingLiterally(s: Image, t: Image, status: Status, i: nat)
    requires Sound(s) && LiveFile(s, i) && s.Ino(i).size > 0 && (t, status) == Truncate(AsWritten, s, i, 0)
    ensures status == Done && |s.Extents(i)| > 0
    ensures var e := s.Extents(i)[0];
            CutLeaves(s, t, i, 0, 0, 0, if e.start > 0 then Span(e.start - 1, e.count) else Span(0, Minus(e.count, 1)))
    ensures t.fault <==> s.Extents(i)[0].start == 0
  {
    hide CutAt, FlatBlocks, CutTail, CutLeaves, InodeOk;
    FileShape(s, i);
    LaterInRange(s, i, 0);
    var e := s.Extents(i)[0];
    var tail := CutTail(AsWritten, e.start, e.count);
    NothingBefore(s, i);
    assert CutPoint(s.Extents(i), 0, 0, 0) == (0, 0);
    CutLeavesAll(s, t, i, 0, 0, 0, tail);
    if e.start > 0 {
      TailElements(tail, e.start, e.count);
    } else {
      TailFromZero(s, t, i, tail, e.count);
    }
  }

  lemma NothingBefore(s: Image, i: nat)
    ensures |FlatBlocks(s.Extents(i)[..0])| == 0
  {
  }

  /** The first block freed is 2^32 - 1, which no bitmap has; the rest are the first count - 1 blocks. */
  lemma TailFromZero(s: Image, t: Image, i: nat, tail: seq<nat>, count: nat)
    requires LayoutOk(s) && s.usedBlocks <= Below(s.numBlocks) && 0 < count <= s.numBlocks
    requires tail == CutTail(AsWritten, 0, count) && CutLeaves(s, t, i, 0, 0, 0, Elements(tail))
    ensures CutLeaves(s, t, i, 0, 0, 0, Span(0, count - 1))
    ensures exists k :: 0 <= k < |tail| && tail[k] >= s.blockBits
  {
    assert tail[0] == 0xFFFF_FFFF;
    assert forall k | 0 < k < count :: tail[k] == k - 1;
    forall b: nat | b in Span(0, count - 1) ensures b in tail {
      assert tail[b + 1] == b;
    }
    assert s.usedBlocks - Elements(tail) == s.usedBlocks - Span(0, count - 1);
  }
}
