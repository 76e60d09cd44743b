/** Cutting and extending a file refine take-or-zero-extend, and free exactly the blocks no longer needed. */
module Truncation {
  import opened Bitmap
  import opened Images
  import opened Operations
  import opened Namespace
  import opened Soundness
  import opened Growth
  import opened FileData

  lemma {:induction false} ElementsSize(bs: seq<nat>)
    requires NoDuplicates(bs)
    ensures |Elements(bs)| == |bs|
  {
    if bs != [] {
      var m := |bs| - 1;
      ElementsSize(bs[..m]);
      assert bs == bs[..m] + [bs[m]];
      assert Elements(bs) == Elements(bs[..m]) + {bs[m]};
      assert bs[m] !in Elements(bs[..m]);
    }
  }

  /** A file's blocks are among the used ones. */
  lemma OwnsUsedBlocks(s: Image, i: nat)
    requires Sound(s) && i in s.usedInodes
    ensures |s.Blocks(i)| + s.freeBlocks <= s.numBlocks < 0x10_0000
  {
    assert InodeOk(s, i);
    if s.Ino(i).extentNum > 0 {
      ElementsSize(s.Owned(i));
      SubsetSize(Elements(s.Owned(i)), s.usedBlocks);
    }
  }

  /** Block numbers fit in 20 bits, so file sizes fit in 32. */
  lemma FileBelow4G(s: Image, i: nat)
    requires Sound(s) && LiveFile(s, i)
    ensures s.Ino(i).size < 0x1_0000_0000 && |s.Content(i)| == s.Ino(i).size
  {
    FileShape(s, i);
    OwnsUsedBlocks(s, i);
  }

  /** Releasing distinct used blocks: the bits and the counter agree. */
  lemma ReleaseUsed(s: Image, t: Image, bs: seq<nat>)
    requires LayoutOk(s) && CountersOk(s) && NoDuplicates(bs) && Elements(bs) <= s.usedBlocks
    requires t == s.ReleaseAll(bs)
    ensures t == s.(usedBlocks := s.usedBlocks - Elements(bs), freeBlocks := s.freeBlocks + |bs|)
    ensures CountersOk(t)
  {
    forall k | 0 <= k < |bs| ensures bs[k] < s.blockBits {
      assert bs[k] in Elements(bs);
    }
    ReleaseAllEffect(s, bs);
    ElementsSize(bs);
    assert |s.usedBlocks - Elements(bs)| == |s.usedBlocks| - |Elements(bs)|;
  }

  // Emptying

  lemma EmptyReleases(s: Image, t: Image, i: nat)
    requires Sound(s) && i in s.usedInodes && s.Ino(i).size > 0 && t == Empty(s, i)
    ensures t == s.(usedBlocks := s.usedBlocks - Elements(s.Owned(i)), freeBlocks := s.freeBlocks + |s.Owned(i)|,
                    inodes := s.inodes[i := s.Ino(i).(extentNum := 0, size := 0)])
    ensures CountersOk(t)
  {
    assert InodeOk(s, i);
    var bs, x := s.Blocks(i), s.Ino(i).indirect;
    var order := bs + [x];
    assert order[..|bs|] == bs;
    assert forall k | 0 <= k < |bs| :: bs[k] == s.Owned(i)[k + 1];
    assert s.Owned(i)[0] == x;
    assert forall b :: b in order <==> b in s.Owned(i);
    assert Elements(order) == Elements(s.Owned(i));
    ReleaseUsed(s, s.ReleaseAll(order), order);
  }

  /** Emptying a file gives back all its blocks and leaves an empty file. */
  lemma EmptyRefines(s: Image, t: Image, i: nat)
    requires Sound(s) && LiveFile(s, i) && s.Ino(i).size > 0 && t == Empty(s, i)
    ensures Sound(t) && Abs(t) == Abs(s)[i := File([])] && LiveFile(t, i) && t.Ino(i).size == 0
    ensures t.usedBlocks == s.usedBlocks - Elements(s.Owned(i))
    ensures t.Ino(i) == s.Ino(i).(extentNum := 0, size := 0) && t.Extents(i) == []
    ensures t == s.(usedBlocks := t.usedBlocks, freeBlocks := t.freeBlocks, inodes := t.inodes)
    ensures forall j: nat {:trigger t.Ino(j)} | j != i :: t.Ino(j) == s.Ino(j)
  {
    EmptyReleases(s, t, i);
    UnchangedViews(s, t);
    assert t.Extents(i) == [] && t.Owned(i) == [];
    EmptyExchanges(s, t, i);
    ExchangeKeepsSound(s, t, i);
    assert NodeOf(t, i) == File([]);
  }

  lemma UnchangedViews(s: Image, t: Image)
    requires t.tables == s.tables && t.slots == s.slots && t.data == s.data
    ensures forall b: nat {:trigger Kept(s, t, b)} :: Kept(s, t, b)
  {
    assert forall b: nat, k: nat :: t.Ext(b, k) == s.Ext(b, k);
    assert forall b: nat, k: nat :: t.Slot(b, k) == s.Slot(b, k) && t.Byte(b, k) == s.Byte(b, k);
  }

  lemma EmptyExchanges(s: Image, t: Image, i: nat)
    requires Sound(s) && LiveFile(s, i) && t.Owned(i) == [] && t.Blocks(i) == [] && t.Extents(i) == []
    requires t == s.(usedBlocks := s.usedBlocks - Elements(s.Owned(i)), freeBlocks := s.freeBlocks + |s.Owned(i)|,
                     inodes := s.inodes[i := s.Ino(i).(extentNum := 0, size := 0)])
    requires CountersOk(t) && forall b: nat {:trigger Kept(s, t, b)} :: Kept(s, t, b)
    ensures Exchanges(s, t, i)
  {
    hide FlatBlocks, Kept, Covered, Apart, Image.Blocks, Image.Extents;
    assert InodeOk(s, i);
  }

  // Cutting

  /** The cut point splits the flat block list after `keep` blocks. */
  lemma {:induction false} CutPointSplits(extents: seq<Extent>, keep: nat, m: nat, count: nat)
    requires m <= |extents| && count == |FlatBlocks(extents[..m])|
    requires count < keep <= |FlatBlocks(extents)|
    ensures var (n, kept) := CutPoint(extents, keep, m, count);
            && m <= n < |extents| && 1 <= kept <= extents[n].count
            && |FlatBlocks(extents[..n])| + kept == keep
    decreases |extents| - m
  {
    assert extents[..|extents|] == extents;
    assert extents[..m + 1][..m] == extents[..m];
    if extents[m].count + count < keep {
      CutPointSplits(extents, keep, m + 1, count + extents[m].count);
    }
  }

  /** The blocks before and after the cut. */
  lemma CutBlocks(extents: seq<Extent>, n: nat, kept: nat)
    requires n < |extents| && kept <= extents[n].count
    ensures |FlatBlocks(extents[..n])| + kept <= |FlatBlocks(extents)|
    ensures FlatBlocks(extents[..n] + [extents[n].(count := kept)])
         == FlatBlocks(extents)[..|FlatBlocks(extents[..n])| + kept]
    ensures Range(extents[n].start + kept, extents[n].count - kept) + FlatBlocks(extents[n + 1..])
         == FlatBlocks(extents)[|FlatBlocks(extents[..n])| + kept..]
  {
    var e := extents[n];
    var before, after := extents[..n], extents[n + 1..];
    assert extents == (before + [e]) + after;
    FlatBlocksConcat(before + [e], after);
    FlatBlocksLast(before, e);
    FlatBlocksLast(before, e.(count := kept));
    CutRun(FlatBlocks(before), e.start, e.count, kept, FlatBlocks(after), FlatBlocks(extents));
  }

  lemma CutRun(before: seq<nat>, start: nat, count: nat, kept: nat, after: seq<nat>, all: seq<nat>)
    requires kept <= count && all == (before + Range(start, count)) + after
    ensures before + Range(start, kept) == all[..|before| + kept]
    ensures Range(start + kept, count - kept) + after == all[|before| + kept..]
  {
  }

  lemma FlatBlocksLast(before: seq<Extent>, e: Extent)
    ensures FlatBlocks(before + [e]) == FlatBlocks(before) + Range(e.start, e.count)
  {
    assert (before + [e])[..|before|] == before;
  }

  lemma ReleaseAllConcat(s: Image, xs: seq<nat>, ys: seq<nat>)
    ensures s.ReleaseAll(xs).ReleaseAll(ys) == s.ReleaseAll(xs + ys)
    decreases |ys|
  {
    if ys == [] {
      assert xs + ys == xs;
    } else {
      ReleaseAllConcat(s, xs, ys[..|ys| - 1]);
      assert (xs + ys)[..|xs + ys| - 1] == xs + ys[..|ys| - 1];
    }
  }

  /** The cut of inode i after `keep` blocks, as Shrink computes it. */
  ghost predicate IsCut(s: Image, i: nat, size: nat, m: nat, kept: nat) {
    && 0 < size < s.Ino(i).size
    && (m, kept) == CutPoint(s.Extents(i), CeilBlocks(size), 0, 0)
    && m < |s.Extents(i)| && 1 <= kept <= s.Extents(i)[m].count
    && |FlatBlocks(s.Extents(i)[..m])| + kept == CeilBlocks(size) <= |s.Blocks(i)|
  }

  lemma CutExists(s: Image, i: nat, size: nat) returns (m: nat, kept: nat)
    requires Sound(s) && LiveFile(s, i) && 0 < size < s.Ino(i).size
    ensures IsCut(s, i, size, m, kept)
  {
    assert InodeOk(s, i);
    var cut := CutPoint(s.Extents(i), CeilBlocks(size), 0, 0);
    m, kept := cut.0, cut.1;
    assert s.Extents(i)[..0] == [];
    CutPointSplits(s.Extents(i), CeilBlocks(size), 0, 0);
    FlatBlocksPrefix(s.Extents(i), m + 1);
  }

  /** What the repaired cut does to an image, all told. */
  function CutImage(s: Image, i: nat, size: nat, m: nat, kept: nat, dropped: seq<nat>): Image {
    var x := s.Ino(i);
    s.PutExtent(x.indirect, m, s.Ext(x.indirect, m).(count := kept))
     .ReleaseAll(dropped)
     .PutInode(i, x.(extentNum := m + 1, size := size))
  }

  /** An extent can be shortened before or after releasing blocks. */
  lemma ReleaseThenPut(s: Image, bs: seq<nat>, b: nat, k: nat, e: Extent)
    requires forall j | 0 <= j < |bs| :: bs[j] < s.blockBits
    ensures s.ReleaseAll(bs).PutExtent(b, k, e) == s.PutExtent(b, k, e).ReleaseAll(bs)
  {
    ReleaseAllEffect(s, bs);
    ReleaseAllEffect(s.PutExtent(b, k, e), bs);
  }

  /** The two rounds of freeing, with the extent shortened between them, free the dropped blocks. */
  lemma CutIsImage(s: Image, t: Image, i: nat, size: nat, m: nat, kept: nat, dropped: seq<nat>)
    requires Sound(s) && LiveFile(s, i) && IsCut(s, i, size, m, kept)
    requires dropped == s.Blocks(i)[CeilBlocks(size)..] && t == CutAt(Repaired, s, i, size, m, kept)
    ensures t == CutImage(s, i, size, m, kept, dropped)
  {
    hide CutPoint, Sound, FlatBlocks, Image.ReleaseAll;
    var extents := s.Extents(i);
    var e := extents[m];
    var tail, later := Range(e.start + kept, e.count - kept), FlatBlocks(extents[m + 1..]);
    CutBlocks(extents, m, kept);
    DroppedInRange(s, i, CeilBlocks(size), tail, later);
    TwoRounds(s, tail, later, s.Ino(i).indirect, m, e.(count := kept));
  }

  lemma TwoRounds(s: Image, tail: seq<nat>, later: seq<nat>, b: nat, k: nat, e: Extent)
    requires forall j | 0 <= j < |tail| :: tail[j] < s.blockBits
    ensures s.ReleaseAll(tail).PutExtent(b, k, e).ReleaseAll(later) == s.PutExtent(b, k, e).ReleaseAll(tail + later)
  {
    ReleaseThenPut(s, tail, b, k, e);
    ReleaseAllConcat(s.PutExtent(b, k, e), tail, later);
  }

  lemma DroppedInRange(s: Image, i: nat, keep: nat, tail: seq<nat>, later: seq<nat>)
    requires Sound(s) && i in s.usedInodes && keep <= |s.Blocks(i)| && tail + later == s.Blocks(i)[keep..]
    ensures forall k | 0 <= k < |tail| :: tail[k] < s.blockBits
  {
    forall k | 0 <= k < |tail| ensures tail[k] < s.blockBits {
      assert tail[k] == (tail + later)[k] == s.Blocks(i)[keep + k];
      OwnedInRange(s, i, keep + k);
    }
  }

  /** The fields of a cut image. */
  ghost predicate CutFields(s: Image, t: Image, i: nat, size: nat, m: nat, dropped: seq<nat>) {
    && i < |s.inodes|
    && t == s.(usedBlocks := s.usedBlocks - Elements(dropped), freeBlocks := s.freeBlocks + |dropped|,
               tables := t.tables, inodes := s.inodes[i := s.Ino(i).(extentNum := m + 1, size := size)])
    && |t.tables| == |s.tables|
    && CountersOk(t)
    && (forall c: nat, k: nat | c != s.Ino(i).indirect && k < 512 :: t.Ext(c, k) == s.Ext(c, k))
  }

  lemma CutReleases(s: Image, t: Image, i: nat, size: nat, m: nat, kept: nat, dropped: seq<nat>)
    requires Sound(s) && LiveFile(s, i) && IsCut(s, i, size, m, kept) && dropped == s.Blocks(i)[CeilBlocks(size)..]
    requires t == CutImage(s, i, size, m, kept, dropped)
    ensures CutFields(s, t, i, size, m, dropped)
    ensures forall c: nat, k: nat | k < 512 ::
              t.Ext(c, k) == if c == s.Ino(i).indirect && k == m then s.Ext(c, k).(count := kept) else s.Ext(c, k)
  {
    hide FlatBlocks, Covered, Apart, CutPoint, Abs, CutImage, CutFields;
    OwnedInRange(s, i, 0);
    assert InodeOk(s, i);
    DroppedDistinct(s, i, CeilBlocks(size), dropped);
    CutChanges(s, t, i, size, m, kept, dropped);
  }

  lemma CutChanges(s: Image, t: Image, i: nat, size: nat, m: nat, kept: nat, dropped: seq<nat>)
    requires LayoutOk(s) && CountersOk(s) && s.Ino(i).indirect < s.numBlocks && m < 512 && i < |s.inodes|
    requires NoDuplicates(dropped) && Elements(dropped) <= s.usedBlocks
    requires t == CutImage(s, i, size, m, kept, dropped)
    ensures CutFields(s, t, i, size, m, dropped)
    ensures forall c: nat, k: nat | k < 512 ::
              t.Ext(c, k) == if c == s.Ino(i).indirect && k == m then s.Ext(c, k).(count := kept) else s.Ext(c, k)
  {
    hide Elements, NoDuplicates, Image.ReleaseAll;
    var ind, e := s.Ino(i).indirect, s.Ext(s.Ino(i).indirect, m).(count := kept);
    var s1 := s.PutExtent(ind, m, e);
    PutExtentEffect(s, s1, ind, m, e);
    var s2 := s1.ReleaseAll(dropped);
    ReleaseUsed(s1, s2, dropped);
    assert forall c: nat, k: nat :: t.Ext(c, k) == s1.Ext(c, k);
  }

  lemma CutExtents(s: Image, t: Image, i: nat, size: nat, m: nat, kept: nat, dropped: seq<nat>)
    requires IsCut(s, i, size, m, kept) && CutFields(s, t, i, size, m, dropped) && s.Ino(i).extentNum <= 512
    requires forall c: nat, k: nat | k < 512 ::
               t.Ext(c, k) == if c == s.Ino(i).indirect && k == m then s.Ext(c, k).(count := kept) else s.Ext(c, k)
    ensures t.Extents(i) == s.Extents(i)[..m] + [s.Extents(i)[m].(count := kept)]
    ensures t.Ino(i) == s.Ino(i).(extentNum := m + 1, size := size)
  {
  }

  lemma DroppedDistinct(s: Image, i: nat, keep: nat, dropped: seq<nat>)
    requires InodeOk(s, i) && s.Ino(i).extentNum > 0 && keep <= |s.Blocks(i)| && dropped == s.Blocks(i)[keep..]
    ensures NoDuplicates(dropped) && Elements(dropped) <= s.usedBlocks
    ensures Elements(s.Owned(i)) == Elements(s.Owned(i)[..keep + 1]) + Elements(dropped)
    ensures Elements(s.Owned(i)[..keep + 1]) !! Elements(dropped)
    ensures NoDuplicates(s.Owned(i)[..keep + 1])
  {
    hide FlatBlocks, Image.Blocks, CeilBlocks;
    var owned := s.Owned(i);
    assert forall k | 0 <= k < |dropped| :: dropped[k] == owned[keep + 1 + k];
    assert owned == owned[..keep + 1] + dropped;
    assert forall k | 0 <= k < |owned| :: owned[k] in Elements(owned);
  }

  lemma CutKeepsPrefix(s: Image, t: Image, i: nat, size: nat, m: nat, kept: nat)
    requires Sound(s) && LiveFile(s, i) && IsCut(s, i, size, m, kept)
    requires t.Extents(i) == s.Extents(i)[..m] + [s.Extents(i)[m].(count := kept)]
    requires t.Ino(i) == s.Ino(i).(extentNum := m + 1, size := size)
    ensures t.Blocks(i) == s.Blocks(i)[..CeilBlocks(size)]
    ensures t.Owned(i) == s.Owned(i)[..CeilBlocks(size) + 1]
    ensures forall k | 0 <= k < |t.Extents(i)| :: t.Extents(i)[k].count >= 1
  {
    assert InodeOk(s, i);
    CutBlocks(s.Extents(i), m, kept);
  }

  lemma CutTouches(s: Image, t: Image, i: nat, size: nat, m: nat, dropped: seq<nat>)
    requires Sound(s) && s.Ino(i).extentNum > 0 && CutFields(s, t, i, size, m, dropped)
    ensures OnlyTouches(s, t, i)
  {
    assert forall c: nat, k: nat :: t.Byte(c, k) == s.Byte(c, k) && t.Slot(c, k) == s.Slot(c, k);
    assert s.Owned(i)[0] == s.Ino(i).indirect;
  }

  lemma CutInodeOk(s: Image, t: Image, i: nat, size: nat, m: nat, dropped: seq<nat>)
    requires Sound(s) && LiveFile(s, i) && 0 < size && CeilBlocks(size) <= |s.Blocks(i)|
    requires dropped == s.Blocks(i)[CeilBlocks(size)..] && CutFields(s, t, i, size, m, dropped)
    requires m < s.Ino(i).extentNum
    requires t.Blocks(i) == s.Blocks(i)[..CeilBlocks(size)] && t.Owned(i) == s.Owned(i)[..CeilBlocks(size) + 1]
    requires forall k | 0 <= k < |t.Extents(i)| :: t.Extents(i)[k].count >= 1
    ensures InodeOk(t, i)
  {
    assert InodeOk(s, i);
    DroppedDistinct(s, i, CeilBlocks(size), dropped);
    KeptInodeOk(s, t, i, size, m, dropped);
  }

  lemma KeptInodeOk(s: Image, t: Image, i: nat, size: nat, m: nat, dropped: seq<nat>)
    requires InodeOk(s, i) && s.Ino(i).kind.Regular? && 0 < size && m < s.Ino(i).extentNum
    requires t.Ino(i) == s.Ino(i).(extentNum := m + 1, size := size) && |t.Blocks(i)| == CeilBlocks(size)
    requires forall k | 0 <= k < |t.Extents(i)| :: t.Extents(i)[k].count >= 1
    requires NoDuplicates(t.Owned(i)) && Elements(t.Owned(i)) !! Elements(dropped)
    requires Elements(s.Owned(i)) == Elements(t.Owned(i)) + Elements(dropped)
    requires t.usedBlocks == s.usedBlocks - Elements(dropped)
    ensures InodeOk(t, i)
  {
    hide NoDuplicates, FlatBlocks, Image.Blocks, Image.Extents, Image.Owned, Elements;
  }

  lemma CutExchanges(s: Image, t: Image, i: nat, size: nat, m: nat, dropped: seq<nat>)
    requires Sound(s) && LiveFile(s, i) && 0 < size && CeilBlocks(size) <= |s.Blocks(i)|
    requires dropped == s.Blocks(i)[CeilBlocks(size)..] && CutFields(s, t, i, size, m, dropped)
    requires m < s.Ino(i).extentNum
    requires t.Blocks(i) == s.Blocks(i)[..CeilBlocks(size)] && t.Owned(i) == s.Owned(i)[..CeilBlocks(size) + 1]
    requires forall k | 0 <= k < |t.Extents(i)| :: t.Extents(i)[k].count >= 1
    ensures Exchanges(s, t, i)
  {
    CutTouches(s, t, i, size, m, dropped);
    CutInodeOk(s, t, i, size, m, dropped);
    assert InodeOk(s, i);
    DroppedDistinct(s, i, CeilBlocks(size), dropped);
    assert t.usedBlocks == (s.usedBlocks - Elements(s.Owned(i))) + Elements(t.Owned(i));
  }

  lemma CutBytes(s: Image, t: Image, i: nat, keep: nat)
    requires keep <= |s.Blocks(i)| && t.Blocks(i) == s.Blocks(i)[..keep] && t.data == s.data
    ensures t.AllBytes(i) == s.AllBytes(i)[..4096 * keep]
  {
    assert forall b: nat, k: nat :: t.Byte(b, k) == s.Byte(b, k);
  }

  /** The first extents of `all`, the last of them perhaps shorter. */
  predicate IsPrefix(some: seq<Extent>, all: seq<Extent>) {
    && |some| <= |all|
    && (forall k | 0 <= k < |some| :: some[k].start == all[k].start && some[k].count <= all[k].count)
    && (forall k | 0 <= k < |some| - 1 :: some[k] == all[k])
  }

  lemma ShrinkCuts(s: Image, t: Image, i: nat, size: nat)
    requires Sound(s) && LiveFile(s, i) && 0 < size < s.Ino(i).size && t == Shrink(Repaired, s, i, size)
    ensures CeilBlocks(size) <= |s.Blocks(i)| && t.Blocks(i) == s.Blocks(i)[..CeilBlocks(size)]
    ensures t.AllBytes(i) == s.AllBytes(i)[..4096 * CeilBlocks(size)]
    ensures Sound(t) && Abs(t) == Abs(s)[i := NodeOf(t, i)]
    ensures t.Ino(i) == s.Ino(i).(extentNum := t.Ino(i).extentNum, size := size)
    ensures t.usedBlocks == s.usedBlocks - Elements(s.Blocks(i)[CeilBlocks(size)..])
    ensures LiveFile(t, i) && IsPrefix(t.Extents(i), s.Extents(i)) && t.Ino(i).indirect == s.Ino(i).indirect
  {
    hide Sound, FlatBlocks, CutPoint, Abs, Image.AllBytes, CutImage, CutAt, Exchanges, Elements;
    FileShape(s, i);
    var m, kept := CutExists(s, i, size);
    var dropped := s.Blocks(i)[CeilBlocks(size)..];
    CutIsImage(s, t, i, size, m, kept, dropped);
    CutReleases(s, t, i, size, m, kept, dropped);
    CutExtents(s, t, i, size, m, kept, dropped);
    CutKeepsPrefix(s, t, i, size, m, kept);
    CutExchanges(s, t, i, size, m, dropped);
    ExchangeKeepsSound(s, t, i);
    CutBytes(s, t, i, CeilBlocks(size));
  }

  /**
   Cutting keeps the first `size` bytes, keeps exactly the first ceil(size / 4096)
   blocks, and frees the rest (and the extent table, when nothing is left).
   */
  lemma ShrinkRefines(s: Image, t: Image, i: nat, size: nat)
    requires Sound(s) && LiveFile(s, i) && size < s.Ino(i).size && t == Shrink(Repaired, s, i, size)
    ensures size <= |s.Content(i)| && CeilBlocks(size) <= |s.Blocks(i)|
    ensures Sound(t) && Abs(t) == Abs(s)[i := File(s.Content(i)[..size])]
    ensures t.Blocks(i) == s.Blocks(i)[..CeilBlocks(size)]
    ensures t.usedBlocks == s.usedBlocks -
              (if size == 0 then Elements(s.Owned(i)) else Elements(s.Blocks(i)[CeilBlocks(size)..]))
    ensures IsPrefix(t.Extents(i), s.Extents(i)) && t.Ino(i).indirect == s.Ino(i).indirect
  {
    hide Sound, FlatBlocks, Image.Blocks, Image.AllBytes, Elements;
    FileShape(s, i);
    if size == 0 {
      EmptyRefines(s, t, i);
      FileShape(t, i);
    } else {
      ShrinkCuts(s, t, i, size);
      FileShape(t, i);
      assert t.Content(i) == s.Content(i)[..size];
    }
  }

  // Extending

  /** Growing n times: the content padded to whole blocks. */
  lemma {:induction false} GrowByRefines(s: Image, t: Image, ok: bool, i: nat, n: nat)
    requires Sound(s) && LiveFile(s, i) && n > 0 && (t, ok) == GrowBy(Repaired, s, i, n)
    ensures Sound(t) && (ok <==> RoomFor(s, i, n))
    ensures ok ==> LiveFile(t, i) && |t.Blocks(i)| == |s.Blocks(i)| + n
    ensures ok ==> t.Ino(i).size == 4096 * |t.Blocks(i)| && |s.Content(i)| <= 4096 * |s.Blocks(i)|
    ensures ok ==> t.AllBytes(i) == Pad(s.Content(i), 4096 * |t.Blocks(i)|)
    ensures ok ==> Abs(t) == Abs(s)[i := File(t.AllBytes(i))]
    ensures !ok ==> Stopped(s, t, i, n)
    decreases n
  {
    hide Grow, Sound, Pad, CanGrow, Image.AllBytes, RoomFor, Stopped;
    var (s1, ok1) := Grow(Repaired, s, i);
    var b := GrowRefines(s, s1, ok1, i);
    RoomStep(s, s1, ok1, i, n);
    if !ok1 {
      UnchangedIsStopped(s, t, i, n);
    } else {
      GrownContent(s, s1, i, b);
      if n == 1 {
        RoomForNone(s1, i);
        assert GrowBy(Repaired, s1, i, 0) == (s1, true);
      } else {
        GrowByRefines(s1, t, ok, i, n - 1);
        if ok {
          GrowByStep(s, s1, t, i, b);
        } else {
          StoppedLater(s, s1, t, i, b, n);
        }
      }
    }
  }

  lemma GrowByStep(s: Image, s1: Image, t: Image, i: nat, b: nat)
    requires Sound(s) && LiveFile(s, i) && GrownBy(s, s1, i, b)
    requires t.AllBytes(i) == Pad(s1.Content(i), 4096 * |t.Blocks(i)|) && |t.Blocks(i)| > |s.Blocks(i)|
    requires Abs(t) == Abs(s1)[i := File(t.AllBytes(i))]
    ensures t.AllBytes(i) == Pad(s.Content(i), 4096 * |t.Blocks(i)|)
    ensures Abs(t) == Abs(s)[i := File(t.AllBytes(i))]
  {
    GrownContent(s, s1, i, b);
    PadTwice(s.Content(i), 4096 * (|s.Blocks(i)| + 1), 4096 * |t.Blocks(i)|);
    SetTwice(Abs(s), i, File(s1.Content(i)), File(t.AllBytes(i)));
  }

  /** What a truncation promises. */
  ghost predicate TruncateMeets(s: Image, t: Image, status: Status, i: nat, size: nat) {
    && Sound(t)
    && (status.Done? ==> Abs(t) == Abs(s)[i := File(Resized(s.Content(i), size))])
    && (status.NoSpace? ==> Stopped(s, t, i, Lacking(s, i, size)))
    && (status.NoSpace? <==> !RoomFor(s, i, Lacking(s, i, size)))
    && !status.NotEmpty?
  }

  lemma ResizePadded(s: Image, t: Image, u: Image, i: nat, size: nat)
    requires Sound(s) && LiveFile(s, i) && Sound(t) && LiveFile(t, i) && u == t.SetSize(i, size)
    requires s.Ino(i).size < size && CeilBlocks(size) == |t.Blocks(i)| && t.Ino(i).size > 0
    requires t.AllBytes(i) == Pad(s.Content(i), 4096 * |t.Blocks(i)|)
    requires Abs(t) == Abs(s)[i := NodeOf(t, i)]
    ensures Sound(u) && Abs(u) == Abs(s)[i := File(Resized(s.Content(i), size))]
  {
    FileShape(s, i);
    FileShape(t, i);
    Resize(t, u, i, size);
    assert t.AllBytes(i)[..size] == Resized(s.Content(i), size);
    SetTwice(Abs(s), i, NodeOf(t, i), File(t.AllBytes(i)[..size]));
  }

  lemma ExtendRefines(s: Image, t: Image, status: Status, i: nat, size: nat)
    requires Sound(s) && LiveFile(s, i) && s.Ino(i).size < size && (t, status) == Extend(Repaired, s, i, size)
    ensures TruncateMeets(s, t, status, i, size)
  {
    hide Grow, Sound;
    FileShape(s, i);
    var more := Minus(CeilBlocks(size), |s.Blocks(i)|);
    if more == 0 {
      var s0 := CloseHole(s, i);
      CloseHoleZeroes(s, s0, i);
      assert Abs(s)[i := NodeOf(s, i)] == Abs(s);
      assert GrowBy(Repaired, s0, i, 0) == (s0, true);
      ResizePadded(s, s0, t, i, size);
    } else {
      var (s1, ok) := GrowBy(Repaired, s, i, more);
      GrowByRefines(s, s1, ok, i, more);
      if ok {
        FileShape(s1, i);
        ResizePadded(s, s1, t, i, size);
      }
    }
  }

  /**
   The truncate theorem: the content is cut, or extended with zeros, to exactly `size`
   bytes, and no other node changes; when space runs
   out the old content is followed by zeros, to the end of the blocks for which there was room.
   */
  lemma TruncateRefines(s: Image, t: Image, status: Status, i: nat, size: nat)
    requires Sound(s) && LiveFile(s, i) && (t, status) == Truncate(Repaired, s, i, size)
    ensures TruncateMeets(s, t, status, i, size)
  {
    FileShape(s, i);
    if size == s.Ino(i).size {
      assert Resized(s.Content(i), size) == s.Content(i);
      assert Abs(s)[i := NodeOf(s, i)] == Abs(s);
    } else if size < s.Ino(i).size {
      ShrinkRefines(s, t, i, size);
    } else {
      ExtendRefines(s, t, status, i, size);
    }
  }
}
