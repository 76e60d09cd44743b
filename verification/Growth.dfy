/** Giving an inode one more block, and writing inside the blocks it has. */
module Growth {
  import opened Bitmap
  import opened Images
  import opened Operations
  import opened Namespace
  import opened Soundness

  // Single writes

  lemma PutBytesEffect(s: Image, t: Image, b: nat, o: nat, buf: seq<bv8>)
    requires |s.data| == 4096 * s.numBlocks && b < s.numBlocks && o + |buf| <= 4096
    requires t == s.PutBytes(b * 4096 + o, buf)
    ensures t == s.(data := t.data) && |t.data| == |s.data|
    ensures forall c: nat, k: nat | k < 4096 ::
              t.Byte(c, k) == if c == b && o <= k < o + |buf| then buf[k - o] else s.Byte(c, k)
  {
    var a := b * 4096 + o;
    assert a + |buf| <= |s.data|;
    forall c: nat, k: nat | k < 4096
      ensures t.Byte(c, k) == if c == b && o <= k < o + |buf| then buf[k - o] else s.Byte(c, k)
    {
      if c * 4096 + k < |s.data| {
        assert a <= c * 4096 + k < a + |buf| <==> c == b && o <= k < o + |buf|;
      }
    }
  }

  lemma PutSlotEffect(s: Image, t: Image, b: nat, o: nat, e: Dentry)
    requires |s.slots| == 16 * s.numBlocks && b < s.numBlocks && o < 16 && t == s.PutSlot(b, o, e)
    ensures t == s.(slots := t.slots) && |t.slots| == |s.slots|
    ensures forall c: nat, k: nat | k < 16 :: t.Slot(c, k) == if c == b && k == o then e else s.Slot(c, k)
  {
  }

  lemma PutExtentEffect(s: Image, t: Image, b: nat, o: nat, e: Extent)
    requires |s.tables| == 512 * s.numBlocks && b < s.numBlocks && o < 512 && t == s.PutExtent(b, o, e)
    ensures t == s.(tables := t.tables) && |t.tables| == |s.tables|
    ensures forall c: nat, k: nat | k < 512 :: t.Ext(c, k) == if c == b && k == o then e else s.Ext(c, k)
  {
  }

  /** find_last_block returns the last of the flat list. */
  lemma LastBlockIsLast(s: Image, i: nat)
    requires InodeOk(s, i) && s.Ino(i).extentNum > 0
    ensures |s.Blocks(i)| > 0 && s.LastBlock(i) == s.Blocks(i)[|s.Blocks(i)| - 1]
    ensures s.LastBlock(i) + 1 == s.LastExtent(i).start + s.LastExtent(i).count
    ensures s.LastExtent(i) == s.Extents(i)[s.Ino(i).extentNum - 1]
    ensures s.Ino(i).indirect in s.usedBlocks && s.LastBlock(i) in s.usedBlocks
  {
    var m := s.Ino(i).extentNum - 1;
    assert s.Extents(i)[m].count >= 1;
    FlatBlocksAt(s.Extents(i), m, s.Extents(i)[m].count - 1);
    assert s.Extents(i)[..m + 1] == s.Extents(i);
    assert s.Owned(i)[0] in Elements(s.Owned(i));
    assert s.Owned(i)[|s.Blocks(i)|] in Elements(s.Owned(i));
  }

  // Writing inside a block the inode holds

  lemma PokeView(s: Image, t: Image, i: nat, q: nat, o: nat, buf: seq<bv8>)
    requires q < |s.Blocks(i)| && o + |buf| <= 4096 && t.Blocks(i) == s.Blocks(i)
    requires forall r: nat | r < |s.Blocks(i)| && r != q :: s.Blocks(i)[r] != s.Blocks(i)[q]
    requires forall c: nat, k: nat | k < 4096 ::
               t.Byte(c, k) == if c == s.Blocks(i)[q] && o <= k < o + |buf| then buf[k - o] else s.Byte(c, k)
    ensures t.AllBytes(i) == Splice(s.AllBytes(i), q * 4096 + o, buf)
  {
    forall k: nat | k < 4096 * |s.Blocks(i)|
      ensures t.AllBytes(i)[k] == Splice(s.AllBytes(i), q * 4096 + o, buf)[k]
    {
      assert k / 4096 == q || s.Blocks(i)[k / 4096] != s.Blocks(i)[q];
    }
  }

  lemma PokeBytes(s: Image, t: Image, i: nat, q: nat, o: nat, buf: seq<bv8>)
    requires Sound(s) && i in s.usedInodes && q < |s.Blocks(i)| && o + |buf| <= 4096
    requires t == s.PutBytes(s.Blocks(i)[q] * 4096 + o, buf)
    ensures t == s.(data := t.data) && t.Blocks(i) == s.Blocks(i)
    ensures t.AllBytes(i) == Splice(s.AllBytes(i), q * 4096 + o, buf)
    ensures Sound(t) && Abs(t) == Abs(s)[i := NodeOf(t, i)]
  {
    assert InodeOk(s, i);
    var b := s.Blocks(i)[q];
    OwnedInRange(s, i, q);
    PutBytesEffect(s, t, b, o, buf);
    SameTables(s, t, i);
    forall r: nat | r < |s.Blocks(i)| && r != q ensures s.Blocks(i)[r] != b {
      DistinctBlocks(s, i, r, q);
    }
    PokeView(s, t, i, q, o, buf);
    assert OnlyTouches(s, t, i) by {
      assert forall c: nat {:trigger Kept(s, t, c)} | c != b :: Kept(s, t, c);
    }
    SameOwner(s, t, i);
  }

  lemma OwnedInRange(s: Image, i: nat, q: nat)
    requires Sound(s) && i in s.usedInodes && q < |s.Blocks(i)|
    ensures s.Blocks(i)[q] < s.numBlocks && s.Blocks(i)[q] in s.usedBlocks && s.Blocks(i)[q] in s.Owned(i)
    ensures s.Ino(i).indirect < s.numBlocks && s.Ino(i).indirect in s.usedBlocks
    ensures s.Ino(i).extentNum > 0 && s.Blocks(i)[q] != s.Ino(i).indirect
  {
    assert InodeOk(s, i);
    assert s.Owned(i)[q + 1] in Elements(s.Owned(i));
    assert s.Owned(i)[0] in Elements(s.Owned(i));
  }

  lemma DistinctBlocks(s: Image, i: nat, q: nat, r: nat)
    requires InodeOk(s, i) && q < |s.Blocks(i)| && r < |s.Blocks(i)| && q != r
    ensures s.Blocks(i)[q] != s.Blocks(i)[r]
  {
    assert s.Ino(i).extentNum > 0;
    assert s.Owned(i)[q + 1] != s.Owned(i)[r + 1];
  }

  lemma SameTables(s: Image, t: Image, i: nat)
    requires t.tables == s.tables && t.Ino(i).extentNum == s.Ino(i).extentNum && t.Ino(i).indirect == s.Ino(i).indirect
    ensures t.Extents(i) == s.Extents(i) && t.Blocks(i) == s.Blocks(i) && t.Owned(i) == s.Owned(i)
  {
    assert forall b: nat, k: nat :: t.Ext(b, k) == s.Ext(b, k);
    assert t.Extents(i) == s.Extents(i);
  }

  /** An inode keeps its blocks; only its record and their data change. */
  lemma SameOwner(s: Image, t: Image, i: nat)
    requires Sound(s) && i in s.usedInodes && OnlyTouches(s, t, i)
    requires t.tables == s.tables && t.usedBlocks == s.usedBlocks && t.freeBlocks == s.freeBlocks
    requires t.Ino(i).extentNum == s.Ino(i).extentNum && t.Ino(i).indirect == s.Ino(i).indirect
    requires t.Ino(i).kind == s.Ino(i).kind && (t.Ino(i).size == 0 <==> s.Ino(i).size == 0)
    requires CeilBlocks(t.Ino(i).size) == CeilBlocks(s.Ino(i).size)
    requires t.Ino(i).kind.Regular? ==> t.Ino(i).numEntries == 0 && t.Ino(i).links == 1
    requires t.Ino(i).kind.Directory? ==> t.Ino(i).size == 256 * t.Ino(i).numEntries
    ensures Sound(t) && Abs(t) == Abs(s)[i := NodeOf(t, i)]
  {
    assert InodeOk(s, i);
    SameTables(s, t, i);
    assert Elements(s.Owned(i)) <= s.usedBlocks;
    assert t.usedBlocks == (s.usedBlocks - Elements(s.Owned(i))) + Elements(t.Owned(i));
    ExchangeKeepsSound(s, t, i);
  }

  lemma Resize(s: Image, t: Image, i: nat, size: nat)
    requires Sound(s) && i in s.usedInodes && s.Ino(i).kind.Regular?
    requires CeilBlocks(size) == |s.Blocks(i)| && (size == 0 <==> s.Ino(i).size == 0)
    requires t == s.SetSize(i, size)
    ensures t == s.(inodes := t.inodes) && t.Ino(i) == s.Ino(i).(size := size)
    ensures t.Blocks(i) == s.Blocks(i) && t.AllBytes(i) == s.AllBytes(i)
    ensures Sound(t) && Abs(t) == Abs(s)[i := File(s.AllBytes(i)[..size])]
  {
    assert InodeOk(s, i);
    assert i < |s.inodes|;
    SameTables(s, t, i);
    assert forall b: nat {:trigger Kept(s, t, b)} :: Kept(s, t, b);
    assert t.AllBytes(i) == s.AllBytes(i);
    SameOwner(s, t, i);
    assert NodeOf(t, i) == File(s.AllBytes(i)[..size]);
  }

  // One more block

  /** From s to t, inode i gains block b as its last; its size is not yet updated. */
  ghost predicate Extended(s: Image, t: Image, i: nat, b: nat) {
    && SameFrame(s, t)
    && t.usedInodes == s.usedInodes && t.freeInodes == s.freeInodes
    && t.data == s.data && t.slots == s.slots
    && (forall j: nat {:trigger t.Ino(j)} | j != i :: t.Ino(j) == s.Ino(j))
    && t.Ino(i) == s.Ino(i).(extentNum := t.Ino(i).extentNum, indirect := t.Ino(i).indirect)
    && 0 < t.Ino(i).extentNum <= 512
    && (forall k | 0 <= k < |t.Extents(i)| :: t.Extents(i)[k].count >= 1)
    && t.Blocks(i) == s.Blocks(i) + [b]
    && b !in s.usedBlocks && b < s.numBlocks
    && NoDuplicates(t.Owned(i))
    && t.usedBlocks == s.usedBlocks + Elements(t.Owned(i))
    && Elements(s.Owned(i)) <= Elements(t.Owned(i))
    && Elements(t.Owned(i)) !! (s.usedBlocks - Elements(s.Owned(i)))
    && t.usedBlocks <= Below(t.numBlocks) && t.freeBlocks + |t.usedBlocks| == t.numBlocks
    && (forall c: nat, k: nat | c in s.usedBlocks && c !in s.Owned(i) && k < 512 :: t.Ext(c, k) == s.Ext(c, k))
  }

  /** What a growth takes from the counter: an inode without blocks also needs an extent table. */
  function GrowthCost(s: Image, i: nat): nat {
    if s.Ino(i).size == 0 then 2 else 1
  }

  /** The block a growth adds: the one after the last if it may be merged, otherwise the least free one. */
  function NextBlock(code: Code, s: Image, i: nat): nat {
    if s.Ino(i).size == 0 then s.TakeBlock(s.FirstFreeBlock()).FirstFreeBlock()
    else if MayMerge(code, s, i) then s.LastBlock(i) + 1
    else s.FirstFreeBlock()
  }

  /** The extents after a growth: one block more in the last, or one extent more. */
  function GrownExtents(code: Code, s: Image, i: nat): seq<Extent> {
    if s.Ino(i).size > 0 && MayMerge(code, s, i) && |s.Extents(i)| > 0 then
      var m := |s.Extents(i)| - 1;
      s.Extents(i)[m := s.Extents(i)[m].(count := s.Extents(i)[m].count + 1)]
    else (if s.Ino(i).size == 0 then [] else s.Extents(i)) + [Extent(NextBlock(code, s, i), 1)]
  }

  /** The blocks a growth marks: as written, not the first block of an inode; and none past the bitmap. */
  function BlocksTaken(code: Code, s: Image, i: nat): set<nat> {
    if s.Ino(i).size == 0 then
      if code.AsWritten? then {s.FirstFreeBlock()} else {s.FirstFreeBlock(), NextBlock(code, s, i)}
    else if NextBlock(code, s, i) < s.blockBits then {NextBlock(code, s, i)}
    else {}
  }

  /** From s to t, inode i has taken block b, and all that a growth takes. */
  predicate TakesNext(code: Code, s: Image, t: Image, i: nat, b: nat) {
    && b == NextBlock(code, s, i) && t.numBlocks == s.numBlocks
    && t.usedBlocks == s.usedBlocks + BlocksTaken(code, s, i) && t.freeBlocks + GrowthCost(s, i) == s.freeBlocks
    && t.Ino(i).indirect == (if s.Ino(i).size == 0 then s.FirstFreeBlock() else s.Ino(i).indirect)
    && t.Extents(i) == GrownExtents(code, s, i)
  }

  lemma FreeBlockIsFree(s: Image)
    requires LayoutOk(s) && CountersOk(s) && s.freeBlocks > 0
    ensures s.FirstFreeBlock() < s.numBlocks && s.FirstFreeBlock() !in s.usedBlocks
  {
    NonZeroCounterFinds(s.usedBlocks, s.numBlocks, s.freeBlocks);
  }

  lemma FreeInodeIsFree(s: Image)
    requires LayoutOk(s) && CountersOk(s) && s.freeInodes > 0
    ensures s.FirstFreeInode() < s.numInodes && s.FirstFreeInode() !in s.usedInodes
  {
    NonZeroCounterFinds(s.usedInodes, s.numInodes, s.freeInodes);
  }

  /** Owning one more free block keeps the owned blocks distinct. */
  lemma OwnedPush(s: Image, t: Image, i: nat, b: nat)
    requires InodeOk(s, i) && s.Ino(i).extentNum > 0 && t.Ino(i).extentNum > 0
    requires t.Ino(i).indirect == s.Ino(i).indirect && t.Blocks(i) == s.Blocks(i) + [b] && b !in s.usedBlocks
    ensures t.Owned(i) == s.Owned(i) + [b] && NoDuplicates(t.Owned(i))
    ensures Elements(t.Owned(i)) == Elements(s.Owned(i)) + {b}
  {
    var before := s.Owned(i);
    assert t.Owned(i) == before + [b];
    assert forall k | 0 <= k < |before| :: before[k] in Elements(before);
  }

  lemma MergeBlocks(s: Image, t: Image, i: nat, b: nat)
    requires Sound(s) && i in s.usedInodes && s.Ino(i).extentNum > 0
    requires MayMerge(Repaired, s, i) && t == Merge(s, i) && b == s.LastBlock(i) + 1
    ensures t == s.TakeBlock(b).(tables := t.tables) && |t.tables| == |s.tables|
    ensures t.Blocks(i) == s.Blocks(i) + [b]
    ensures var m := s.Ino(i).extentNum - 1;
            t.Extents(i) == s.Extents(i)[m := s.Extents(i)[m].(count := s.Extents(i)[m].count + 1)]
    ensures forall k | 0 <= k < |t.Extents(i)| :: t.Extents(i)[k].count >= 1
    ensures forall c: nat, k: nat | c != s.Ino(i).indirect && k < 512 :: t.Ext(c, k) == s.Ext(c, k)
  {
    assert InodeOk(s, i);
    LastBlockIsLast(s, i);
    var e, m := s.LastExtent(i), s.Ino(i).extentNum - 1;
    PutExtentEffect(s.TakeBlock(b), t, s.Ino(i).indirect, m, e.(count := e.count + 1));
    assert t.Extents(i) == s.Extents(i)[m := e.(count := e.count + 1)];
    FlatBlocksMerge(s.Extents(i));
  }

  lemma OpenBlocks(s: Image, t: Image, i: nat, b: nat)
    requires Sound(s) && i in s.usedInodes && 0 < s.Ino(i).extentNum < 512 && s.freeBlocks > 0
    requires t == Open(s, i) && b == s.FirstFreeBlock()
    ensures t == s.TakeBlock(b).(tables := t.tables, inodes := t.inodes) && |t.tables| == |s.tables|
    ensures t.inodes == s.inodes[i := s.Ino(i).(extentNum := s.Ino(i).extentNum + 1)]
    ensures t.Blocks(i) == s.Blocks(i) + [b] && t.Extents(i) == s.Extents(i) + [Extent(b, 1)]
    ensures forall k | 0 <= k < |t.Extents(i)| :: t.Extents(i)[k].count >= 1
    ensures forall c: nat, k: nat | c != s.Ino(i).indirect && k < 512 :: t.Ext(c, k) == s.Ext(c, k)
  {
    assert InodeOk(s, i);
    LastBlockIsLast(s, i);
    FreeBlockIsFree(s);
    var m := s.Ino(i).extentNum;
    var s1 := s.TakeBlock(b);
    PutExtentEffect(s1, s1.PutExtent(s.Ino(i).indirect, m, Extent(b, 1)), s.Ino(i).indirect, m, Extent(b, 1));
    assert t.Extents(i) == s.Extents(i) + [Extent(b, 1)];
    FlatBlocksPush(s.Extents(i), b);
  }

  /** Taking free block b into the extents of an inode that has some extends it. */
  lemma TakenExtends(s: Image, t: Image, i: nat, b: nat)
    requires Sound(s) && i in s.usedInodes && s.Ino(i).extentNum > 0
    requires b < s.numBlocks && b !in s.usedBlocks && s.freeBlocks > 0
    requires t == s.TakeBlock(b).(tables := t.tables, inodes := t.inodes) && |t.tables| == |s.tables|
    requires s.Ino(i).extentNum <= t.Ino(i).extentNum <= 512
    requires t.inodes == s.inodes[i := s.Ino(i).(extentNum := t.Ino(i).extentNum)]
    requires t.Blocks(i) == s.Blocks(i) + [b]
    requires forall k | 0 <= k < |t.Extents(i)| :: t.Extents(i)[k].count >= 1
    requires forall c: nat, k: nat | c != s.Ino(i).indirect && k < 512 :: t.Ext(c, k) == s.Ext(c, k)
    ensures Extended(s, t, i, b)
  {
    assert InodeOk(s, i);
    OwnedPush(s, t, i, b);
    assert s.Owned(i)[0] in s.Owned(i);
  }

  lemma MergeExtends(s: Image, t: Image, i: nat, b: nat)
    requires Sound(s) && i in s.usedInodes && s.Ino(i).extentNum > 0 && s.freeBlocks > 0
    requires MayMerge(Repaired, s, i) && t == Merge(s, i) && b == s.LastBlock(i) + 1
    ensures Extended(s, t, i, b)
  {
    assert InodeOk(s, i);
    MergeBlocks(s, t, i, b);
    assert s.inodes == s.inodes[i := s.Ino(i)];
    TakenExtends(s, t, i, b);
  }

  lemma OpenExtends(s: Image, t: Image, i: nat, b: nat)
    requires Sound(s) && i in s.usedInodes && 0 < s.Ino(i).extentNum < 512 && s.freeBlocks > 0
    requires t == Open(s, i) && b == s.FirstFreeBlock()
    ensures Extended(s, t, i, b)
  {
    OpenBlocks(s, t, i, b);
    FreeBlockIsFree(s);
    TakenExtends(s, t, i, b);
  }

  lemma StartBlocks(s: Image, t: Image, i: nat, x: nat, b: nat)
    requires Sound(s) && i in s.usedInodes && s.freeBlocks >= 2
    requires x == s.FirstFreeBlock() && (t, b) == Start(Repaired, s, i)
    ensures x < s.numBlocks && b < s.numBlocks && x != b && x !in s.usedBlocks && b !in s.usedBlocks
    ensures t == s.(tables := t.tables, usedBlocks := s.usedBlocks + {x, b}, freeBlocks := s.freeBlocks - 2,
                    inodes := s.inodes[i := s.Ino(i).(indirect := x, extentNum := 1)])
    ensures |t.tables| == |s.tables|
    ensures t.Extents(i) == [Extent(b, 1)] && t.Blocks(i) == [b] && t.Owned(i) == [x, b]
    ensures forall c: nat, k: nat | c != x && k < 512 :: t.Ext(c, k) == s.Ext(c, k)
  {
    hide FlatBlocks, FirstFree;
    var s2 := TakeTwo(s, x, b);
    var s3 := s2.PutExtent(x, 0, Extent(b, 1));
    PutExtentEffect(s2, s3, x, 0, Extent(b, 1));
    StartOwned(s3, t, i, x, b);
  }

  lemma StartOwned(s: Image, t: Image, i: nat, x: nat, b: nat)
    requires i < |s.inodes| && t == s.PutInode(i, s.Ino(i).(indirect := x, extentNum := 1))
    requires s.Ext(x, 0) == Extent(b, 1)
    ensures t.Extents(i) == [Extent(b, 1)] && t.Blocks(i) == [b] && t.Owned(i) == [x, b]
  {
    assert t.Ext(x, 0) == Extent(b, 1);
    assert t.Extents(i) == [] + [Extent(b, 1)];
    FlatBlocksPush([], b);
  }

  /** First fit twice in a row takes two different free blocks. */
  lemma TakeTwo(s: Image, x: nat, b: nat) returns (t: Image)
    requires LayoutOk(s) && CountersOk(s) && s.freeBlocks >= 2
    requires x == s.FirstFreeBlock() && b == s.TakeBlock(x).FirstFreeBlock()
    ensures x < s.numBlocks && b < s.numBlocks && x != b && x !in s.usedBlocks && b !in s.usedBlocks
    ensures t == s.TakeBlock(x).TakeBlock(b)
    ensures t == s.(usedBlocks := s.usedBlocks + {x, b}, freeBlocks := s.freeBlocks - 2)
    ensures CountersOk(t)
  {
    FreeBlockIsFree(s);
    var s1 := s.TakeBlock(x);
    FreeBlockIsFree(s1);
    t := s1.TakeBlock(b);
    assert t.usedBlocks == s.usedBlocks + {x, b};
  }

  lemma StartExtends(s: Image, t: Image, i: nat, b: nat)
    requires Sound(s) && i in s.usedInodes && s.Ino(i).extentNum == 0 && s.freeBlocks >= 2
    requires (t, b) == Start(Repaired, s, i)
    ensures Extended(s, t, i, b)
  {
    hide Start;
    var x := s.FirstFreeBlock();
    StartBlocks(s, t, i, x, b);
    assert s.Extents(i) == [];
    assert Elements([x, b]) == {x, b};
  }

  /** A growth depends on the record, the tables, the data bitmap and its counter only. */
  lemma SameNext(code: Code, s: Image, s1: Image, i: nat)
    requires s1.Ino(i) == s.Ino(i) && s1.tables == s.tables && s1.numBlocks == s.numBlocks
    requires s1.usedBlocks == s.usedBlocks && s1.freeBlocks == s.freeBlocks && s1.blockBits == s.blockBits
    ensures NextBlock(code, s1, i) == NextBlock(code, s, i) && GrowthCost(s1, i) == GrowthCost(s, i)
    ensures BlocksTaken(code, s1, i) == BlocksTaken(code, s, i)
    ensures GrownExtents(code, s1, i) == GrownExtents(code, s, i)
    ensures s1.FirstFreeBlock() == s.FirstFreeBlock()
    ensures s1.Blocks(i) == s.Blocks(i) && s1.Extents(i) == s.Extents(i) && s1.LastBlock(i) == s.LastBlock(i)
  {
    hide FirstFree, FlatBlocks;
    SameTables(s, s1, i);
    assert s1.LastExtent(i) == s.LastExtent(i);
    assert s1.FirstFreeBlock() == s.FirstFreeBlock();
    assert s1.TakeBlock(s.FirstFreeBlock()).FirstFreeBlock() == s.TakeBlock(s.FirstFreeBlock()).FirstFreeBlock();
  }

  lemma MergeIsNext(s: Image, t: Image, i: nat, b: nat)
    requires Sound(s) && i in s.usedInodes && s.Ino(i).extentNum > 0 && s.freeBlocks > 0
    requires MayMerge(Repaired, s, i) && t == Merge(s, i) && b == s.LastBlock(i) + 1
    ensures TakesNext(Repaired, s, t, i, b)
  {
    hide FlatBlocks, Image.Blocks;
    assert InodeOk(s, i);
    MergeBlocks(s, t, i, b);
  }

  lemma OpenIsNext(s: Image, t: Image, i: nat, b: nat)
    requires Sound(s) && i in s.usedInodes && 0 < s.Ino(i).extentNum < 512 && s.freeBlocks > 0
    requires !MayMerge(Repaired, s, i) && t == Open(s, i) && b == s.FirstFreeBlock()
    ensures TakesNext(Repaired, s, t, i, b)
  {
    hide FlatBlocks, Image.Blocks;
    assert InodeOk(s, i);
    FreeBlockIsFree(s);
    OpenBlocks(s, t, i, b);
  }

  lemma StartIsNext(s: Image, t: Image, i: nat, b: nat)
    requires Sound(s) && i in s.usedInodes && s.Ino(i).size == 0 && s.freeBlocks >= 2
    requires (t, b) == Start(Repaired, s, i)
    ensures TakesNext(Repaired, s, t, i, b)
  {
    hide FlatBlocks, Image.Blocks;
    StartBlocks(s, t, i, s.FirstFreeBlock(), b);
  }

  /** What happens after an extension: the record gets its size, and only block b is written. */
  ghost predicate Completes(t: Image, u: Image, i: nat, b: nat) {
    && SameFrame(t, u)
    && u.usedInodes == t.usedInodes && u.freeInodes == t.freeInodes
    && u.usedBlocks == t.usedBlocks && u.freeBlocks == t.freeBlocks && u.tables == t.tables
    && (forall j: nat {:trigger u.Ino(j)} | j != i :: u.Ino(j) == t.Ino(j))
    && u.Ino(i).extentNum == t.Ino(i).extentNum && u.Ino(i).indirect == t.Ino(i).indirect
    && (forall c: nat, k: nat | c != b && k < 4096 :: u.Byte(c, k) == t.Byte(c, k))
    && (forall c: nat, k: nat | c != b && k < 16 :: u.Slot(c, k) == t.Slot(c, k))
  }

  lemma CompleteKeepsSound(s: Image, t: Image, u: Image, i: nat, b: nat)
    requires Sound(s) && i in s.usedInodes && Extended(s, t, i, b) && Completes(t, u, i, b)
    requires u.Ino(i).size > 0 && CeilBlocks(u.Ino(i).size) == |t.Blocks(i)|
    requires u.Ino(i).kind.Regular? ==> u.Ino(i).numEntries == 0 && u.Ino(i).links == 1
    requires u.Ino(i).kind.Directory? ==> u.Ino(i).size == 256 * u.Ino(i).numEntries
    ensures Sound(u) && u.Blocks(i) == s.Blocks(i) + [b] && u.Owned(i) == t.Owned(i)
    ensures Abs(u) == Abs(s)[i := NodeOf(u, i)]
  {
    SameTables(t, u, i);
    assert u.tables == t.tables;
    assert forall c: nat, k: nat :: u.Ext(c, k) == t.Ext(c, k);
    assert forall c: nat, k: nat :: t.Byte(c, k) == s.Byte(c, k) && t.Slot(c, k) == s.Slot(c, k);
    assert OnlyTouches(s, u, i);
    ExchangeKeepsSound(s, u, i);
  }

  /** The old blocks read the same after an extension is completed, and the new one is last. */
  lemma CompleteViews(s: Image, t: Image, u: Image, i: nat, b: nat)
    requires Sound(s) && i in s.usedInodes && Extended(s, t, i, b) && Completes(t, u, i, b)
    ensures u.AllBytes(i) == s.AllBytes(i) + seq(4096, (k: nat) => u.Byte(b, k))
    ensures u.AllSlots(i) == s.AllSlots(i) + seq(16, (k: nat) => u.Slot(b, k))
  {
    SameTables(t, u, i);
    ViewsPush(s, u, i, b) by {
      forall q: nat | q < |s.Blocks(i)| ensures s.Blocks(i)[q] != b {
        OwnedInRange(s, i, q);
      }
      assert forall c: nat, k: nat :: t.Byte(c, k) == s.Byte(c, k) && t.Slot(c, k) == s.Slot(c, k);
    }
  }

  lemma ViewsPush(s: Image, u: Image, i: nat, b: nat)
    requires u.Blocks(i) == s.Blocks(i) + [b] && b !in s.Blocks(i)
    requires forall c: nat, k: nat | c != b && k < 4096 :: u.Byte(c, k) == s.Byte(c, k)
    requires forall c: nat, k: nat | c != b && k < 16 :: u.Slot(c, k) == s.Slot(c, k)
    ensures u.AllBytes(i) == s.AllBytes(i) + seq(4096, (k: nat) => u.Byte(b, k))
    ensures u.AllSlots(i) == s.AllSlots(i) + seq(16, (k: nat) => u.Slot(b, k))
  {
    var bs := s.Blocks(i);
    var bytes := s.AllBytes(i) + seq(4096, (k: nat) => u.Byte(b, k));
    forall k: nat | k < 4096 * (|bs| + 1) ensures u.AllBytes(i)[k] == bytes[k] {
      if k < 4096 * |bs| { assert bs[k / 4096] in bs; }
    }
    var slots := s.AllSlots(i) + seq(16, (k: nat) => u.Slot(b, k));
    forall k: nat | k < 16 * (|bs| + 1) ensures u.AllSlots(i)[k] == slots[k] {
      if k < 16 * |bs| { assert bs[k / 16] in bs; }
    }
  }
}
