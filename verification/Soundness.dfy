/**
 The block-level invariant of the image, the namespace the image stands for, and the
 frame lemmas: an operation that touches one inode's blocks changes one node.
 */
module Soundness {
  import opened Bitmap
  import opened Images
  import opened Namespace

  predicate NoDuplicates(bs: seq<nat>) {
    forall j, k | 0 <= j < k < |bs| :: bs[j] != bs[k]
  }

  /** The regions have the sizes the layout gives them; block numbers and byte counts fit in 32 bits. */
  predicate LayoutOk(s: Image) {
    && !s.fault
    && |s.inodes| == s.numInodes <= s.inodeBits < NOT_FOUND
    && |s.tables| == 512 * s.numBlocks
    && |s.slots| == 16 * s.numBlocks
    && |s.data| == 4096 * s.numBlocks
    && s.numBlocks < s.blockBits < NOT_FOUND
    && s.numBlocks < 0x10_0000
  }

  /** Each counter is the number of clear bits of its bitmap, and no bit is set past the end. */
  predicate CountersOk(s: Image) {
    && s.usedInodes <= Below(s.numInodes) && s.freeInodes + |s.usedInodes| == s.numInodes
    && s.usedBlocks <= Below(s.numBlocks) && s.freeBlocks + |s.usedBlocks| == s.numBlocks
  }

  /**
   The shape of one inode: as many blocks as its size needs, in at most 512 non-empty
   extents, all distinct and marked as used.
   */
  predicate InodeOk(s: Image, i: nat) {
    var x := s.Ino(i);
    && x.extentNum <= 512
    && (x.size == 0 <==> x.extentNum == 0)
    && (forall k | 0 <= k < |s.Extents(i)| :: s.Extents(i)[k].count >= 1)
    && |s.Blocks(i)| == CeilBlocks(x.size)
    && (x.kind.Regular? ==> x.numEntries == 0 && x.links == 1)
    && (x.kind.Directory? ==> x.size == 256 * x.numEntries)
    && NoDuplicates(s.Owned(i))
    && Elements(s.Owned(i)) <= s.usedBlocks
  }

  /** Two inodes hold no block in common. */
  predicate Apart(s: Image, i: nat, j: nat) {
    Elements(s.Owned(i)) !! Elements(s.Owned(j))
  }

  /** A used block is held by a live inode. */
  ghost predicate Covered(s: Image, b: nat) {
    exists i: nat :: i in s.usedInodes && b in s.Owned(i)
  }

  ghost predicate Sound(s: Image) {
    && LayoutOk(s)
    && CountersOk(s)
    && (forall i: nat {:trigger InodeOk(s, i)} | i in s.usedInodes :: InodeOk(s, i))
    && (forall i: nat, j: nat {:trigger Apart(s, i, j)} | i in s.usedInodes && j in s.usedInodes && i != j ::
          Apart(s, i, j))
    && (forall b: nat {:trigger Covered(s, b)} | b in s.usedBlocks :: Covered(s, b))
  }

  /** What inode i stands for. */
  function NodeOf(s: Image, i: nat): Node {
    if s.Ino(i).kind.Directory? then Dir(s.Entries(i), s.Ino(i).links) else File(s.Content(i))
  }

  function Abs(s: Image): Tree {
    map i: nat | i in s.usedInodes :: NodeOf(s, i)
  }

  /** The global invariant. */
  ghost predicate Invariant(s: Image) {
    Sound(s) && IsTree(Abs(s))
  }

  // Frames

  /** Block b reads the same in all three views. */
  predicate Kept(s: Image, t: Image, b: nat) {
    && (forall k: nat | k < 512 :: t.Ext(b, k) == s.Ext(b, k))
    && (forall k: nat | k < 16 :: t.Slot(b, k) == s.Slot(b, k))
    && (forall k: nat | k < 4096 :: t.Byte(b, k) == s.Byte(b, k))
  }

  predicate SameFrame(s: Image, t: Image) {
    && t.numInodes == s.numInodes && t.numBlocks == s.numBlocks
    && t.inodeBits == s.inodeBits && t.blockBits == s.blockBits
    && |t.inodes| == |s.inodes| && |t.tables| == |s.tables| && |t.slots| == |s.slots| && |t.data| == |s.data|
    && t.fault == s.fault
  }

  /** From s to t, only inode p and blocks that were its own or free have changed. */
  ghost predicate OnlyTouches(s: Image, t: Image, p: nat) {
    && SameFrame(s, t)
    && t.usedInodes == s.usedInodes && t.freeInodes == s.freeInodes
    && (forall j: nat {:trigger t.Ino(j)} | j != p :: t.Ino(j) == s.Ino(j))
    && (forall b: nat {:trigger Kept(s, t, b)} | b in s.usedBlocks && b !in s.Owned(p) :: Kept(s, t, b))
  }

  lemma SameExtents(s: Image, t: Image, j: nat)
    requires s.Ino(j).extentNum <= 512
    requires t.Ino(j).extentNum == s.Ino(j).extentNum && t.Ino(j).indirect == s.Ino(j).indirect
    requires forall k: nat | k < s.Ino(j).extentNum :: t.Ext(s.Ino(j).indirect, k) == s.Ext(s.Ino(j).indirect, k)
    ensures t.Extents(j) == s.Extents(j) && t.Blocks(j) == s.Blocks(j) && t.Owned(j) == s.Owned(j)
  {
    assert t.Extents(j) == s.Extents(j);
  }

  /** An inode whose record and blocks are kept stands for the same node. */
  lemma NodeFrame(s: Image, t: Image, j: nat)
    requires t.Ino(j) == s.Ino(j) && InodeOk(s, j)
    requires forall b: nat {:trigger Kept(s, t, b)} | b in s.Owned(j) :: Kept(s, t, b)
    ensures t.Extents(j) == s.Extents(j) && t.Owned(j) == s.Owned(j) && NodeOf(t, j) == NodeOf(s, j)
  {
    if s.Ino(j).extentNum == 0 {
      assert t.Extents(j) == s.Extents(j) == [];
    } else {
      assert s.Owned(j)[0] == s.Ino(j).indirect;
      assert Kept(s, t, s.Ino(j).indirect);
      SameExtents(s, t, j);
      SameViews(s, t, j);
    }
  }

  lemma SameViews(s: Image, t: Image, j: nat)
    requires t.Blocks(j) == s.Blocks(j)
    requires forall b: nat {:trigger Kept(s, t, b)} | b in s.Blocks(j) :: Kept(s, t, b)
    ensures t.AllBytes(j) == s.AllBytes(j) && t.AllSlots(j) == s.AllSlots(j)
  {
    var bs := s.Blocks(j);
    forall k: nat | k < 4096 * |bs| ensures t.AllBytes(j)[k] == s.AllBytes(j)[k] {
      assert bs[k / 4096] in bs;
      assert Kept(s, t, bs[k / 4096]);
    }
    forall k: nat | k < 16 * |bs| ensures t.AllSlots(j)[k] == s.AllSlots(j)[k] {
      assert bs[k / 16] in bs;
      assert Kept(s, t, bs[k / 16]);
    }
  }

  lemma OthersKept(s: Image, t: Image, p: nat, j: nat)
    requires Sound(s) && p in s.usedInodes && j in s.usedInodes && j != p && OnlyTouches(s, t, p)
    ensures InodeOk(s, j) && t.Ino(j) == s.Ino(j)
    ensures t.Extents(j) == s.Extents(j) && t.Owned(j) == s.Owned(j) && NodeOf(t, j) == NodeOf(s, j)
    ensures forall b | b in s.Owned(j) :: b in s.usedBlocks && b !in s.Owned(p)
  {
    assert InodeOk(s, j) && Apart(s, p, j);
    forall b: nat | b in s.Owned(j) ensures b in s.usedBlocks && b !in s.Owned(p) && Kept(s, t, b) {
      assert b in Elements(s.Owned(j));
      assert b !in Elements(s.Owned(p));
    }
    NodeFrame(s, t, j);
  }

  /** t is s with inode p's blocks exchanged for others, all accounted for. */
  ghost predicate Exchanges(s: Image, t: Image, p: nat) {
    && OnlyTouches(s, t, p)
    && InodeOk(t, p)
    && t.usedBlocks == (s.usedBlocks - Elements(s.Owned(p))) + Elements(t.Owned(p))
    && Elements(t.Owned(p)) !! (s.usedBlocks - Elements(s.Owned(p)))
    && t.usedBlocks <= Below(t.numBlocks) && t.freeBlocks + |t.usedBlocks| == t.numBlocks
  }

  lemma ExchangeInode(s: Image, t: Image, p: nat, j: nat)
    requires Sound(s) && p in s.usedInodes && j in s.usedInodes && Exchanges(s, t, p)
    ensures InodeOk(t, j)
  {
    if j != p {
      OthersKept(s, t, p, j);
      assert t.Blocks(j) == s.Blocks(j);
      forall b | b in Elements(s.Owned(j)) ensures b in t.usedBlocks {
        assert b !in Elements(s.Owned(p));
      }
    }
  }

  lemma ExchangeApartFrom(s: Image, t: Image, p: nat, j: nat)
    requires Sound(s) && p in s.usedInodes && j in s.usedInodes && j != p && Exchanges(s, t, p)
    ensures Apart(t, p, j) && Apart(t, j, p)
  {
    OthersKept(s, t, p, j);
    forall b | b in Elements(s.Owned(j)) ensures b !in Elements(t.Owned(p)) {
      assert b in s.usedBlocks - Elements(s.Owned(p));
    }
  }

  lemma ExchangeApart(s: Image, t: Image, p: nat, i: nat, j: nat)
    requires Sound(s) && p in s.usedInodes && i in s.usedInodes && j in s.usedInodes && i != j && Exchanges(s, t, p)
    ensures Apart(t, i, j)
  {
    if i == p {
      ExchangeApartFrom(s, t, p, j);
    } else if j == p {
      ExchangeApartFrom(s, t, p, i);
    } else {
      OthersKept(s, t, p, i);
      OthersKept(s, t, p, j);
      assert Apart(s, i, j);
    }
  }

  lemma ExchangeCovered(s: Image, t: Image, p: nat, b: nat)
    requires Sound(s) && p in s.usedInodes && Exchanges(s, t, p) && b in t.usedBlocks
    ensures Covered(t, b)
  {
    if b !in Elements(t.Owned(p)) {
      assert b in s.usedBlocks && b !in Elements(s.Owned(p));
      assert Covered(s, b);
      var i: nat :| i in s.usedInodes && b in s.Owned(i);
      assert i != p;
      OthersKept(s, t, p, i);
    }
  }

  lemma ExchangeAbs(s: Image, t: Image, p: nat)
    requires Sound(s) && p in s.usedInodes && OnlyTouches(s, t, p)
    ensures Abs(t) == Abs(s)[p := NodeOf(t, p)]
  {
    forall j: nat | j in t.usedInodes ensures Abs(t)[j] == Abs(s)[p := NodeOf(t, p)][j] {
      if j != p {
        OthersKept(s, t, p, j);
      }
    }
  }

  /** Exchanging one inode's blocks keeps the invariant and changes one node. */
  lemma ExchangeKeepsSound(s: Image, t: Image, p: nat)
    requires Sound(s) && p in s.usedInodes && Exchanges(s, t, p)
    ensures Sound(t) && Abs(t) == Abs(s)[p := NodeOf(t, p)]
  {
    ExchangeAbs(s, t, p);
    forall j: nat | j in t.usedInodes ensures InodeOk(t, j) {
      ExchangeInode(s, t, p, j);
    }
    forall i: nat, j: nat | i in t.usedInodes && j in t.usedInodes && i != j ensures Apart(t, i, j) {
      ExchangeApart(s, t, p, i, j);
    }
    forall b: nat | b in t.usedBlocks ensures Covered(t, b) {
      ExchangeCovered(s, t, p, b);
    }
  }

  // Inodes come and go holding nothing

  lemma UnchangedNode(s: Image, t: Image, j: nat)
    requires t.Ino(j) == s.Ino(j) && t.tables == s.tables && t.slots == s.slots && t.data == s.data
    requires t.usedBlocks == s.usedBlocks
    ensures t.Extents(j) == s.Extents(j) && t.Owned(j) == s.Owned(j) && NodeOf(t, j) == NodeOf(s, j)
    ensures InodeOk(t, j) == InodeOk(s, j)
  {
    assert forall b: nat, k: nat :: t.Ext(b, k) == s.Ext(b, k);
    assert t.Extents(j) == s.Extents(j);
    assert forall b: nat, k: nat :: t.Slot(b, k) == s.Slot(b, k);
    assert forall b: nat, k: nat :: t.Byte(b, k) == s.Byte(b, k);
    assert t.AllSlots(j) == s.AllSlots(j) && t.AllBytes(j) == s.AllBytes(j);
  }

  /** The live inodes change by one that holds no blocks; everything else is as before. */
  ghost predicate OnlyLists(s: Image, t: Image, i: nat) {
    && SameFrame(s, t)
    && t.tables == s.tables && t.slots == s.slots && t.data == s.data
    && t.usedBlocks == s.usedBlocks && t.freeBlocks == s.freeBlocks
    && (forall j: nat {:trigger t.Ino(j)} | j != i :: t.Ino(j) == s.Ino(j))
    && (forall j: nat | j != i :: j in t.usedInodes <==> j in s.usedInodes)
    && t.usedInodes <= Below(t.numInodes) && t.freeInodes + |t.usedInodes| == t.numInodes
    && (i in s.usedInodes ==> s.Owned(i) == [])
    && (i in t.usedInodes ==> t.Owned(i) == [] && InodeOk(t, i))
  }

  lemma ListingKeepsApart(s: Image, t: Image, i: nat, j: nat, k: nat)
    requires Sound(s) && OnlyLists(s, t, i) && j in t.usedInodes && k in t.usedInodes && j != k
    ensures Apart(t, j, k)
  {
    if j != i && k != i {
      assert j in s.usedInodes && k in s.usedInodes;
      UnchangedNode(s, t, j);
      UnchangedNode(s, t, k);
      assert Apart(s, j, k);
    }
  }

  lemma ListingKeepsCovered(s: Image, t: Image, i: nat, b: nat)
    requires Sound(s) && OnlyLists(s, t, i) && b in t.usedBlocks
    ensures Covered(t, b)
  {
    assert Covered(s, b);
    var j: nat :| j in s.usedInodes && b in s.Owned(j);
    assert j != i;
    UnchangedNode(s, t, j);
    assert j in t.usedInodes;
  }

  lemma ListingInode(s: Image, t: Image, i: nat, j: nat)
    requires Sound(s) && OnlyLists(s, t, i) && j in t.usedInodes
    ensures InodeOk(t, j)
    ensures j != i ==> j in s.usedInodes && NodeOf(t, j) == NodeOf(s, j)
  {
    if j != i {
      assert InodeOk(s, j);
      UnchangedNode(s, t, j);
    }
  }

  lemma ListingAbs(s: Image, t: Image, i: nat)
    requires Sound(s) && OnlyLists(s, t, i)
    ensures Abs(t) == if i in t.usedInodes then Abs(s)[i := NodeOf(t, i)] else Abs(s) - {i}
  {
    var b := if i in t.usedInodes then Abs(s)[i := NodeOf(t, i)] else Abs(s) - {i};
    forall j: nat | j in t.usedInodes ensures j in b && Abs(t)[j] == b[j] {
      ListingInode(s, t, i, j);
    }
  }

  /** Listing or dropping an inode that holds nothing keeps the invariant. */
  lemma ListingKeepsSound(s: Image, t: Image, i: nat)
    requires Sound(s) && OnlyLists(s, t, i)
    ensures Sound(t)
    ensures Abs(t) == if i in t.usedInodes then Abs(s)[i := NodeOf(t, i)] else Abs(s) - {i}
  {
    ListingAbs(s, t, i);
    forall j: nat | j in t.usedInodes ensures InodeOk(t, j) {
      ListingInode(s, t, i, j);
    }
    forall j: nat, k: nat | j in t.usedInodes && k in t.usedInodes && j != k ensures Apart(t, j, k) {
      ListingKeepsApart(s, t, i, j, k);
    }
    forall b: nat | b in t.usedBlocks ensures Covered(t, b) {
      ListingKeepsCovered(s, t, i, b);
    }
  }
}
