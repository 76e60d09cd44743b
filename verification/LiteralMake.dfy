/** What mkdir and create as written do where they deviate, told by the whole state they leave. */
module LiteralMake {
  import opened Bitmap
  import opened Images
  import opened Operations
  import opened Namespace
  import opened Soundness
  import opened Growth
  import opened FileData
  import opened Directories
  import opened Deviations

  /** s with inode ino taken for a new, empty node that no entry names. */
  function Unnamed(s: Image, ino: nat, kind: Kind): Image
    requires ino < |s.inodes|
  {
    var links := if kind.Directory? then 2 else 1;
    s.(usedInodes := s.usedInodes + {ino}, freeInodes := Minus(s.freeInodes, 1),
       inodes := s.inodes[ino := Inode(kind, links, 0, 0, 0, 0)])
  }

  lemma TakesLeastInode(s: Image, ino: nat, kind: Kind)
    requires Sound(s) && s.freeInodes > 0 && ino == s.FirstFreeInode()
    ensures ino < |s.inodes| && ino !in s.usedInodes && (forall j: nat | j < ino :: j in s.usedInodes)
    ensures NewInode(s, kind) == Unnamed(s, ino, kind)
  {
    FreeInodeIsFree(s);
  }

  lemma SoundRegions(s: Image, p: nat)
    requires Sound(s) && p in s.usedInodes
    ensures LayoutOk(s) && CountersOk(s) && p < |s.inodes| && s.numBlocks !in s.usedBlocks
  {
  }

  lemma UnnamedKeeps(s: Image, ino: nat, kind: Kind)
    requires ino < |s.inodes|
    ensures Unnamed(s, ino, kind).usedBlocks == s.usedBlocks && Unnamed(s, ino, kind).numBlocks == s.numBlocks
    ensures Unnamed(s, ino, kind).tables == s.tables && Unnamed(s, ino, kind).slots == s.slots
  {
  }

  /** The parent's last block is full and it needs another. */
  predicate IsFull(s: Image, p: nat) {
    s.Ino(p).numEntries > 0 && s.Ino(p).size % 4096 == 0
  }

  /** Without a free inode or a free block nothing happens, whether or not the entry needs a block. */
  lemma MakeRefusedAtOnce(s: Image, t: Image, status: Status, p: nat, name: string, kind: Kind)
    requires (s.freeInodes == 0 || s.freeBlocks == 0) && (t, status) == MakeNode(AsWritten, s, p, name, kind)
    ensures status == NoSpace && t == s
  {
    hide AddEntry, NewInode;
  }

  /** The new inode was the last: it is taken, and nothing else happens. */
  lemma MakeRefusedAfterInode(s: Image, t: Image, status: Status, p: nat, name: string, kind: Kind, ino: nat)
    requires Sound(s) && LiveDir(s, p) && s.freeInodes == 1 && s.freeBlocks > 0 && ino == s.FirstFreeInode()
    requires s.Ino(p).numEntries == 0 || (IsFull(s, p) && s.LastBlock(p) + 1 in s.usedBlocks)
    requires (t, status) == MakeNode(AsWritten, s, p, name, kind)
    ensures ino < |s.inodes| && ino !in s.usedInodes && forall j: nat | j < ino :: j in s.usedInodes
    ensures status == NoSpace && t == Unnamed(s, ino, kind)
  {
    hide Sound, NewInode, InodeOk;
    TakesLeastInode(s, ino, kind);
    NewInodeFields(s, NewInode(s, kind), p, kind);
    MakeIsEntry(s, p, name, kind);
  }

  /** The extent table of an empty parent takes the last block: it and the inode are lost. */
  lemma MakeRefusedAfterTable(s: Image, t: Image, status: Status, p: nat, name: string, kind: Kind, ino: nat, x: nat)
    requires Sound(s) && LiveDir(s, p) && s.freeInodes > 1 && s.freeBlocks == 1 && s.Ino(p).numEntries == 0
    requires ino == s.FirstFreeInode() && x == s.FirstFreeBlock()
    requires (t, status) == MakeNode(AsWritten, s, p, name, kind)
    ensures ino < |s.inodes| && ino !in s.usedInodes && forall j: nat | j < ino :: j in s.usedInodes
    ensures x !in s.usedBlocks && x < s.numBlocks && status == NoSpace
    ensures var u := Unnamed(s, ino, kind);
            t == u.(usedBlocks := s.usedBlocks + {x}, freeBlocks := 0,
                    inodes := if p < |u.inodes| then u.inodes[p := s.Ino(p).(indirect := x)] else u.inodes)
  {
    hide NewInode, InodeOk;
    TakesLeastInode(s, ino, kind);
    NewInodeFields(s, NewInode(s, kind), p, kind);
    MakeIsEntry(s, p, name, kind);
    FreeBlockIsFree(s);
  }

  /** What a full parent's new entry leaves: the record, the block, and where extent and entry went. */
  predicate EntryPlaced(s: Image, t: Image, p: nat, ino: nat, kind: Kind, b: nat, extents: nat) {
    && ino < |s.inodes| && p < |s.inodes| && s.freeBlocks > 0
    && t == Unnamed(s, ino, kind).(
         usedBlocks := s.usedBlocks + {b}, freeBlocks := s.freeBlocks - 1, tables := t.tables, slots := t.slots,
         inodes := Unnamed(s, ino, kind).inodes[
           p := s.Ino(p).(size := s.Ino(p).size + 256, links := s.Ino(p).links + (if kind.Directory? then 1 else 0),
                          numEntries := s.Ino(p).numEntries + 1, extentNum := extents)],
         fault := t.fault)
  }

  lemma FullEntry(s: Image, p: nat, e: Dentry, up: nat)
    requires IsFull(s, p)
    ensures MayMerge(AsWritten, s, p) ==>
              AddEntry(AsWritten, s, p, e, up)
              == (CountEntry(Merge(s, p).PutSlot(s.LastBlock(p) + 1, 0, e), p, up), Done)
    ensures !MayMerge(AsWritten, s, p) && s.freeInodes > 0 && s.freeBlocks > 0 ==>
              AddEntry(AsWritten, s, p, e, up)
              == (CountEntry(Open(s, p).PutSlot(s.FirstFreeBlock(), 0, e), p, up), Done)
  {
    hide Merge, Open, CountEntry, MayMerge;
  }

  lemma SameFull(s: Image, s1: Image, p: nat)
    requires s1.Ino(p) == s.Ino(p) && s1.LastBlock(p) == s.LastBlock(p) && s1.usedBlocks == s.usedBlocks
    ensures IsFull(s1, p) == IsFull(s, p) && (MayMerge(AsWritten, s1, p) <==> s.LastBlock(p) + 1 !in s.usedBlocks)
  {
  }

  /** The block after the last is past the region: it is marked, and the entry is lost. */
  lemma MakePastEnd(s: Image, t: Image, status: Status, p: nat, name: string, kind: Kind, ino: nat)
    requires Sound(s) && LiveDir(s, p) && s.freeInodes > 0 && s.freeBlocks > 0 && ino == s.FirstFreeInode()
    requires IsFull(s, p) && s.LastBlock(p) + 1 == s.numBlocks
    requires (t, status) == MakeNode(AsWritten, s, p, name, kind)
    ensures ino !in s.usedInodes && (forall j: nat | j < ino :: j in s.usedInodes) && status == Done
    ensures EntryPlaced(s, t, p, ino, kind, s.numBlocks, s.Ino(p).extentNum)
    ensures t.fault && t.slots == s.slots && t.Blocks(p) == s.Blocks(p) + [s.numBlocks]
    ensures forall c: nat, k: nat | c != s.Ino(p).indirect && k < 512 :: t.Ext(c, k) == s.Ext(c, k)
  {
    hide NewInode, InodeOk, FlatBlocks, Merge, Image.Blocks, Sound, MakeNode, AddEntry, MayMerge, CountEntry;
    hide Unnamed, EntryPlaced;
    SoundRegions(s, p);
    TakesLeastInode(s, ino, kind);
    var s1 := NewInode(s, kind);
    NewInodeFields(s, s1, p, kind);
    MakeIsEntry(s, p, name, kind);
    SameFull(s, s1, p);
    FullEntry(s1, p, Dentry(ino, name), KindLinks(kind));
    UnnamedKeeps(s, ino, kind);
    PastEndMerge(s, s1, Merge(s1, p), p);
    PastEndPut(s1, Merge(s1, p), t, p, Dentry(ino, name), KindLinks(kind));
    PastEndPlaced(s, s1, Merge(s1, p), t, p, ino, kind);
  }

  lemma PastEndPlaced(s: Image, s1: Image, u: Image, t: Image, p: nat, ino: nat, kind: Kind)
    requires p < |s.inodes| && ino < |s.inodes| && s1 == Unnamed(s, ino, kind) && s1.Ino(p) == s.Ino(p)
    requires s.freeBlocks > 0
    requires u == s1.(tables := u.tables, usedBlocks := s.usedBlocks + {s.numBlocks}, freeBlocks := s.freeBlocks - 1)
    requires t == u.(inodes := u.inodes[p := Counted(u.Ino(p), KindLinks(kind))], fault := true)
    ensures EntryPlaced(s, t, p, ino, kind, s.numBlocks, s.Ino(p).extentNum) && t.slots == s.slots
  {
  }

  lemma PastEndMerge(s: Image, s1: Image, u: Image, p: nat)
    requires Sound(s) && LiveDir(s, p) && Sound(s1) && LiveDir(s1, p) && s1.Ino(p) == s.Ino(p) && s1.tables == s.tables
    requires s1.usedBlocks == s.usedBlocks && s1.freeBlocks == s.freeBlocks && s1.numBlocks == s.numBlocks
    requires s.Ino(p).numEntries > 0 && s.freeBlocks > 0 && s.LastBlock(p) + 1 == s.numBlocks && u == Merge(s1, p)
    ensures u == s1.(tables := u.tables, usedBlocks := s.usedBlocks + {s.numBlocks}, freeBlocks := s.freeBlocks - 1)
    ensures |u.tables| == |s.tables| && u.Blocks(p) == s.Blocks(p) + [s.numBlocks]
    ensures forall c: nat, k: nat | c != s.Ino(p).indirect && k < 512 :: u.Ext(c, k) == s.Ext(c, k)
  {
    hide FlatBlocks;
    DirShape(s, p);
    assert InodeOk(s, p);
    SameTables(s, s1, p);
    LastBlockIsLast(s, p);
    OwnedInRange(s, p, 0);
    var m, e := s.Ino(p).extentNum - 1, s.LastExtent(p);
    assert s1.LastExtent(p) == e;
    PutExtentEffect(s1.TakeBlock(s.numBlocks), u, s.Ino(p).indirect, m, e.(count := e.count + 1));
    assert u.Extents(p) == s.Extents(p)[m := e.(count := e.count + 1)];
    FlatBlocksMerge(s.Extents(p));
  }

  lemma PastEndPut(s1: Image, u: Image, t: Image, p: nat, e: Dentry, up: nat)
    requires u.numBlocks == s1.numBlocks && |u.slots| == 16 * u.numBlocks && s1.LastBlock(p) + 1 == s1.numBlocks
    requires p < |u.inodes| && t == CountEntry(u.PutSlot(s1.LastBlock(p) + 1, 0, e), p, up)
    ensures t == u.(inodes := u.inodes[p := Counted(u.Ino(p), up)], fault := true) && t.Blocks(p) == u.Blocks(p)
    ensures forall c: nat, k: nat :: t.Ext(c, k) == u.Ext(c, k)
  {
    SameTables(u, t, p);
  }

  /** The 513th extent is written behind the table, over the first extent of the next block. */
  lemma MakeManyExtents(s: Image, t: Image, status: Status, p: nat, name: string, kind: Kind, ino: nat, b: nat)
    requires Sound(s) && LiveDir(s, p) && s.freeInodes > 1 && s.freeBlocks > 0 && ino == s.FirstFreeInode()
    requires IsFull(s, p) && s.LastBlock(p) + 1 in s.usedBlocks && s.Ino(p).extentNum == 512 && b == s.FirstFreeBlock()
    requires (t, status) == MakeNode(AsWritten, s, p, name, kind)
    ensures ino !in s.usedInodes && (forall j: nat | j < ino :: j in s.usedInodes)
    ensures b < s.numBlocks && b !in s.usedBlocks && (forall c: nat | c < b :: c in s.usedBlocks) && status == Done
    ensures EntryPlaced(s, t, p, ino, kind, b, 513)
    ensures b * 16 < |s.slots| && t.slots == s.slots[b * 16 := Dentry(ino, name)]
    ensures var next := (s.Ino(p).indirect + 1) * 512;
            if next < |s.tables| then !t.fault && t.tables == s.tables[next := Extent(b, 1)]
            else t.fault && t.tables == s.tables
  {
    hide NewInode, InodeOk, FlatBlocks, FirstFree, Open, Sound, EntryPlaced;
    hide MakeNode, Unnamed, AddEntry, MayMerge, CountEntry;
    SoundRegions(s, p);
    TakesLeastInode(s, ino, kind);
    var s1 := NewInode(s, kind);
    NewInodeFields(s, s1, p, kind);
    MakeIsEntry(s, p, name, kind);
    SameFull(s, s1, p);
    FullEntry(s1, p, Dentry(ino, name), KindLinks(kind));
    LeastFree(s);
    UnnamedKeeps(s, ino, kind);
    SameFirstFree(s, s1);
    OpenPlaces(s, s1, t, p, ino, kind, name, b);
  }

  lemma OpenPlaces(s: Image, s1: Image, t: Image, p: nat, ino: nat, kind: Kind, name: string, b: nat)
    requires p < |s.inodes| && ino < |s.inodes| && s1 == Unnamed(s, ino, kind) && s1.Ino(p) == s.Ino(p)
    requires b < s.numBlocks < s.blockBits && s.freeBlocks > 0 && |s.slots| == 16 * s.numBlocks && !s.fault
    requires s.Ino(p).extentNum == 512 && b == s1.FirstFreeBlock()
    requires t == CountEntry(Open(s1, p).PutSlot(b, 0, Dentry(ino, name)), p, KindLinks(kind))
    ensures EntryPlaced(s, t, p, ino, kind, b, 513)
    ensures b * 16 < |s.slots| && t.slots == s.slots[b * 16 := Dentry(ino, name)]
    ensures var next := (s.Ino(p).indirect + 1) * 512;
            if next < |s.tables| then !t.fault && t.tables == s.tables[next := Extent(b, 1)]
            else t.fault && t.tables == s.tables
  {
    hide FirstFree;
    var u := Open(s1, p);
    var taken := s1.TakeBlock(b).PutExtent(s.Ino(p).indirect, 512, Extent(b, 1));
    assert u == taken.PutInode(p, s.Ino(p).(extentNum := 513));
    assert u.Ino(p) == s.Ino(p).(extentNum := 513);
    assert u.PutSlot(b, 0, Dentry(ino, name)).Ino(p) == u.Ino(p);
  }

  lemma SameFirstFree(s: Image, s1: Image)
    requires s1.usedBlocks == s.usedBlocks && s1.numBlocks == s.numBlocks
    ensures s1.FirstFreeBlock() == s.FirstFreeBlock()
  {
  }
}
