/** Adding and removing directory entries. */
module Directories {
  import opened Bitmap
  import opened Images
  import opened Operations
  import opened Namespace
  import opened Soundness
  import opened Growth
  import opened Truncation

  predicate LiveDir(s: Image, p: nat) {
    p in s.usedInodes && s.Ino(p).kind.Directory?
  }

  /** The tests on the size and on the number of entries modulo 16 agree with the block count. */
  lemma DirNumbers(num: nat, n: nat)
    requires n == CeilBlocks(256 * num)
    ensures num <= 16 * n < num + 16
    ensures (256 * num) % 4096 == 0 <==> num == 16 * n
    ensures num % 16 == 0 <==> num == 16 * n
    ensures num != 16 * n ==> (n - 1) * 16 + num % 16 == num && CeilBlocks(256 * (num + 1)) == n
    ensures num == 16 * n ==> CeilBlocks(256 * (num + 1)) == n + 1
    ensures num % 16 == 1 <==> num == 16 * (n - 1) + 1
    ensures num > 0 && num % 16 != 1 ==> CeilBlocks(256 * (num - 1)) == n
    ensures num % 16 == 1 ==> CeilBlocks(256 * (num - 1)) == n - 1
  {
  }

  /**
   The shape of a directory: size is 256 times the number of entries, the blocks are the
   ceil(entries / 16) needed for them, and an empty directory owns nothing.
   */
  lemma DirShape(s: Image, p: nat)
    requires Sound(s) && LiveDir(s, p)
    ensures s.Ino(p).size == 256 * s.Ino(p).numEntries && s.Ino(p).extentNum <= 512
    ensures |s.Blocks(p)| == CeilBlocks(256 * s.Ino(p).numEntries) && |s.AllSlots(p)| == 16 * |s.Blocks(p)|
    ensures s.Ino(p).numEntries <= 16 * |s.Blocks(p)| && s.Entries(p) == s.AllSlots(p)[..s.Ino(p).numEntries]
    ensures s.Ino(p).numEntries == 0 <==> s.Ino(p).extentNum == 0
    ensures s.Ino(p).numEntries == 0 <==> |s.Blocks(p)| == 0
    ensures s.Ino(p).numEntries > 0 ==> s.LastBlock(p) == s.Blocks(p)[|s.Blocks(p)| - 1]
    ensures NodeOf(s, p) == Dir(s.Entries(p), s.Ino(p).links)
  {
    assert InodeOk(s, p);
    DirNumbers(s.Ino(p).numEntries, |s.Blocks(p)|);
    if s.Ino(p).numEntries > 0 {
      LastBlockIsLast(s, p);
    }
  }

  // Writing one slot

  lemma PokeSlotView(s: Image, t: Image, p: nat, q: nat, o: nat, e: Dentry)
    requires q < |s.Blocks(p)| && o < 16 && t.Blocks(p) == s.Blocks(p)
    requires forall r: nat | r < |s.Blocks(p)| && r != q :: s.Blocks(p)[r] != s.Blocks(p)[q]
    requires forall c: nat, k: nat | k < 16 ::
               t.Slot(c, k) == if c == s.Blocks(p)[q] && k == o then e else s.Slot(c, k)
    ensures t.AllSlots(p) == s.AllSlots(p)[q * 16 + o := e]
  {
    forall k: nat | k < 16 * |s.Blocks(p)| ensures t.AllSlots(p)[k] == s.AllSlots(p)[q * 16 + o := e][k] {
      assert k / 16 == q || s.Blocks(p)[k / 16] != s.Blocks(p)[q];
    }
  }

  lemma PokeSlot(s: Image, t: Image, p: nat, q: nat, o: nat, e: Dentry)
    requires Sound(s) && p in s.usedInodes && q < |s.Blocks(p)| && o < 16
    requires t == s.PutSlot(s.Blocks(p)[q], o, e)
    ensures t == s.(slots := t.slots) && t.Blocks(p) == s.Blocks(p) && t.Extents(p) == s.Extents(p)
    ensures t.AllSlots(p) == s.AllSlots(p)[q * 16 + o := e]
    ensures Sound(t) && Abs(t) == Abs(s)[p := NodeOf(t, p)]
  {
    assert InodeOk(s, p);
    var b := s.Blocks(p)[q];
    OwnedInRange(s, p, q);
    PutSlotEffect(s, t, b, o, e);
    SameTables(s, t, p);
    forall r: nat | r < |s.Blocks(p)| && r != q ensures s.Blocks(p)[r] != b {
      DistinctBlocks(s, p, r, q);
    }
    PokeSlotView(s, t, p, q, o, e);
    assert OnlyTouches(s, t, p) by {
      assert forall c: nat, k: nat :: t.Byte(c, k) == s.Byte(c, k) && t.Ext(c, k) == s.Ext(c, k);
      assert forall c: nat {:trigger Kept(s, t, c)} | c != b :: Kept(s, t, c);
    }
    SameOwner(s, t, p);
  }

  /** The directory's record changes, its blocks do not. */
  lemma RecordChange(s: Image, t: Image, p: nat, x: Inode)
    requires Sound(s) && LiveDir(s, p) && s.Ino(p).size > 0 && t == s.PutInode(p, x)
    requires x == s.Ino(p).(size := x.size, links := x.links, numEntries := x.numEntries)
    requires x.size == 256 * x.numEntries && x.size > 0 && CeilBlocks(x.size) == CeilBlocks(s.Ino(p).size)
    ensures t == s.(inodes := t.inodes) && t.Ino(p) == x
    ensures t.Blocks(p) == s.Blocks(p) && t.AllSlots(p) == s.AllSlots(p)
    ensures Sound(t) && Abs(t) == Abs(s)[p := NodeOf(t, p)]
  {
    assert InodeOk(s, p);
    SameTables(s, t, p);
    UnchangedViews(s, t);
    assert t.AllSlots(p) == s.AllSlots(p);
    SameOwner(s, t, p);
  }

  // Adding an entry

  /**
   The blocks of a directory that has one entry more: as before when its last block had
   room, and otherwise one more, next to the last or first fit.
   */
  predicate ParentGrown(s: Image, t: Image, p: nat) {
    if s.Ino(p).size % 4096 != 0 then
      && t.Blocks(p) == s.Blocks(p) && t.Extents(p) == s.Extents(p) && t.Ino(p).indirect == s.Ino(p).indirect
      && t.usedBlocks == s.usedBlocks && t.freeBlocks == s.freeBlocks
    else
      && t.Blocks(p) == s.Blocks(p) + [NextBlock(Repaired, s, p)]
      && TakesNext(Repaired, s, t, p, NextBlock(Repaired, s, p))
  }

  /** An entry more, and `up` links more. */
  ghost predicate EntryAdded(s: Image, t: Image, p: nat, e: Dentry, up: nat) {
    && Sound(t) && LiveDir(t, p)
    && t.Ino(p).numEntries == s.Ino(p).numEntries + 1
    && t.Entries(p) == s.Entries(p) + [e]
    && Abs(t) == Abs(s)[p := Dir(s.Entries(p) + [e], s.Ino(p).links + up)]
    && t.usedInodes == s.usedInodes && t.freeInodes == s.freeInodes
    && (forall j: nat {:trigger t.Ino(j)} | j != p :: t.Ino(j) == s.Ino(j))
    && ParentGrown(s, t, p)
  }

  /** Assembling an addition from the slots and the record. */
  lemma AddedFrom(s: Image, t: Image, p: nat, e: Dentry, up: nat)
    requires Sound(s) && LiveDir(s, p) && Sound(t) && LiveDir(t, p)
    requires Abs(t) == Abs(s)[p := NodeOf(t, p)]
    requires t.usedInodes == s.usedInodes && t.freeInodes == s.freeInodes
    requires forall j: nat {:trigger t.Ino(j)} | j != p :: t.Ino(j) == s.Ino(j)
    requires t.Ino(p).numEntries == s.Ino(p).numEntries + 1 && t.Ino(p).links == s.Ino(p).links + up
    requires s.Ino(p).numEntries < |t.AllSlots(p)| && s.Ino(p).numEntries <= |s.AllSlots(p)|
    requires t.AllSlots(p)[..s.Ino(p).numEntries] == s.AllSlots(p)[..s.Ino(p).numEntries]
    requires t.AllSlots(p)[s.Ino(p).numEntries] == e && ParentGrown(s, t, p)
    ensures EntryAdded(s, t, p, e, up)
  {
    hide Sound, ParentGrown, CeilBlocks, FlatBlocks, Image.AllSlots, Image.Blocks, Image.Extents;
    hide Image.Entries, Image.Ino, Abs;
    DirShape(s, p);
    DirShape(t, p);
    assert t.Entries(p) == s.Entries(p) + [e];
  }

  lemma AddInRoom(s: Image, t: Image, p: nat, e: Dentry, up: nat)
    requires Sound(s) && LiveDir(s, p) && s.Ino(p).size % 4096 != 0
    requires t == CountEntry(s.PutSlot(s.LastBlock(p), s.Ino(p).numEntries % 16, e), p, up)
    ensures EntryAdded(s, t, p, e, up)
  {
    DirShape(s, p);
    var n, num := |s.Blocks(p)|, s.Ino(p).numEntries;
    DirNumbers(num, n);
    var s1 := s.PutSlot(s.LastBlock(p), num % 16, e);
    PokeSlot(s, s1, p, n - 1, num % 16, e);
    RecordChange(s1, t, p, Counted(s.Ino(p), up));
    SetTwice(Abs(s), p, NodeOf(s1, p), NodeOf(t, p));
    SameTables(s, t, p);
    AddedFrom(s, t, p, e, up);
  }

  /** The entry goes to slot 0 of a block just gained. */
  lemma AddInNewBlock(s: Image, t: Image, u: Image, p: nat, b: nat, e: Dentry, up: nat)
    requires Sound(s) && LiveDir(s, p) && s.Ino(p).size % 4096 == 0 && Extended(s, t, p, b)
    requires TakesNext(Repaired, s, t, p, b) && u == CountEntry(t.PutSlot(b, 0, e), p, up)
    ensures EntryAdded(s, u, p, e, up)
  {
    hide NextBlock, GrownExtents, BlocksTaken, GrowthCost, FlatBlocks;
    DirShape(s, p);
    DirNumbers(s.Ino(p).numEntries, |s.Blocks(p)|);
    var t1 := t.PutSlot(b, 0, e);
    PutSlotEffect(t, t1, b, 0, e);
    NewBlockCompletes(s, t, t1, u, p, b, up);
    CompleteKeepsSound(s, t, u, p, b);
    CompleteViews(s, t, u, p, b);
    assert u.Slot(b, 0) == e;
    SameTables(t, u, p);
    AddedFrom(s, u, p, e, up);
  }

  lemma NewBlockCompletes(s: Image, t: Image, t1: Image, u: Image, p: nat, b: nat, up: nat)
    requires Sound(s) && LiveDir(s, p) && Extended(s, t, p, b)
    requires t1 == t.(slots := t1.slots) && |t1.slots| == |t.slots| && u == CountEntry(t1, p, up)
    requires forall c: nat, k: nat | c != b && k < 16 :: t1.Slot(c, k) == t.Slot(c, k)
    ensures Completes(t, u, p, b) && u.Ino(p) == Counted(t.Ino(p), up)
    ensures forall k: nat | k < 16 :: u.Slot(b, k) == t1.Slot(b, k)
  {
    assert p < |t.inodes|;
    assert forall c: nat, k: nat :: u.Byte(c, k) == t.Byte(c, k);
    assert forall c: nat, k: nat :: u.Slot(c, k) == t1.Slot(c, k);
  }

  lemma AddFirst(s: Image, t: Image, status: Status, p: nat, e: Dentry, up: nat)
    requires Sound(s) && LiveDir(s, p) && s.Ino(p).numEntries == 0 && s.freeBlocks >= 2
    requires (t, status) == AddFirstEntry(Repaired, s, p, e, up)
    ensures status.Done? && EntryAdded(s, t, p, e, up)
  {
    DirShape(s, p);
    var (u, b) := Start(Repaired, s, p);
    StartExtends(s, u, p, b);
    StartIsNext(s, u, p, b);
    FirstIsStart(s, t, u, p, b, e, up);
    AddInNewBlock(s, u, t, p, b, e, up);
  }

  /** The inlined allocation is the same as that of a growing file, done in another order. */
  lemma FirstIsStart(s: Image, t: Image, u: Image, p: nat, b: nat, e: Dentry, up: nat)
    requires p < |s.inodes| && s.Ino(p).extentNum == 0
    requires t == AddFirstEntry(Repaired, s, p, e, up).0 && (u, b) == Start(Repaired, s, p)
    ensures t == CountEntry(u.PutSlot(b, 0, e), p, up)
  {
    var x := s.Ino(p).(indirect := s.FirstFreeBlock());
    var y := x.(extentNum := 1);
    var z := Counted(y, up);
    assert s.inodes[p := x][p := z] == s.inodes[p := y][p := z];
    assert Counted(x, up).(extentNum := x.extentNum + 1) == z;
  }

  lemma AddEntryRefines(s: Image, t: Image, status: Status, p: nat, e: Dentry, up: nat)
    requires Sound(s) && LiveDir(s, p) && HasRoom(s, p)
    requires (t, status) == AddEntry(Repaired, s, p, e, up)
    ensures status.Done? && EntryAdded(s, t, p, e, up)
  {
    hide Sound, EntryAdded, Extended, TakesNext;
    DirShape(s, p);
    if s.Ino(p).numEntries == 0 {
      AddFirst(s, t, status, p, e, up);
    } else if s.Ino(p).size % 4096 != 0 {
      AddInRoom(s, t, p, e, up);
    } else if MayMerge(Repaired, s, p) {
      MergeExtends(s, Merge(s, p), p, s.LastBlock(p) + 1);
      MergeIsNext(s, Merge(s, p), p, s.LastBlock(p) + 1);
      AddInNewBlock(s, Merge(s, p), t, p, s.LastBlock(p) + 1, e, up);
    } else {
      OpenExtends(s, Open(s, p), p, s.FirstFreeBlock());
      OpenIsNext(s, Open(s, p), p, s.FirstFreeBlock());
      AddInNewBlock(s, Open(s, p), t, p, s.FirstFreeBlock(), e, up);
    }
  }

  // Creating

  function FreshNode(kind: Kind): Node {
    if kind.Directory? then Dir([], 2) else File([])
  }

  lemma NewInodeRefines(s: Image, t: Image, ino: nat, kind: Kind)
    requires Sound(s) && s.freeInodes > 0 && ino == s.FirstFreeInode() && t == NewInode(s, kind)
    ensures ino !in s.usedInodes && t.usedInodes == s.usedInodes + {ino} && t.freeInodes == s.freeInodes - 1
    ensures t == s.(usedInodes := t.usedInodes, freeInodes := t.freeInodes, inodes := t.inodes)
    ensures forall j: nat {:trigger t.Ino(j)} | j != ino :: t.Ino(j) == s.Ino(j)
    ensures Sound(t) && Abs(t) == Abs(s)[ino := FreshNode(kind)]
  {
    FreeInodeIsFree(s);
    assert t.Extents(ino) == [];
    assert t.Owned(ino) == [];
    assert InodeOk(t, ino);
    assert OnlyLists(s, t, ino);
    ListingKeepsSound(s, t, ino);
    assert NodeOf(t, ino) == FreshNode(kind);
  }

  lemma AttachFrom(a: Tree, a1: Tree, b: Tree, p: nat, name: string, ino: nat, node: Node, d: Node)
    requires IsDir(a, p) && ino !in a && a1 == a[ino := node] && b == a1[p := d]
    requires d == Dir(a[p].entries + [Dentry(ino, name)], a[p].links + (if node.Dir? then 1 else 0))
    ensures b == Attach(a, p, name, ino, node)
  {
  }

  lemma AddedIsAttached(s: Image, s1: Image, t: Image, p: nat, e: Dentry, kind: Kind)
    requires LiveDir(s, p) && e.ino !in s.usedInodes && s1.Ino(p) == s.Ino(p) && s1.Entries(p) == s.Entries(p)
    requires Abs(s1) == Abs(s)[e.ino := FreshNode(kind)] && EntryAdded(s1, t, p, e, KindLinks(kind))
    ensures IsDir(Abs(s), p) && Abs(t) == Attach(Abs(s), p, e.name, e.ino, FreshNode(kind))
  {
    assert Abs(s)[p] == Dir(s.Entries(p), s.Ino(p).links);
    assert e == Dentry(e.ino, e.name);
    assert KindLinks(kind) == if FreshNode(kind).Dir? then 1 else 0;
    AttachFrom(Abs(s), Abs(s1), Abs(t), p, e.name, e.ino, FreshNode(kind),
               Dir(s1.Entries(p) + [e], s1.Ino(p).links + KindLinks(kind)));
  }

  lemma SameParentBefore(s: Image, s1: Image, t: Image, p: nat)
    requires s1.Ino(p) == s.Ino(p) && s1.tables == s.tables && s1.numBlocks == s.numBlocks
    requires s1.usedBlocks == s.usedBlocks && s1.freeBlocks == s.freeBlocks && s1.blockBits == s.blockBits
    requires ParentGrown(s1, t, p)
    ensures ParentGrown(s, t, p)
  {
    hide NextBlock, GrownExtents, BlocksTaken, GrowthCost;
    SameNext(Repaired, s, s1, p);
  }

  /** What taking the inode leaves for the parent. */
  lemma NewInodeKeepsParent(s: Image, s1: Image, p: nat, ino: nat, kind: Kind)
    requires Sound(s) && LiveDir(s, p) && s.freeInodes > 0 && HasRoom(s, p)
    requires ino == s.FirstFreeInode() && s1 == NewInode(s, kind)
    ensures ino !in s.usedInodes && Sound(s1) && LiveDir(s1, p) && HasRoom(s1, p)
    ensures s1.Ino(p) == s.Ino(p) && s1.Entries(p) == s.Entries(p) && Abs(s1) == Abs(s)[ino := FreshNode(kind)]
    ensures s1 == s.(usedInodes := s1.usedInodes, freeInodes := s1.freeInodes, inodes := s1.inodes)
  {
    NewInodeRefines(s, s1, ino, kind);
    assert s1.Ino(p) == s.Ino(p);
    SameRoom(s, s1, p);
  }

  lemma MakeNodeAttaches(s: Image, s1: Image, t: Image, status: Status, p: nat, e: Dentry, kind: Kind)
    requires Sound(s) && LiveDir(s, p) && s.freeInodes > 0 && HasRoom(s, p)
    requires e.ino == s.FirstFreeInode() && s1 == NewInode(s, kind)
    requires (t, status) == AddEntry(Repaired, s1, p, e, KindLinks(kind))
    ensures status.Done? && Sound(t) && e.ino !in s.usedInodes && IsDir(Abs(s), p)
    ensures Abs(t) == Attach(Abs(s), p, e.name, e.ino, FreshNode(kind)) && ParentGrown(s, t, p)
  {
    hide ParentGrown;
    NewInodeKeepsParent(s, s1, p, e.ino, kind);
    AddEntryRefines(s1, t, status, p, e, KindLinks(kind));
    SameParentBefore(s, s1, t, p);
    AddedIsAttached(s, s1, t, p, e, kind);
  }

  /** When a node can be made below directory p. */
  predicate CanMake(s: Image, p: nat) {
    s.freeInodes > 0 && HasRoom(s, p)
  }

  /** Making a node attaches it to its parent; it is refused, with no effect, exactly when there is no room. */
  lemma MakeNodeRefines(s: Image, t: Image, status: Status, p: nat, name: string, kind: Kind)
    requires Sound(s) && LiveDir(s, p) && (t, status) == MakeNode(Repaired, s, p, name, kind)
    ensures status == if CanMake(s, p) then Done else NoSpace
    ensures status.NoSpace? ==> t == s
    ensures status.Done? ==> Sound(t) && s.FirstFreeInode() !in s.usedInodes && IsDir(Abs(s), p)
    ensures status.Done? ==> Abs(t) == Attach(Abs(s), p, name, s.FirstFreeInode(), FreshNode(kind))
    ensures status.Done? ==> ParentGrown(s, t, p)
  {
    if CanMake(s, p) {
      MakeNodeAttaches(s, NewInode(s, kind), t, status, p, Dentry(s.FirstFreeInode(), name), kind);
    }
  }

  lemma SameRoom(s: Image, t: Image, p: nat)
    requires t.Ino(p) == s.Ino(p) && t.tables == s.tables && t.usedBlocks == s.usedBlocks
    requires t.freeBlocks == s.freeBlocks && t.numBlocks == s.numBlocks
    requires t.slots == s.slots
    ensures HasRoom(t, p) == HasRoom(s, p)
    ensures t.Entries(p) == s.Entries(p)
  {
    assert forall b: nat, k: nat :: t.Ext(b, k) == s.Ext(b, k);
    assert forall b: nat, k: nat :: t.Slot(b, k) == s.Slot(b, k);
    assert t.Extents(p) == s.Extents(p);
    assert t.AllSlots(p) == s.AllSlots(p);
  }

  // Removing an entry

  /** The last entry, as rmdir and unlink pick it from the last block. */
  lemma LastEntryIsLast(s: Image, p: nat)
    requires Sound(s) && LiveDir(s, p) && s.Ino(p).numEntries > 0
    ensures |s.Entries(p)| == s.Ino(p).numEntries
    ensures LastEntry(s, p) == s.Entries(p)[|s.Entries(p)| - 1]
  {
    DirShape(s, p);
    DirNumbers(s.Ino(p).numEntries, |s.Blocks(p)|);
    var num, n := s.Ino(p).numEntries, |s.Blocks(p)|;
    assert (num - 1) / 16 == n - 1 && (num - 1) % 16 == (if num % 16 == 0 then 16 else num % 16) - 1;
    assert s.AllSlots(p)[num - 1] == s.Slot(s.Blocks(p)[n - 1], (num - 1) % 16);
  }

  /** Entry k is the only one naming its inode. */
  predicate OnlyNamer(entries: seq<Dentry>, k: nat) {
    k < |entries| && forall j | 0 <= j < |entries| && entries[j].ino == entries[k].ino :: j == k
  }

  /** The scan over all slots finds the live entry before any stale slot. */
  lemma ScanFindsLive(all: seq<Dentry>, num: nat, k: nat)
    requires num <= |all| && OnlyNamer(all[..num], k)
    ensures FindIno(all, all[k].ino) == Some(k)
  {
    assert all[..num][k] == all[k];
    forall j: nat | j < k ensures all[j].ino != all[k].ino {
      assert all[..num][j] == all[j];
    }
  }

  /** After the overwrite (if one is needed) the first entries are those without the target. */
  lemma OverwriteSwaps(s: Image, s1: Image, p: nat, k: nat, target: nat)
    requires Sound(s) && LiveDir(s, p) && OnlyNamer(s.Entries(p), k) && s.Entries(p)[k].ino == target
    requires s1 == if LastEntry(s, p).ino == target then s else Overwrite(s, p, target)
    ensures s1 == s.(slots := s1.slots) && s1.Blocks(p) == s.Blocks(p) && s1.Extents(p) == s.Extents(p)
    ensures |s1.AllSlots(p)| == |s.AllSlots(p)| >= |s.Entries(p)|
    ensures s1.AllSlots(p)[..|s.Entries(p)| - 1] == SwapOut(s.Entries(p), k)
    ensures Sound(s1) && Abs(s1) == Abs(s)[p := NodeOf(s1, p)]
  {
    hide Sound, FlatBlocks, Image.Blocks, Image.Extents, Image.AllSlots, Image.PutSlot;
    DirShape(s, p);
    LastEntryIsLast(s, p);
    var all, num := s.AllSlots(p), s.Ino(p).numEntries;
    if LastEntry(s, p).ino == target {
      assert k == num - 1;
      assert Abs(s)[p := NodeOf(s, p)] == Abs(s);
    } else {
      assert s.Entries(p)[k] == all[k];
      ScanFindsLive(all, num, k);
      PokeSlot(s, s1, p, k / 16, k % 16, LastEntry(s, p));
    }
  }

  lemma DropTarget(s: Image, t: Image, target: nat)
    requires Sound(s) && target in s.usedInodes && s.Owned(target) == [] && t == s.ReleaseInode(target)
    ensures t == s.(usedInodes := s.usedInodes - {target}, freeInodes := s.freeInodes + 1)
    ensures Sound(t) && Abs(t) == Abs(s) - {target}
  {
    assert OnlyLists(s, t, target);
    ListingKeepsSound(s, t, target);
  }

  /** The parent gives up its last block. */
  lemma LastBlockDropped(s: Image, t: Image, p: nat)
    requires Sound(s) && LiveDir(s, p) && |s.Blocks(p)| >= 2
    requires t == s.(usedBlocks := s.usedBlocks - {s.LastBlock(p)}, freeBlocks := s.freeBlocks + 1,
                     tables := t.tables, inodes := t.inodes)
    requires |t.tables| == |s.tables| && |t.inodes| == |s.inodes|
    requires forall j: nat {:trigger t.Ino(j)} | j != p :: t.Ino(j) == s.Ino(j)
    requires t.Ino(p).kind.Directory? && t.Ino(p).indirect == s.Ino(p).indirect && 0 < t.Ino(p).extentNum <= 512
    requires t.Ino(p).size == 256 * t.Ino(p).numEntries && CeilBlocks(t.Ino(p).size) == |s.Blocks(p)| - 1
    requires t.Blocks(p) == s.Blocks(p)[..|s.Blocks(p)| - 1]
    requires forall k | 0 <= k < |t.Extents(p)| :: t.Extents(p)[k].count >= 1
    requires forall c: nat, k: nat | c != s.Ino(p).indirect && k < 512 :: t.Ext(c, k) == s.Ext(c, k)
    ensures Sound(t) && Abs(t) == Abs(s)[p := NodeOf(t, p)]
  {
    var n := |s.Blocks(p)|;
    OwnedInRange(s, p, n - 1);
    DirShape(s, p);
    assert InodeOk(s, p);
    DroppedDistinct(s, p, n - 1, s.Blocks(p)[n - 1..]);
    assert s.Blocks(p)[n - 1..] == [s.LastBlock(p)];
    assert t.Owned(p) == s.Owned(p)[..n];
    DroppedTouches(s, t, p);
    DroppedExchanges(s, t, p, n);
    hide *;
    ExchangeKeepsSound(s, t, p);
  }

  lemma DroppedExchanges(s: Image, t: Image, p: nat, n: nat)
    requires LayoutOk(s) && CountersOk(s) && InodeOk(s, p) && n == |s.Blocks(p)| && n >= 2 && OnlyTouches(s, t, p)
    requires s.LastBlock(p) == s.Blocks(p)[n - 1] && s.LastBlock(p) in s.usedBlocks
    requires t.usedBlocks == s.usedBlocks - {s.LastBlock(p)} && t.freeBlocks == s.freeBlocks + 1
    requires t.Ino(p).kind.Directory? && 0 < t.Ino(p).extentNum <= 512
    requires t.Ino(p).size == 256 * t.Ino(p).numEntries && CeilBlocks(t.Ino(p).size) == n - 1
    requires |t.Blocks(p)| == n - 1 && t.Owned(p) == s.Owned(p)[..n] && s.Ino(p).extentNum > 0
    requires forall k | 0 <= k < |t.Extents(p)| :: t.Extents(p)[k].count >= 1
    requires Elements(s.Owned(p)) == Elements(t.Owned(p)) + {s.LastBlock(p)}
    requires Elements(t.Owned(p)) !! {s.LastBlock(p)} && NoDuplicates(t.Owned(p))
    ensures Exchanges(s, t, p)
  {
    hide Kept, FlatBlocks, Image.Blocks, Image.Extents, Image.Owned;
    assert t.Ino(p).size > 0;
    assert InodeOk(t, p);
    assert t.usedBlocks == (s.usedBlocks - Elements(s.Owned(p))) + Elements(t.Owned(p));
  }

  lemma DroppedTouches(s: Image, t: Image, p: nat)
    requires s.Ino(p).extentNum > 0 && t.slots == s.slots && t.data == s.data && SameFrame(s, t)
    requires t.usedInodes == s.usedInodes && t.freeInodes == s.freeInodes
    requires forall j: nat {:trigger t.Ino(j)} | j != p :: t.Ino(j) == s.Ino(j)
    requires forall c: nat, k: nat | c != s.Ino(p).indirect && k < 512 :: t.Ext(c, k) == s.Ext(c, k)
    ensures OnlyTouches(s, t, p)
  {
    assert forall c: nat, k: nat :: t.Byte(c, k) == s.Byte(c, k) && t.Slot(c, k) == s.Slot(c, k);
    assert s.Owned(p)[0] == s.Ino(p).indirect;
  }

  /** The number of links left to the parent. */
  function LinksLeft(x: Inode, down: nat): nat {
    if x.numEntries == 1 then 2 else Minus(x.links, down)
  }

  /** The directory keeps all its entries but the last, whose block goes with it when it was alone there. */
  ghost predicate LastGone(s: Image, t: Image, p: nat, down: nat) {
    && Sound(t) && LiveDir(t, p)
    && 0 < s.Ino(p).numEntries <= |s.AllSlots(p)|
    && Abs(t) == Abs(s)[p := Dir(s.AllSlots(p)[..s.Ino(p).numEntries - 1], LinksLeft(s.Ino(p), down))]
  }

  lemma GoneFrom(s: Image, t: Image, p: nat, down: nat)
    requires Sound(s) && LiveDir(s, p) && Sound(t) && LiveDir(t, p) && s.Ino(p).numEntries > 0
    requires Abs(t) == Abs(s)[p := NodeOf(t, p)]
    requires t.Ino(p).numEntries == s.Ino(p).numEntries - 1 && t.Ino(p).links == LinksLeft(s.Ino(p), down)
    requires t.AllSlots(p) <= s.AllSlots(p)
    ensures LastGone(s, t, p, down)
  {
    DirShape(s, p);
    DirShape(t, p);
    assert t.Entries(p) == s.AllSlots(p)[..s.Ino(p).numEntries - 1];
  }

  lemma SlotsPrefix(s: Image, t: Image, p: nat)
    requires t.Blocks(p) <= s.Blocks(p) && t.slots == s.slots
    ensures t.AllSlots(p) <= s.AllSlots(p)
  {
    assert forall b: nat, k: nat :: t.Slot(b, k) == s.Slot(b, k);
  }

  lemma OnlyEntryGone(s: Image, t: Image, p: nat, down: nat)
    requires Sound(s) && LiveDir(s, p) && s.Ino(p).numEntries == 1
    requires t == s.ReleaseBlock(s.LastBlock(p)).ReleaseBlock(s.Ino(p).indirect)
                   .PutInode(p, s.Ino(p).(extentNum := 0, links := 2, numEntries := 0, size := 0))
    ensures LastGone(s, t, p, down)
  {
    DirShape(s, p);
    assert InodeOk(s, p);
    var b, x := s.LastBlock(p), s.Ino(p).indirect;
    assert s.Owned(p) == [x, b];
    var order := [b, x];
    assert s.ReleaseAll(order) == s.ReleaseBlock(b).ReleaseBlock(x) by {
      assert order[..1] == [b] && [b][..0] == [];
      assert s.ReleaseAll([b]) == s.ReleaseAll([]).ReleaseBlock(b);
    }
    assert s.Owned(p)[0] != s.Owned(p)[1];
    assert Elements(order) == Elements(s.Owned(p));
    ReleaseUsed(s, s.ReleaseAll(order), order);
    assert t.Extents(p) == [];
    UnchangedViews(s, t);
    EmptyDirExchanges(s, t, p);
    ExchangeKeepsSound(s, t, p);
    assert t.AllSlots(p) == [];
    GoneFrom(s, t, p, down);
  }

  lemma EmptyDirExchanges(s: Image, t: Image, p: nat)
    requires Sound(s) && LiveDir(s, p) && t.Owned(p) == [] && t.Blocks(p) == [] && t.Extents(p) == []
    requires t == s.(usedBlocks := s.usedBlocks - Elements(s.Owned(p)), freeBlocks := t.freeBlocks,
                     inodes := s.inodes[p := s.Ino(p).(extentNum := 0, links := 2, numEntries := 0, size := 0)])
    requires CountersOk(t) && forall b: nat {:trigger Kept(s, t, b)} :: Kept(s, t, b)
    ensures Exchanges(s, t, p)
  {
    assert InodeOk(s, p);
  }

  lemma EntryGoneInBlock(s: Image, t: Image, p: nat, down: nat)
    requires Sound(s) && LiveDir(s, p) && s.Ino(p).numEntries > 1 && s.Ino(p).numEntries % 16 != 1
    requires t == s.PutInode(p, Uncounted(s.Ino(p), down))
    ensures LastGone(s, t, p, down)
  {
    DirShape(s, p);
    DirNumbers(s.Ino(p).numEntries, |s.Blocks(p)|);
    RecordChange(s, t, p, Uncounted(s.Ino(p), down));
    GoneFrom(s, t, p, down);
  }

  /** The directory loses its last block. */
  lemma BlockGone(s: Image, t: Image, p: nat, down: nat, extentNum: nat)
    requires Sound(s) && LiveDir(s, p) && s.Ino(p).numEntries > 1 && s.Ino(p).numEntries % 16 == 1
    requires t == s.(usedBlocks := s.usedBlocks - {s.LastBlock(p)}, freeBlocks := s.freeBlocks + 1, tables := t.tables,
                     inodes := t.inodes)
    requires p < |s.inodes| && t.inodes == s.inodes[p := Uncounted(s.Ino(p), down).(extentNum := extentNum)]
    requires |t.tables| == |s.tables| && 0 < extentNum <= 512 && |s.Blocks(p)| > 0
    requires t.Blocks(p) == s.Blocks(p)[..|s.Blocks(p)| - 1]
    requires forall k | 0 <= k < |t.Extents(p)| :: t.Extents(p)[k].count >= 1
    requires forall c: nat, k: nat | c != s.Ino(p).indirect && k < 512 :: t.Ext(c, k) == s.Ext(c, k)
    ensures LastGone(s, t, p, down)
  {
    DirShape(s, p);
    DirNumbers(s.Ino(p).numEntries, |s.Blocks(p)|);
    LastBlockDropped(s, t, p);
    SlotsPrefix(s, t, p);
    GoneFrom(s, t, p, down);
  }

  /** The last extent one shorter holds all blocks but the last. */
  lemma ShorterExtent(s: Image, t: Image, p: nat, s1: Image, s2: Image, e: Extent)
    requires Sound(s) && LiveDir(s, p) && s.Ino(p).extentNum > 0 && |s.Blocks(p)| > 0
    requires e == s.LastExtent(p) && e.count > 1
    requires s1 == s.ReleaseBlock(s.LastBlock(p))
    requires s2 == s1.PutExtent(s.Ino(p).indirect, s.Ino(p).extentNum - 1, e.(count := e.count - 1))
    requires t.tables == s2.tables && t.Ino(p).extentNum == s.Ino(p).extentNum && t.Ino(p).indirect == s.Ino(p).indirect
    ensures |t.tables| == |s.tables|
    ensures t.Blocks(p) == s.Blocks(p)[..|s.Blocks(p)| - 1]
    ensures forall k | 0 <= k < |t.Extents(p)| :: t.Extents(p)[k].count >= 1
    ensures forall c: nat, k: nat | c != s.Ino(p).indirect && k < 512 :: t.Ext(c, k) == s.Ext(c, k)
  {
    assert InodeOk(s, p);
    LastBlockIsLast(s, p);
    OwnedInRange(s, p, 0);
    var m, extents := s.Ino(p).extentNum - 1, s.Extents(p);
    PutExtentEffect(s1, s2, s.Ino(p).indirect, m, e.(count := e.count - 1));
    assert forall c: nat, k: nat :: t.Ext(c, k) == s2.Ext(c, k);
    assert t.Extents(p) == extents[..m] + [e.(count := e.count - 1)];
    FlatBlocksEnds(extents);
    FlatBlocksCount(extents, m);
    CutBlocks(extents, m, e.count - 1);
  }

  lemma ExtentShrinks(s: Image, t: Image, p: nat, down: nat)
    requires Sound(s) && LiveDir(s, p) && s.Ino(p).numEntries > 1 && s.Ino(p).numEntries % 16 == 1
    requires s.LastExtent(p).count > 1
    requires t == s.ReleaseBlock(s.LastBlock(p))
                   .PutExtent(s.Ino(p).indirect, Minus(s.Ino(p).extentNum, 1),
                              s.LastExtent(p).(count := s.LastExtent(p).count - 1))
                   .PutInode(p, Uncounted(s.Ino(p), down))
    ensures LastGone(s, t, p, down)
  {
    hide LastGone, Image.Blocks;
    DirShape(s, p);
    LastBlockIsLast(s, p) by { assert InodeOk(s, p); }
    OwnedInRange(s, p, 0);
    var e := s.LastExtent(p);
    var s1 := s.ReleaseBlock(s.LastBlock(p));
    var s2 := s1.PutExtent(s.Ino(p).indirect, s.Ino(p).extentNum - 1, e.(count := e.count - 1));
    ShorterExtent(s, t, p, s1, s2, e);
    BlockGone(s, t, p, down, s.Ino(p).extentNum);
  }

  lemma ExtentDrops(s: Image, t: Image, p: nat, down: nat)
    requires Sound(s) && LiveDir(s, p) && s.Ino(p).numEntries > 1 && s.Ino(p).numEntries % 16 == 1
    requires s.LastExtent(p).count <= 1
    requires t == s.ReleaseBlock(s.LastBlock(p))
                   .PutInode(p, Uncounted(s.Ino(p), down).(extentNum := Minus(s.Ino(p).extentNum, 1)))
    ensures LastGone(s, t, p, down)
  {
    hide LastGone, FlatBlocks, Covered, Apart, Elements;
    assert InodeOk(s, p);
    DirShape(s, p);
    DirNumbers(s.Ino(p).numEntries, |s.Blocks(p)|);
    LastBlockIsLast(s, p);
    var m, e, extents := s.Ino(p).extentNum - 1, s.LastExtent(p), s.Extents(p);
    assert extents[m].count == 1;
    assert t.Extents(p) == extents[..m];
    FlatBlocksPop(extents);
    BlockGone(s, t, p, down, m);
  }

  /** All four ways of forgetting the last entry agree. */
  lemma LastEntryGone(s: Image, t: Image, p: nat, down: nat)
    requires Sound(s) && LiveDir(s, p) && s.Ino(p).numEntries > 0
    requires t == ForgetLast(s, p, down)
    ensures LastGone(s, t, p, down)
  {
    if s.Ino(p).numEntries == 1 {
      OnlyEntryGone(s, t, p, down);
    } else if s.Ino(p).numEntries % 16 != 1 {
      EntryGoneInBlock(s, t, p, down);
    } else if s.LastExtent(p).count > 1 {
      ExtentShrinks(s, t, p, down);
    } else {
      ExtentDrops(s, t, p, down);
    }
  }

  /**
   The blocks of a directory that has one entry fewer: nothing when it was the only one;
   without the last block when the entry was alone there; otherwise as before.
   */
  predicate ParentShrunk(s: Image, t: Image, p: nat) {
    var x, n := s.Ino(p), |s.Extents(p)|;
    if x.numEntries == 1 then
      && t.Extents(p) == [] && t.usedBlocks == s.usedBlocks - {s.LastBlock(p), x.indirect}
      && t.freeBlocks == s.freeBlocks + 2
    else if x.numEntries % 16 != 1 then
      && t.Extents(p) == s.Extents(p) && t.Ino(p).indirect == x.indirect
      && t.usedBlocks == s.usedBlocks && t.freeBlocks == s.freeBlocks
    else
      && n > 0 && t.Ino(p).indirect == x.indirect
      && t.usedBlocks == s.usedBlocks - {s.LastBlock(p)} && t.freeBlocks == s.freeBlocks + 1
      && t.Extents(p) == s.Extents(p)[..n - 1] + (if s.LastExtent(p).count > 1 then
                                                    [s.LastExtent(p).(count := s.LastExtent(p).count - 1)]
                                                  else [])
  }

  /** An extent that only shrinks, and the others unchanged. */
  lemma ShorterTable(s: Image, s1: Image, t: Image, p: nat, e: Extent)
    requires 0 < s.Ino(p).extentNum <= 512 && s.Ino(p).indirect < s.numBlocks && |s.tables| == 512 * s.numBlocks
    requires s1 == s.ReleaseBlock(s.LastBlock(p))
    requires t.tables == s1.PutExtent(s.Ino(p).indirect, s.Ino(p).extentNum - 1, e).tables
    requires t.Ino(p).extentNum == s.Ino(p).extentNum && t.Ino(p).indirect == s.Ino(p).indirect
    ensures t.Extents(p) == s.Extents(p)[..s.Ino(p).extentNum - 1] + [e]
  {
    var s2, m := s1.PutExtent(s.Ino(p).indirect, s.Ino(p).extentNum - 1, e), s.Ino(p).extentNum - 1;
    PutExtentEffect(s1, s2, s.Ino(p).indirect, m, e);
    assert forall k: nat | k < 512 :: t.Ext(s.Ino(p).indirect, k) == s2.Ext(s.Ino(p).indirect, k);
  }

  lemma ForgetShrinks(s: Image, t: Image, p: nat, down: nat)
    requires Sound(s) && LiveDir(s, p) && s.Ino(p).numEntries > 0 && t == ForgetLast(s, p, down)
    ensures ParentShrunk(s, t, p)
  {
    hide FlatBlocks, Image.Blocks, InodeOk;
    DirShape(s, p);
    OwnedInRange(s, p, |s.Blocks(p)| - 1);
    if s.Ino(p).numEntries % 16 == 1 && s.Ino(p).numEntries > 1 {
      if s.LastExtent(p).count > 1 {
        ShorterTable(s, s.ReleaseBlock(s.LastBlock(p)), t, p, s.LastExtent(p).(count := s.LastExtent(p).count - 1));
      } else {
        assert t.Extents(p) == s.Extents(p)[..s.Ino(p).extentNum - 1];
      }
    } else if s.Ino(p).numEntries > 1 {
      SameTables(s, t, p);
    }
  }

  lemma TreeGivesOnlyNamer(a: Tree, spots: map<nat, Spot>, p: nat, k: nat)
    requires TreeBy(a, spots) && HasEntry(a, p, k)
    ensures OnlyNamer(a[p].entries, k) && Child(a, p, k) != p && Child(a, p, k) in a
    ensures |a[p].entries| == 1 ==> a[p].links == 2 + DirBit(a, Child(a, p, k))
  {
    assert EntryOk(a, spots, p, k);
    forall j: nat | j < |a[p].entries| && a[p].entries[j].ino == a[p].entries[k].ino ensures j == k {
      assert HasEntry(a, p, j) && EntryOk(a, spots, p, j);
    }
    if p != ROOT {
      assert SpotOk(a, spots, p);
    }
    assert DirectoryOk(a, p);
    if |a[p].entries| == 1 {
      assert a[p].entries[..0] == [];
      assert Subdirs(a, a[p].entries) == Subdirs(a, a[p].entries[..0]) + DirBit(a, a[p].entries[0].ino);
    }
  }

  /** Overwriting, dropping the target and forgetting the last entry, on the namespace. */
  lemma DetachFrom(a: Tree, a1: Tree, a2: Tree, b: Tree, p: nat, k: nat, x: Node, down: nat, left: nat)
    requires HasEntry(a, p, k) && Child(a, p, k) != p && down == DirBit(a, Child(a, p, k))
    requires a1 == a[p := x] && a2 == a1 - {Child(a, p, k)}
    requires left == Minus(a[p].links, down)
    requires b == a2[p := Dir(SwapOut(a[p].entries, k), left)]
    ensures b == Detach(a, p, k)
  {
    assert forall j: nat :: j in b <==> j in Detach(a, p, k);
    assert forall j: nat | j in b :: b[j] == Detach(a, p, k)[j];
  }

  /** What a removal relies on. */
  ghost predicate Removable(s: Image, p: nat, k: nat, target: nat, down: nat) {
    && Sound(s) && LiveDir(s, p) && HasEntry(Abs(s), p, k) && Child(Abs(s), p, k) == target
    && OnlyNamer(s.Entries(p), k) && target != p && target in s.usedInodes
    && down == DirBit(Abs(s), target)
    && LinksLeft(s.Ino(p), down) == Minus(s.Ino(p).links, down)
    && Abs(s)[p] == Dir(s.Entries(p), s.Ino(p).links) && |s.Entries(p)| == s.Ino(p).numEntries
  }

  lemma TreeMakesRemovable(s: Image, p: nat, k: nat, target: nat, down: nat)
    requires Invariant(s) && HasEntry(Abs(s), p, k) && Child(Abs(s), p, k) == target && down == DirBit(Abs(s), target)
    ensures Removable(s, p, k, target, down)
  {
    var spots: map<nat, Spot> :| TreeBy(Abs(s), spots);
    TreeGivesOnlyNamer(Abs(s), spots, p, k);
    DirShape(s, p);
  }

  lemma RemovalSteps(s: Image, s1: Image, s2: Image, p: nat, k: nat, target: nat, down: nat)
    requires Removable(s, p, k, target, down) && s.Owned(target) == []
    requires s1 == if LastEntry(s, p).ino == target then s else Overwrite(s, p, target)
    requires s2 == s1.ReleaseInode(target)
    ensures Sound(s2) && LiveDir(s2, p) && s2.Ino(p) == s.Ino(p)
    ensures s2.tables == s.tables && s2.usedBlocks == s.usedBlocks && s2.freeBlocks == s.freeBlocks
    ensures Abs(s2) == Abs(s)[p := NodeOf(s1, p)] - {target}
    ensures |s2.AllSlots(p)| >= |s.Entries(p)| && s2.AllSlots(p)[..|s.Entries(p)| - 1] == SwapOut(s.Entries(p), k)
  {
    OverwriteSwaps(s, s1, p, k, target);
    SameTables(s, s1, target);
    DropTarget(s1, s2, target);
    SameViewsOf(s1, s2, p);
  }

  /**
   Removing an entry detaches its node: the parent's live entries are the old ones with
   the last in place of the target, whatever the shape of the parent.
   */
  lemma RemoveRefines(s: Image, t: Image, p: nat, k: nat, target: nat, down: nat)
    requires Removable(s, p, k, target, down) && s.Owned(target) == []
    requires t == RemoveEntry(s, p, target, down)
    ensures Sound(t) && Abs(t) == Detach(Abs(s), p, k) && ParentShrunk(s, t, p)
  {
    hide ParentShrunk;
    var s1 := if LastEntry(s, p).ino == target then s else Overwrite(s, p, target);
    var s2 := s1.ReleaseInode(target);
    RemovalSteps(s, s1, s2, p, k, target, down);
    LastEntryGone(s2, t, p, down);
    ForgetShrinks(s2, t, p, down);
    ShrunkBefore(s, s2, t, p);
    var x, left := NodeOf(s1, p), LinksLeft(s.Ino(p), down);
    DetachFrom(Abs(s), Abs(s)[p := x], Abs(s2), Abs(t), p, k, x, down, left);
  }

  lemma ShrunkBefore(s: Image, s2: Image, t: Image, p: nat)
    requires s2.Ino(p) == s.Ino(p) && s2.tables == s.tables
    requires s2.usedBlocks == s.usedBlocks && s2.freeBlocks == s.freeBlocks && ParentShrunk(s2, t, p)
    ensures ParentShrunk(s, t, p)
  {
    hide FlatBlocks;
    SameTables(s, s2, p);
    assert s2.LastExtent(p) == s.LastExtent(p);
  }

  lemma SameViewsOf(s: Image, t: Image, p: nat)
    requires t.tables == s.tables && t.slots == s.slots && t.Ino(p) == s.Ino(p)
    ensures t.Blocks(p) == s.Blocks(p) && t.AllSlots(p) == s.AllSlots(p)
  {
    assert forall b: nat, k: nat :: t.Ext(b, k) == s.Ext(b, k);
    assert forall b: nat, k: nat :: t.Slot(b, k) == s.Slot(b, k);
    assert t.Extents(p) == s.Extents(p);
    assert t.AllSlots(p) == s.AllSlots(p);
  }

  lemma EmptyOwnsNothing(s: Image, i: nat)
    requires Sound(s) && i in s.usedInodes && s.Ino(i).size == 0
    ensures s.Owned(i) == []
    ensures s.Ino(i).kind.Directory? ==> s.Entries(i) == []
  {
    assert InodeOk(s, i);
    assert s.Ino(i).kind.Directory? ==> s.Ino(i).numEntries == 0;
  }

  /** rmdir refuses exactly the non-empty directories, and detaches the others. */
  lemma RmdirRefines(s: Image, t: Image, status: Status, p: nat, k: nat, target: nat)
    requires Invariant(s) && HasEntry(Abs(s), p, k) && Child(Abs(s), p, k) == target && LiveDir(s, target)
    requires (t, status) == Rmdir(s, p, target)
    ensures status == (if s.Entries(target) != [] then NotEmpty else Done)
    ensures status.NotEmpty? ==> t == s
    ensures status.Done? ==> Invariant(t) && Abs(t) == Detach(Abs(s), p, k) && ParentShrunk(s, t, p)
  {
    DirShape(s, target);
    if s.Ino(target).size == 0 {
      EmptyOwnsNothing(s, target);
      TreeMakesRemovable(s, p, k, target, 1);
      RemoveRefines(s, t, p, k, target, 1);
      DetachKeepsTree(Abs(s), p, k);
    }
  }

  /** A detached file's content no longer matters. */
  lemma DetachIgnoresContent(a: Tree, p: nat, k: nat, target: nat)
    requires HasEntry(a, p, k) && Child(a, p, k) == target && target in a && a[target].File? && target != p
    ensures HasEntry(a[target := File([])], p, k)
    ensures Detach(a[target := File([])], p, k) == Detach(a, p, k)
  {
  }

  lemma UnlinkFirst(s: Image, s1: Image, p: nat, k: nat, target: nat)
    requires Invariant(s) && HasEntry(Abs(s), p, k) && Child(Abs(s), p, k) == target
    requires target in s.usedInodes && s.Ino(target).kind.Regular?
    requires s1 == if s.Ino(target).size != 0 then Empty(s, target) else s
    ensures Invariant(s1) && s1.Owned(target) == [] && Removable(s1, p, k, target, 0)
    ensures Detach(Abs(s1), p, k) == Detach(Abs(s), p, k)
  {
    TreeMakesRemovable(s, p, k, target, 0);
    if s.Ino(target).size != 0 {
      EmptyRefines(s, s1, target);
      SetContentKeepsTree(Abs(s), target, []);
      DetachIgnoresContent(Abs(s), p, k, target);
      TreeMakesRemovable(s1, p, k, target, 0);
    }
    EmptyOwnsNothing(s1, target);
  }

  /** s without the blocks of the target. */
  function WithoutBlocks(s: Image, target: nat): Image {
    s.(usedBlocks := s.usedBlocks - Elements(s.Owned(target)), freeBlocks := s.freeBlocks + |s.Owned(target)|)
  }

  lemma UnlinkFrees(s: Image, s1: Image, p: nat, target: nat)
    requires Sound(s) && target in s.usedInodes && p != target
    requires s1 == if s.Ino(target).size != 0 then Empty(s, target) else s
    ensures s1.Ino(p) == s.Ino(p) && s1.tables == s.tables
    ensures s1.usedBlocks == WithoutBlocks(s, target).usedBlocks && s1.freeBlocks == WithoutBlocks(s, target).freeBlocks
  {
    hide InodeOk, FlatBlocks, Empty, Image.Owned, Image.Blocks, Covered, Apart;
    if s.Ino(target).size != 0 {
      EmptyReleases(s, s1, target);
    } else {
      EmptyOwnsNothing(s, target);
      assert s.usedBlocks - {} == s.usedBlocks;
    }
  }

  /** unlink frees the file's blocks and detaches it. */
  lemma UnlinkRefines(s: Image, t: Image, status: Status, p: nat, k: nat, target: nat)
    requires Invariant(s) && HasEntry(Abs(s), p, k) && Child(Abs(s), p, k) == target
    requires target in s.usedInodes && s.Ino(target).kind.Regular? && (t, status) == Unlink(s, p, target)
    ensures status.Done? && Invariant(t) && Abs(t) == Detach(Abs(s), p, k)
    ensures ParentShrunk(WithoutBlocks(s, target), t, p)
  {
    hide ParentShrunk, RemoveEntry, Empty;
    var s1 := if s.Ino(target).size != 0 then Empty(s, target) else s;
    UnlinkFirst(s, s1, p, k, target);
    RemoveRefines(s1, t, p, k, target, 0);
    DetachKeepsTree(Abs(s1), p, k);
    UnlinkFrees(s, s1, p, target);
    ShrunkBefore(WithoutBlocks(s, target), s1, t, p);
  }
}
