/** Creating and removing the same path gives everything back. */
module RoundTrips {
  import opened Images
  import opened Operations
  import opened Namespace
  import opened Paths
  import opened Resolution
  import opened Soundness
  import opened Growth
  import opened FileData
  import opened Directories
  import opened Calls
  import opened Deviations

  /** Bitmaps, counters and the parent's record and extents are as before; an unused table pointer may differ. */
  ghost predicate Restored(s: Image, u: Image, p: nat) {
    && u.usedInodes == s.usedInodes && u.freeInodes == s.freeInodes
    && SameParent(s, u, p)
  }

  /** The data bitmap and counter, and the parent's record and extents. */
  ghost predicate SameParent(s: Image, u: Image, p: nat) {
    && u.usedBlocks == s.usedBlocks && u.freeBlocks == s.freeBlocks
    && u.Ino(p) == s.Ino(p).(indirect := u.Ino(p).indirect)
    && (s.Ino(p).extentNum > 0 ==> u.Ino(p).indirect == s.Ino(p).indirect)
    && u.Extents(p) == s.Extents(p)
  }

  /** t with another set of live inodes. */
  predicate OtherInodes(t: Image, t2: Image) {
    t2 == t.(usedInodes := t2.usedInodes, freeInodes := t2.freeInodes)
  }

  lemma CountRoundTrip(x: Inode, up: nat)
    ensures Uncounted(Counted(x, up), up) == x
  {
  }

  lemma ForgetInRoom(s: Image, t: Image, t2: Image, u: Image, p: nat, e: Dentry, up: nat)
    requires Sound(s) && LiveDir(s, p) && s.Ino(p).size % 4096 != 0
    requires t == CountEntry(s.PutSlot(s.LastBlock(p), s.Ino(p).numEntries % 16, e), p, up)
    requires OtherInodes(t, t2) && u == ForgetLast(t2, p, up)
    ensures SameParent(s, u, p)
  {
    hide FlatBlocks, CeilBlocks, Elements, Image.AllSlots;
    DirShape(s, p);
    DirNumbers(s.Ino(p).numEntries, |s.Blocks(p)|);
    OwnedInRange(s, p, |s.Blocks(p)| - 1);
    var s1 := s.PutSlot(s.LastBlock(p), s.Ino(p).numEntries % 16, e);
    PutSlotEffect(s, s1, s.LastBlock(p), s.Ino(p).numEntries % 16, e);
    CountRoundTrip(s.Ino(p), up);
    assert t2.Ino(p) == Counted(s.Ino(p), up);
    assert t2.Ino(p).numEntries % 16 != 1;
    SameTables(s, u, p);
  }

  /** What the addition of a block leaves for the removal. */
  ghost predicate Added(s: Image, t2: Image, p: nat, b: nat, up: nat, indirect: nat, extentNum: nat, last: Extent) {
    && t2.Ino(p) == Counted(s.Ino(p), up).(indirect := indirect, extentNum := extentNum)
    && extentNum > 0 && t2.Ext(indirect, extentNum - 1) == last && last.start + last.count == b + 1 && last.count > 0
    && p < |t2.inodes|
  }

  lemma AddedLast(s: Image, t2: Image, p: nat, b: nat, up: nat, indirect: nat, extentNum: nat, last: Extent)
    requires Added(s, t2, p, b, up, indirect, extentNum, last)
    ensures t2.LastBlock(p) == b && t2.LastExtent(p) == last
  {
  }

  lemma ForgetFirst(s: Image, t: Image, t2: Image, u: Image, p: nat, b: nat, e: Dentry, up: nat)
    requires Sound(s) && LiveDir(s, p) && s.Ino(p).numEntries == 0 && s.freeBlocks >= 2 && s.Ino(p).links == 2
    requires b == Start(Repaired, s, p).1 && t == CountEntry(Start(Repaired, s, p).0.PutSlot(b, 0, e), p, up)
    requires OtherInodes(t, t2) && u == ForgetLast(t2, p, up)
    ensures SameParent(s, u, p)
  {
    DirShape(s, p);
    var x := s.FirstFreeBlock();
    var s1 := Start(Repaired, s, p).0;
    StartBlocks(s, s1, p, x, b);
    var s2 := s1.PutSlot(b, 0, e);
    PutSlotEffect(s1, s2, b, 0, e);
    assert s1.Extents(p)[0] == s1.Ext(x, 0);
    assert Added(s, t2, p, b, up, x, 1, Extent(b, 1));
    AddedLast(s, t2, p, b, up, x, 1, Extent(b, 1));
    assert u.usedBlocks == s.usedBlocks + {x, b} - {b} - {x};
    assert s.Extents(p) == [];
    assert u.Extents(p) == [];
  }

  lemma ForgetMerged(s: Image, t: Image, t2: Image, u: Image, p: nat, b: nat, e: Dentry, up: nat)
    requires Sound(s) && LiveDir(s, p) && s.Ino(p).numEntries > 0 && s.Ino(p).size % 4096 == 0 && s.freeBlocks > 0
    requires MayMerge(Repaired, s, p) && b == s.LastBlock(p) + 1
    requires t == CountEntry(Merge(s, p).PutSlot(b, 0, e), p, up)
    requires OtherInodes(t, t2) && u == ForgetLast(t2, p, up)
    ensures SameParent(s, u, p)
  {
    hide FlatBlocks, CeilBlocks, Elements, Image.AllSlots;
    DirShape(s, p);
    DirNumbers(s.Ino(p).numEntries, |s.Blocks(p)|);
    assert InodeOk(s, p);
    LastBlockIsLast(s, p);
    OwnedInRange(s, p, 0);
    var x, last, m := s.Ino(p).indirect, s.LastExtent(p), s.Ino(p).extentNum - 1;
    var more := last.(count := last.count + 1);
    var s1 := Merge(s, p);
    PutExtentEffect(s.TakeBlock(b), s1, x, m, more);
    var s2 := s1.PutSlot(b, 0, e);
    PutSlotEffect(s1, s2, b, 0, e);
    assert t2.Ext(x, m) == s1.Ext(x, m);
    assert Added(s, t2, p, b, up, x, m + 1, more);
    AddedLast(s, t2, p, b, up, x, m + 1, more);
    CountRoundTrip(s.Ino(p), up);
    assert s1.tables[x * 512 + m := last] == s.tables;
    assert u.tables == s.tables;
    assert u.usedBlocks == s.usedBlocks + {b} - {b} == s.usedBlocks;
    SameTables(s, u, p);
  }

  lemma ForgetOpened(s: Image, t: Image, t2: Image, u: Image, p: nat, b: nat, e: Dentry, up: nat)
    requires Sound(s) && LiveDir(s, p) && s.Ino(p).numEntries > 0 && s.Ino(p).size % 4096 == 0 && s.freeBlocks > 0
    requires s.Ino(p).extentNum < 512 && b == s.FirstFreeBlock()
    requires t == CountEntry(Open(s, p).PutSlot(b, 0, e), p, up)
    requires OtherInodes(t, t2) && u == ForgetLast(t2, p, up)
    ensures SameParent(s, u, p)
  {
    DirShape(s, p);
    DirNumbers(s.Ino(p).numEntries, |s.Blocks(p)|);
    OwnedInRange(s, p, 0);
    FreeBlockIsFree(s);
    var x, m := s.Ino(p).indirect, s.Ino(p).extentNum;
    var s1 := Open(s, p);
    var put := s.TakeBlock(b).PutExtent(x, m, Extent(b, 1));
    PutExtentEffect(s.TakeBlock(b), put, x, m, Extent(b, 1));
    var s2 := s1.PutSlot(b, 0, e);
    PutSlotEffect(s1, s2, b, 0, e);
    assert t2.Ext(x, m) == put.Ext(x, m);
    assert Added(s, t2, p, b, up, x, m + 1, Extent(b, 1));
    AddedLast(s, t2, p, b, up, x, m + 1, Extent(b, 1));
    CountRoundTrip(s.Ino(p), up);
    assert u.usedBlocks == s.usedBlocks + {b} - {b} == s.usedBlocks;
    assert forall k: nat | k < m :: u.Ext(x, k) == s.Ext(x, k);
    assert u.Extents(p) == s.Extents(p);
  }

  /** Forgetting the entry just added undoes the addition, for every shape of the parent. */
  lemma ForgetUndoesAdd(s: Image, t: Image, status: Status, t2: Image, u: Image, p: nat, e: Dentry, up: nat)
    requires Sound(s) && LiveDir(s, p) && HasRoom(s, p)
    requires s.Ino(p).numEntries == 0 ==> s.Ino(p).links == 2
    requires (t, status) == AddEntry(Repaired, s, p, e, up) && OtherInodes(t, t2) && u == ForgetLast(t2, p, up)
    ensures SameParent(s, u, p)
  {
    DirShape(s, p);
    if s.Ino(p).numEntries == 0 {
      var (v, b) := Start(Repaired, s, p);
      FirstIsStart(s, t, v, p, b, e, up);
      ForgetFirst(s, t, t2, u, p, b, e, up);
    } else if s.Ino(p).size % 4096 != 0 {
      ForgetInRoom(s, t, t2, u, p, e, up);
    } else if MayMerge(Repaired, s, p) {
      ForgetMerged(s, t, t2, u, p, s.LastBlock(p) + 1, e, up);
    } else {
      ForgetOpened(s, t, t2, u, p, s.FirstFreeBlock(), e, up);
    }
  }

  lemma EmptyDirLinks(s: Image, p: nat)
    requires Invariant(s) && LiveDir(s, p) && s.Ino(p).numEntries == 0
    ensures s.Ino(p).links == 2
  {
    var spots: map<nat, Spot> :| TreeBy(Abs(s), spots);
    DirShape(s, p);
    assert Abs(s)[p] == Dir(s.Entries(p), s.Ino(p).links);
    assert DirectoryOk(Abs(s), p);
  }

  /** The newest entry is the last, so removing it moves nothing. */
  lemma NewestIsLast(s1: Image, t: Image, p: nat, e: Dentry, up: nat)
    requires EntryAdded(s1, t, p, e, up)
    ensures LastEntry(t, p) == e
  {
    LastEntryIsLast(t, p);
  }

  lemma RemoveUndoesMake(s: Image, t: Image, u: Image, p: nat, name: string, kind: Kind, ino: nat)
    requires Invariant(s) && LiveDir(s, p) && ino == s.FirstFreeInode()
    requires (t, Done) == MakeNode(Repaired, s, p, name, kind) && u == RemoveEntry(t, p, ino, KindLinks(kind))
    ensures Restored(s, u, p)
  {
    MakeNodeRefines(s, t, Done, p, name, kind);
    var s1, e, up := NewInode(s, kind), Dentry(ino, name), KindLinks(kind);
    NewInodeRefines(s, s1, ino, kind);
    NewInodeKeepsParent(s, s1, p, ino, kind);
    AddEntryRefines(s1, t, Done, p, e, up);
    NewestIsLast(s1, t, p, e, up);
    if s.Ino(p).numEntries == 0 {
      EmptyDirLinks(s, p);
    }
    ForgetUndoesAdd(s1, t, Done, t.ReleaseInode(ino), u, p, e, up);
    ForgetKeepsInodes(t.ReleaseInode(ino), p, up);
    FreeInodeIsFree(s);
    assert u.usedInodes == s.usedInodes;
    SameTables(s, s1, p);
  }

  lemma ForgetKeepsInodes(s: Image, p: nat, down: nat)
    ensures ForgetLast(s, p, down).usedInodes == s.usedInodes && ForgetLast(s, p, down).freeInodes == s.freeInodes
  {
  }

  /** After a creation the new path resolves to the new node, in the same parent. */
  lemma CreatedResolves(a: Tree, b: Tree, path: string, ino: nat, node: Node)
    requires IsTree(a) && IsFree(a, path) && ino !in a && (node.Dir? ==> node == Dir([], 2))
    requires b == Attach(a, ResolvePath(a, ParentPath(path)).ino, ChildName(path), ino, node)
    ensures ResolvePath(b, path) == Found(ino) && ResolvePath(b, ParentPath(path)) == ResolvePath(a, ParentPath(path))
  {
    var spots: map<nat, Spot> :| TreeBy(a, spots);
    var p, name, names := ResolvePath(a, ParentPath(path)).ino, ChildName(path), Tokens(ParentPath(path));
    FreeNameIsFresh(a, path);
    SplitRejoins(path);
    AttachedIsFound(a, spots, names, p, name, ino, node);
    WalkLive(a, spots, ROOT, names);
    assert b[ROOT].entries != [] by {
      assert names != [] ==> a[ROOT].entries != [];
    }
  }

  /** The path created is the entry that its removal takes away again. */
  lemma CreatedIsDetached(a: Tree, b: Tree, c: Tree, path: string, ino: nat, node: Node, p: nat)
    requires IsTree(a) && IsFree(a, path) && ino !in a && (node.Dir? ==> node == Dir([], 2)) && IsTree(b)
    requires p == ResolvePath(a, ParentPath(path)).ino && b == Attach(a, p, ChildName(path), ino, node)
    requires RemoveSpec(b, path, c)
    ensures c == a
  {
    CreatedResolves(a, b, path, ino, node);
    DetachAfterAttach(a, p, ChildName(path), ino, node);
    var k: nat :| HasEntry(b, p, k) && b[p].entries[k] == Dentry(ino, ChildName(path)) && c == Detach(b, p, k);
    var spots: map<nat, Spot> :| TreeBy(b, spots);
    SameEntry(b, spots, p, k, p, |a[p].entries|);
  }

  /** Where it does not deviate, the code as written makes nodes as the repaired code does. */
  lemma MakesAlike(code: Code, s: Image, path: string, kind: Kind)
    requires Invariant(s) && IsFree(Abs(s), path)
    requires code.AsWritten? ==> !MakeDeviates(s, InodeAt(s, ParentPath(path)))
    ensures MakeNode(code, s, InodeAt(s, ParentPath(path)), ChildName(path), kind)
         == MakeNode(Repaired, s, InodeAt(s, ParentPath(path)), ChildName(path), kind)
  {
    hide MakeNode;
    var p := InodeAt(s, ParentPath(path));
    assert LiveDir(s, p) by { assert Abs(s)[p] == NodeOf(s, p); }
    if code.AsWritten? {
      MakeAgrees(s, p, ChildName(path), kind);
    }
  }

  /**
   create then unlink of the same fresh path: the unlink is possible and succeeds, and
   the namespace, both bitmaps, both counters and the parent are as before.
   */
  lemma CreateThenUnlink(code: Code, s: Image, path: string, t: Image, u: Image, status: Status)
    requires Invariant(s) && Enabled(s, CreateAt(path)) && (t, Done) == Perform(code, s, CreateAt(path))
    requires (code.AsWritten? ==> !Deviates(s, CreateAt(path))) && (u, status) == Perform(code, t, UnlinkAt(path))
    ensures Enabled(t, UnlinkAt(path)) && status == Done && Abs(u) == Abs(s)
    ensures Restored(s, u, InodeAt(s, ParentPath(path)))
  {
    MakesAlike(code, s, path, Regular);
    var a, b: Tree := Abs(s), Abs(t);
    var p, ino := InodeAt(s, ParentPath(path)), s.FirstFreeInode();
    MakeMeets(s, path, Regular, t, Done);
    assert LiveDir(s, p) by { assert a[p] == NodeOf(s, p); }
    MakeNodeRefines(s, t, Done, p, ChildName(path), Regular);
    CreatedResolves(a, b, path, ino, File([]));
    assert b[ino] == File([]) && b[ino] == NodeOf(t, ino);
    UnlinkMeets(t, path, u, status);
    CreatedIsDetached(a, b, Abs(u), path, ino, File([]), p);
    EmptyFileHasNoSize(t, ino);
    RemoveUndoesMake(s, t, u, p, ChildName(path), Regular, ino);
  }

  lemma EmptyFileHasNoSize(t: Image, i: nat)
    requires Sound(t) && i in t.usedInodes && t.Ino(i).kind.Regular? && t.Content(i) == []
    ensures t.Ino(i).size == 0
  {
    FileShape(t, i);
  }

  /** mkdir then rmdir of the same fresh path, likewise. */
  lemma MkdirThenRmdir(code: Code, s: Image, path: string, t: Image, u: Image, status: Status)
    requires Invariant(s) && Enabled(s, MkdirAt(path)) && (t, Done) == Perform(code, s, MkdirAt(path))
    requires (code.AsWritten? ==> !Deviates(s, MkdirAt(path))) && (u, status) == Perform(code, t, RmdirAt(path))
    ensures Enabled(t, RmdirAt(path)) && status == Done && Abs(u) == Abs(s)
    ensures Restored(s, u, InodeAt(s, ParentPath(path)))
  {
    hide Restored, Sound;
    MakesAlike(code, s, path, Directory);
    var a, b: Tree := Abs(s), Abs(t);
    var p, ino := InodeAt(s, ParentPath(path)), s.FirstFreeInode();
    MakeMeets(s, path, Directory, t, Done);
    assert LiveDir(s, p) by { assert a[p] == NodeOf(s, p); }
    MakeNodeRefines(s, t, Done, p, ChildName(path), Directory);
    CreatedResolves(a, b, path, ino, Dir([], 2));
    assert b[ino] == Dir([], 2) && b[ino] == NodeOf(t, ino);
    RmdirMeets(t, path, u, status);
    CreatedIsDetached(a, b, Abs(u), path, ino, Dir([], 2), p);
    RemoveUndoesMake(s, t, u, p, ChildName(path), Directory, ino);
  }

  /**
   Reading a file after writing it gives the bytes written; the path still names the file,
   and no other node has changed.
   */
  lemma ReadAfterWrite(s: Image, path: string, buf: seq<bv8>, off: nat, t: Image)
    requires Invariant(s) && Enabled(s, WriteAt(path, buf, off)) && buf != []
    requires Meets(s, WriteAt(path, buf, off), t, Done)
    ensures ResolvePath(Abs(t), path) == ResolvePath(Abs(s), path) && IsFileAt(Abs(t), path)
    ensures Slice(Abs(t)[InodeAt(t, path)].content, off, |buf|) == buf
    ensures Abs(t).Keys == Abs(s).Keys && forall j | j in Abs(s) && j != InodeAt(t, path) :: Abs(t)[j] == Abs(s)[j]
  {
    hide Invariant, Abs, WriteAllowed, Overlay, HasSpace;
    var i := InodeAt(s, path);
    OverlayReads(Abs(s)[i].content, off, buf);
    RootIsDir(s);
    WalkIgnoresContent(Abs(s), i, Overlay(Abs(s)[i].content, off, buf), ROOT, Tokens(path));
  }

  lemma RootIsDir(s: Image)
    requires Invariant(s)
    ensures IsDir(Abs(s), ROOT)
  {
    var spots: map<nat, Spot> :| TreeBy(Abs(s), spots);
  }
}
