/**
 What each operation does to the image, on inode numbers (paths are resolved in
 Calls). Where the C code departs from what its comments promise, a `Code` parameter
 selects the line as written or the line repaired; everything else is shared, so the
 two readings differ in exactly the places where `code` is consulted.
 */
module Operations {
  import opened Images

  datatype Code = AsWritten | Repaired

  datatype Status = Done | NoSpace | NotEmpty

  // Allocation (fs_ctx.c)

  /** Is the block after the last one free to merge? As written, the end of the data region is not checked. */
  predicate MayMerge(code: Code, s: Image, i: nat) {
    s.LastBlock(i) + 1 !in s.usedBlocks && (code.Repaired? ==> s.LastBlock(i) + 1 < s.numBlocks)
  }

  /** Takes the block after the last one and lengthens the last extent. */
  function Merge(s: Image, i: nat): Image {
    var e := s.LastExtent(i);
    s.TakeBlock(s.LastBlock(i) + 1)
     .PutExtent(s.Ino(i).indirect, Minus(s.Ino(i).extentNum, 1), e.(count := e.count + 1))
  }

  /** Takes the first free block and opens a new extent for it. */
  function Open(s: Image, i: nat): Image {
    var b := s.FirstFreeBlock();
    var x := s.Ino(i);
    s.TakeBlock(b).PutExtent(x.indirect, x.extentNum, Extent(b, 1))
     .PutInode(i, x.(extentNum := x.extentNum + 1))
  }

  /** Zeroes the rest of the last block, after the end of the file. */
  function CloseHole(s: Image, i: nat): Image {
    var size := s.Ino(i).size;
    if size % 4096 == 0 then s
    else s.PutBytes(s.LastBlock(i) * 4096 + size % 4096, Zeros(Minus(4096 * |s.Blocks(i)|, size)))
  }

  function ZeroBlock(s: Image, b: nat): Image {
    s.PutBytes(b * 4096, Zeros(4096))
  }

  /** The end of a growth: the size covers n + 1 whole blocks, the last of which is zeroed. */
  function Finish(t: Image, i: nat, n: nat, b: nat): Image {
    ZeroBlock(t.SetSize(i, 4096 * (n + 1)), b)
  }

  /**
   The first two blocks of an inode that has none: its extent table and a data block,
   which is also returned. As written, the bit of the extent table is set a second time
   and the bit of the data block never.
   */
  function Start(code: Code, s: Image, i: nat): (Image, nat) {
    var t := s.FirstFreeBlock();
    var s1 := s.TakeBlock(t);
    var b := s1.FirstFreeBlock();
    var s2 := s1.TakeBlock(if code.AsWritten? then t else b);
    (s2.PutExtent(t, 0, Extent(b, 1)).PutInode(i, s.Ino(i).(indirect := t, extentNum := 1)), b)
  }

  /** Adds one zeroed block to a file; false when there is no room. */
  function Grow(code: Code, s: Image, i: nat): (Image, bool) {
    if s.freeBlocks == 0 then (s, false)
    else if s.Ino(i).size == 0 then
      if s.freeBlocks == 1 then (s, false)
      else
        var (s1, b) := Start(code, s, i);
        (Finish(s1, i, 0, b), true)
    else
      var n := |s.Blocks(i)|;
      var s0 := CloseHole(s, i);
      if MayMerge(code, s0, i) then (Finish(Merge(s0, i), i, n, s0.LastBlock(i) + 1), true)
      else if s0.Ino(i).extentNum == 512 then (s0, false)
      else (Finish(Open(s0, i), i, n, s0.FirstFreeBlock()), true)
  }

  function GrowBy(code: Code, s: Image, i: nat, n: nat): (Image, bool)
    decreases n
  {
    if n == 0 then (s, true)
    else
      var (s1, ok) := Grow(code, s, i);
      if ok then GrowBy(code, s1, i, n - 1) else (s1, false)
  }

  lemma GrowByOnce(code: Code, s: Image, t: Image, ok: bool, i: nat, n: nat)
    requires n > 0 && (t, ok) == Grow(code, s, i)
    ensures GrowBy(code, s, i, n) == if ok then GrowBy(code, t, i, n - 1) else (t, false)
  {
    hide Grow;
  }

  // File data (a1fs.c)

  /** Where byte `off` of the file lies in the data region; past its end when the file has no such block. */
  function Address(s: Image, i: nat, off: nat): nat {
    var bs := s.Blocks(i);
    if off / 4096 < |bs| then bs[off / 4096] * 4096 + off % 4096 else |s.data|
  }

  function WriteInside(s: Image, i: nat, buf: seq<bv8>, off: nat): Image {
    s.PutBytes(Address(s, i, off), buf)
  }

  /** Zeroes the rest of the allocation, from the offset or from the end of the file, whichever comes first. */
  function ZeroTail(s: Image, i: nat, off: nat): Image {
    var capacity := 4096 * |s.Blocks(i)|;
    var size := s.Ino(i).size;
    if off <= size then s.PutBytes(Address(s, i, off), Zeros(Minus(capacity, off)))
    else s.PutBytes(Minus(s.LastBlock(i) * 4096 + 4096, Minus(capacity, size)), Zeros(Minus(capacity, size)))
  }

  /** The end of the write lies after the end of the file, but in blocks the file has. */
  function WriteTail(s: Image, i: nat, buf: seq<bv8>, off: nat): Image {
    ZeroTail(s, i, off).PutBytes(Address(s, i, off), buf).SetSize(i, off + |buf|)
  }

  /** After growing: the data goes to position `at` of the new last block. */
  function WriteLast(s: Image, i: nat, buf: seq<bv8>, at: nat, size: nat): Image {
    s.PutBytes(s.LastBlock(i) * 4096 + at, buf).SetSize(i, size)
  }

  /**
   The end of the write lies past the blocks the file has. As written, a write two blocks
   past the allocation lands at the start of its block.
   */
  function WriteBeyond(code: Code, s: Image, i: nat, buf: seq<bv8>, off: nat): (Image, Status) {
    var (s1, ok1) := Grow(code, s, i);
    if !ok1 then (s1, NoSpace)
    else if off + |buf| <= 4096 * (1 + |s.Blocks(i)|) then (WriteLast(s1, i, buf, off % 4096, off + |buf|), Done)
    else
      var (s2, ok2) := Grow(code, s1, i);
      if !ok2 then (s2, NoSpace)
      else (WriteLast(s2, i, buf, if code.AsWritten? then 0 else off % 4096, off + |buf|), Done)
  }

  function Write(code: Code, s: Image, i: nat, buf: seq<bv8>, off: nat): (Image, Status) {
    if |buf| == 0 then (s, Done)
    else if off + |buf| <= s.Ino(i).size then (WriteInside(s, i, buf, off), Done)
    else if off + |buf| <= 4096 * |s.Blocks(i)| then (WriteTail(s, i, buf, off), Done)
    else WriteBeyond(code, s, i, buf, off)
  }

  /** The extent holding the last kept block, and how many of its blocks are kept. */
  function CutPoint(extents: seq<Extent>, keep: nat, m: nat, count: nat): (nat, nat)
    decreases |extents| - m
  {
    if m >= |extents| then (0, 1)
    else if extents[m].count + count >= keep then (m, Minus(keep, count))
    else CutPoint(extents, keep, m + 1, count + extents[m].count)
  }

  /** The blocks freed in the cut extent. */
  function CutTail(code: Code, from: nat, count: nat): seq<nat> {
    if code.AsWritten? then seq<nat>(count, (k: nat) => Wrap32(from + k - 1)) else Range(from, count)
  }

  /** Frees everything an inode holds. */
  function Empty(s: Image, i: nat): Image {
    s.ReleaseAll(s.Blocks(i)).ReleaseBlock(s.Ino(i).indirect)
     .PutInode(i, s.Ino(i).(extentNum := 0, size := 0))
  }

  /**
   Keeps `kept` blocks of extent m and none of the later extents. As written, the cut
   extent frees its blocks shifted by one, and the later extents clear bits of the data
   region instead of the data bitmap.
   */
  function CutAt(code: Code, s: Image, i: nat, size: nat, m: nat, kept: nat): Image {
    var x := s.Ino(i);
    var extents := s.Extents(i);
    var cut := s.Ext(x.indirect, m);
    var tail := CutTail(code, cut.start + kept, Minus(cut.count, kept));
    var later := if m < |extents| then FlatBlocks(extents[m + 1..]) else [];
    var s1 := s.ReleaseAll(tail).PutExtent(x.indirect, m, cut.(count := kept));
    var s2 := if code.AsWritten? then s1.ScribbleAll(later) else s1.ReleaseAll(later);
    s2.PutInode(i, x.(extentNum := m + 1, size := size))
  }

  /** Cuts a file. As written, cutting to zero keeps an empty extent and the extent table. */
  function Shrink(code: Code, s: Image, i: nat, size: nat): Image {
    if code.Repaired? && size == 0 then Empty(s, i)
    else
      var (m, kept) := CutPoint(s.Extents(i), CeilBlocks(size), 0, 0);
      CutAt(code, s, i, size, m, kept)
  }

  /** The number of blocks for a size, the size cut to 32 bits first. */
  function CutCeilBlocks(size: nat): nat {
    Wrap32(size) / 4096 + (if size % 4096 == 0 then 0 else 1)
  }

  /** By how many blocks an extension grows the file; as written, in 32-bit arithmetic. */
  function BlocksToAdd(code: Code, s: Image, i: nat, size: nat): nat {
    if code.AsWritten? then Wrap32(CutCeilBlocks(size) - |s.Blocks(i)|)
    else Minus(CeilBlocks(size), |s.Blocks(i)|)
  }

  /** As written, extending inside the last block leaves its old bytes in place. */
  function Extend(code: Code, s: Image, i: nat, size: nat): (Image, Status) {
    var more := BlocksToAdd(code, s, i, size);
    var s0 := if code.Repaired? && more == 0 then CloseHole(s, i) else s;
    var (s1, ok) := GrowBy(code, s0, i, more);
    if ok then (s1.SetSize(i, size), Done) else (s1, NoSpace)
  }

  function Truncate(code: Code, s: Image, i: nat, size: nat): (Image, Status) {
    if size == s.Ino(i).size then (s, Done)
    else if size < s.Ino(i).size then (Shrink(code, s, i, size), Done)
    else Extend(code, s, i, size)
  }

  // Namespace (a1fs.c)

  function KindLinks(kind: Kind): nat {
    if kind.Directory? then 1 else 0
  }

  function Fresh(kind: Kind): Inode {
    Inode(kind, if kind.Directory? then 2 else 1, 0, 0, 0, 0)
  }

  /** The parent's record after one more entry. */
  function Counted(x: Inode, up: nat): Inode {
    x.(size := x.size + 256, links := x.links + up, numEntries := x.numEntries + 1)
  }

  /** As written, the counters are checked again here, after the inode has been taken. */
  predicate LateRefusal(code: Code, s: Image) {
    code.AsWritten? && (s.freeInodes == 0 || s.freeBlocks == 0)
  }

  function AddFirstEntry(code: Code, s: Image, p: nat, e: Dentry, up: nat): (Image, Status) {
    if LateRefusal(code, s) then (s, NoSpace)
    else
      var t := s.FirstFreeBlock();
      var s1 := s.TakeBlock(t).PutInode(p, s.Ino(p).(indirect := t));
      if LateRefusal(code, s1) then (s1, NoSpace)
      else
        var b := s1.FirstFreeBlock();
        var s2 := s1.TakeBlock(b).PutExtent(t, 0, Extent(b, 1)).PutSlot(b, 0, e);
        (s2.PutInode(p, Counted(s2.Ino(p), up).(extentNum := s2.Ino(p).extentNum + 1)), Done)
  }

  function CountEntry(s: Image, p: nat, up: nat): Image {
    s.PutInode(p, Counted(s.Ino(p), up))
  }

  function AddEntry(code: Code, s: Image, p: nat, e: Dentry, up: nat): (Image, Status) {
    var x := s.Ino(p);
    if x.numEntries == 0 then AddFirstEntry(code, s, p, e, up)
    else if x.size % 4096 != 0 then
      (CountEntry(s.PutSlot(s.LastBlock(p), x.numEntries % 16, e), p, up), Done)
    else if MayMerge(code, s, p) then
      (CountEntry(Merge(s, p).PutSlot(s.LastBlock(p) + 1, 0, e), p, up), Done)
    else if LateRefusal(code, s) then (s, NoSpace)
    else
      (CountEntry(Open(s, p).PutSlot(s.FirstFreeBlock(), 0, e), p, up), Done)
  }

  /**
   Can the parent take one more entry? An empty one needs an extent table and a block, a
   full one a block to merge or an extent for it, and any other nothing.
   */
  predicate HasRoom(s: Image, p: nat) {
    var x := s.Ino(p);
    if x.numEntries == 0 then s.freeBlocks >= 2
    else x.size % 4096 != 0 || (s.freeBlocks >= 1 && (MayMerge(Repaired, s, p) || x.extentNum < 512))
  }

  function NewInode(s: Image, kind: Kind): Image {
    var ino := s.FirstFreeInode();
    s.TakeInode(ino).PutInode(ino, Fresh(kind))
  }

  /**
   Creates a file or directory called `name` in directory p. As written, a free block is
   asked for even when none is needed, and nothing else is before the inode is taken.
   */
  function MakeNode(code: Code, s: Image, p: nat, name: string, kind: Kind): (Image, Status) {
    if s.freeInodes == 0 || (code.AsWritten? && s.freeBlocks == 0) then (s, NoSpace)
    else if code.Repaired? && !HasRoom(s, p) then (s, NoSpace)
    else AddEntry(code, NewInode(s, kind), p, Dentry(s.FirstFreeInode(), name), KindLinks(kind))
  }

  /** The last entry of a directory, read from its last block. */
  function LastEntry(s: Image, p: nat): Dentry {
    var n := s.Ino(p).numEntries % 16;
    s.Slot(s.LastBlock(p), (if n == 0 then 16 else n) - 1)
  }

  /** Moves the last entry into the slot of the target, scanning every slot of the directory. */
  function Overwrite(s: Image, p: nat, target: nat): Image {
    match FindIno(s.AllSlots(p), target)
    case None => s.(fault := true)
    case Some(k) =>
      var bs := s.Blocks(p);
      if k / 16 < |bs| then s.PutSlot(bs[k / 16], k % 16, LastEntry(s, p)) else s.(fault := true)
  }

  /** The parent's record after one entry less. */
  function Uncounted(x: Inode, down: nat): Inode {
    x.(links := Minus(x.links, down), numEntries := Minus(x.numEntries, 1), size := Minus(x.size, 256))
  }

  /** The parent forgets its last entry, and gives up what held only that. */
  function ForgetLast(s: Image, p: nat, down: nat): Image {
    var x := s.Ino(p);
    var e := s.LastExtent(p);
    if x.numEntries == 1 then
      s.ReleaseBlock(s.LastBlock(p)).ReleaseBlock(x.indirect)
       .PutInode(p, x.(extentNum := 0, links := 2, numEntries := 0, size := 0))
    else if x.numEntries % 16 != 1 then
      s.PutInode(p, Uncounted(x, down))
    else if e.count > 1 then
      s.ReleaseBlock(s.LastBlock(p)).PutExtent(x.indirect, Minus(x.extentNum, 1), e.(count := e.count - 1))
       .PutInode(p, Uncounted(x, down))
    else
      s.ReleaseBlock(s.LastBlock(p)).PutInode(p, Uncounted(x, down).(extentNum := Minus(x.extentNum, 1)))
  }

  function RemoveEntry(s: Image, p: nat, target: nat, down: nat): Image {
    var s1 := if LastEntry(s, p).ino == target then s else Overwrite(s, p, target);
    ForgetLast(s1.ReleaseInode(target), p, down)
  }

  function Rmdir(s: Image, p: nat, target: nat): (Image, Status) {
    if s.Ino(target).size != 0 then (s, NotEmpty) else (RemoveEntry(s, p, target, 1), Done)
  }

  function Unlink(s: Image, p: nat, target: nat): (Image, Status) {
    (RemoveEntry(if s.Ino(target).size != 0 then Empty(s, target) else s, p, target, 0), Done)
  }
}
