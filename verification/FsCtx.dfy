/**
 The mounted file system: the two bitmaps, the inode table and the data region as
 arrays updated in place. Every method is proved to do to the arrays what the function
 of the same name does to the image they hold. A write outside an array is not
 performed and recorded in `fault`; a read outside one yields a default value.
 */
module FileSystem {
  import opened Bitmap
  import opened Images
  import Ops = Operations
  import opened Operations
  import opened Namespace
  import opened Soundness
  import opened Mkfs
  import opened Paths
  import opened Resolution
  import opened FileData
  import opened Truncation
  import opened Directories
  import opened Calls
  import opened Deviations

  class FsCtx {
    const code: Code
    const numInodes: nat
    const numBlocks: nat
    const inodeBitmap: array<bv8>
    const dataBitmap: array<bv8>
    const inodes: array<Inode>
    // The data region, as extent tables, as directory entries and as bytes.
    const tables: array<Extent>
    const slots: array<Dentry>
    const data: array<bv8>
    var freeInodes: nat
    var freeBlocks: nat
    var fault: bool

    ghost function Repr(): set<object> {
      {this, inodeBitmap, dataBitmap, inodes, tables, slots, data}
    }

    /** The arrays do not overlap. */
    ghost predicate Valid() {
      && inodeBitmap != dataBitmap && inodeBitmap != data && dataBitmap != data
      && this as object != inodes && this as object != tables && this as object != slots
      && this as object != inodeBitmap && this as object != dataBitmap && this as object != data
      && inodes as object != tables && inodes as object != slots && tables as object != slots
      && inodes as object != inodeBitmap && inodes as object != dataBitmap && inodes as object != data
      && tables as object != inodeBitmap && tables as object != dataBitmap && tables as object != data
      && slots as object != inodeBitmap && slots as object != dataBitmap && slots as object != data
    }

    /** The image the arrays hold. */
    ghost function State(): Image
      reads Repr()
    {
      Image(numInodes, numBlocks, 8 * inodeBitmap.Length, 8 * dataBitmap.Length,
            Bits(inodeBitmap[..]), Bits(dataBitmap[..]), freeInodes, freeBlocks,
            inodes[..], tables[..], slots[..], data[..], fault)
    }

    /**
     fs_ctx_init on an image that mkfs has just formatted: everything zero but the bit
     and the record of the root directory.
     */
    constructor (code: Code, size: nat, count: nat)
      requires FitsExactly(size, LayoutOf(size, count))
      ensures Valid() && fresh(Repr()) && this.code == code
      ensures IsFresh(State()) && Invariant(State())
      ensures numInodes == LayoutOf(size, count).numInodes && numBlocks == LayoutOf(size, count).freeBlocks
    {
      hide Invariant, IsFresh;
      var l := LayoutOf(size, count);
      this.code, numInodes, numBlocks := code, l.numInodes, l.freeBlocks;
      inodeBitmap := new bv8[4096 * l.inodeBitmapLength](_ => 0);
      dataBitmap := new bv8[4096 * l.dataBitmapLength](_ => 0);
      inodes := new Inode[l.numInodes](_ => Inode(Regular, 0, 0, 0, 0, 0));
      tables := new Extent[512 * l.freeBlocks](_ => Extent(0, 0));
      slots := new Dentry[16 * l.freeBlocks](_ => Dentry(0, ""));
      data := new bv8[4096 * l.freeBlocks](_ => 0);
      freeInodes, freeBlocks, fault := l.freeInodes, l.freeBlocks, false;
      new;
      ClearBytesHaveNoBits(inodeBitmap[..]);
      ClearBytesHaveNoBits(dataBitmap[..]);
      SetBitmap(inodeBitmap, ROOT);
      inodes[ROOT] := Inode(Directory, 2, 0, 0, 0, 0);
      FormattedIsFresh(State(), size, count);
      FreshIsInvariant(State());
    }

    // Reading the arrays

    function InodeRecord(i: nat): (x: Inode)
      reads Repr()
      ensures x == State().Ino(i)
    {
      if i < inodes.Length then inodes[i] else Inode(Regular, 0, 0, 0, 0, 0)
    }

    function ExtentAt(b: nat, k: nat): (e: Extent)
      reads Repr()
      ensures e == State().Ext(b, k)
    {
      if b * 512 + k < tables.Length then tables[b * 512 + k] else Extent(0, 0)
    }

    function SlotAt(b: nat, k: nat): (e: Dentry)
      reads Repr()
      ensures e == State().Slot(b, k)
    {
      if b * 16 + k < slots.Length then slots[b * 16 + k] else Dentry(0, "")
    }

    // Writing the arrays

    method PutInode(i: nat, x: Inode)
      requires Valid()
      modifies Repr()
      ensures State() == old(State()).PutInode(i, x)
    {
      if i < inodes.Length {
        inodes[i] := x;
        assert inodes[..] == old(inodes[..])[i := x];
      } else {
        fault := true;
      }
    }

    method PutExtent(b: nat, k: nat, e: Extent)
      requires Valid()
      modifies Repr()
      ensures State() == old(State()).PutExtent(b, k, e)
    {
      if b * 512 + k < tables.Length {
        tables[b * 512 + k] := e;
        assert tables[..] == old(tables[..])[b * 512 + k := e];
      } else {
        fault := true;
      }
    }

    method PutSlot(b: nat, k: nat, e: Dentry)
      requires Valid()
      modifies Repr()
      ensures State() == old(State()).PutSlot(b, k, e)
    {
      if b * 16 + k < slots.Length {
        slots[b * 16 + k] := e;
        assert slots[..] == old(slots[..])[b * 16 + k := e];
      } else {
        fault := true;
      }
    }

    /** memcpy into the data region. */
    method PutBytes(a: nat, buf: seq<bv8>)
      requires Valid()
      modifies Repr()
      ensures State() == old(State()).PutBytes(a, buf)
    {
      hide Bits;
      if a + |buf| <= data.Length {
        for k := 0 to |buf|
          invariant data[..] == old(data[..])[..a] + buf[..k] + old(data[..])[a + k..]
          invariant State() == old(State()).(data := data[..])
        {
          data[a + k] := buf[k];
        }
      } else {
        fault := true;
      }
    }

    /** memset to zero in the data region. */
    method ZeroBytes(a: nat, n: nat)
      requires Valid()
      modifies Repr()
      ensures State() == old(State()).PutBytes(a, Zeros(n))
    {
      if a + n <= data.Length {
        for k := 0 to n
          invariant data[..] == old(data[..])[..a] + Zeros(k) + old(data[..])[a + k..]
          invariant State() == old(State()).(data := data[..])
        {
          data[a + k] := 0;
        }
      } else {
        fault := true;
      }
    }

    // Bitmaps

    static predicate IsSet(bitmap: array<bv8>, index: nat)
      requires index < 8 * bitmap.Length
      reads bitmap
    {
      bitmap[index / 8] & Mask(index % 8) != 0
    }

    static method SetBitmap(bitmap: array<bv8>, index: nat)
      requires index < 8 * bitmap.Length
      modifies bitmap
      ensures Bits(bitmap[..]) == old(Bits(bitmap[..])) + {index}
    {
      bitmap[index / 8] := bitmap[index / 8] | Mask(index % 8);
      assert bitmap[..] == Bitmap.SetBit(old(bitmap[..]), index);
      SetBitBits(old(bitmap[..]), index);
    }

    static method UnsetBitmap(bitmap: array<bv8>, index: nat)
      requires index < 8 * bitmap.Length
      modifies bitmap
      ensures bitmap[..] == ClearBit(old(bitmap[..]), index)
      ensures Bits(bitmap[..]) == old(Bits(bitmap[..])) - {index}
    {
      bitmap[index / 8] := bitmap[index / 8] & !Mask(index % 8);
      assert bitmap[..] == ClearBit(old(bitmap[..]), index);
      ClearBitBits(old(bitmap[..]), index);
    }

    /** First fit: the least clear bit below n, or an index no bitmap has. */
    static method FirstAvailablePosition(n: nat, bitmap: array<bv8>) returns (r: nat)
      ensures match FirstFree(Bits(bitmap[..]), 0, n) case Some(k) => r == k case None => r == NOT_FOUND
    {
      var k := 0;
      while k < n
        invariant k <= n
        invariant FirstFree(Bits(bitmap[..]), 0, n) == FirstFree(Bits(bitmap[..]), k, n)
      {
        if k >= 8 * bitmap.Length || !IsSet(bitmap, k) {
          return k;
        }
        k := k + 1;
      }
      return NOT_FOUND;
    }

    method TakeBlock(b: nat)
      requires Valid()
      modifies Repr()
      ensures State() == old(State()).TakeBlock(b)
    {
      if b < 8 * dataBitmap.Length {
        SetBitmap(dataBitmap, b);
      } else {
        fault := true;
      }
      freeBlocks := Decrement(freeBlocks);
    }

    method ReleaseBlock(b: nat)
      requires Valid()
      modifies Repr()
      ensures State() == old(State()).ReleaseBlock(b)
    {
      if b < 8 * dataBitmap.Length {
        UnsetBitmap(dataBitmap, b);
      } else {
        fault := true;
      }
      freeBlocks := freeBlocks + 1;
    }

    method TakeInode(i: nat)
      requires Valid()
      modifies Repr()
      ensures State() == old(State()).TakeInode(i)
    {
      if i < 8 * inodeBitmap.Length {
        SetBitmap(inodeBitmap, i);
      } else {
        fault := true;
      }
      freeInodes := Decrement(freeInodes);
    }

    method ReleaseInode(i: nat)
      requires Valid()
      modifies Repr()
      ensures State() == old(State()).ReleaseInode(i)
    {
      if i < 8 * inodeBitmap.Length {
        UnsetBitmap(inodeBitmap, i);
      } else {
        fault := true;
      }
      freeInodes := freeInodes + 1;
    }

    /** The data region passed where a bitmap was meant. */
    method ScribbleBlock(b: nat)
      requires Valid()
      modifies Repr()
      ensures State() == old(State()).ScribbleBlock(b)
    {
      if b < 8 * data.Length {
        UnsetBitmap(data, b);
      } else {
        fault := true;
      }
      freeBlocks := freeBlocks + 1;
    }

    method FirstFreeBlock() returns (b: nat)
      ensures b == State().FirstFreeBlock()
    {
      b := FirstAvailablePosition(numBlocks, dataBitmap);
    }

    method FirstFreeInode() returns (i: nat)
      ensures i == State().FirstFreeInode()
    {
      i := FirstAvailablePosition(numInodes, inodeBitmap);
    }

    // Extents (fs_ctx.c)

    /** get_num_blks_of_file */
    method NumBlocksOf(i: nat) returns (n: nat)
      ensures n == |State().Blocks(i)|
    {
      ghost var extents := State().Extents(i);
      var x := InodeRecord(i);
      n := 0;
      for m := 0 to x.extentNum
        invariant n == |FlatBlocks(extents[..m])|
      {
        assert extents[..m + 1][..m] == extents[..m];
        n := n + ExtentAt(x.indirect, m).count;
      }
      assert extents[..x.extentNum] == extents;
    }

    /** find_last_block */
    function LastExtentOf(i: nat): (e: Extent)
      reads Repr()
      ensures e == State().LastExtent(i)
    {
      ExtentAt(InodeRecord(i).indirect, Minus(InodeRecord(i).extentNum, 1))
    }

    function LastBlockOf(i: nat): (b: nat)
      reads Repr()
      ensures b == State().LastBlock(i)
    {
      Minus(LastExtentOf(i).start + LastExtentOf(i).count, 1)
    }

    /**
     get_addr_of_starting_write_point: the block-by-block search finds the block that
     holds the offset in the flat list (the null address is one past the data region).
     */
    method StartingWritePoint(i: nat, off: nat) returns (a: nat)
      ensures a == Address(State(), i, off)
    {
      ghost var extents := State().Extents(i);
      FlatBlocksEnds(extents);
      hide FlatBlocks;
      var x := InodeRecord(i);
      var count := 0;
      for m := 0 to x.extentNum
        invariant count == 4096 * |FlatBlocks(extents[..m])| <= off
      {
        var e := ExtentAt(x.indirect, m);
        assert e == extents[m];
        FlatBlocksCount(extents, m);
        for j := 0 to e.count
          invariant count == 4096 * (|FlatBlocks(extents[..m])| + j) <= off
        {
          FlatBlocksAt(extents, m, j);
          if off - count < 4096 {
            return (e.start + j) * 4096 + (off - count);
          }
          count := count + 4096;
        }
      }
      return data.Length;
    }

    method CloseHole(i: nat)
      requires Valid()
      modifies Repr()
      ensures State() == Ops.CloseHole(old(State()), i)
    {
      var size := InodeRecord(i).size;
      if size % 4096 != 0 {
        var n := NumBlocksOf(i);
        ZeroBytes(LastBlockOf(i) * 4096 + size % 4096, Minus(4096 * n, size));
      }
    }

    method BlockIsFree(b: nat) returns (free: bool)
      ensures free <==> b !in State().usedBlocks
    {
      free := b >= 8 * dataBitmap.Length || !IsSet(dataBitmap, b);
    }

    method NextIsFree(i: nat) returns (free: bool)
      ensures free <==> MayMerge(code, State(), i)
    {
      free := BlockIsFree(LastBlockOf(i) + 1);
      free := free && (code.Repaired? ==> LastBlockOf(i) + 1 < numBlocks);
    }

    method Merge(i: nat)
      requires Valid()
      modifies Repr()
      ensures State() == Ops.Merge(old(State()), i)
    {
      var x, e := InodeRecord(i), LastExtentOf(i);
      TakeBlock(LastBlockOf(i) + 1);
      PutExtent(x.indirect, Minus(x.extentNum, 1), e.(count := e.count + 1));
    }

    method Open(i: nat) returns (b: nat)
      requires Valid()
      modifies Repr()
      ensures State() == Ops.Open(old(State()), i) && b == old(State()).FirstFreeBlock()
    {
      var x := InodeRecord(i);
      b := FirstFreeBlock();
      TakeBlock(b);
      PutExtent(x.indirect, x.extentNum, Extent(b, 1));
      PutInode(i, x.(extentNum := x.extentNum + 1));
    }

    method Start(i: nat) returns (b: nat)
      requires Valid()
      modifies Repr()
      ensures (State(), b) == Ops.Start(code, old(State()), i)
    {
      var x := InodeRecord(i);
      var t := FirstFreeBlock();
      TakeBlock(t);
      b := FirstFreeBlock();
      TakeBlock(if code.AsWritten? then t else b);
      PutExtent(t, 0, Extent(b, 1));
      PutInode(i, x.(indirect := t, extentNum := 1));
    }

    method Finish(i: nat, n: nat, b: nat)
      requires Valid()
      modifies Repr()
      ensures State() == Ops.Finish(old(State()), i, n, b)
    {
      PutInode(i, InodeRecord(i).(size := 4096 * (n + 1)));
      ZeroBytes(b * 4096, 4096);
    }

    /** growing_a_block_for_file */
    method Grow(i: nat) returns (ok: bool)
      requires Valid()
      modifies Repr()
      ensures (State(), ok) == Ops.Grow(code, old(State()), i)
    {
      if freeBlocks == 0 {
        return false;
      }
      if InodeRecord(i).size == 0 {
        if freeBlocks == 1 {
          return false;
        }
        var b := Start(i);
        Finish(i, 0, b);
        return true;
      }
      var n := NumBlocksOf(i);
      CloseHole(i);
      var b := LastBlockOf(i) + 1;
      var free := NextIsFree(i);
      if free {
        Merge(i);
      } else if InodeRecord(i).extentNum == 512 {
        return false;
      } else {
        b := Open(i);
      }
      Finish(i, n, b);
      return true;
    }

    // File data (a1fs.c)

    /** a1fs_write, on an inode */
    method Write(i: nat, buf: seq<bv8>, off: nat) returns (status: Status)
      requires Valid()
      modifies Repr()
      ensures (State(), status) == Ops.Write(code, old(State()), i, buf, off)
    {
      status := Done;
      if |buf| == 0 {
        return;
      }
      var size, end := InodeRecord(i).size, off + |buf|;
      if end <= size {
        var a := StartingWritePoint(i, off);
        PutBytes(a, buf);
        return;
      }
      var n := NumBlocksOf(i);
      if end <= 4096 * n {
        WriteTail(i, buf, off, n);
        return;
      }
      status := WriteBeyond(i, buf, off, n);
    }

    method WriteBeyond(i: nat, buf: seq<bv8>, off: nat, n: nat) returns (status: Status)
      requires Valid() && n == |State().Blocks(i)|
      modifies Repr()
      ensures (State(), status) == Ops.WriteBeyond(code, old(State()), i, buf, off)
    {
      hide Ops.Grow;
      var ok := Grow(i);
      if !ok {
        return NoSpace;
      }
      if off + |buf| <= 4096 * (1 + n) {
        WriteLast(i, buf, off % 4096, off + |buf|);
        return Done;
      }
      ok := Grow(i);
      if !ok {
        return NoSpace;
      }
      WriteLast(i, buf, if code.AsWritten? then 0 else off % 4096, off + |buf|);
      return Done;
    }

    method WriteLast(i: nat, buf: seq<bv8>, at: nat, size: nat)
      requires Valid()
      modifies Repr()
      ensures State() == Ops.WriteLast(old(State()), i, buf, at, size)
    {
      PutBytes(LastBlockOf(i) * 4096 + at, buf);
      PutInode(i, InodeRecord(i).(size := size));
    }

    method WriteTail(i: nat, buf: seq<bv8>, off: nat, n: nat)
      requires Valid() && n == |State().Blocks(i)|
      modifies Repr()
      ensures State() == Ops.WriteTail(old(State()), i, buf, off)
    {
      var size := InodeRecord(i).size;
      var a := StartingWritePoint(i, off);
      if off <= size {
        ZeroBytes(a, Minus(4096 * n, off));
      } else {
        ZeroBytes(Minus(LastBlockOf(i) * 4096 + 4096, Minus(4096 * n, size)), Minus(4096 * n, size));
      }
      PutBytes(a, buf);
      PutInode(i, InodeRecord(i).(size := off + |buf|));
    }

    /** Blocks released; or, by the code as written after a cut, scribbled over. */
    static ghost function Freed(scribble: bool, s: Image, bs: seq<nat>): Image {
      if scribble then s.ScribbleAll(bs) else s.ReleaseAll(bs)
    }

    static lemma FreedStep(scribble: bool, s: Image, before: seq<nat>, start: nat, j: nat)
      ensures Freed(scribble, s, before + Range(start, j + 1)) ==
              if scribble then Freed(scribble, s, before + Range(start, j)).ScribbleBlock(start + j)
              else Freed(scribble, s, before + Range(start, j)).ReleaseBlock(start + j)
    {
      var next := before + Range(start, j + 1);
      assert next[..|next| - 1] == before + Range(start, j);
    }

    static lemma {:induction false} FreedKeeps(scribble: bool, s: Image, bs: seq<nat>)
      ensures Freed(scribble, s, bs).tables == s.tables && Freed(scribble, s, bs).inodes == s.inodes
      ensures forall b: nat, k: nat :: Freed(scribble, s, bs).Ext(b, k) == s.Ext(b, k)
      decreases |bs|
    {
      if bs != [] {
        FreedKeeps(scribble, s, bs[..|bs| - 1]);
      }
    }

    static lemma FreedNone(scribble: bool, s: Image, before: seq<nat>, start: nat)
      ensures before + Range(start, 0) == before && Freed(scribble, s, []) == s
    {
    }

    /** Frees the blocks of one extent. */
    method FreeRun(scribble: bool, start: nat, count: nat, ghost s0: Image, ghost before: seq<nat>)
      requires Valid() && State() == Freed(scribble, s0, before)
      modifies Repr()
      ensures State() == Freed(scribble, s0, before + Range(start, count))
    {
      hide Freed, Range, Image.ScribbleBlock, Image.ReleaseBlock, State, Valid;
      FreedNone(scribble, s0, before, start);
      for j := 0 to count
        invariant State() == Freed(scribble, s0, before + Range(start, j))
      {
        FreedStep(scribble, s0, before, start, j);
        if scribble {
          ScribbleBlock(start + j);
        } else {
          ReleaseBlock(start + j);
        }
      }
    }

    /** Frees the blocks of the extents from `first` on. */
    method FreeExtents(scribble: bool, i: nat, first: nat)
      requires Valid() && first <= |State().Extents(i)|
      modifies Repr()
      ensures State() == Freed(scribble, old(State()), FlatBlocks(old(State()).Extents(i)[first..]))
    {
      hide Range, State, Freed, FlatBlocks;
      ghost var s0 := State();
      ghost var extents := s0.Extents(i);
      var x := InodeRecord(i);
      FreedNone(scribble, s0, [], 0);
      FlatBlocksEnds(extents);
      assert extents[first..first] == extents[..0];
      for m := first to x.extentNum
        invariant State() == Freed(scribble, s0, FlatBlocks(extents[first..m]))
      {
        ghost var before := FlatBlocks(extents[first..m]);
        FreedKeeps(scribble, s0, before);
        var e := ExtentAt(x.indirect, m);
        assert e == extents[m];
        FreeRun(scribble, e.start, e.count, s0, before);
        assert extents[first..m + 1] == extents[first..m] + [e];
        FlatBlocksLast(extents[first..m], e);
      }
      assert extents[first..x.extentNum] == extents[first..];
    }

    /** The first part of unlink: every block of every extent, then the extent table. */
    method Empty(i: nat)
      requires Valid()
      modifies Repr()
      ensures State() == Ops.Empty(old(State()), i)
    {
      var x := InodeRecord(i);
      ghost var extents := State().Extents(i);
      assert extents[0..] == extents;
      FreedKeeps(false, State(), FlatBlocks(extents));
      FreeExtents(false, i, 0);
      ReleaseBlock(x.indirect);
      PutInode(i, x.(extentNum := 0, size := 0));
    }

    /** Where a cut falls: the loop of truncate that adds up extent counts. */
    method CutPoint(i: nat, keep: nat) returns (m: nat, kept: nat)
      ensures (m, kept) == Ops.CutPoint(State().Extents(i), keep, 0, 0)
    {
      ghost var extents := State().Extents(i);
      var x := InodeRecord(i);
      var count: nat := 0;
      m := 0;
      while m < x.extentNum
        invariant m <= x.extentNum
        invariant Ops.CutPoint(extents, keep, 0, 0) == Ops.CutPoint(extents, keep, m, count)
      {
        var e := ExtentAt(x.indirect, m);
        assert e == extents[m];
        if e.count + count >= keep {
          return m, Minus(keep, count);
        }
        count := count + e.count;
        m := m + 1;
      }
      return 0, 1;
    }

    /** The blocks of the cut extent that are given up. */
    method ReleaseTail(from: nat, count: nat)
      requires Valid()
      modifies Repr()
      ensures State() == old(State()).ReleaseAll(CutTail(code, from, count))
    {
      ghost var s0, tail := State(), CutTail(code, from, count);
      for k := 0 to count
        invariant State() == s0.ReleaseAll(tail[..k])
      {
        assert tail[..k + 1][..k] == tail[..k];
        ReleaseBlock(if code.AsWritten? then Wrap32(from + k - 1) else from + k);
      }
      assert tail[..count] == tail;
    }

    /** What the tail release and the shortened extent leave of the later extents. */
    static lemma LaterKept(s: Image, s1: Image, s2: Image, i: nat, m: nat, bs: seq<nat>, e: Extent)
      requires s1 == s.ReleaseAll(bs) && s2 == s1.PutExtent(s.Ino(i).indirect, m, e) && m < s.Ino(i).extentNum
      ensures |s2.Extents(i)| == |s.Extents(i)| && s2.Extents(i)[m + 1..] == s.Extents(i)[m + 1..]
    {
      FreedKeeps(false, s, bs);
      assert forall k: nat | k > m :: s2.Ext(s.Ino(i).indirect, k) == s.Ext(s.Ino(i).indirect, k);
    }

    method CutAt(i: nat, size: nat, m: nat, kept: nat)
      requires Valid()
      modifies Repr()
      ensures State() == Ops.CutAt(code, old(State()), i, size, m, kept)
    {
      hide FlatBlocks, State, CutTail;
      ghost var s0 := State();
      var x := InodeRecord(i);
      var cut := ExtentAt(x.indirect, m);
      ReleaseTail(cut.start + kept, Minus(cut.count, kept));
      ghost var s1 := State();
      PutExtent(x.indirect, m, cut.(count := kept));
      if m < x.extentNum {
        LaterKept(s0, s1, State(), i, m, CutTail(code, cut.start + kept, Minus(cut.count, kept)), cut.(count := kept));
        FreeExtents(code.AsWritten?, i, m + 1);
      }
      PutInode(i, x.(extentNum := m + 1, size := size));
    }

    method Shrink(i: nat, size: nat)
      requires Valid()
      modifies Repr()
      ensures State() == Ops.Shrink(code, old(State()), i, size)
    {
      if code.Repaired? && size == 0 {
        Empty(i);
        return;
      }
      var m, kept := CutPoint(i, CeilBlocks(size));
      CutAt(i, size, m, kept);
    }

    method GrowBy(i: nat, n: nat) returns (ok: bool)
      requires Valid()
      modifies Repr()
      ensures (State(), ok) == Ops.GrowBy(code, old(State()), i, n)
    {
      hide Ops.Grow;
      ghost var s0 := State();
      ok := true;
      for k := 0 to n
        invariant Ops.GrowBy(code, s0, i, n) == Ops.GrowBy(code, State(), i, n - k)
        invariant ok
      {
        ghost var before := State();
        ok := Grow(i);
        GrowByOnce(code, before, State(), ok, i, n - k);
        if !ok {
          return;
        }
      }
    }

    method Extend(i: nat, size: nat) returns (status: Status)
      requires Valid()
      modifies Repr()
      ensures (State(), status) == Ops.Extend(code, old(State()), i, size)
    {
      var n := NumBlocksOf(i);
      var more := if code.AsWritten? then Wrap32(CutCeilBlocks(size) - n) else Minus(CeilBlocks(size), n);
      if code.Repaired? && more == 0 {
        CloseHole(i);
      }
      var ok := GrowBy(i, more);
      if !ok {
        return NoSpace;
      }
      PutInode(i, InodeRecord(i).(size := size));
      return Done;
    }

    /** a1fs_truncate, on an inode */
    method Truncate(i: nat, size: nat) returns (status: Status)
      requires Valid()
      modifies Repr()
      ensures (State(), status) == Ops.Truncate(code, old(State()), i, size)
    {
      status := Done;
      if size < InodeRecord(i).size {
        Shrink(i, size);
      } else if size > InodeRecord(i).size {
        status := Extend(i, size);
      }
    }

    // Namespace (a1fs.c)

    /** The late tests of the counters. */
    predicate RefusedLate()
      reads Repr()
      ensures RefusedLate() <==> LateRefusal(code, State())
    {
      code.AsWritten? && (freeInodes == 0 || freeBlocks == 0)
    }

    method AddFirstEntry(p: nat, e: Dentry, up: nat) returns (status: Status)
      requires Valid()
      modifies Repr()
      ensures (State(), status) == Ops.AddFirstEntry(code, old(State()), p, e, up)
    {
      hide State, LateRefusal, Image.FirstFreeBlock, Image.TakeBlock, Image.PutInode, Image.PutExtent;
      hide Image.PutSlot, Image.Ino;
      if RefusedLate() {
        return NoSpace;
      }
      var t := FirstFreeBlock();
      var x := InodeRecord(p);
      TakeBlock(t);
      PutInode(p, x.(indirect := t));
      if RefusedLate() {
        return NoSpace;
      }
      var b := FirstFreeBlock();
      TakeBlock(b);
      PutExtent(t, 0, Extent(b, 1));
      PutSlot(b, 0, e);
      x := InodeRecord(p);
      PutInode(p, Counted(x, up).(extentNum := x.extentNum + 1));
      return Done;
    }

    method CountEntry(p: nat, up: nat)
      requires Valid()
      modifies Repr()
      ensures State() == Ops.CountEntry(old(State()), p, up)
    {
      PutInode(p, Counted(InodeRecord(p), up));
    }

    method AddEntry(p: nat, e: Dentry, up: nat) returns (status: Status)
      requires Valid()
      modifies Repr()
      ensures (State(), status) == Ops.AddEntry(code, old(State()), p, e, up)
    {
      var x := InodeRecord(p);
      if x.numEntries == 0 {
        status := AddFirstEntry(p, e, up);
        return;
      }
      var last := LastBlockOf(p);
      if x.size % 4096 != 0 {
        PutSlot(last, x.numEntries % 16, e);
      } else {
        var free := NextIsFree(p);
        if free {
          Merge(p);
          PutSlot(last + 1, 0, e);
        } else {
          if RefusedLate() {
            return NoSpace;
          }
          var b := Open(p);
          PutSlot(b, 0, e);
        }
      }
      CountEntry(p, up);
      return Done;
    }

    method HasRoom(p: nat) returns (room: bool)
      ensures code.Repaired? ==> (room <==> Ops.HasRoom(State(), p))
    {
      var x := InodeRecord(p);
      if x.numEntries == 0 {
        return freeBlocks >= 2;
      }
      var free := NextIsFree(p);
      return x.size % 4096 != 0 || (freeBlocks >= 1 && (free || x.extentNum < 512));
    }

    /** The slot the triple loop looks at: slot k of block j of extent m. */
    static lemma SlotInOrder(s: Image, p: nat, m: nat, j: nat, k: nat)
      requires m < |s.Extents(p)| && j < s.Extents(p)[m].count && k < 16
      ensures var q := |FlatBlocks(s.Extents(p)[..m])| + j;
              && 16 * q + k < |s.AllSlots(p)| == 16 * |s.Blocks(p)| && q < |s.Blocks(p)|
              && s.Blocks(p)[q] == s.Extents(p)[m].start + j
              && s.AllSlots(p)[16 * q + k] == s.Slot(s.Extents(p)[m].start + j, k)
    {
      FlatBlocksAt(s.Extents(p), m, j);
      var q := |FlatBlocks(s.Extents(p)[..m])| + j;
      assert (16 * q + k) / 16 == q && (16 * q + k) % 16 == k;
    }

    /** Slot j of extent m, counted from the start of the extent, is the next live entry. */
    static lemma LiveSlot(s: Image, d: nat, m: nat, j: nat, c: nat)
      requires m < |s.Extents(d)| && j < 16 * s.Extents(d)[m].count
      requires c == 16 * |FlatBlocks(s.Extents(d)[..m])| + j < |s.Entries(d)|
      ensures s.Slot(s.Extents(d)[m].start, j) == s.Entries(d)[c]
    {
      SlotInOrder(s, d, m, j / 16, j % 16);
      assert s.Slot(s.Extents(d)[m].start, j) == s.Slot(s.Extents(d)[m].start + j / 16, j % 16);
    }

    static lemma AllSlotsSize(s: Image, p: nat)
      ensures |s.AllSlots(p)| == 16 * |FlatBlocks(s.Extents(p))|
      ensures |s.Extents(p)| == s.Ino(p).extentNum
    {
    }

    static lemma FoundAt(slots: seq<Dentry>, ino: nat, c: nat)
      requires c < |slots| && slots[c].ino == ino && forall q | 0 <= q < c :: slots[q].ino != ino
      ensures FindIno(slots, ino) == Some(c)
    {
    }

    /**
     The triple loop of rmdir and unlink, over every slot of every block of every extent:
     it stops at the first slot holding the target's inode number.
     */
    method FindTarget(p: nat, target: nat) returns (found: bool, b: nat, k: nat)
      ensures found <==> FindIno(State().AllSlots(p), target).Some?
      ensures found ==> var c := FindIno(State().AllSlots(p), target).value;
                        c / 16 < |State().Blocks(p)| && b == State().Blocks(p)[c / 16] && k == c % 16
    {
      hide FlatBlocks, Image.AllSlots, Image.Blocks, State;
      ghost var s0 := State();
      ghost var extents, all := s0.Extents(p), s0.AllSlots(p);
      FlatBlocksEnds(extents);
      AllSlotsSize(s0, p);
      var x := InodeRecord(p);
      for m := 0 to x.extentNum
        invariant State() == s0 && 16 * |FlatBlocks(extents[..m])| <= |all|
        invariant forall q | 0 <= q < 16 * |FlatBlocks(extents[..m])| :: all[q].ino != target
      {
        var e := ExtentAt(x.indirect, m);
        assert e == extents[m];
        FlatBlocksCount(extents, m);
        ghost var base := |FlatBlocks(extents[..m])|;
        for j := 0 to e.count
          invariant State() == s0 && 16 * (base + j) <= |all|
          invariant forall q | 0 <= q < 16 * (base + j) :: all[q].ino != target
        {
          k := 0;
          while k < 16
            invariant State() == s0 && k <= 16 && 16 * (base + j) + k <= |all|
            invariant forall q | 0 <= q < 16 * (base + j) + k :: all[q].ino != target
          {
            SlotInOrder(s0, p, m, j, k);
            if SlotAt(e.start + j, k).ino == target {
              FoundAt(all, target, 16 * (base + j) + k);
              return true, e.start + j, k;
            }
            k := k + 1;
          }
        }
      }
      return false, 0, 0;
    }

    /** The last entry takes the place of the target. */
    method Overwrite(p: nat, target: nat, last: Dentry)
      requires Valid() && last == LastEntry(State(), p)
      modifies Repr()
      ensures State() == Ops.Overwrite(old(State()), p, target)
    {
      var found, b, k := FindTarget(p, target);
      if found {
        PutSlot(b, k, last);
      } else {
        fault := true;
      }
    }

    method ForgetLast(p: nat, down: nat)
      requires Valid()
      modifies Repr()
      ensures State() == Ops.ForgetLast(old(State()), p, down)
    {
      var x, e, last := InodeRecord(p), LastExtentOf(p), LastBlockOf(p);
      if x.numEntries == 1 {
        ReleaseBlock(last);
        ReleaseBlock(x.indirect);
        PutInode(p, x.(extentNum := 0, links := 2, numEntries := 0, size := 0));
      } else if x.numEntries % 16 != 1 {
        PutInode(p, Uncounted(x, down));
      } else if e.count > 1 {
        ReleaseBlock(last);
        PutExtent(x.indirect, Minus(x.extentNum, 1), e.(count := e.count - 1));
        PutInode(p, Uncounted(x, down));
      } else {
        ReleaseBlock(last);
        PutInode(p, Uncounted(x, down).(extentNum := Minus(x.extentNum, 1)));
      }
    }

    /** The body shared by a1fs_rmdir and a1fs_unlink. */
    method RemoveEntry(p: nat, target: nat, down: nat)
      requires Valid()
      modifies Repr()
      ensures State() == Ops.RemoveEntry(old(State()), p, target, down)
    {
      var n := InodeRecord(p).numEntries % 16;
      var last := SlotAt(LastBlockOf(p), (if n == 0 then 16 else n) - 1);
      if last.ino != target {
        Overwrite(p, target, last);
      }
      ReleaseInode(target);
      ForgetLast(p, down);
    }

    // Resolving paths (fs_ctx.c)

    /**
     The scan of path_lookup through one directory: a name is found exactly when it is
     among the live entries, whatever the slots after them hold.
     */
    method Scan(d: nat, name: string) returns (r: ScanResult)
      requires Sound(State()) && LiveDir(State(), d)
      ensures r == ScanOf(State().Entries(d), name)
    {
      hide Sound, InodeOk, CeilBlocks, FlatBlocks, Image.AllSlots, Image.Blocks, Image.Entries, FindName, NodeOf, State;
      ghost var s0 := State();
      ghost var extents, all, entries := s0.Extents(d), s0.AllSlots(d), s0.Entries(d);
      DirShape(s0, d);
      FlatBlocksEnds(extents);
      AllSlotsSize(s0, d);
      var x := InodeRecord(d);
      var count := 0;
      for m := 0 to x.extentNum
        invariant State() == s0 && count == 16 * |FlatBlocks(extents[..m])| <= |all|
        invariant count < |entries| || x.extentNum == 0
        invariant forall q | 0 <= q < count :: entries[q].name != name
      {
        var e := ExtentAt(x.indirect, m);
        assert e == extents[m];
        FlatBlocksCount(extents, m);
        ghost var base := |FlatBlocks(extents[..m])|;
        for j := 0 to 16 * e.count
          invariant State() == s0 && count == 16 * base + j < |entries|
          invariant forall q | 0 <= q < count :: entries[q].name != name
        {
          LiveSlot(s0, d, m, j, count);
          var slot := SlotAt(e.start, j);
          if slot.name == name {
            ScanHits(entries, name, count);
            return Hit(slot.ino);
          }
          count := count + 1;
          if count >= x.numEntries {
            ScanMisses(entries, name);
            return Miss;
          }
        }
      }
      assert x.extentNum == 0 && entries == [];
      return Nothing;
    }

    /** path_lookup */
    method PathLookup(path: string) returns (r: PathResult)
      requires Sound(State()) && Closed(Abs(State()))
      ensures r == ResolvePath(Abs(State()), path)
    {
      if !IsAbsolute(path) {
        return Missing;
      }
      var names := Tokens(path);
      if |names| == 0 {
        return Found(ROOT);
      }
      ghost var a: Tree := Abs(State());
      assert LiveDir(State(), ROOT) by { assert a[ROOT] == NodeOf(State(), ROOT); }
      var first := Scan(ROOT, names[0]);
      ScanWalks(State(), ROOT, names);
      if first.Nothing? {
        return if |names| == 1 then Missing else OutOfBounds;
      }
      if first.Miss? {
        return Missing;
      }
      r := WalkFrom(first.ino, names[1..]);
    }

    /** The loop over the components after the first. */
    method WalkFrom(i: nat, names: seq<string>) returns (r: PathResult)
      requires Sound(State()) && Closed(Abs(State())) && i in State().usedInodes
      ensures r == Walk(Abs(State()), i, names)
    {
      ghost var a: Tree := Abs(State());
      var tmp, k := i, 0;
      while k < |names|
        invariant k <= |names| && tmp in State().usedInodes
        invariant Walk(a, i, names) == Walk(a, tmp, names[k..])
      {
        assert a[tmp] == NodeOf(State(), tmp);
        EmptyMeansEmpty(State(), tmp);
        if InodeRecord(tmp).size == 0 {
          return Missing;
        }
        if InodeRecord(tmp).kind.Regular? {
          return NotDirectory;
        }
        var hit := Scan(tmp, names[k]);
        assert names[k..][1..] == names[k + 1..];
        ScanWalks(State(), tmp, names[k..]);
        if hit.Miss? {
          return Missing;
        }
        tmp := hit.ino;
        k := k + 1;
      }
      return Found(tmp);
    }

    /** readdir: ".", ".." and the name of every live entry, in order. */
    method ReadDir(d: nat) returns (names: seq<string>)
      requires Sound(State()) && LiveDir(State(), d)
      ensures IsListing(State().Entries(d), names)
    {
      hide Sound, InodeOk, CeilBlocks, FlatBlocks, Image.AllSlots, Image.Blocks, Image.Entries, IsListing;
      hide NodeOf, State;
      ghost var s0 := State();
      ghost var extents, all, entries := s0.Extents(d), s0.AllSlots(d), s0.Entries(d);
      DirShape(s0, d);
      FlatBlocksEnds(extents);
      AllSlotsSize(s0, d);
      var x := InodeRecord(d);
      names := [".", ".."];
      ListingStart(entries, names);
      var count := 0;
      for m := 0 to x.extentNum
        invariant State() == s0 && count == 16 * |FlatBlocks(extents[..m])| <= |all|
        invariant count < |entries| || x.extentNum == 0
        invariant count <= |entries| && IsListing(entries[..count], names)
      {
        var e := ExtentAt(x.indirect, m);
        assert e == extents[m];
        FlatBlocksCount(extents, m);
        ghost var base := |FlatBlocks(extents[..m])|;
        for j := 0 to 16 * e.count
          invariant State() == s0 && count == 16 * base + j < |entries|
          invariant IsListing(entries[..count], names)
        {
          LiveSlot(s0, d, m, j, count);
          ListingPush(entries, count, names);
          names := names + [SlotAt(e.start, j).name];
          count := count + 1;
          if count >= x.numEntries {
            assert entries[..count] == entries;
            return;
          }
        }
      }
      assert entries[..0] == entries;
    }

    // Reading

    /** The two-phase search of read: first the extent, then the block in it. */
    method BlockOf(i: nat, off: nat) returns (b: nat)
      ensures off / 4096 < |State().Blocks(i)| ==> b == State().Blocks(i)[off / 4096]
      ensures off / 4096 >= |State().Blocks(i)| ==>
                var e, past := State().Ext(State().Ino(i).indirect, 0), off / 4096 - |State().Blocks(i)|;
                b == e.start + (if past < e.count then past else 0)
    {
      ghost var extents := State().Extents(i);
      FlatBlocksEnds(extents);
      var x := InodeRecord(i);
      var rest: nat, m, at := off, 0, 0;
      while m < x.extentNum
        invariant m <= x.extentNum && at == 0
        invariant rest + 4096 * |FlatBlocks(extents[..m])| == off
      {
        FlatBlocksCount(extents, m);
        if rest < ExtentAt(x.indirect, m).count * 4096 {
          at := m;
          break;
        }
        rest := rest - ExtentAt(x.indirect, m).count * 4096;
        m := m + 1;
      }
      ghost var found := m < x.extentNum;
      ghost var start := rest;
      var e := ExtentAt(x.indirect, at);
      var j, blk := 0, 0;
      while j < e.count
        invariant j <= e.count && blk == 0 && rest + 4096 * j == start
      {
        if rest < 4096 {
          blk := j;
          break;
        }
        rest := rest - 4096;
        j := j + 1;
      }
      if found {
        assert j < e.count && e == extents[at];
        FlatBlocksAt(extents, at, j);
        assert off / 4096 == |FlatBlocks(extents[..at])| + j;
      }
      b := e.start + blk;
    }

    /** memcpy out of the data region. */
    method CopyOut(b: nat, o: nat, n: nat) returns (buf: seq<bv8>)
      requires o + n <= 4096
      ensures buf == BytesIn(State(), b, o, n)
    {
      ghost var s := State();
      buf := [];
      for k := 0 to n
        invariant buf == BytesIn(s, b, o, k)
      {
        assert BytesIn(s, b, o, k + 1) == BytesIn(s, b, o, k) + [s.Byte(b, o + k)];
        var a := b * 4096 + o + k;
        buf := buf + [if a < data.Length then data[a] else 0];
      }
    }

    /**
     a1fs_read, on an inode, for a range inside one block. The offset is cut to 32 bits
     before it is compared with the size, so the bytes are right exactly when the offset
     fits in 32 bits, or the cut offset is past the end as well, or nothing is asked for.
     */
    method Read(i: nat, n: nat, off: nat) returns (buf: seq<bv8>)
      requires Sound(State()) && LiveFile(State(), i)
      requires n > 0 ==> off / 4096 == (off + n - 1) / 4096
      ensures buf == Slice(State().Content(i), off, n)
              <==> ReadsExactly(State().Ino(i).size, n, off)
      ensures !ReadsExactly(State().Ino(i).size, n, off) ==> buf == StrayBytes(State(), i, n, off)
    {
      hide Sound, Slice, FlatBlocks, Image.Blocks;
      ghost var s := State();
      FileShape(s, i);
      var size, low := InodeRecord(i).size, Wrap32(off);
      if low >= size {
        ReadIsRight(s, i, n, off, []);
        return [];
      }
      var count := if low + n > size then size - low else n;
      var b := BlockOf(i, off);
      buf := CopyOut(b, off % 4096, count);
      if off < 0x1_0000_0000 {
        ReadInBlock(s, i, off, n, count, buf);
      }
      ReadIsRight(s, i, n, off, buf);
      OwnsUsedBlocks(s, i);
    }

    // The calls, by path

    /** The inode number the callers of path_lookup go on with. */
    function InodeNumber(r: PathResult): nat {
      match r
      case Found(i) => i
      case _ => NOT_FOUND
    }

    method Lookup(path: string) returns (i: nat)
      requires Sound(State()) && Closed(Abs(State()))
      ensures i == InodeAt(State(), path)
    {
      var r := PathLookup(path);
      i := InodeNumber(r);
    }

    /** The body shared by a1fs_mkdir and a1fs_create: the inode is taken first, then the parent looked up. */
    method MakeNode(path: string, kind: Kind) returns (status: Status)
      requires Valid() && Invariant(State()) && IsAbsolute(path)
      modifies Repr()
      ensures (State(), status)
           == Ops.MakeNode(code, old(State()), InodeAt(old(State()), ParentPath(path)), ChildName(path), kind)
    {
      hide Ops.HasRoom, Ops.AddEntry, Invariant, InodeAt, Abs, Sound;
      ghost var s0 := State();
      if freeInodes == 0 || (code.AsWritten? && freeBlocks == 0) {
        return NoSpace;
      }
      if code.Repaired? {
        InvariantLooksUp(s0);
        var parent := Lookup(ParentPath(path));
        var room := HasRoom(parent);
        if !room {
          return NoSpace;
        }
      }
      var ino := FirstFreeInode();
      TakeInode(ino);
      PutInode(ino, Fresh(kind));
      LookupMidCreation(s0, State(), kind, ParentPath(path));
      var p := Lookup(ParentPath(path));
      status := AddEntry(p, Dentry(ino, ChildName(path)), KindLinks(kind));
    }

    method Mkdir(path: string) returns (status: Status)
      requires Valid() && Invariant(State()) && Enabled(State(), MkdirAt(path))
      modifies Repr()
      ensures (State(), status) == Perform(code, old(State()), MkdirAt(path))
      ensures Meets(old(State()), MkdirAt(path), State(), status)
              <==> code.Repaired? || !Deviates(old(State()), MkdirAt(path))
    {
      hide Meets, Deviates, Invariant, Ops.MakeNode;
      status := MakeNode(path, Directory);
      CallMeetsIff(code, old(State()), MkdirAt(path), State(), status);
    }

    method Create(path: string) returns (status: Status)
      requires Valid() && Invariant(State()) && Enabled(State(), CreateAt(path))
      modifies Repr()
      ensures (State(), status) == Perform(code, old(State()), CreateAt(path))
      ensures Meets(old(State()), CreateAt(path), State(), status)
              <==> code.Repaired? || !Deviates(old(State()), CreateAt(path))
    {
      hide Meets, Deviates, Invariant, Ops.MakeNode;
      status := MakeNode(path, Regular);
      CallMeetsIff(code, old(State()), CreateAt(path), State(), status);
    }

    method Rmdir(path: string) returns (status: Status)
      requires Valid() && Invariant(State()) && Enabled(State(), RmdirAt(path))
      modifies Repr()
      ensures (State(), status) == Perform(code, old(State()), RmdirAt(path))
      ensures Meets(old(State()), RmdirAt(path), State(), status)
    {
      hide Meets, Invariant;
      InvariantLooksUp(State());
      var p := Lookup(ParentPath(path));
      var target := Lookup(path);
      if InodeRecord(target).size != 0 {
        status := NotEmpty;
      } else {
        RemoveEntry(p, target, 1);
        status := Done;
      }
      CallMeetsIff(code, old(State()), RmdirAt(path), State(), status);
    }

    method Unlink(path: string) returns (status: Status)
      requires Valid() && Invariant(State()) && Enabled(State(), UnlinkAt(path))
      modifies Repr()
      ensures (State(), status) == Perform(code, old(State()), UnlinkAt(path))
      ensures Meets(old(State()), UnlinkAt(path), State(), status)
    {
      hide Meets, Invariant;
      InvariantLooksUp(State());
      var p := Lookup(ParentPath(path));
      var target := Lookup(path);
      if InodeRecord(target).size != 0 {
        Empty(target);
      }
      RemoveEntry(p, target, 0);
      status := Done;
      CallMeetsIff(code, old(State()), UnlinkAt(path), State(), status);
    }

    method TruncatePath(path: string, size: nat) returns (status: Status)
      requires Valid() && Invariant(State()) && Enabled(State(), TruncateAt(path, size))
      modifies Repr()
      ensures (State(), status) == Perform(code, old(State()), TruncateAt(path, size))
      ensures Meets(old(State()), TruncateAt(path, size), State(), status)
              <==> code.Repaired? || !Deviates(old(State()), TruncateAt(path, size))
    {
      hide Meets, Deviates, Invariant, Ops.Truncate;
      InvariantLooksUp(State());
      var i := Lookup(path);
      status := Truncate(i, size);
      CallMeetsIff(code, old(State()), TruncateAt(path, size), State(), status);
    }

    method WritePath(path: string, buf: seq<bv8>, off: nat) returns (status: Status)
      requires Valid() && Invariant(State()) && Enabled(State(), WriteAt(path, buf, off))
      modifies Repr()
      ensures (State(), status) == Perform(code, old(State()), WriteAt(path, buf, off))
      ensures Meets(old(State()), WriteAt(path, buf, off), State(), status)
              <==> code.Repaired? || !Deviates(old(State()), WriteAt(path, buf, off))
    {
      hide Meets, Deviates, Invariant, Ops.Write;
      InvariantLooksUp(State());
      var i := Lookup(path);
      status := Write(i, buf, off);
      CallMeetsIff(code, old(State()), WriteAt(path, buf, off), State(), status);
    }

    method ReadPath(path: string, n: nat, off: nat) returns (buf: seq<bv8>)
      requires Invariant(State()) && IsFileAt(Abs(State()), path)
      requires n > 0 ==> off / 4096 == (off + n - 1) / 4096
      ensures var content := Abs(State())[InodeAt(State(), path)].content;
              buf == Slice(content, off, n) <==> ReadsExactly(|content|, n, off)
    {
      FileAtIsLive(State(), path);
      FileBelow4G(State(), InodeAt(State(), path));
      InvariantLooksUp(State());
      var i := Lookup(path);
      buf := Read(i, n, off);
    }

    method ReadDirPath(path: string) returns (names: seq<string>)
      requires Invariant(State())
      requires ResolvePath(Abs(State()), path).Found? && IsDir(Abs(State()), InodeAt(State(), path))
      ensures IsListing(Abs(State())[InodeAt(State(), path)].entries, names)
    {
      InvariantLooksUp(State());
      var d := Lookup(path);
      assert Abs(State())[d] == NodeOf(State(), d);
      names := ReadDir(d);
    }
  }

  lemma InvariantLooksUp(s: Image)
    requires Invariant(s)
    ensures Sound(s) && Closed(Abs(s))
  {
    TreeIsClosed(Abs(s));
  }

  /** The arrays as the constructor leaves them. */
  lemma FormattedIsFresh(s: Image, size: nat, count: nat)
    requires FitsExactly(size, LayoutOf(size, count)) && !s.fault
    requires var l := LayoutOf(size, count);
             && s.numInodes == l.numInodes && s.freeInodes == l.freeInodes
             && s.numBlocks == s.freeBlocks == l.freeBlocks
             && s.inodeBits == 8 * (4096 * l.inodeBitmapLength) && s.blockBits == 8 * (4096 * l.dataBitmapLength)
    requires s.usedInodes == {ROOT} && s.usedBlocks == {}
    requires |s.inodes| == s.numInodes && |s.tables| == 512 * s.numBlocks
    requires |s.slots| == 16 * s.numBlocks && |s.data| == 4096 * s.numBlocks
    requires s.inodes[ROOT] == Inode(Directory, 2, 0, 0, 0, 0)
    ensures IsFresh(s)
  {
    hide LayoutOf;
    LayoutFreeInodes(size, count);
  }

  /** n bytes of block b, from byte o on. */
  function BytesIn(s: Image, b: nat, o: nat, n: nat): seq<bv8> {
    seq(n, (k: nat) => s.Byte(b, o + k))
  }

  /**
   What a read with an offset of 2^32 or more returns when its low 32 bits lie in the file:
   bytes of a block counted from the first extent on, past all blocks of the file.
   */
  function StrayBytes(s: Image, i: nat, n: nat, off: nat): seq<bv8> {
    var e, past, low := s.Ext(s.Ino(i).indirect, 0), Minus(off / 4096, |s.Blocks(i)|), Wrap32(off);
    BytesIn(s, e.start + (if past < e.count then past else 0), off % 4096,
            if low + n > s.Ino(i).size then Minus(s.Ino(i).size, low) else n)
  }

  /** When the bytes read are the bytes asked for. */
  lemma ReadIsRight(s: Image, i: nat, n: nat, off: nat, buf: seq<bv8>)
    requires Sound(s) && LiveFile(s, i)
    requires Wrap32(off) >= s.Ino(i).size ==> buf == []
    requires Wrap32(off) < s.Ino(i).size ==> (|buf| == 0 <==> n == 0)
    requires Wrap32(off) < s.Ino(i).size && off < 0x1_0000_0000 ==> buf == Slice(s.Content(i), off, n)
    ensures buf == Slice(s.Content(i), off, n)
            <==> ReadsExactly(s.Ino(i).size, n, off)
  {
    hide Sound, FlatBlocks, Image.Content;
    FileBelow4G(s, i);
  }

  lemma ReadInBlock(s: Image, i: nat, off: nat, n: nat, count: nat, buf: seq<bv8>)
    requires Sound(s) && LiveFile(s, i) && off < s.Ino(i).size
    requires n > 0 ==> off / 4096 == (off + n - 1) / 4096
    requires count == if off + n > s.Ino(i).size then s.Ino(i).size - off else n
    requires off / 4096 < |s.Blocks(i)|
    requires buf == BytesIn(s, s.Blocks(i)[off / 4096], off % 4096, count)
    ensures buf == Slice(s.Content(i), off, n)
  {
    FileShape(s, i);
    forall k: nat | k < count ensures buf[k] == s.Content(i)[off + k] {
      assert (off + k) / 4096 == off / 4096 && (off + k) % 4096 == off % 4096 + k;
    }
  }

  /** How a scan ends: at a match, after the last live entry, or with no slot to look at. */
  datatype ScanResult = Hit(ino: nat) | Miss | Nothing

  function ScanOf(entries: seq<Dentry>, name: string): ScanResult {
    if entries == [] then Nothing
    else match FindName(entries, name)
      case None => Miss
      case Some(k) => Hit(entries[k].ino)
  }

  predicate IsListing(entries: seq<Dentry>, names: seq<string>) {
    && |names| == |entries| + 2 && names[0] == "." && names[1] == ".."
    && forall k | 0 <= k < |entries| :: names[k + 2] == entries[k].name
  }

  lemma ListingStart(entries: seq<Dentry>, names: seq<string>)
    requires names == [".", ".."]
    ensures IsListing(entries[..0], names)
  {
  }

  lemma ListingPush(entries: seq<Dentry>, c: nat, names: seq<string>)
    requires c < |entries| && IsListing(entries[..c], names)
    ensures IsListing(entries[..c + 1], names + [entries[c].name])
  {
  }

  lemma ScanHits(entries: seq<Dentry>, name: string, c: nat)
    requires c < |entries| && entries[c].name == name && forall q | 0 <= q < c :: entries[q].name != name
    ensures ScanOf(entries, name) == Hit(entries[c].ino)
  {
    assert FindName(entries, name) == Some(c);
  }

  lemma ScanMisses(entries: seq<Dentry>, name: string)
    requires |entries| > 0 && forall q | 0 <= q < |entries| :: entries[q].name != name
    ensures ScanOf(entries, name) == Miss
  {
    assert FindName(entries, name) == None;
  }

  /** One step of a walk is one scan. */
  lemma ScanWalks(s: Image, d: nat, names: seq<string>)
    requires Closed(Abs(s)) && LiveDir(s, d) && |names| > 0
    ensures match ScanOf(s.Entries(d), names[0])
            case Hit(i) => i in s.usedInodes && Walk(Abs(s), d, names) == Walk(Abs(s), i, names[1..])
            case _ => Walk(Abs(s), d, names) == Missing
    ensures ScanOf(s.Entries(d), names[0]).Nothing? <==> Abs(s)[d].entries == []
  {
    var a: Tree := Abs(s);
    assert a[d] == Dir(s.Entries(d), s.Ino(d).links);
    match FindName(s.Entries(d), names[0])
    case None =>
    case Some(k) => assert HasEntry(a, d, k) && Child(a, d, k) in a;
  }

  lemma EmptyMeansEmpty(s: Image, i: nat)
    requires Sound(s) && i in s.usedInodes
    ensures s.Ino(i).kind.Regular? ==> (s.Content(i) == [] <==> s.Ino(i).size == 0)
    ensures s.Ino(i).kind.Directory? ==> (s.Entries(i) == [] <==> s.Ino(i).size == 0)
  {
    if s.Ino(i).kind.Regular? {
      FileShape(s, i);
    } else {
      DirShape(s, i);
    }
  }
}
