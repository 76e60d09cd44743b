/** Growing, writing and truncating refine operations on byte sequences. */
module FileData {
  import opened Bitmap
  import opened Images
  import opened Operations
  import opened Namespace
  import opened Soundness
  import opened Growth
  import opened Room

  /** The content followed by zeros up to n bytes. */
  function Pad(content: seq<bv8>, n: nat): seq<bv8> {
    content + Zeros(Minus(n, |content|))
  }

  /** The content, zero-extended, with buf laid over it at off. */
  function Overlay(content: seq<bv8>, off: nat, buf: seq<bv8>): seq<bv8> {
    Splice(Pad(content, off + |buf|), off, buf)
  }

  /** Cut or zero-extended to n bytes. */
  function Resized(content: seq<bv8>, n: nat): seq<bv8> {
    if n <= |content| then content[..n] else Pad(content, n)
  }

  /** The n bytes at off, as far as there are any. */
  function Slice(c: seq<bv8>, off: nat, n: nat): seq<bv8> {
    if off >= |c| then [] else if off + n > |c| then c[off..] else c[off..off + n]
  }

  /** When a read of n bytes finds its offset, cut to 32 bits before it is compared with the size. */
  predicate ReadsExactly(size: nat, n: nat, off: nat) {
    off < 0x1_0000_0000 || Wrap32(off) >= size || n == 0
  }

  predicate LiveFile(s: Image, i: nat) {
    i in s.usedInodes && s.Ino(i).kind.Regular?
  }

  /** When a file can grow by a block: the counter, and a mergeable block or a spare extent. */
  predicate CanGrow(s: Image, i: nat) {
    if s.Ino(i).size == 0 then s.freeBlocks >= 2
    else s.freeBlocks >= 1 && (MayMerge(Repaired, s, i) || s.Ino(i).extentNum < 512)
  }

  /** A file has exactly the blocks its size needs, so its content is a prefix of them. */
  lemma FileShape(s: Image, i: nat)
    requires Sound(s) && LiveFile(s, i)
    ensures |s.AllBytes(i)| == 4096 * |s.Blocks(i)|
    ensures s.Ino(i).size <= 4096 * |s.Blocks(i)| < s.Ino(i).size + 4096
    ensures s.Content(i) == s.AllBytes(i)[..s.Ino(i).size] && NodeOf(s, i) == File(s.Content(i))
    ensures s.Ino(i).size > 0 ==> s.Ino(i).extentNum > 0 && |s.Blocks(i)| > 0
    ensures s.Ino(i).size > 0 ==> s.LastBlock(i) == s.Blocks(i)[|s.Blocks(i)| - 1]
    ensures s.Ino(i).extentNum <= 512
    ensures s.Ino(i).size == 0 ==> s.Ino(i).extentNum == 0 && s.Blocks(i) == []
  {
    assert InodeOk(s, i);
    if s.Ino(i).size > 0 {
      LastBlockIsLast(s, i);
    }
  }

  lemma TailZeroed(bytes: seq<bv8>, size: nat)
    requires size <= |bytes|
    ensures Splice(bytes, size, Zeros(|bytes| - size)) == Pad(bytes[..size], |bytes|)
    ensures Splice(bytes, size, Zeros(|bytes| - size))[..size] == bytes[..size]
  {
  }

  lemma LastBlockOffset(size: nat, n: nat)
    requires size <= 4096 * n < size + 4096 && size % 4096 != 0
    ensures n >= 1 && (n - 1) * 4096 + size % 4096 == size && size % 4096 + (4096 * n - size) == 4096
  {
  }

  lemma CloseHoleBytes(s: Image, t: Image, i: nat)
    requires Sound(s) && LiveFile(s, i) && s.Ino(i).size % 4096 != 0 && t == CloseHole(s, i)
    ensures t == s.(data := t.data) && Sound(t) && Abs(t) == Abs(s)[i := NodeOf(t, i)]
    ensures t.Blocks(i) == s.Blocks(i) && t.AllBytes(i) == Pad(s.Content(i), 4096 * |s.Blocks(i)|)
  {
    FileShape(s, i);
    var n, size := |s.Blocks(i)|, s.Ino(i).size;
    LastBlockOffset(size, n);
    PokeBytes(s, t, i, n - 1, size % 4096, Zeros(4096 * n - size));
    TailZeroed(s.AllBytes(i), size);
  }

  /** Closing the hole zero-fills the last block and changes no content. */
  lemma CloseHoleZeroes(s: Image, t: Image, i: nat)
    requires Sound(s) && LiveFile(s, i) && t == CloseHole(s, i)
    ensures t == s.(data := t.data) && Sound(t) && Abs(t) == Abs(s)
    ensures t.Blocks(i) == s.Blocks(i) && t.Content(i) == s.Content(i)
    ensures t.AllBytes(i) == Pad(s.Content(i), 4096 * |s.Blocks(i)|)
  {
    FileShape(s, i);
    if s.Ino(i).size % 4096 == 0 {
      assert s.AllBytes(i) == Pad(s.Content(i), 4096 * |s.Blocks(i)|);
    } else {
      CloseHoleBytes(s, t, i);
      FileShape(t, i);
      assert Pad(s.Content(i), 4096 * |s.Blocks(i)|)[..s.Ino(i).size] == s.Content(i);
      assert Abs(s)[i := NodeOf(s, i)] == Abs(s);
    }
  }

  lemma FinishCompletes(t: Image, u: Image, i: nat, n: nat, b: nat)
    requires |t.data| == 4096 * t.numBlocks && b < t.numBlocks && i < |t.inodes| && u == Finish(t, i, n, b)
    ensures Completes(t, u, i, b) && u.Ino(i) == t.Ino(i).(size := 4096 * (n + 1))
    ensures seq(4096, (k: nat) => u.Byte(b, k)) == Zeros(4096)
  {
    hide Image.PutBytes;
    var t1 := t.SetSize(i, 4096 * (n + 1));
    PutBytesEffect(t1, u, b, 0, Zeros(4096));
    assert forall c: nat, k: nat :: u.Slot(c, k) == t.Slot(c, k) && t1.Byte(c, k) == t.Byte(c, k);
  }

  lemma FinishGrows(s: Image, t: Image, u: Image, i: nat, b: nat)
    requires Sound(s) && LiveFile(s, i) && Extended(s, t, i, b) && u == Finish(t, i, |s.Blocks(i)|, b)
    ensures Sound(u) && LiveFile(u, i) && u.Ino(i).size == 4096 * |u.Blocks(i)|
    ensures u.Blocks(i) == s.Blocks(i) + [b]
    ensures u.AllBytes(i) == s.AllBytes(i) + Zeros(4096)
    ensures Abs(u) == Abs(s)[i := File(u.AllBytes(i))]
  {
    assert InodeOk(s, i);
    FinishCompletes(t, u, i, |s.Blocks(i)|, b);
    CompleteKeepsSound(s, t, u, i, b);
    CompleteViews(s, t, u, i, b);
    assert u.Content(i) == u.AllBytes(i);
  }

  /** A successful growth: one zeroed block more, next to the last or first fit, and nothing else changed. */
  ghost predicate GrownBy(s: Image, t: Image, i: nat, b: nat) {
    && Sound(t) && LiveFile(t, i)
    && t.Ino(i).size == 4096 * |t.Blocks(i)| && t.Ino(i).extentNum <= 512
    && TakesNext(Repaired, s, t, i, b) && b !in s.usedBlocks && t.Blocks(i) == s.Blocks(i) + [b]
    && t.AllBytes(i) == Pad(s.Content(i), 4096 * (|s.Blocks(i)| + 1))
    && Abs(t) == Abs(s)[i := File(t.AllBytes(i))]
  }

  /** s0 is s with its hole closed. */
  lemma FinishIsGrowth(s: Image, s0: Image, t: Image, u: Image, i: nat, b: nat)
    requires Sound(s) && LiveFile(s, i) && Sound(s0) && LiveFile(s0, i) && Extended(s0, t, i, b)
    requires s0.usedBlocks == s.usedBlocks && s0.Blocks(i) == s.Blocks(i) && Abs(s0) == Abs(s)
    requires s0.AllBytes(i) == Pad(s.Content(i), 4096 * |s.Blocks(i)|)
    requires u == Finish(t, i, |s.Blocks(i)|, b)
    requires s0 == s.(data := s0.data) && TakesNext(Repaired, s0, t, i, b)
    ensures GrownBy(s, u, i, b)
  {
    hide FlatBlocks, Elements, MayMerge;
    FileShape(s, i);
    FinishGrows(s0, t, u, i, b);
    FinishCompletes(t, u, i, |s.Blocks(i)|, b);
    FileShape(u, i);
    NextOfHole(s, s0, i);
    SameTables(t, u, i);
    assert Pad(s.Content(i), 4096 * |s.Blocks(i)|) + Zeros(4096) == Pad(s.Content(i), 4096 * (|s.Blocks(i)| + 1));
  }

  /** The data does not matter to what a growth takes. */
  lemma NextOfHole(s: Image, s0: Image, i: nat)
    requires s0 == s.(data := s0.data)
    ensures forall t: Image, b: nat :: TakesNext(Repaired, s0, t, i, b) == TakesNext(Repaired, s, t, i, b)
  {
    hide NextBlock, GrownExtents, BlocksTaken, GrowthCost;
    SameNext(Repaired, s, s0, i);
  }

  lemma EmptyPads(s: Image, i: nat)
    requires s.Blocks(i) == [] && s.Content(i) == []
    ensures s.AllBytes(i) == Pad(s.Content(i), 0)
  {
  }

  lemma GrowByStarting(s: Image, u: Image, i: nat) returns (b: nat)
    requires Sound(s) && LiveFile(s, i) && s.Ino(i).size == 0 && s.freeBlocks >= 2
    requires u == Grow(Repaired, s, i).0
    ensures GrownBy(s, u, i, b)
  {
    hide Start, Finish, Pad, Sound, FirstFree, Elements, Extended;
    FileShape(s, i);
    var (t, b0) := Start(Repaired, s, i);
    b := b0;
    StartExtends(s, t, i, b);
    StartIsNext(s, t, i, b);
    EmptyPads(s, i);
    FinishIsGrowth(s, s, t, u, i, b);
  }

  lemma GrowByMerging(s: Image, s0: Image, u: Image, i: nat) returns (b: nat)
    requires Sound(s) && LiveFile(s, i) && s.Ino(i).size > 0 && s.freeBlocks > 0
    requires s0 == CloseHole(s, i) && MayMerge(Repaired, s0, i) && u == Grow(Repaired, s, i).0
    ensures GrownBy(s, u, i, b)
  {
    hide FlatBlocks, CloseHole, Pad, Finish, Open, Elements, Sound, Extended, TakesNext, Image.Blocks, Abs;
    CloseHoleZeroes(s, s0, i);
    FileShape(s0, i);
    b := s0.LastBlock(i) + 1;
    MergeExtends(s0, Merge(s0, i), i, b);
    MergeIsNext(s0, Merge(s0, i), i, b);
    FinishIsGrowth(s, s0, Merge(s0, i), u, i, b);
  }

  lemma GrowByOpening(s: Image, s0: Image, u: Image, i: nat) returns (b: nat)
    requires Sound(s) && LiveFile(s, i) && s.Ino(i).size > 0 && s.freeBlocks > 0 && s.Ino(i).extentNum < 512
    requires s0 == CloseHole(s, i) && !MayMerge(Repaired, s0, i) && u == Grow(Repaired, s, i).0
    ensures GrownBy(s, u, i, b)
  {
    hide FlatBlocks, CloseHole, Pad, Finish, Merge, Elements;
    CloseHoleZeroes(s, s0, i);
    FileShape(s0, i);
    b := s0.FirstFreeBlock();
    OpenExtends(s0, Open(s0, i), i, b);
    OpenIsNext(s0, Open(s0, i), i, b);
    FinishIsGrowth(s, s0, Open(s0, i), u, i, b);
  }

  /**
   Growing succeeds exactly when there is room; then the file gains one zeroed block
   behind its zero-filled last one. When it fails, the bitmaps, counters and records are
   untouched and every node reads as before.
   */
  lemma GrowRefines(s: Image, t: Image, ok: bool, i: nat) returns (b: nat)
    requires Sound(s) && LiveFile(s, i) && (t, ok) == Grow(Repaired, s, i)
    ensures ok <==> CanGrow(s, i)
    ensures ok ==> GrownBy(s, t, i, b)
    ensures !ok ==> t == s.(data := t.data) && Sound(t) && Abs(t) == Abs(s)
  {
    hide Sound, FlatBlocks, Image.Blocks, GrownBy, CloseHole, Merge, Open, Start, Finish;
    FileShape(s, i);
    b := 0;
    if s.Ino(i).size == 0 {
      if ok {
        b := GrowByStarting(s, t, i);
      }
    } else {
      var s0 := CloseHole(s, i);
      CloseHoleZeroes(s, s0, i);
      assert s0.LastBlock(i) == s.LastBlock(i);
      if s.freeBlocks > 0 && MayMerge(Repaired, s0, i) {
        b := GrowByMerging(s, s0, t, i);
      } else if s.freeBlocks > 0 && s.Ino(i).extentNum < 512 {
        b := GrowByOpening(s, s0, t, i);
      }
    }
  }

  /**
   When a file can grow by n blocks: enough are free, with one more for the extent table
   of an empty file, and the runs of free blocks to enter leave at most 512 extents.
   */
  predicate RoomFor(s: Image, i: nat, n: nat) {
    n == 0
    || if s.Ino(i).size == 0 then RoomFromNothing(s.usedBlocks, s.numBlocks, s.freeBlocks, s.FirstFreeBlock(), n)
       else RoomBehind(s.usedBlocks, s.numBlocks, s.freeBlocks, s.LastBlock(i), s.Ino(i).extentNum, n)
  }

  /** The blocks a file of `size` bytes needs and does not have. */
  function Lacking(s: Image, i: nat, size: nat): nat {
    Minus(CeilBlocks(size), |s.Blocks(i)|)
  }

  lemma LeastFree(s: Image)
    requires LayoutOk(s) && CountersOk(s) && s.freeBlocks > 0
    ensures s.FirstFreeBlock() < s.numBlocks && s.FirstFreeBlock() !in s.usedBlocks
    ensures forall c: nat | c < s.FirstFreeBlock() :: c in s.usedBlocks
  {
    FreeBlockIsFree(s);
  }

  lemma StartTwo(s: Image, i: nat)
    requires LayoutOk(s) && CountersOk(s) && s.freeBlocks > 1 && s.Ino(i).size == 0
    ensures var x, b := s.FirstFreeBlock(), NextBlock(Repaired, s, i);
            && b < s.numBlocks && b !in s.usedBlocks && b != x
            && (forall c: nat | c < b :: c in s.usedBlocks + {x})
  {
    LeastFree(s);
    LeastFree(s.TakeBlock(s.FirstFreeBlock()));
  }

  /** Once a file has grown by a block, its last block is that one. */
  lemma GrownLast(s: Image, t: Image, i: nat, b: nat)
    requires Sound(s) && LiveFile(s, i) && GrownBy(s, t, i, b)
    ensures t.LastBlock(i) == b && t.numBlocks == s.numBlocks && t.Ino(i).size > 0
  {
    FileShape(t, i);
  }

  /** What a growth has done to the numbers that room depends on. */
  predicate GrownNumbers(s: Image, t: Image, i: nat, b: nat) {
    && t.numBlocks == s.numBlocks && t.freeBlocks + GrowthCost(s, i) == s.freeBlocks
    && t.usedBlocks == s.usedBlocks + BlocksTaken(Repaired, s, i) && b == NextBlock(Repaired, s, i)
    && t.Ino(i).size > 0 && t.LastBlock(i) == b && t.Ino(i).extentNum == |GrownExtents(Repaired, s, i)| <= 512
  }

  lemma GrownHasNumbers(s: Image, t: Image, i: nat, b: nat)
    requires Sound(s) && LiveFile(s, i) && GrownBy(s, t, i, b)
    ensures GrownNumbers(s, t, i, b) && Sound(t) && LiveFile(t, i) && (s.Ino(i).size > 0 ==> s.Ino(i).extentNum > 0)
  {
    hide NextBlock, GrownExtents, BlocksTaken, FlatBlocks, Image.Blocks, LayoutOk, CountersOk, InodeOk;
    GrownLast(s, t, i, b);
    FileShape(s, i);
  }

  lemma RoomStepFirst(s: Image, t: Image, i: nat, b: nat, n: nat)
    requires LayoutOk(s) && CountersOk(s) && s.Ino(i).size == 0 && n > 0 && GrownNumbers(s, t, i, b)
    ensures RoomFor(s, i, n) <==> RoomFor(t, i, n - 1)
  {
    hide RunLength, RunsEntered, RoomBehind, RoomFromNothing, FirstFree, CountersOk, Image.LastBlock;
    StartTwo(s, i);
    RoomAfterStart(s.usedBlocks, t.usedBlocks, s.numBlocks, s.freeBlocks, s.FirstFreeBlock(), b, n);
    RoomForNothing(t.usedBlocks, t.numBlocks, t.freeBlocks, b, 1);
  }

  lemma RoomStepMore(s: Image, t: Image, i: nat, b: nat, n: nat)
    requires LayoutOk(s) && CountersOk(s) && s.Ino(i).size > 0 && n > 0 && GrownNumbers(s, t, i, b)
    requires s.Ino(i).extentNum > 0
    ensures RoomFor(s, i, n) <==> RoomFor(t, i, n - 1)
  {
    hide RunLength, RunsEntered, RoomBehind, RoomFromNothing, FirstFree, CountersOk, Image.LastBlock;
    RoomForNothing(t.usedBlocks, t.numBlocks, t.freeBlocks, b, t.Ino(i).extentNum);
    if MayMerge(Repaired, s, i) {
      RoomAfterMerge(s.usedBlocks, t.usedBlocks, s.numBlocks, s.freeBlocks, s.LastBlock(i), s.Ino(i).extentNum, n);
    } else {
      LeastFree(s);
      var extents := s.Ino(i).extentNum;
      RoomAfterOpen(s.usedBlocks, t.usedBlocks, s.numBlocks, s.freeBlocks, s.LastBlock(i), b, extents, n);
    }
  }

  lemma NoRoom(s: Image, i: nat, n: nat)
    requires LayoutOk(s) && CountersOk(s) && !CanGrow(s, i) && n > 0
    ensures !RoomFor(s, i, n)
  {
    hide RunLength, RunsEntered, FirstFree, Image.LastBlock;
    if s.Ino(i).size > 0 && s.freeBlocks > 0 {
      LeastFree(s);
      var b, extents := s.FirstFreeBlock(), s.Ino(i).extentNum;
      RoomAfterOpen(s.usedBlocks, s.usedBlocks + {b}, s.numBlocks, s.freeBlocks, s.LastBlock(i), b, extents, n);
    }
  }

  /** There is room for n blocks exactly when the file can grow, and then there is room for n - 1 more. */
  lemma RoomStep(s: Image, t: Image, ok: bool, i: nat, n: nat)
    requires Sound(s) && LiveFile(s, i) && n > 0 && (t, ok) == Grow(Repaired, s, i)
    ensures RoomFor(s, i, n) <==> ok && RoomFor(t, i, n - 1)
  {
    hide Grow, RoomFor, CanGrow, InodeOk, LayoutOk, CountersOk, GrownBy, GrownNumbers;
    var b := GrowRefines(s, t, ok, i);
    if !ok {
      NoRoom(s, i, n);
    } else {
      GrownHasNumbers(s, t, i, b);
      if s.Ino(i).size == 0 {
        RoomStepFirst(s, t, i, b, n);
      } else {
        RoomStepMore(s, t, i, b, n);
      }
    }
  }

  lemma GrownIsLive(s: Image, t: Image, i: nat, b: nat)
    requires GrownBy(s, t, i, b)
    ensures Sound(t) && LiveFile(t, i)
  {
    hide Sound;
  }

  /** Room for more is room for less. */
  lemma {:induction false} RoomMonotone(s: Image, i: nat, n: nat, k: nat)
    requires Sound(s) && LiveFile(s, i) && RoomFor(s, i, n) && k <= n
    ensures RoomFor(s, i, k)
    decreases n
  {
    hide Grow, RoomFor, Sound, GrownBy, CanGrow, Abs;
    if k == 0 {
      RoomForNone(s, i);
    } else {
      var (t, ok) := Grow(Repaired, s, i);
      RoomStep(s, t, ok, i, n);
      RoomStep(s, t, ok, i, k);
      var b := GrowRefines(s, t, ok, i);
      GrownIsLive(s, t, i, b);
      RoomMonotone(t, i, n - 1, k - 1);
    }
  }

  lemma RoomForNone(s: Image, i: nat)
    ensures RoomFor(s, i, 0)
  {
  }

  /** The most blocks, up to n, that there is room for. */
  function MostRoom(s: Image, i: nat, n: nat): (k: nat)
    ensures k <= n && RoomFor(s, i, k) && forall m: nat | k < m <= n :: !RoomFor(s, i, m)
  {
    if n == 0 || RoomFor(s, i, n) then n else MostRoom(s, i, n - 1)
  }

  lemma MostRoomStep(s: Image, t: Image, ok: bool, i: nat, n: nat)
    requires Sound(s) && LiveFile(s, i) && n > 0 && (t, ok) == Grow(Repaired, s, i)
    ensures MostRoom(s, i, n) == if ok then 1 + MostRoom(t, i, n - 1) else 0
  {
    hide Grow, RoomFor, Sound, MostRoom;
    var k := MostRoom(s, i, n);
    if k > 0 {
      RoomStep(s, t, ok, i, k);
    }
    if ok {
      var l := MostRoom(t, i, n - 1);
      RoomStep(s, t, ok, i, 1 + l);
    }
  }

  /** When not even n blocks fit, asking for more changes nothing. */
  lemma MostRoomStays(s: Image, i: nat, n: nat, more: nat)
    requires Sound(s) && LiveFile(s, i) && !RoomFor(s, i, n) && !RoomFor(s, i, more)
    ensures MostRoom(s, i, n) == MostRoom(s, i, more)
  {
    hide RoomFor, Sound, MostRoom;
    var k, l := MostRoom(s, i, n), MostRoom(s, i, more);
    if k < l {
      if l >= n {
        RoomMonotone(s, i, l, n);
      }
    } else if l < k {
      if k >= more {
        RoomMonotone(s, i, k, more);
      }
    }
  }

  /** What is left of a growth by n blocks for which there is no room: as many whole blocks as fit. */
  function StoppedContent(s: Image, i: nat, n: nat): seq<bv8> {
    var k := MostRoom(s, i, n);
    if k == 0 then s.Content(i) else Pad(s.Content(i), 4096 * (|s.Blocks(i)| + k))
  }

  ghost predicate Stopped(s: Image, t: Image, i: nat, n: nat) {
    && Abs(t) == Abs(s)[i := File(StoppedContent(s, i, n))]
    && |t.Blocks(i)| == |s.Blocks(i)| + MostRoom(s, i, n)
  }

  // Write

  /** The range lies in one block, as every request does; the hole before it spans at most one block. */
  predicate WriteAllowed(s: Image, i: nat, buf: seq<bv8>, off: nat) {
    |buf| > 0 ==>
      && off / 4096 == (off + |buf| - 1) / 4096
      && off + |buf| <= 4096 * (|s.Blocks(i)| + 2)
  }

  /** Laying buf over the zero-filled allocation and cutting at its end overlays the content. */
  lemma OverlayInPadded(c: seq<bv8>, n: nat, off: nat, buf: seq<bv8>)
    requires |c| <= off + |buf| <= n
    ensures Splice(Pad(c, n), off, buf)[..off + |buf|] == Overlay(c, off, buf)
  {
  }

  lemma OverlayInside(bytes: seq<bv8>, size: nat, off: nat, buf: seq<bv8>)
    requires off + |buf| <= size <= |bytes|
    ensures Splice(bytes, off, buf)[..size] == Overlay(bytes[..size], off, buf)
  {
  }

  lemma WriteInsideRefines(s: Image, t: Image, i: nat, buf: seq<bv8>, off: nat)
    requires Sound(s) && LiveFile(s, i) && |buf| > 0 && WriteAllowed(s, i, buf, off)
    requires off + |buf| <= s.Ino(i).size && t == WriteInside(s, i, buf, off)
    ensures Sound(t) && Abs(t) == Abs(s)[i := File(Overlay(s.Content(i), off, buf))]
  {
    FileShape(s, i);
    PokeBytes(s, t, i, off / 4096, off % 4096, buf);
    FileShape(t, i);
    OverlayInside(s.AllBytes(i), s.Ino(i).size, off, buf);
  }

  lemma InLastBlock(off: nat, len: nat, n: nat)
    requires n > 0 && len > 0 && 4096 * (n - 1) <= off && off + len <= 4096 * n
    ensures off / 4096 == n - 1 && (n - 1) * 4096 + off % 4096 == off && off % 4096 + len <= 4096
    ensures CeilBlocks(off + len) == n
  {
  }

  /** The buffer fits in the last block of the file. */
  predicate EndsInLastBlock(s: Image, i: nat, buf: seq<bv8>, off: nat) {
    && |buf| > 0 && |s.Blocks(i)| > 0
    && 4096 * (|s.Blocks(i)| - 1) <= off && off + |buf| <= 4096 * |s.Blocks(i)|
  }

  /** Data into the last block. */
  lemma LastPoke(s: Image, t: Image, i: nat, buf: seq<bv8>, off: nat)
    requires Sound(s) && LiveFile(s, i) && EndsInLastBlock(s, i, buf, off)
    requires t == s.PutBytes(s.Blocks(i)[|s.Blocks(i)| - 1] * 4096 + off % 4096, buf)
    ensures t == s.(data := t.data) && t.Blocks(i) == s.Blocks(i)
    ensures off + |buf| <= |s.AllBytes(i)| && t.AllBytes(i) == Splice(s.AllBytes(i), off, buf)
    ensures Sound(t) && Abs(t) == Abs(s)[i := NodeOf(t, i)]
  {
    InLastBlock(off, |buf|, |s.Blocks(i)|);
    PokeBytes(s, t, i, |s.Blocks(i)| - 1, off % 4096, buf);
  }

  /** Data into the last block, then a size ending with the data. */
  lemma LastPokeAndResize(s: Image, t: Image, i: nat, buf: seq<bv8>, off: nat)
    requires Sound(s) && LiveFile(s, i) && EndsInLastBlock(s, i, buf, off)
    requires t == s.PutBytes(s.Blocks(i)[|s.Blocks(i)| - 1] * 4096 + off % 4096, buf).SetSize(i, off + |buf|)
    ensures Sound(t) && off + |buf| <= |s.AllBytes(i)|
    ensures Abs(t) == Abs(s)[i := File(Splice(s.AllBytes(i), off, buf)[..off + |buf|])]
  {
    var s1 := s.PutBytes(s.Blocks(i)[|s.Blocks(i)| - 1] * 4096 + off % 4096, buf);
    LastPoke(s, s1, i, buf, off);
    InLastBlock(off, |buf|, |s.Blocks(i)|);
    FileShape(s, i);
    Resize(s1, t, i, off + |buf|);
    SetTwice(Abs(s), i, NodeOf(s1, i), File(s1.AllBytes(i)[..off + |buf|]));
  }

  lemma WriteTailPastEnd(s: Image, s0: Image, t: Image, i: nat, buf: seq<bv8>, off: nat)
    requires Sound(s) && LiveFile(s, i) && EndsInLastBlock(s, i, buf, off) && s.Ino(i).size < off
    requires s0 == CloseHole(s, i)
    requires t == s0.PutBytes(s.Blocks(i)[|s.Blocks(i)| - 1] * 4096 + off % 4096, buf).SetSize(i, off + |buf|)
    ensures Sound(t) && Abs(t) == Abs(s)[i := File(Overlay(s.Content(i), off, buf))]
  {
    CloseHoleZeroes(s, s0, i);
    FileShape(s, i);
    LastPokeAndResize(s0, t, i, buf, off);
    OverlayInPadded(s.Content(i), 4096 * |s.Blocks(i)|, off, buf);
  }

  /** Zeroes behind the offset are covered by the data or cut off. */
  lemma ZeroedThenOverlaid(bytes: seq<bv8>, zeroed: seq<bv8>, size: nat, off: nat, buf: seq<bv8>)
    requires off <= size <= off + |buf| <= |bytes| && zeroed == Splice(bytes, off, Zeros(|bytes| - off))
    ensures Splice(zeroed, off, buf)[..off + |buf|] == Overlay(bytes[..size], off, buf)
  {
  }

  lemma WriteTailOverlaps(s: Image, s1: Image, t: Image, i: nat, buf: seq<bv8>, off: nat)
    requires Sound(s) && LiveFile(s, i) && EndsInLastBlock(s, i, buf, off) && off <= s.Ino(i).size < off + |buf|
    requires s1 == s.PutBytes(s.Blocks(i)[|s.Blocks(i)| - 1] * 4096 + off % 4096, Zeros(4096 * |s.Blocks(i)| - off))
    requires t == s1.PutBytes(s.Blocks(i)[|s.Blocks(i)| - 1] * 4096 + off % 4096, buf).SetSize(i, off + |buf|)
    ensures Sound(t) && Abs(t) == Abs(s)[i := File(Overlay(s.Content(i), off, buf))]
  {
    hide Sound, FlatBlocks, Image.Blocks, Image.AllBytes, Image.PutBytes, Splice, Overlay;
    FileShape(s, i);
    LastPoke(s, s1, i, Zeros(4096 * |s.Blocks(i)| - off), off);
    LastPokeAndResize(s1, t, i, buf, off);
    ZeroedThenOverlaid(s.AllBytes(i), s1.AllBytes(i), s.Ino(i).size, off, buf);
    SetTwice(Abs(s), i, NodeOf(s1, i), File(Overlay(s.Content(i), off, buf)));
  }

  lemma WriteTailRefines(s: Image, t: Image, i: nat, buf: seq<bv8>, off: nat)
    requires Sound(s) && LiveFile(s, i) && |buf| > 0 && WriteAllowed(s, i, buf, off)
    requires s.Ino(i).size < off + |buf| <= 4096 * |s.Blocks(i)| && t == WriteTail(s, i, buf, off)
    ensures Sound(t) && Abs(t) == Abs(s)[i := File(Overlay(s.Content(i), off, buf))]
  {
    hide Sound, CeilBlocks, Overlay, Abs, FlatBlocks, Image.Blocks, Image.Extents, Image.AllBytes, Image.PutBytes;
    FileShape(s, i);
    var n, size, s1 := |s.Blocks(i)|, s.Ino(i).size, ZeroTail(s, i, off);
    InLastBlock(off, |buf|, n);
    if off <= size {
      WriteTailOverlaps(s, s1, t, i, buf, off);
    } else {
      LastBlockOffset(size, n);
      WriteTailPastEnd(s, s1, t, i, buf, off);
    }
  }

  /** A write into the block that a growth has just added, to a file whose content was c. */
  lemma WriteLastRefines(s: Image, t: Image, i: nat, c: seq<bv8>, buf: seq<bv8>, off: nat)
    requires Sound(s) && LiveFile(s, i) && EndsInLastBlock(s, i, buf, off)
    requires |c| <= off + |buf| && s.AllBytes(i) == Pad(c, 4096 * |s.Blocks(i)|)
    requires t == WriteLast(s, i, buf, off % 4096, off + |buf|)
    ensures Sound(t) && Abs(t) == Abs(s)[i := File(Overlay(c, off, buf))]
  {
    FileShape(s, i);
    LastPokeAndResize(s, t, i, buf, off);
    OverlayInPadded(c, 4096 * |s.Blocks(i)|, off, buf);
  }

  lemma UnchangedIsStopped(s: Image, t: Image, i: nat, n: nat)
    requires Sound(s) && LiveFile(s, i) && n > 0 && (t, false) == Grow(Repaired, s, i)
    ensures Sound(t) && Stopped(s, t, i, n)
  {
    hide Grow, RoomFor, MostRoom, Sound;
    var b := GrowRefines(s, t, false, i);
    MostRoomStep(s, t, false, i, n);
    FileShape(s, i);
    SameTables(s, t, i);
    assert Abs(s)[i := File(s.Content(i))] == Abs(s);
  }

  /** A stop after the first of n growths. */
  lemma StoppedLater(s: Image, s1: Image, t: Image, i: nat, b: nat, n: nat)
    requires Sound(s) && LiveFile(s, i) && n > 0 && (s1, true) == Grow(Repaired, s, i) && GrownBy(s, s1, i, b)
    requires Stopped(s1, t, i, n - 1)
    ensures Stopped(s, t, i, n)
  {
    hide Grow, RoomFor, MostRoom, Sound, Pad, Image.Blocks, Image.Content, Image.AllBytes, Abs;
    GrownContent(s, s1, i, b);
    MostRoomStep(s, s1, true, i, n);
    var whole, k := 4096 * (|s.Blocks(i)| + 1), MostRoom(s1, i, n - 1);
    PadTwice(s.Content(i), whole, whole + 4096 * k);
    SetTwice(Abs(s), i, File(s1.Content(i)), File(StoppedContent(s1, i, n - 1)));
  }

  lemma GrownContent(s: Image, t: Image, i: nat, b: nat)
    requires Sound(s) && LiveFile(s, i) && GrownBy(s, t, i, b)
    ensures |s.Content(i)| <= 4096 * |s.Blocks(i)|
    ensures t.Content(i) == Pad(s.Content(i), 4096 * (|s.Blocks(i)| + 1)) && |t.Blocks(i)| == |s.Blocks(i)| + 1
    ensures Abs(t) == Abs(s)[i := File(t.Content(i))]
  {
    FileShape(s, i);
    FileShape(t, i);
  }

  /** What a write promises. */
  ghost predicate WriteMeets(s: Image, t: Image, status: Status, i: nat, buf: seq<bv8>, off: nat) {
    && Sound(t)
    && (status.Done? && buf == [] ==> Abs(t) == Abs(s))
    && (status.Done? && buf != [] ==> Abs(t) == Abs(s)[i := File(Overlay(s.Content(i), off, buf))])
    && (status.NoSpace? ==> Stopped(s, t, i, Lacking(s, i, off + |buf|)))
    && (status.NoSpace? <==> buf != [] && !RoomFor(s, i, Lacking(s, i, off + |buf|)))
    && !status.NotEmpty?
  }

  lemma WriteOneBlockMore(s: Image, s1: Image, t: Image, i: nat, buf: seq<bv8>, off: nat)
    requires Sound(s) && LiveFile(s, i) && |buf| > 0 && WriteAllowed(s, i, buf, off)
    requires 4096 * |s.Blocks(i)| < off + |buf| <= 4096 * (|s.Blocks(i)| + 1)
    requires (s1, true) == Grow(Repaired, s, i) && t == WriteLast(s1, i, buf, off % 4096, off + |buf|)
    ensures Sound(t) && Abs(t) == Abs(s)[i := File(Overlay(s.Content(i), off, buf))]
  {
    var b := GrowRefines(s, s1, true, i);
    GrownContent(s, s1, i, b);
    WriteLastRefines(s1, t, i, s.Content(i), buf, off);
    SetTwice(Abs(s), i, File(s1.Content(i)), File(Overlay(s.Content(i), off, buf)));
  }

  lemma PadTwice(c: seq<bv8>, m: nat, n: nat)
    requires m <= n
    ensures Pad(Pad(c, m), n) == Pad(c, n)
  {
  }

  /** Two growths in a row. */
  lemma GrownTwice(s: Image, s1: Image, s2: Image, i: nat, b: nat, b1: nat)
    requires Sound(s) && LiveFile(s, i) && GrownBy(s, s1, i, b) && GrownBy(s1, s2, i, b1)
    ensures |s2.Blocks(i)| == |s.Blocks(i)| + 2 && |s.Content(i)| <= 4096 * |s.Blocks(i)|
    ensures s2.AllBytes(i) == Pad(s.Content(i), 4096 * (|s.Blocks(i)| + 2))
    ensures Abs(s2) == Abs(s)[i := File(s2.AllBytes(i))]
  {
    GrownContent(s, s1, i, b);
    PadTwice(s.Content(i), 4096 * (|s.Blocks(i)| + 1), 4096 * (|s.Blocks(i)| + 2));
    SetTwice(Abs(s), i, File(s1.AllBytes(i)), File(s2.AllBytes(i)));
  }

  lemma WriteTwoBlocksMore(s: Image, s1: Image, s2: Image, t: Image, i: nat, buf: seq<bv8>, off: nat)
    requires Sound(s) && LiveFile(s, i) && |buf| > 0 && WriteAllowed(s, i, buf, off)
    requires 4096 * (|s.Blocks(i)| + 1) < off + |buf|
    requires (s1, true) == Grow(Repaired, s, i) && (s2, true) == Grow(Repaired, s1, i)
    requires t == WriteLast(s2, i, buf, off % 4096, off + |buf|)
    ensures Sound(t) && Abs(t) == Abs(s)[i := File(Overlay(s.Content(i), off, buf))]
  {
    var b := GrowRefines(s, s1, true, i);
    var b1 := GrowRefines(s1, s2, true, i);
    GrownTwice(s, s1, s2, i, b, b1);
    WriteLastRefines(s2, t, i, s.Content(i), buf, off);
    SetTwice(Abs(s), i, File(s2.AllBytes(i)), File(Overlay(s.Content(i), off, buf)));
  }

  lemma GrowMayStop(s: Image, s1: Image, s2: Image, i: nat)
    requires Sound(s) && LiveFile(s, i)
    requires (s1, true) == Grow(Repaired, s, i) && (s2, false) == Grow(Repaired, s1, i)
    ensures Sound(s2) && Stopped(s, s2, i, 2)
  {
    hide Grow, RoomFor, Sound, Stopped, TakesNext;
    var b := GrowRefines(s, s1, true, i);
    UnchangedIsStopped(s1, s2, i, 1);
    StoppedLater(s, s1, s2, i, b, 2);
  }

  /**
   The write theorem. On success the file holds its old content, zero-extended to the
   offset, with the buffer laid over it, and no other node changes; when space runs out
   the file holds its old content followed by zeros, to the end of the blocks for which there was room.
   */
  lemma WriteRefines(s: Image, t: Image, status: Status, i: nat, buf: seq<bv8>, off: nat)
    requires Sound(s) && LiveFile(s, i) && WriteAllowed(s, i, buf, off)
    requires (t, status) == Write(Repaired, s, i, buf, off)
    ensures WriteMeets(s, t, status, i, buf, off)
  {
    FileShape(s, i);
    var end, n := off + |buf|, |s.Blocks(i)|;
    if |buf| == 0 {
    } else if end <= s.Ino(i).size {
      WriteInsideRefines(s, t, i, buf, off);
    } else if end <= 4096 * n {
      WriteTailRefines(s, t, i, buf, off);
    } else {
      WriteGrowing(s, t, status, i, buf, off);
    }
  }

  /** What a write past the allocation lacks: one block or two. */
  lemma LackingOneOrTwo(s: Image, i: nat, end: nat)
    requires 4096 * |s.Blocks(i)| < end <= 4096 * (|s.Blocks(i)| + 2)
    ensures Lacking(s, i, end) == if end <= 4096 * (|s.Blocks(i)| + 1) then 1 else 2
  {
    hide Image.Blocks;
  }

  lemma WriteGrowing(s: Image, t: Image, status: Status, i: nat, buf: seq<bv8>, off: nat)
    requires Sound(s) && LiveFile(s, i) && |buf| > 0 && WriteAllowed(s, i, buf, off)
    requires s.Ino(i).size < off + |buf| && 4096 * |s.Blocks(i)| < off + |buf|
    requires (t, status) == Write(Repaired, s, i, buf, off)
    ensures WriteMeets(s, t, status, i, buf, off)
  {
    hide Grow, Sound, CanGrow, RoomFor, Lacking, Stopped, Overlay, Image.Blocks, Image.Content, WriteLast, Abs;
    LackingOneOrTwo(s, i, off + |buf|);
    var (s1, ok1) := Grow(Repaired, s, i);
    var b := GrowRefines(s, s1, ok1, i);
    RoomStep(s, s1, ok1, i, Lacking(s, i, off + |buf|));
    RoomForNone(s1, i);
    if !ok1 {
      UnchangedIsStopped(s, s1, i, Lacking(s, i, off + |buf|));
    } else if off + |buf| <= 4096 * (1 + |s.Blocks(i)|) {
      WriteOneBlockMore(s, s1, t, i, buf, off);
    } else {
      var (s2, ok2) := Grow(Repaired, s1, i);
      var b1 := GrowRefines(s1, s2, ok2, i);
      RoomStep(s1, s2, ok2, i, 1);
      RoomForNone(s2, i);
      if ok2 {
        WriteTwoBlocksMore(s, s1, s2, t, i, buf, off);
      } else {
        GrowMayStop(s, s1, s2, i);
      }
    }
  }

  /** Reading back what was written. */
  lemma OverlayReads(c: seq<bv8>, off: nat, buf: seq<bv8>)
    ensures var r := Overlay(c, off, buf);
            && |r| == (if |c| < off + |buf| then off + |buf| else |c|)
            && r[off..off + |buf|] == buf
            && (forall k | 0 <= k < |r| && !(off <= k < off + |buf|) :: r[k] == if k < |c| then c[k] else 0)
  {
  }
}
