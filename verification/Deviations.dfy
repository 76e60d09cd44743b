/**
 The code as written against the repaired code: when they agree, and that it is exactly
 then that the code as written keeps its promises.
 */
module Deviations {
  import opened Bitmap
  import opened Images
  import opened Operations
  import opened Namespace
  import opened Soundness
  import opened Growth
  import opened FileData
  import opened Room
  import opened Truncation
  import opened Directories
  import opened Paths
  import opened Calls

  // Growing

  /**
   A growth goes wrong for an empty file (its first data block is never marked), and for
   a file whose last block is the last of the data region (the next one is taken anyway).
   */
  predicate GrowDeviates(s: Image, i: nat) {
    s.freeBlocks >= 1 && (if s.Ino(i).size == 0 then s.freeBlocks >= 2 else s.LastBlock(i) + 1 == s.numBlocks)
  }

  /** The bitmap and the counter of the data region contradict each other. */
  predicate BadBits(s: Image) {
    s.freeBlocks + |s.usedBlocks| < s.numBlocks || s.numBlocks in s.usedBlocks
  }

  lemma BadBitsAreUnsound(s: Image)
    requires BadBits(s)
    ensures !Invariant(s)
  {
  }

  /** From s to t: blocks are only taken, and each costs the counter one. */
  predicate OnlyTakes(s: Image, t: Image) {
    && t.numBlocks == s.numBlocks && t.blockBits == s.blockBits && s.usedBlocks <= t.usedBlocks
    && t.freeBlocks + |t.usedBlocks| <= s.freeBlocks + |s.usedBlocks|
  }

  lemma TakesKeepBad(s: Image, t: Image)
    requires OnlyTakes(s, t) && BadBits(s)
    ensures BadBits(t)
  {
  }

  lemma TakeOne(s: Image, b: nat)
    requires s.freeBlocks > 0
    ensures OnlyTakes(s, s.TakeBlock(b)) && s.TakeBlock(b).freeBlocks == s.freeBlocks - 1
  {
    if b in s.usedBlocks {
      assert s.usedBlocks + {b} == s.usedBlocks;
    }
  }

  /** Nothing but the contents of the image has changed. */
  predicate SameBits(s: Image, t: Image) {
    && t.numBlocks == s.numBlocks && t.blockBits == s.blockBits
    && t.usedBlocks == s.usedBlocks && t.freeBlocks == s.freeBlocks
  }

  lemma MergeBits(s: Image, i: nat)
    ensures SameBits(s.TakeBlock(s.LastBlock(i) + 1), Merge(s, i))
  {
  }

  lemma OpenBits(s: Image, i: nat)
    ensures SameBits(s.TakeBlock(s.FirstFreeBlock()), Open(s, i))
  {
  }

  lemma StartBits(s: Image, t: nat, i: nat)
    requires t == s.FirstFreeBlock()
    ensures SameBits(s.TakeBlock(t).TakeBlock(t), Start(AsWritten, s, i).0)
  {
  }

  lemma FinishBits(t: Image, i: nat, n: nat, b: nat)
    ensures SameBits(t, Finish(t, i, n, b))
  {
  }

  lemma CloseHoleBits(s: Image, i: nat)
    ensures SameBits(s, CloseHole(s, i))
  {
  }

  lemma StartTakes(s: Image, t: Image, u: Image, i: nat, b: nat)
    requires s.freeBlocks >= 2 && (t, b) == Start(AsWritten, s, i) && u == Finish(t, i, 0, b)
    ensures OnlyTakes(s, u)
  {
    var x := s.FirstFreeBlock();
    TakeOne(s, x);
    TakeOne(s.TakeBlock(x), x);
    StartBits(s, x, i);
    FinishBits(t, i, 0, b);
  }

  lemma MoreTakes(s: Image, s0: Image, t: Image, ok: bool, i: nat)
    requires s.freeBlocks > 0 && s.Ino(i).size > 0 && s0 == CloseHole(s, i) && (t, ok) == Grow(AsWritten, s, i)
    ensures OnlyTakes(s, t)
  {
    CloseHoleBits(s, i);
    if MayMerge(AsWritten, s0, i) {
      TakeOne(s0, s0.LastBlock(i) + 1);
      MergeBits(s0, i);
      FinishBits(Merge(s0, i), i, |s.Blocks(i)|, s0.LastBlock(i) + 1);
    } else {
      TakeOne(s0, s0.FirstFreeBlock());
      OpenBits(s0, i);
      FinishBits(Open(s0, i), i, |s.Blocks(i)|, s0.FirstFreeBlock());
    }
  }

  lemma GrowOnlyTakes(s: Image, t: Image, ok: bool, i: nat)
    requires (t, ok) == Grow(AsWritten, s, i)
    ensures OnlyTakes(s, t)
  {
    if s.freeBlocks > 0 && s.Ino(i).size > 0 {
      MoreTakes(s, CloseHole(s, i), t, ok, i);
    } else if s.freeBlocks >= 2 {
      var (s1, b) := Start(AsWritten, s, i);
      StartTakes(s, s1, t, i, b);
    }
  }

  lemma StartDeviates(s: Image, t: Image, u: Image, i: nat, b: nat)
    requires Sound(s) && s.freeBlocks >= 2 && (t, b) == Start(AsWritten, s, i) && u == Finish(t, i, 0, b)
    ensures BadBits(u)
  {
    FreeBlockIsFree(s);
    var x := s.FirstFreeBlock();
    StartBits(s, x, i);
    FinishBits(t, i, 0, b);
    assert (s.usedBlocks + {x}) + {x} == s.usedBlocks + {x};
  }

  lemma MergeDeviates(s: Image, s0: Image, t: Image, ok: bool, i: nat)
    requires Sound(s) && LiveFile(s, i) && s.Ino(i).size > 0 && s.freeBlocks > 0 && s.LastBlock(i) + 1 == s.numBlocks
    requires s0 == CloseHole(s, i) && (t, ok) == Grow(AsWritten, s, i)
    ensures ok && BadBits(t)
  {
    hide CloseHole, FlatBlocks, Image.Blocks, Image.AllBytes, Image.Content, Abs, Pad, Merge, Finish;
    CloseHoleZeroes(s, s0, i);
    assert s.numBlocks !in s.usedBlocks;
    assert s0.LastBlock(i) == s.LastBlock(i);
    MergeBits(s0, i);
    FinishBits(Merge(s0, i), i, |s.Blocks(i)|, s0.LastBlock(i) + 1);
  }

  /** A deviating growth leaves the bitmap and the counter at odds. */
  lemma GrowDeviating(s: Image, t: Image, ok: bool, i: nat)
    requires Sound(s) && LiveFile(s, i) && GrowDeviates(s, i) && (t, ok) == Grow(AsWritten, s, i)
    ensures ok && BadBits(t)
  {
    if s.Ino(i).size == 0 {
      var (s1, b) := Start(AsWritten, s, i);
      StartDeviates(s, s1, t, i, b);
    } else {
      MergeDeviates(s, CloseHole(s, i), t, ok, i);
    }
  }

  /** Elsewhere the code as written grows a file correctly. */
  lemma GrowAgrees(s: Image, i: nat)
    requires Sound(s) && LiveFile(s, i) && !GrowDeviates(s, i)
    ensures Grow(AsWritten, s, i) == Grow(Repaired, s, i)
  {
    hide Sound, CloseHole, FlatBlocks, Image.Blocks, Image.AllBytes, Image.Content, Abs, Pad, Merge, Finish;
    hide Open, Start;
    FileShape(s, i);
    if s.Ino(i).size > 0 && s.freeBlocks > 0 {
      var s0 := CloseHole(s, i);
      CloseHoleZeroes(s, s0, i);
      assert s0.LastBlock(i) == s.LastBlock(i);
      OwnedInRange(s, i, |s.Blocks(i)| - 1);
    }
  }

  /**
   Some growth among the next n deviates: the first, for an empty file with two free
   blocks; for others, when the free blocks behind the last one reach the end of the
   region, and are fewer than n and than all free blocks.
   */
  predicate GrowByDeviates(s: Image, i: nat, n: nat) {
    n > 0
    && if s.Ino(i).size == 0 then s.freeBlocks >= 2
       else OverrunsBehind(s.usedBlocks, s.numBlocks, s.freeBlocks, s.LastBlock(i), n)
  }

  lemma DeviatesStepMore(s: Image, t: Image, i: nat, b: nat, n: nat)
    requires LayoutOk(s) && CountersOk(s) && s.Ino(i).size > 0 && n > 0 && GrownNumbers(s, t, i, b)
    requires s.Ino(i).extentNum > 0 && s.LastBlock(i) + 1 < s.numBlocks
    ensures GrowByDeviates(s, i, n) <==> GrowByDeviates(t, i, n - 1)
  {
    hide FirstFree, Image.LastBlock, GrownExtents;
    if MayMerge(Repaired, s, i) {
      OverrunAfterMerge(s.usedBlocks, s.numBlocks, s.freeBlocks, s.LastBlock(i), n);
    } else {
      LeastFree(s);
      NoOverrunAfterOpen(s.usedBlocks, s.numBlocks, s.freeBlocks, b, n);
    }
  }

  lemma DeviatesStep(s: Image, t: Image, ok: bool, i: nat, n: nat)
    requires Sound(s) && LiveFile(s, i) && n > 0 && (t, ok) == Grow(Repaired, s, i)
    ensures GrowByDeviates(s, i, n) <==> GrowDeviates(s, i) || (ok && GrowByDeviates(t, i, n - 1))
  {
    hide Grow, FlatBlocks, Image.Blocks, FirstFree, InodeOk, Covered, Apart, GrownBy, GrownNumbers;
    var b := GrowRefines(s, t, ok, i);
    if ok {
      GrownHasNumbers(s, t, i, b);
    }
    if s.Ino(i).size > 0 {
      FileShape(s, i);
      OwnedInRange(s, i, |s.Blocks(i)| - 1);
      if s.LastBlock(i) + 1 < s.numBlocks {
        if ok {
          DeviatesStepMore(s, t, i, b, n);
        } else {
          NoGrowthNoOverrun(s, i, n);
        }
      }
    }
  }

  lemma NoGrowthNoOverrun(s: Image, i: nat, n: nat)
    requires s.Ino(i).size > 0 && !CanGrow(s, i) && s.LastBlock(i) + 1 < s.numBlocks
    ensures !GrowByDeviates(s, i, n)
  {
  }

  lemma {:induction false} GrowByAgrees(s: Image, i: nat, n: nat)
    requires Sound(s) && LiveFile(s, i) && !GrowByDeviates(s, i, n)
    ensures GrowBy(AsWritten, s, i, n) == GrowBy(Repaired, s, i, n)
    decreases n
  {
    if n > 0 {
      var (s1, ok) := Grow(Repaired, s, i);
      DeviatesStep(s, s1, ok, i, n);
      GrowAgrees(s, i);
      var b := GrowRefines(s, s1, ok, i);
      if ok {
        GrowByAgrees(s1, i, n - 1);
      }
    }
  }

  lemma {:induction false} GrowByStaysBad(s: Image, t: Image, ok: bool, i: nat, n: nat)
    requires BadBits(s) && (t, ok) == GrowBy(AsWritten, s, i, n)
    ensures BadBits(t)
    decreases n
  {
    hide Grow;
    if n > 0 {
      var (s1, ok1) := Grow(AsWritten, s, i);
      GrowOnlyTakes(s, s1, ok1, i);
      TakesKeepBad(s, s1);
      GrowByOnce(AsWritten, s, s1, ok1, i, n);
      if ok1 {
        GrowByStaysBad(s1, t, ok, i, n - 1);
      }
    }
  }

  lemma {:induction false} GrowByDeviating(s: Image, t: Image, ok: bool, i: nat, n: nat)
    requires Sound(s) && LiveFile(s, i) && GrowByDeviates(s, i, n) && (t, ok) == GrowBy(AsWritten, s, i, n)
    ensures BadBits(t)
    decreases n
  {
    hide Grow;
    var (s1, ok1) := Grow(AsWritten, s, i);
    GrowByOnce(AsWritten, s, s1, ok1, i, n);
    DeviatesStep(s, Grow(Repaired, s, i).0, Grow(Repaired, s, i).1, i, n);
    if GrowDeviates(s, i) {
      GrowDeviating(s, s1, ok1, i);
      GrowByStaysBad(s1, t, ok, i, n - 1);
    } else {
      GrowAgrees(s, i);
      var b := GrowRefines(s, s1, ok1, i);
      GrowByDeviating(s1, t, ok, i, n - 1);
    }
  }

  // Writing

  predicate AllZero(buf: seq<bv8>) {
    forall k | 0 <= k < |buf| :: buf[k] == 0
  }

  /**
   A write past the allocation goes wrong when one of its growths does, and when it goes
   two blocks past it, not to the start of the block, and not with zeros.
   */
  predicate WriteDeviates(s: Image, i: nat, buf: seq<bv8>, off: nat) {
    var lacking := Lacking(s, i, off + |buf|);
    && |buf| > 0
    && (GrowByDeviates(s, i, lacking)
        || (lacking == 2 && RoomFor(s, i, 2) && off % 4096 != 0 && !AllZero(buf)))
  }

  /** The condition, growth by growth. */
  lemma WriteDeviatesStep(s: Image, s1: Image, ok: bool, i: nat, buf: seq<bv8>, off: nat)
    requires Sound(s) && LiveFile(s, i) && WriteAllowed(s, i, buf, off)
    requires |buf| > 0 && off + |buf| > 4096 * |s.Blocks(i)| && (s1, ok) == Grow(Repaired, s, i)
    ensures WriteDeviates(s, i, buf, off)
        <==> GrowDeviates(s, i)
             || (ok && off + |buf| > 4096 * (1 + |s.Blocks(i)|)
                 && (GrowDeviates(s1, i) || (CanGrow(s1, i) && off % 4096 != 0 && !AllZero(buf))))
  {
    hide Grow, Sound, GrowDeviates, GrowByDeviates, RoomFor, CanGrow, AllZero, Lacking, Image.Blocks, GrownBy;
    var lacking := Lacking(s, i, off + |buf|);
    LackingOneOrTwo(s, i, off + |buf|);
    var b := GrowRefines(s, s1, ok, i);
    DeviatesStep(s, s1, ok, i, lacking);
    RoomStep(s, s1, ok, i, lacking);
    NoneDeviates(s1, i);
    if ok && lacking == 2 {
      GrownIsLive(s, s1, i, b);
      var (s2, ok2) := Grow(Repaired, s1, i);
      var b1 := GrowRefines(s1, s2, ok2, i);
      DeviatesStep(s1, s2, ok2, i, 1);
      RoomStep(s1, s2, ok2, i, 1);
      NoneDeviates(s2, i);
      RoomForNone(s2, i);
    }
  }

  lemma NoneDeviates(s: Image, i: nat)
    ensures !GrowByDeviates(s, i, 0)
  {
  }

  /** Inside the allocation no write deviates. */
  lemma WriteInsideIsSafe(s: Image, i: nat, buf: seq<bv8>, off: nat)
    requires |buf| > 0 && off + |buf| <= 4096 * |s.Blocks(i)|
    ensures !WriteDeviates(s, i, buf, off)
  {
    hide Image.Blocks;
    assert Lacking(s, i, off + |buf|) == 0;
  }

  /** Byte j of buf is what stands d places earlier, or zero. */
  predicate ShiftedAt(buf: seq<bv8>, d: nat, j: nat) {
    j < |buf| ==> buf[j] == if j < d then 0 else buf[j - d]
  }

  /** Only zeros are unchanged by a shift. */
  lemma {:induction false} ShiftedIsZero(buf: seq<bv8>, d: nat, k: nat)
    requires 0 < d && k < |buf| && forall j: nat :: ShiftedAt(buf, d, j)
    ensures buf[k] == 0
    decreases k
  {
    assert ShiftedAt(buf, d, k);
    if k >= d {
      ShiftedIsZero(buf, d, k - d);
    }
  }

  /** The buffer at the start of its block instead of at its offset: the content differs. */
  lemma MisplacedContent(c: seq<bv8>, n: nat, off: nat, buf: seq<bv8>)
    requires 4096 * n <= off && off % 4096 != 0 && off + |buf| <= 4096 * (n + 1) && |c| <= 4096 * n
    requires off / 4096 == n && !AllZero(buf)
    ensures Splice(Pad(c, 4096 * (n + 1)), 4096 * n, buf)[..off + |buf|] != Overlay(c, off, buf)
  {
    var base, d := 4096 * n, off % 4096;
    var wrong := Splice(Pad(c, 4096 * (n + 1)), base, buf)[..off + |buf|];
    var right := Overlay(c, off, buf);
    if wrong == right {
      forall j: nat ensures ShiftedAt(buf, d, j) {
        if j < |buf| {
          assert wrong[base + j] == buf[j];
          assert right[base + j] == if j < d then 0 else buf[j - d];
        }
      }
      var k :| 0 <= k < |buf| && buf[k] != 0;
      ShiftedIsZero(buf, d, k);
    }
  }

  /** The data-only steps after the growths keep the bitmap and the counter at odds. */
  lemma WriteLastBits(s: Image, i: nat, buf: seq<bv8>, at: nat, size: nat)
    ensures SameBits(s, WriteLast(s, i, buf, at, size))
  {
  }

  /** The two growths of a write, the first of which has left bad bits. */
  lemma WriteStaysBad(s: Image, s1: Image, t: Image, status: Status, i: nat, buf: seq<bv8>, off: nat)
    requires |buf| > 0 && off + |buf| > s.Ino(i).size && off + |buf| > 4096 * |s.Blocks(i)|
    requires (s1, true) == Grow(AsWritten, s, i) && BadBits(s1)
    requires (t, status) == Write(AsWritten, s, i, buf, off)
    ensures BadBits(t)
  {
    WriteLastBits(s1, i, buf, off % 4096, off + |buf|);
    var (s2, ok2) := Grow(AsWritten, s1, i);
    GrowOnlyTakes(s1, s2, ok2, i);
    TakesKeepBad(s1, s2);
    WriteLastBits(s2, i, buf, 0, off + |buf|);
  }

  lemma WriteSecondBad(s: Image, s1: Image, s2: Image, t: Image, status: Status, i: nat, buf: seq<bv8>, off: nat)
    requires |buf| > 0 && off + |buf| > s.Ino(i).size && off + |buf| > 4096 * (1 + |s.Blocks(i)|)
    requires (s1, true) == Grow(AsWritten, s, i) && (s2, true) == Grow(AsWritten, s1, i) && BadBits(s2)
    requires (t, status) == Write(AsWritten, s, i, buf, off)
    ensures BadBits(t)
  {
    WriteLastBits(s2, i, buf, 0, off + |buf|);
  }

  /** Both growths are right, but the data lands at the start of the block. */
  lemma WriteMisplaced(s: Image, s1: Image, s2: Image, t: Image, i: nat, buf: seq<bv8>, off: nat)
    requires Sound(s) && LiveFile(s, i) && WriteAllowed(s, i, buf, off) && |buf| > 0
    requires off + |buf| > 4096 * (1 + |s.Blocks(i)|) && off % 4096 != 0 && !AllZero(buf)
    requires (s1, true) == Grow(Repaired, s, i) && (s2, true) == Grow(Repaired, s1, i)
    requires t == WriteLast(s2, i, buf, 0, off + |buf|)
    ensures t.Content(i) != Overlay(s.Content(i), off, buf)
  {
    hide Grow, Sound, Splice, Overlay, WriteLast, AllZero, Pad;
    var b := GrowRefines(s, s1, true, i);
    var b1 := GrowRefines(s1, s2, true, i);
    GrownTwice(s, s1, s2, i, b, b1);
    FileShape(s2, i);
    var n := |s.Blocks(i)|;
    MisplacedBytes(s2, t, i, buf, off);
    MisplacedContent(s.Content(i), n + 1, off, buf);
  }

  lemma MisplacedBytes(s: Image, t: Image, i: nat, buf: seq<bv8>, off: nat)
    requires Sound(s) && LiveFile(s, i) && EndsInLastBlock(s, i, buf, off)
    requires t == WriteLast(s, i, buf, 0, off + |buf|)
    ensures off + |buf| <= |s.AllBytes(i)|
    ensures t.Content(i) == Splice(s.AllBytes(i), 4096 * (|s.Blocks(i)| - 1), buf)[..off + |buf|]
  {
    var n := |s.Blocks(i)|;
    InLastBlock(off, |buf|, n);
    FileShape(s, i);
    PokeAtStart(s, s.PutBytes(s.Blocks(i)[n - 1] * 4096 + 0, buf), t, i, buf, off + |buf|);
  }

  lemma PokeAtStart(s: Image, s1: Image, t: Image, i: nat, buf: seq<bv8>, size: nat)
    requires Sound(s) && LiveFile(s, i) && s.Ino(i).size > 0 && |s.Blocks(i)| > 0 && |buf| <= 4096
    requires s1 == s.PutBytes(s.Blocks(i)[|s.Blocks(i)| - 1] * 4096 + 0, buf) && t == s1.SetSize(i, size)
    requires CeilBlocks(size) == |s.Blocks(i)|
    ensures size <= |s.AllBytes(i)| && t.Content(i) == Splice(s.AllBytes(i), 4096 * (|s.Blocks(i)| - 1), buf)[..size]
  {
    hide Abs, Sound, FlatBlocks, Image.Blocks, Image.AllBytes, Image.PutBytes, Splice;
    PokeBytes(s, s1, i, |s.Blocks(i)| - 1, 0, buf);
    Resize(s1, t, i, size);
    FileShape(t, i);
  }

  /** Data of zeros at the start of a zeroed block is data of zeros anywhere in it. */
  lemma ZerosAnywhere(s: Image, t: Image, u: Image, i: nat, q: nat, o: nat, buf: seq<bv8>)
    requires Sound(s) && LiveFile(s, i) && q < |s.Blocks(i)| && o + |buf| <= 4096 && AllZero(buf)
    requires forall k | 0 <= k < 4096 :: s.Byte(s.Blocks(i)[q], k) == 0
    requires t == s.PutBytes(s.Blocks(i)[q] * 4096 + 0, buf) && u == s.PutBytes(s.Blocks(i)[q] * 4096 + o, buf)
    ensures t == s && u == s
  {
    OwnedInRange(s, i, q);
    ZerosIntoZeros(s, t, s.Blocks(i)[q], 0, buf);
    ZerosIntoZeros(s, u, s.Blocks(i)[q], o, buf);
  }

  lemma ZerosIntoZeros(s: Image, t: Image, b: nat, o: nat, buf: seq<bv8>)
    requires |s.data| == 4096 * s.numBlocks && b < s.numBlocks && o + |buf| <= 4096 && AllZero(buf)
    requires forall k | 0 <= k < 4096 :: s.Byte(b, k) == 0
    requires t == s.PutBytes(b * 4096 + o, buf)
    ensures t == s
  {
    var a := b * 4096 + o;
    forall k | a <= k < a + |buf| ensures s.data[k] == 0 {
      assert s.Byte(b, k - b * 4096) == 0;
    }
    assert Splice(s.data, a, buf) == s.data;
  }

  /** The block a growth adds is zero. */
  lemma GrownBlockIsZero(s: Image, t: Image, i: nat, b: nat)
    requires Sound(s) && LiveFile(s, i) && GrownBy(s, t, i, b)
    ensures forall k | 0 <= k < 4096 :: t.Byte(t.Blocks(i)[|s.Blocks(i)|], k) == 0
  {
    hide Sound, FlatBlocks, Image.Blocks, Abs, TakesNext;
    FileShape(s, i);
    var n := |s.Blocks(i)|;
    forall k | 0 <= k < 4096 ensures t.Byte(t.Blocks(i)[n], k) == 0 {
      assert t.AllBytes(i)[4096 * n + k] == t.Byte(t.Blocks(i)[n], k);
    }
  }

  lemma LastPlace(s: Image, i: nat, buf: seq<bv8>, at: nat, size: nat)
    ensures WriteLast(s, i, buf, at, size) == s.PutBytes(s.LastBlock(i) * 4096 + at, buf).SetSize(i, size)
  {
  }

  lemma SecondWriteAgrees(s: Image, s1: Image, s2: Image, i: nat, buf: seq<bv8>, off: nat)
    requires Sound(s) && LiveFile(s, i) && WriteAllowed(s, i, buf, off) && |buf| > 0
    requires off + |buf| > 4096 * (1 + |s.Blocks(i)|) && (off % 4096 == 0 || AllZero(buf))
    requires (s1, true) == Grow(Repaired, s, i) && (s2, true) == Grow(Repaired, s1, i)
    ensures WriteLast(s2, i, buf, 0, off + |buf|) == WriteLast(s2, i, buf, off % 4096, off + |buf|)
  {
    hide Grow, Sound, Splice, TakesNext, WriteLast, FlatBlocks, Abs, AllZero;
    var b := GrowRefines(s, s1, true, i);
    var b1 := GrowRefines(s1, s2, true, i);
    GrownTwice(s, s1, s2, i, b, b1);
    FileShape(s2, i);
    var q := |s2.Blocks(i)| - 1;
    if off % 4096 != 0 {
      GrownBlockIsZero(s1, s2, i, b1);
      var base := s2.Blocks(i)[q] * 4096;
      ZerosAnywhere(s2, s2.PutBytes(base + 0, buf), s2.PutBytes(base + off % 4096, buf), i, q, off % 4096, buf);
      LastPlace(s2, i, buf, 0, off + |buf|);
      LastPlace(s2, i, buf, off % 4096, off + |buf|);
    }
  }

  lemma WriteAgrees(s: Image, i: nat, buf: seq<bv8>, off: nat)
    requires Sound(s) && LiveFile(s, i) && WriteAllowed(s, i, buf, off) && !WriteDeviates(s, i, buf, off)
    ensures Write(AsWritten, s, i, buf, off) == Write(Repaired, s, i, buf, off)
  {
    hide Grow, Sound, WriteDeviates, GrowDeviates, CanGrow, AllZero;
    var n, end := |s.Blocks(i)|, off + |buf|;
    if |buf| > 0 && end > s.Ino(i).size && end > 4096 * n {
      var (s1, ok1) := Grow(Repaired, s, i);
      WriteDeviatesStep(s, s1, ok1, i, buf, off);
      GrowAgrees(s, i);
      var b := GrowRefines(s, s1, ok1, i);
      if ok1 && end > 4096 * (1 + n) {
        GrowAgrees(s1, i);
        var (s2, ok2) := Grow(Repaired, s1, i);
        var b1 := GrowRefines(s1, s2, ok2, i);
        if ok2 {
          SecondWriteAgrees(s, s1, s2, i, buf, off);
        }
      }
    }
  }

  /** The file does not hold content c afterwards. */
  lemma WrongContent(s: Image, t: Image, path: string, i: nat, c: seq<bv8>, stopped: seq<bv8>)
    requires IsFileAt(Abs(s), path) && i == InodeAt(s, path) && t.Content(i) != c
    ensures !ContentSpec(Abs(s), path, c, stopped, Done, Abs(t))
  {
    FileAtIsLive(s, path);
    assert i in Abs(t) ==> Abs(t)[i] == NodeOf(t, i);
  }

  lemma WriteDeviating(s: Image, path: string, buf: seq<bv8>, off: nat, i: nat, t: Image, status: Status)
    requires Invariant(s) && Enabled(s, WriteAt(path, buf, off)) && i == InodeAt(s, path)
    requires WriteDeviates(s, i, buf, off) && (t, status) == Write(AsWritten, s, i, buf, off)
    ensures !Meets(s, WriteAt(path, buf, off), t, status)
  {
    hide Grow, Sound, GrowDeviates, GrowByDeviates, RoomFor, Lacking, CanGrow, AllZero, BadBits, Write, Abs;
    hide IsTree, Spec, HasSpace, Image.Blocks, InodeAt, ResolvePath;
    FileAtIsLive(s, path);
    FileShape(s, i);
    if off + |buf| <= 4096 * |s.Blocks(i)| {
      WriteInsideIsSafe(s, i, buf, off);
    }
    var (r1, can1) := Grow(Repaired, s, i);
    WriteDeviatesStep(s, r1, can1, i, buf, off);
    var (s1, ok1) := Grow(AsWritten, s, i);
    if GrowDeviates(s, i) {
      GrowDeviating(s, s1, ok1, i);
      WriteStaysBad(s, s1, t, status, i, buf, off);
      BadBitsAreUnsound(t);
    } else {
      GrowAgrees(s, i);
      WriteSecondDeviating(s, s1, path, buf, off, i, t, status);
    }
  }

  /** The first growth is right, the second or the data goes wrong. */
  lemma WriteSecondDeviating(
    s: Image, s1: Image, path: string, buf: seq<bv8>, off: nat, i: nat, t: Image, status: Status)
    requires Invariant(s) && Enabled(s, WriteAt(path, buf, off)) && i == InodeAt(s, path)
    requires |buf| > 0 && off + |buf| > s.Ino(i).size && off + |buf| > 4096 * (1 + |s.Blocks(i)|)
    requires (s1, true) == Grow(Repaired, s, i) == Grow(AsWritten, s, i)
    requires GrowDeviates(s1, i) || (CanGrow(s1, i) && off % 4096 != 0 && !AllZero(buf))
    requires (t, status) == Write(AsWritten, s, i, buf, off)
    ensures !Meets(s, WriteAt(path, buf, off), t, status)
  {
    hide Grow, Sound, GrowDeviates, AllZero, BadBits, CanGrow;
    FileAtIsLive(s, path);
    var b := GrowRefines(s, s1, true, i);
    var (s2, ok2) := Grow(AsWritten, s1, i);
    if GrowDeviates(s1, i) {
      GrowDeviating(s1, s2, ok2, i);
      WriteSecondBad(s, s1, s2, t, status, i, buf, off);
      BadBitsAreUnsound(t);
    } else {
      GrowAgrees(s1, i);
      var b1 := GrowRefines(s1, s2, ok2, i);
      WriteMisplaced(s, s1, s2, t, i, buf, off);
      WrongContent(s, t, path, i, Overlay(s.Content(i), off, buf), StoppedContent(s, i, Lacking(s, i, off + |buf|)));
    }
  }

  // Truncating

  /** The bytes of the last block between the end of the file and the new end are not all zero. */
  predicate StaleTail(s: Image, i: nat, size: nat) {
    exists k | s.Ino(i).size <= k < size && k < |s.AllBytes(i)| :: s.AllBytes(i)[k] != 0
  }

  /**
   A cut goes wrong when it frees anything; an extension, when one of its growths does,
   when it needs none and uncovers old bytes, or when the size does not fit in 32 bits and
   the growths for what is left of it succeed.
   */
  predicate TruncateDeviates(s: Image, i: nat, size: nat) {
    if size <= s.Ino(i).size then size < s.Ino(i).size && CeilBlocks(size) != |s.Blocks(i)|
    else if size >= 0x1_0000_0000 then
      var more := BlocksToAdd(AsWritten, s, i, size);
      GrowByDeviates(s, i, more) || RoomFor(s, i, more)
    else if Lacking(s, i, size) == 0 then StaleTail(s, i, size)
    else GrowByDeviates(s, i, Lacking(s, i, size))
  }

  /** Extending inside the last block: right when the uncovered bytes are zero. */
  lemma ExtendInBlock(s: Image, t: Image, i: nat, size: nat)
    requires Sound(s) && LiveFile(s, i) && size > s.Ino(i).size && CeilBlocks(size) == |s.Blocks(i)|
    requires t == s.SetSize(i, size)
    ensures size <= |s.AllBytes(i)| && t.Content(i) == s.AllBytes(i)[..size]
    ensures Sound(t) && Abs(t) == Abs(s)[i := File(s.AllBytes(i)[..size])]
    ensures s.AllBytes(i)[..size] == Resized(s.Content(i), size) <==> !StaleTail(s, i, size)
  {
    FileShape(s, i);
    Resize(s, t, i, size);
    var bytes, padded := s.AllBytes(i)[..size], Resized(s.Content(i), size);
    if !StaleTail(s, i, size) {
      assert bytes == padded;
    } else {
      var k :| s.Ino(i).size <= k < size && k < |s.AllBytes(i)| && s.AllBytes(i)[k] != 0;
      assert bytes[k] != padded[k];
    }
  }

  lemma ExtendInBlockMeetsIff(s: Image, path: string, size: nat, i: nat, t: Image)
    requires Invariant(s) && Enabled(s, TruncateAt(path, size)) && i == InodeAt(s, path)
    requires size > s.Ino(i).size && CeilBlocks(size) == |s.Blocks(i)| && t == s.SetSize(i, size)
    ensures Meets(s, TruncateAt(path, size), t, Done) <==> !StaleTail(s, i, size)
  {
    FileAtIsLive(s, path);
    ExtendInBlock(s, t, i, size);
    if StaleTail(s, i, size) {
      WrongContent(s, t, path, i, Resized(s.Content(i), size), StoppedContent(s, i, Lacking(s, i, size)));
    } else {
      ContentKeepsInvariant(s, t, i, Resized(s.Content(i), size));
    }
  }

  /** Below 2^32 the 32-bit arithmetic is exact. */
  lemma BlocksToAddAgree(s: Image, i: nat, size: nat)
    requires Sound(s) && LiveFile(s, i) && s.Ino(i).size < size < 0x1_0000_0000
    ensures BlocksToAdd(AsWritten, s, i, size) == Lacking(s, i, size)
    ensures Lacking(s, i, size) == CeilBlocks(size) - |s.Blocks(i)|
  {
    FileShape(s, i);
  }

  lemma ExtendMeetsIff(s: Image, path: string, size: nat, i: nat, t: Image, status: Status)
    requires Invariant(s) && Enabled(s, TruncateAt(path, size)) && i == InodeAt(s, path)
    requires s.Ino(i).size < size < 0x1_0000_0000 && (t, status) == Truncate(AsWritten, s, i, size)
    ensures Meets(s, TruncateAt(path, size), t, status) <==> !TruncateDeviates(s, i, size)
  {
    FileAtIsLive(s, path);
    FileShape(s, i);
    BlocksToAddAgree(s, i, size);
    var more := Lacking(s, i, size);
    if more == 0 {
      ExtendInBlockMeetsIff(s, path, size, i, t);
    } else if GrowByDeviates(s, i, more) {
      var (s1, ok) := GrowBy(AsWritten, s, i, more);
      GrowByDeviating(s, s1, ok, i, more);
      BadBitsAreUnsound(t);
    } else {
      GrowByAgrees(s, i, more);
      TruncateMeetsSpec(s, path, size, t, status);
    }
  }

  /** No file can get a size that does not fit in 32 bits. */
  lemma HugeSizeIsWrong(s: Image, t: Image, i: nat, size: nat)
    requires Sound(s) && LiveFile(s, i) && size >= 0x1_0000_0000 && t == s.SetSize(i, size)
    ensures !Sound(t)
  {
    OwnsUsedBlocks(s, i);
    SameTables(s, t, i);
    assert t.Ino(i).size == size && i in t.usedInodes;
    assert !InodeOk(t, i);
  }

  lemma NoRoomForHuge(s: Image, i: nat, size: nat)
    requires Sound(s) && i in s.usedInodes && size >= 0x1_0000_0000
    ensures !RoomFor(s, i, Lacking(s, i, size))
  {
    hide RunLength, RunsEntered;
    OwnsUsedBlocks(s, i);
  }

  /** The growths fail, as they must: the file is padded as far as there was room. */
  lemma HugeExtensionFails(s: Image, path: string, size: nat, more: nat, i: nat, t: Image)
    requires Invariant(s) && Enabled(s, TruncateAt(path, size)) && i == InodeAt(s, path) && size >= 0x1_0000_0000
    requires !RoomFor(s, i, more) && (t, false) == GrowBy(Repaired, s, i, more)
    ensures Meets(s, TruncateAt(path, size), t, NoSpace)
  {
    hide Sound, RoomFor, Lacking, GrowBy, Resized, ContentSpec, IsTree, MostRoom, Pad, Abs, ResolvePath, InodeAt;
    FileAtIsLive(s, path);
    if more == 0 {
      RoomForNone(s, i);
    } else {
      GrowByRefines(s, t, false, i, more);
      NoRoomForHuge(s, i, size);
      MostRoomStays(s, i, more, Lacking(s, i, size));
      ContentMeets(s, t, path, i, Resized(s.Content(i), size), StoppedContent(s, i, more), NoSpace);
    }
  }

  lemma HugeMeetsIff(s: Image, path: string, size: nat, i: nat, t: Image, status: Status)
    requires Invariant(s) && Enabled(s, TruncateAt(path, size)) && i == InodeAt(s, path) && size >= 0x1_0000_0000
    requires (t, status) == Truncate(AsWritten, s, i, size)
    ensures Meets(s, TruncateAt(path, size), t, status) <==> !TruncateDeviates(s, i, size)
  {
    hide Sound, RoomFor, BlocksToAdd, GrowBy, GrowByDeviates, Spec, HasSpace, IsTree, BadBits;
    FileAtIsLive(s, path);
    FileBelow4G(s, i);
    var more := BlocksToAdd(AsWritten, s, i, size);
    var (s1, ok) := GrowBy(AsWritten, s, i, more);
    if GrowByDeviates(s, i, more) {
      GrowByDeviating(s, s1, ok, i, more);
      SizeKeepsBad(s1, i, size);
      BadBitsAreUnsound(t);
    } else {
      GrowByAgrees(s, i, more);
      HugeGrown(s, s1, ok, i, more);
      if ok {
        HugeSizeIsWrong(s1, t, i, size);
      } else {
        HugeExtensionFails(s, path, size, more, i, t);
      }
    }
  }

  lemma SizeKeepsBad(s: Image, i: nat, size: nat)
    requires BadBits(s)
    ensures BadBits(s.SetSize(i, size))
  {
  }

  lemma HugeGrown(s: Image, s1: Image, ok: bool, i: nat, more: nat)
    requires Sound(s) && LiveFile(s, i) && (s1, ok) == GrowBy(Repaired, s, i, more)
    ensures ok <==> RoomFor(s, i, more)
    ensures ok ==> Sound(s1) && LiveFile(s1, i)
  {
    hide Sound, RoomFor;
    if more == 0 {
      RoomForNone(s, i);
    } else {
      GrowByRefines(s, s1, ok, i, more);
    }
  }

  // Cutting

  lemma {:induction false} ScribbleEffect(s: Image, t: Image, bs: seq<nat>)
    requires t == s.ScribbleAll(bs)
    ensures t == s.(data := t.data, freeBlocks := s.freeBlocks + |bs|, fault := t.fault)
    decreases |bs|
  {
    if bs != [] {
      ScribbleEffect(s, s.ScribbleAll(bs[..|bs| - 1]), bs[..|bs| - 1]);
    }
  }

  /** Cutting to nothing keeps an extent of no blocks. */
  lemma CutToNothing(s: Image, t: Image, i: nat)
    requires Sound(s) && LiveFile(s, i) && s.Ino(i).size > 0 && t == Shrink(AsWritten, s, i, 0)
    ensures t.Ino(i).extentNum == 1 && t.Ino(i).size == 0 && t.usedInodes == s.usedInodes
  {
    FileShape(s, i);
    assert CutPoint(s.Extents(i), 0, 0, 0) == (0, 0);
    CutRecord(s, t, i, 0, 0, 0);
  }

  lemma CutRecord(s: Image, t: Image, i: nat, size: nat, m: nat, kept: nat)
    requires i < |s.inodes| && t == CutAt(AsWritten, s, i, size, m, kept)
    ensures t.Ino(i) == s.Ino(i).(extentNum := m + 1, size := size) && t.usedInodes == s.usedInodes
  {
    hide FlatBlocks, CutTail, Image.ReleaseAll, Image.ScribbleAll;
    var extents, cut := s.Extents(i), s.Ext(s.Ino(i).indirect, m);
    var tail := CutTail(AsWritten, cut.start + kept, Minus(cut.count, kept));
    var later := if m < |extents| then FlatBlocks(extents[m + 1..]) else [];
    var s1 := s.ReleaseAll(tail);
    ReleaseAllKeeps(s, s1, tail);
    var s2 := s1.PutExtent(s.Ino(i).indirect, m, cut.(count := kept));
    ScribbleEffect(s2, s2.ScribbleAll(later), later);
  }

  lemma {:induction false} ReleaseAllKeeps(s: Image, t: Image, bs: seq<nat>)
    requires t == s.ReleaseAll(bs)
    ensures t == s.(usedBlocks := t.usedBlocks, freeBlocks := s.freeBlocks + |bs|, fault := t.fault)
    ensures t.usedBlocks <= s.usedBlocks
    ensures forall b | b in bs && b < s.blockBits :: b !in t.usedBlocks
    decreases |bs|
  {
    if bs != [] {
      var m := |bs| - 1;
      ReleaseAllKeeps(s, s.ReleaseAll(bs[..m]), bs[..m]);
      assert bs == bs[..m] + [bs[m]];
    }
  }

  /** Later extents: their bits stay set, but the counter goes up. */
  lemma CutWholeExtents(s: Image, t: Image, i: nat, size: nat, m: nat)
    requires Sound(s) && LiveFile(s, i) && m < |s.Extents(i)| && IsCut(s, i, size, m, s.Extents(i)[m].count)
    requires CeilBlocks(size) < |s.Blocks(i)| && t == CutAt(AsWritten, s, i, size, m, s.Extents(i)[m].count)
    ensures !CountersOk(t)
  {
    var extents := s.Extents(i);
    var cut := extents[m];
    CutBlocks(extents, m, cut.count);
    var later := FlatBlocks(extents[m + 1..]);
    assert |later| > 0;
    assert InodeOk(s, i);
    assert CutTail(AsWritten, cut.start + cut.count, 0) == [];
    var s2 := s.PutExtent(s.Ino(i).indirect, m, cut.(count := cut.count));
    ScribbleEffect(s2, s2.ScribbleAll(later), later);
  }

  /** Freeing shifted by one frees the last kept block. */
  lemma ShiftedTailFrees(s: Image, from: nat, count: nat)
    requires 0 < from && from - 1 < s.blockBits < NOT_FOUND && count > 0
    ensures from - 1 !in s.ReleaseAll(CutTail(AsWritten, from, count)).usedBlocks
  {
    var tail := CutTail(AsWritten, from, count);
    assert tail[0] == Wrap32(from + 0 - 1) == from - 1;
    assert tail[0] in tail;
    ReleaseAllKeeps(s, s.ReleaseAll(tail), tail);
  }

  /** Inside an extent: the last kept block is freed. */
  lemma CutInsideExtent(s: Image, t: Image, i: nat, size: nat, m: nat, kept: nat)
    requires Sound(s) && LiveFile(s, i) && IsCut(s, i, size, m, kept) && kept < s.Extents(i)[m].count
    requires t == CutAt(AsWritten, s, i, size, m, kept)
    ensures !InodeOk(t, i)
  {
    hide CutAt, InodeOk, CutTail, Image.ReleaseAll;
    FileShape(s, i);
    OwnedInRange(s, i, 0);
    var extents := s.Extents(i);
    var from := extents[m].start + kept;
    CutKeepsLost(s, t, i, size, m, kept, CutTail(AsWritten, from, extents[m].count - kept));
    CutBlocks(extents, m, kept);
    FlatBlocksAt(extents, m, kept - 1);
    OwnedInRange(s, i, CeilBlocks(size) - 1);
    ShiftedTailFrees(s, from, extents[m].count - kept);
    LostBlock(s, t, i, CeilBlocks(size), from - 1);
  }

  lemma LostBlock(s: Image, t: Image, i: nat, keep: nat, b: nat)
    requires 0 < keep <= |s.Blocks(i)| && t.Blocks(i) == s.Blocks(i)[..keep] && t.Ino(i).extentNum > 0
    requires s.Blocks(i)[keep - 1] == b && b !in t.usedBlocks
    ensures !InodeOk(t, i)
  {
    assert t.Owned(i)[keep] == b;
    assert b in Elements(t.Owned(i));
  }

  lemma CutKeepsLost(s: Image, t: Image, i: nat, size: nat, m: nat, kept: nat, tail: seq<nat>)
    requires Sound(s) && LiveFile(s, i) && IsCut(s, i, size, m, kept) && s.Ino(i).extentNum <= 512
    requires s.Ino(i).indirect < s.numBlocks
    requires t == CutAt(AsWritten, s, i, size, m, kept)
    requires tail == CutTail(AsWritten, s.Extents(i)[m].start + kept, s.Extents(i)[m].count - kept)
    ensures t.usedBlocks == s.ReleaseAll(tail).usedBlocks
    ensures t.Extents(i) == s.Extents(i)[..m] + [s.Extents(i)[m].(count := kept)]
    ensures t.Ino(i) == s.Ino(i).(extentNum := m + 1, size := size)
  {
    hide InodeOk, CutPoint, CeilBlocks, FlatBlocks, Image.ReleaseAll, Image.ScribbleAll, Abs, CountersOk;
    var e, ind := s.Extents(i)[m].(count := kept), s.Ino(i).indirect;
    var s1 := s.ReleaseAll(tail);
    ReleaseAllKeeps(s, s1, tail);
    var s2 := s1.PutExtent(ind, m, e);
    PutExtentEffect(s1, s2, ind, m, e);
    var later := FlatBlocks(s.Extents(i)[m + 1..]);
    var s3 := s2.ScribbleAll(later);
    ScribbleEffect(s2, s3, later);
    assert t == s3.PutInode(i, s.Ino(i).(extentNum := m + 1, size := size));
    CutTable(s, s2, t, i, m, kept);
  }

  /** The table with extent m shortened, read up to it. */
  lemma CutTable(s: Image, s2: Image, t: Image, i: nat, m: nat, kept: nat)
    requires m < s.Ino(i).extentNum <= 512 && t.tables == s2.tables
    requires t.Ino(i).extentNum == m + 1 && t.Ino(i).indirect == s.Ino(i).indirect
    requires forall k: nat | k < 512 :: s2.Ext(s.Ino(i).indirect, k) ==
               (if k == m then s.Extents(i)[m].(count := kept) else s.Ext(s.Ino(i).indirect, k))
    ensures t.Extents(i) == s.Extents(i)[..m] + [s.Extents(i)[m].(count := kept)]
  {
    assert forall k: nat :: t.Ext(s.Ino(i).indirect, k) == s2.Ext(s.Ino(i).indirect, k);
  }

  lemma ShrinkDeviating(s: Image, t: Image, i: nat, size: nat)
    requires Sound(s) && LiveFile(s, i) && size < s.Ino(i).size && CeilBlocks(size) != |s.Blocks(i)|
    requires t == Shrink(AsWritten, s, i, size)
    ensures !Sound(t)
  {
    hide CutAt, CutPoint;
    FileShape(s, i);
    if size == 0 {
      CutToNothing(s, t, i);
      assert !InodeOk(t, i);
    } else {
      var m, kept := CutExists(s, i, size);
      CutRecord(s, t, i, size, m, kept);
      if kept < s.Extents(i)[m].count {
        CutInsideExtent(s, t, i, size, m, kept);
      } else {
        CutWholeExtents(s, t, i, size, m);
      }
    }
  }

  /** A cut inside the last block only changes the size. */
  lemma ShrinkInBlock(s: Image, t: Image, i: nat, size: nat)
    requires Sound(s) && LiveFile(s, i) && size < s.Ino(i).size && CeilBlocks(size) == |s.Blocks(i)|
    requires t == Shrink(AsWritten, s, i, size)
    ensures t == Shrink(Repaired, s, i, size)
  {
    FileShape(s, i);
    var m, kept := CutExists(s, i, size);
    var extents := s.Extents(i);
    CutBlocks(extents, m, kept);
    var tail, later := Range(extents[m].start + kept, extents[m].count - kept), FlatBlocks(extents[m + 1..]);
    assert |tail + later| == 0;
    assert CutTail(AsWritten, extents[m].start + kept, 0) == [] == CutTail(Repaired, extents[m].start + kept, 0);
  }

  lemma TruncateMeetsIff(s: Image, path: string, size: nat, i: nat, t: Image, status: Status)
    requires Invariant(s) && Enabled(s, TruncateAt(path, size)) && i == InodeAt(s, path)
    requires (t, status) == Truncate(AsWritten, s, i, size)
    ensures Meets(s, TruncateAt(path, size), t, status) <==> !TruncateDeviates(s, i, size)
  {
    FileAtIsLive(s, path);
    FileBelow4G(s, i);
    if size >= 0x1_0000_0000 {
      HugeMeetsIff(s, path, size, i, t, status);
    } else if size > s.Ino(i).size {
      ExtendMeetsIff(s, path, size, i, t, status);
    } else if size == s.Ino(i).size {
      TruncateMeetsSpec(s, path, size, t, status);
    } else if CeilBlocks(size) == |s.Blocks(i)| {
      ShrinkInBlock(s, t, i, size);
      TruncateMeetsSpec(s, path, size, t, status);
    } else {
      ShrinkDeviating(s, t, i, size);
    }
  }

  // Creating

  /**
   A creation goes wrong when it is refused for want of a block that the parent's last one
   makes unnecessary, when one of the late tests refuses it after the inode has been taken,
   when the parent's next block lies past the data region, and when the parent already has
   512 extents and needs another.
   */
  predicate MakeDeviates(s: Image, p: nat) {
    var x := s.Ino(p);
    && s.freeInodes > 0
    && if s.freeBlocks == 0 then x.numEntries > 0 && x.size % 4096 != 0
       else if x.numEntries == 0 then s.freeInodes == 1 || s.freeBlocks == 1
       else x.size % 4096 == 0
            && (s.LastBlock(p) + 1 == s.numBlocks
                || (s.LastBlock(p) + 1 in s.usedBlocks && (s.freeInodes == 1 || x.extentNum == 512)))
  }

  /** An inode has been taken although the call was refused. */
  lemma LeakedInode(s: Image, t: Image, path: string, node: Node)
    requires IsFree(Abs(s), path) && s.FirstFreeInode() !in s.usedInodes && s.FirstFreeInode() in t.usedInodes
    ensures !MakeSpec(Abs(s), path, node, NoSpace, Abs(t))
  {
    assert s.FirstFreeInode() in Abs(t);
  }

  lemma NewInodeFields(s: Image, s1: Image, p: nat, kind: Kind)
    requires Sound(s) && LiveDir(s, p) && s.freeInodes > 0 && s1 == NewInode(s, kind)
    ensures s.FirstFreeInode() !in s.usedInodes && s.FirstFreeInode() in s1.usedInodes
    ensures s1.freeInodes == s.freeInodes - 1 && Sound(s1) && LiveDir(s1, p) && s1.Ino(p) == s.Ino(p)
    ensures s1.usedBlocks == s.usedBlocks && s1.freeBlocks == s.freeBlocks && s1.numBlocks == s.numBlocks
    ensures s1.LastBlock(p) == s.LastBlock(p)
  {
    NewInodeRefines(s, s1, s.FirstFreeInode(), kind);
    assert s1.Ino(p) == s.Ino(p);
    assert forall b: nat, k: nat :: s1.Ext(b, k) == s.Ext(b, k);
  }

  /** Adding to an empty directory when a late test fails. */
  lemma FirstEntryLeaks(s: Image, t: Image, status: Status, p: nat, e: Dentry, up: nat)
    requires (s.freeInodes == 0 || s.freeBlocks == 1) && (t, status) == AddFirstEntry(AsWritten, s, p, e, up)
    ensures status == NoSpace && t.usedInodes == s.usedInodes
  {
  }

  lemma CountEntryBits(s: Image, p: nat, b: nat, e: Dentry, up: nat)
    ensures SameBits(s, CountEntry(s.PutSlot(b, 0, e), p, up))
  {
  }

  /** The parent merges the block past the end of the data region. */
  lemma EntryPastEnd(s: Image, t: Image, p: nat, e: Dentry, up: nat)
    requires Sound(s) && LiveDir(s, p) && s.LastBlock(p) + 1 == s.numBlocks
    requires t == CountEntry(Merge(s, p).PutSlot(s.LastBlock(p) + 1, 0, e), p, up)
    ensures BadBits(t)
  {
    MergeBits(s, p);
    CountEntryBits(Merge(s, p), p, s.LastBlock(p) + 1, e, up);
  }

  lemma TooManyExtents(s: Image, t: Image, p: nat, b: nat, e: Dentry, up: nat)
    requires p < |s.inodes| && s.Ino(p).extentNum == 512
    requires t == CountEntry(Open(s, p).PutSlot(b, 0, e), p, up)
    ensures t.Ino(p).extentNum == 513 && t.usedInodes == s.usedInodes
  {
    OpenRecord(s, p);
    var u := Open(s, p);
    assert u.PutSlot(b, 0, e).Ino(p) == u.Ino(p);
  }

  lemma OpenRecord(s: Image, p: nat)
    requires p < |s.inodes|
    ensures Open(s, p).Ino(p).extentNum == s.Ino(p).extentNum + 1 && |Open(s, p).inodes| == |s.inodes|
    ensures Open(s, p).usedInodes == s.usedInodes
  {
  }

  lemma FirstEntryCounts(s: Image, t: Image, p: nat, e: Dentry, up: nat)
    requires LayoutOk(s) && CountersOk(s) && (t, NoSpace) == AddFirstEntry(AsWritten, s, p, e, up)
    ensures CountersOk(t) && t.usedInodes == s.usedInodes && s.usedBlocks <= t.usedBlocks
  {
    if s.freeBlocks > 0 {
      FreeBlockIsFree(s);
    }
  }

  /** Even a late refusal leaves both counters equal to the number of clear bits; it only leaks what it took. */
  lemma RefusalKeepsCounters(s: Image, t: Image, p: nat, name: string, kind: Kind)
    requires Sound(s) && LiveDir(s, p) && (t, NoSpace) == MakeNode(AsWritten, s, p, name, kind)
    ensures t.freeBlocks == |Below(t.numBlocks) - t.usedBlocks| && t.freeInodes == |Below(t.numInodes) - t.usedInodes|
    ensures s.usedInodes <= t.usedInodes && s.usedBlocks <= t.usedBlocks
  {
    hide AddFirstEntry, InodeOk, NewInode, Covered;
    if s.freeInodes > 0 && s.freeBlocks > 0 {
      var s1, e := NewInode(s, kind), Dentry(s.FirstFreeInode(), name);
      NewInodeFields(s, s1, p, kind);
      MakeIsEntry(s, p, name, kind);
      NewInodeRefines(s, s1, s.FirstFreeInode(), kind);
      if s.Ino(p).numEntries == 0 {
        FirstEntryCounts(s1, t, p, e, KindLinks(kind));
      }
    }
    CountsClearBits(t.usedBlocks, t.numBlocks, t.freeBlocks);
    CountsClearBits(t.usedInodes, t.numInodes, t.freeInodes);
  }

  /** What adding an entry leaves when it goes wrong: a refusal, bad bits or 513 extents. */
  lemma EntryDeviates(s: Image, t: Image, status: Status, p: nat, e: Dentry, up: nat)
    requires Sound(s) && LiveDir(s, p) && s.freeBlocks > 0 && (t, status) == AddEntry(AsWritten, s, p, e, up)
    requires if s.Ino(p).numEntries == 0 then s.freeInodes == 0 || s.freeBlocks == 1
             else s.Ino(p).size % 4096 == 0
                  && (s.LastBlock(p) + 1 == s.numBlocks
                      || (s.LastBlock(p) + 1 in s.usedBlocks && (s.freeInodes == 0 || s.Ino(p).extentNum == 512)))
    ensures BadBits(t) || (t.usedInodes == s.usedInodes && (status == NoSpace || t.Ino(p).extentNum == 513))
  {
    hide BadBits, AddFirstEntry, Open, Merge, CountEntry, InodeOk;
    if s.Ino(p).numEntries == 0 {
      FirstEntryLeaks(s, t, status, p, e, up);
    } else if s.LastBlock(p) + 1 == s.numBlocks {
      EntryPastEnd(s, t, p, e, up);
    } else if s.freeInodes > 0 {
      TooManyExtents(s, t, p, s.FirstFreeBlock(), e, up);
    }
  }

  lemma MakeIsEntry(s: Image, p: nat, name: string, kind: Kind)
    requires s.freeInodes > 0 && s.freeBlocks > 0
    ensures MakeNode(AsWritten, s, p, name, kind)
         == AddEntry(AsWritten, NewInode(s, kind), p, Dentry(s.FirstFreeInode(), name), KindLinks(kind))
  {
    hide AddEntry, NewInode;
  }

  /** The first test asks for a free block even when the parent's last block has a free slot. */
  lemma RefusedWithRoom(s: Image, t: Image, status: Status, p: nat, name: string, kind: Kind)
    requires s.freeBlocks == 0 && MakeDeviates(s, p) && (t, status) == MakeNode(AsWritten, s, p, name, kind)
    ensures status == NoSpace && CanMake(s, p)
  {
    hide AddEntry, NewInode;
  }

  lemma MakeDeviating(s: Image, path: string, kind: Kind, p: nat, t: Image, status: Status)
    requires Invariant(s) && IsFree(Abs(s), path) && p == InodeAt(s, ParentPath(path)) && LiveDir(s, p)
    requires MakeDeviates(s, p) && (t, status) == MakeNode(AsWritten, s, p, ChildName(path), kind)
    ensures !MakeMeetsSpec(s, path, kind, t, status)
  {
    hide AddEntry, MakeNode, NewInode, MakeSpec, InodeAt, Abs, BadBits, IsFree;
    if s.freeBlocks == 0 {
      RefusedWithRoom(s, t, status, p, ChildName(path), kind);
      return;
    }
    var s1, e := NewInode(s, kind), Dentry(s.FirstFreeInode(), ChildName(path));
    NewInodeFields(s, s1, p, kind);
    MakeIsEntry(s, p, ChildName(path), kind);
    EntryDeviates(s1, t, status, p, e, KindLinks(kind));
    if BadBits(t) {
      BadBitsAreUnsound(t);
    } else if status == NoSpace {
      LeakedInode(s, t, path, FreshNode(kind));
    } else {
      assert !InodeOk(t, p);
    }
  }

  lemma FirstEntryAgrees(s: Image, p: nat, e: Dentry, up: nat)
    requires s.freeInodes > 0 && s.freeBlocks > 1
    ensures AddFirstEntry(AsWritten, s, p, e, up) == AddFirstEntry(Repaired, s, p, e, up)
  {
  }

  lemma EntryAgrees(s: Image, p: nat, e: Dentry, up: nat)
    requires s.freeBlocks > 0
    requires s.Ino(p).numEntries == 0 ==> s.freeInodes > 0 && s.freeBlocks > 1
    requires s.Ino(p).numEntries > 0 && s.Ino(p).size % 4096 == 0 ==>
               && (MayMerge(AsWritten, s, p) <==> MayMerge(Repaired, s, p))
               && (MayMerge(Repaired, s, p) || s.freeInodes > 0)
    ensures AddEntry(AsWritten, s, p, e, up) == AddEntry(Repaired, s, p, e, up)
  {
    hide AddFirstEntry, Merge, Open, CountEntry;
    if s.Ino(p).numEntries == 0 {
      FirstEntryAgrees(s, p, e, up);
    }
  }

  lemma MakeAgrees(s: Image, p: nat, name: string, kind: Kind)
    requires Sound(s) && LiveDir(s, p) && !MakeDeviates(s, p)
    ensures MakeNode(AsWritten, s, p, name, kind) == MakeNode(Repaired, s, p, name, kind)
  {
    hide Sound, InodeOk, AddEntry, NewInode;
    if s.freeInodes > 0 && s.freeBlocks > 0 {
      var s1 := NewInode(s, kind);
      NewInodeFields(s, s1, p, kind);
      DirShape(s, p);
      if s.Ino(p).numEntries > 0 {
        OwnedInRange(s, p, |s.Blocks(p)| - 1);
      }
      EntryAgrees(s1, p, Dentry(s.FirstFreeInode(), name), KindLinks(kind));
    }
  }

  lemma MakeMeetsIff(s: Image, path: string, kind: Kind, p: nat, t: Image, status: Status)
    requires Invariant(s) && IsFree(Abs(s), path) && p == InodeAt(s, ParentPath(path))
    requires (t, status) == MakeNode(AsWritten, s, p, ChildName(path), kind)
    ensures MakeMeetsSpec(s, path, kind, t, status) <==> !MakeDeviates(s, p)
  {
    assert LiveDir(s, p) by {
      assert Abs(s)[p] == NodeOf(s, p);
    }
    if MakeDeviates(s, p) {
      MakeDeviating(s, path, kind, p, t, status);
    } else {
      MakeAgrees(s, p, ChildName(path), kind);
      MakeMeets(s, path, kind, t, status);
    }
  }

  // All calls

  /** When the code as written departs from its promises; a caller can tell before the call. */
  predicate Deviates(s: Image, req: Request)
    requires IsAbsolute(req.path)
  {
    match req
    case MkdirAt(path) => MakeDeviates(s, InodeAt(s, ParentPath(path)))
    case CreateAt(path) => MakeDeviates(s, InodeAt(s, ParentPath(path)))
    case RmdirAt(_) => false
    case UnlinkAt(_) => false
    case TruncateAt(path, size) => TruncateDeviates(s, InodeAt(s, path), size)
    case WriteAt(path, buf, off) => WriteDeviates(s, InodeAt(s, path), buf, off)
  }

  lemma WriteMeetsIff(s: Image, path: string, buf: seq<bv8>, off: nat, i: nat, t: Image, status: Status)
    requires Invariant(s) && Enabled(s, WriteAt(path, buf, off)) && i == InodeAt(s, path)
    requires (t, status) == Write(AsWritten, s, i, buf, off)
    ensures Meets(s, WriteAt(path, buf, off), t, status) <==> !WriteDeviates(s, i, buf, off)
  {
    FileAtIsLive(s, path);
    if WriteDeviates(s, i, buf, off) {
      WriteDeviating(s, path, buf, off, i, t, status);
    } else {
      WriteAgrees(s, i, buf, off);
      WriteMeetsSpec(s, path, buf, off, t, status);
    }
  }

  /**
   From any state that satisfies the invariant, a call of the code as written keeps the
   invariant and its specification exactly when the call does not deviate.
   */
  lemma AsWrittenMeetsIff(s: Image, req: Request, t: Image, status: Status)
    requires Invariant(s) && Enabled(s, req) && (t, status) == Perform(AsWritten, s, req)
    ensures Meets(s, req, t, status) <==> !Deviates(s, req)
  {
    match req
    case MkdirAt(path) => MakeMeetsIff(s, path, Directory, InodeAt(s, ParentPath(path)), t, status);
    case CreateAt(path) => MakeMeetsIff(s, path, Regular, InodeAt(s, ParentPath(path)), t, status);
    case RmdirAt(path) => RmdirMeets(s, path, t, status);
    case UnlinkAt(path) => UnlinkMeets(s, path, t, status);
    case TruncateAt(path, size) => TruncateMeetsIff(s, path, size, InodeAt(s, path), t, status);
    case WriteAt(path, buf, off) => WriteMeetsIff(s, path, buf, off, InodeAt(s, path), t, status);
  }

  /** Both readings of the code at once. */
  lemma CallMeetsIff(code: Code, s: Image, req: Request, t: Image, status: Status)
    requires Invariant(s) && Enabled(s, req) && (t, status) == Perform(code, s, req)
    ensures Meets(s, req, t, status) <==> code.Repaired? || !Deviates(s, req)
  {
    hide Meets, Deviates;
    if code.Repaired? {
      RepairedMeets(s, req, t, status);
    } else {
      AsWrittenMeetsIff(s, req, t, status);
    }
  }
}
