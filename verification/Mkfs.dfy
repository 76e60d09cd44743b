/** Formatting: the layout arithmetic, in 32-bit unsigned integers, and the initial state. */
module Mkfs {
  import opened Images
  import opened Namespace
  import opened Soundness

  /** The helper of the same name: truncate, and add one if anything was cut off. */
  function Roundup(x: real): int {
    if x - (x.Floor as real) != 0.0 then x.Floor + 1 else x.Floor
  }

  lemma RoundupIsCeiling(n: nat)
    ensures Roundup(n as real / 4096.0) == CeilBlocks(n)
  {
    var q, r := n / 4096, n % 4096;
    assert n as real / 4096.0 == q as real + r as real / 4096.0;
    assert (n as real / 4096.0).Floor == q;
  }

  lemma WrapSmall(n: nat)
    requires n < 0x1_0000_0000
    ensures Wrap32(n) == n
  {
  }

  /** The number of blocks for n bytes, as mkfs computes it: in floating point. */
  function BlocksFor(n: nat): (r: nat)
    ensures r == CeilBlocks(n)
  {
    RoundupIsCeiling(n);
    Roundup(n as real / 4096.0)
  }

  /** The superblock fields that describe the layout; lengths are in blocks. */
  datatype Layout = Layout(
    numInodes: nat, freeInodes: nat, freeBlocks: nat,
    inodeBitmapLength: nat, dataBitmapLength: nat, inodeTableLength: nat, accepted: bool)
  {
    function Reserved(): nat {
      1 + inodeBitmapLength + dataBitmapLength + inodeTableLength
    }
  }

  /** The layout mkfs computes for an image of `size` bytes; inodes are 64 bytes. */
  function LayoutOf(size: nat, inodes: nat): Layout {
    var n := Wrap32(inodes);
    var inodeBitmapLength := CeilBlocks(n);
    var rest := Wrap32(Wrap32(size) / 4096 - 1 - inodeBitmapLength);
    var dataBitmapLength := CeilBlocks(rest);
    var inodeTableLength := CeilBlocks(n * 64);
    var freeBlocks := Wrap32(Wrap32(rest - dataBitmapLength) - inodeTableLength);
    var reserved := Wrap32(1 + inodeBitmapLength + dataBitmapLength + inodeTableLength);
    Layout(n, Wrap32(n - 1), freeBlocks, inodeBitmapLength, dataBitmapLength, inodeTableLength,
           !(Wrap32(reserved * 4096) >= size || freeBlocks == 0))
  }

  /** The superblock: what mkfs writes into the first block. Addresses count from the start of the image. */
  class Superblock {
    var size: nat
    var numInodes: nat
    var availableInodes: nat
    var availableBlocks: nat
    var inodeBitmap: nat
    var inodeBitmapLength: nat
    var dataBitmap: nat
    var dataBitmapLength: nat
    var inodeTable: nat
    var inodeTableLength: nat

    constructor () {
    }

    /** mkfs: the fields step by step, then the check. */
    method Format(size: nat, count: nat) returns (ok: bool)
      modifies this
      ensures this.size == size
      ensures Layout(numInodes, availableInodes, availableBlocks,
                     inodeBitmapLength, dataBitmapLength, inodeTableLength, ok) == LayoutOf(size, count)
      ensures inodeBitmap == 4096 && dataBitmap == inodeBitmap + Wrap32(4096 * inodeBitmapLength)
      ensures inodeTable == dataBitmap + Wrap32(4096 * dataBitmapLength)
      ensures FitsExactly(size, LayoutOf(size, count)) ==>
                && inodeBitmap == 4096 && dataBitmap == inodeBitmap + 4096 * inodeBitmapLength
                && inodeTable == dataBitmap + 4096 * dataBitmapLength
                && inodeTable + 4096 * inodeTableLength + 4096 * availableBlocks == size
    {
      hide Wrap32, CeilBlocks, BlocksFor;
      this.size := size;
      numInodes := Wrap32(count);
      availableInodes := Wrap32(numInodes - 1);
      inodeBitmap := 4096;
      inodeBitmapLength := BlocksFor(numInodes);
      dataBitmap := inodeBitmap + Wrap32(inodeBitmapLength * 4096);
      availableBlocks := Wrap32(Wrap32(size) / 4096 - 1 - inodeBitmapLength);
      dataBitmapLength := BlocksFor(availableBlocks);
      inodeTable := dataBitmap + Wrap32(dataBitmapLength * 4096);
      inodeTableLength := BlocksFor(numInodes * 64);
      availableBlocks := Wrap32(availableBlocks - dataBitmapLength);
      availableBlocks := Wrap32(availableBlocks - inodeTableLength);
      var reserved := Wrap32(1 + inodeBitmapLength + dataBitmapLength + inodeTableLength);
      ok := !(Wrap32(reserved * 4096) >= size || availableBlocks <= 0);
      if FitsExactly(size, LayoutOf(size, count)) {
        WrapSmall(inodeBitmapLength * 4096);
        WrapSmall(dataBitmapLength * 4096);
      }
    }
  }

  /**
   The superblock, inode bitmap, data bitmap, inode table and data region follow each
   other and fill the image, there is a block to allocate and a root inode, and each bitmap and the table
   have room for every index they serve.
   */
  predicate FitsExactly(size: nat, l: Layout) {
    && 4096 * (l.Reserved() + l.freeBlocks) == size
    && l.freeBlocks > 0 && l.numInodes > 0
    && l.numInodes <= 8 * 4096 * l.inodeBitmapLength < NOT_FOUND
    && l.freeBlocks < 8 * 4096 * l.dataBitmapLength < NOT_FOUND
    && 64 * l.numInodes <= 4096 * l.inodeTableLength
    && l.freeBlocks < 0x10_0000
  }

  /** When the first subtraction wraps, the data bitmap alone is nearly 2^20 blocks. */
  lemma WrappedRest(blocks: nat, inodeBitmapLength: nat)
    requires blocks < 1 + inodeBitmapLength && inodeBitmapLength <= 0x10_0000
    ensures 1 + inodeBitmapLength + CeilBlocks(Wrap32(blocks - 1 - inodeBitmapLength)) >= 0x10_0000
  {
    var short := 1 + inodeBitmapLength - blocks;
    assert Wrap32(-short) == 0x1_0000_0000 - short;
  }

  /** Below 2^20 reserved blocks nothing wraps. */
  lemma SmallLayout(size: nat, inodes: nat, l: Layout)
    requires size < 0x1_0000_0000 && size % 4096 == 0 && 0 < inodes < 0x1_0000_0000
    requires l == LayoutOf(size, inodes) && l.accepted && l.Reserved() < 0x10_0000
    ensures l.numInodes == inodes && l.Reserved() < size / 4096 && l.freeBlocks == size / 4096 - l.Reserved()
    ensures l.dataBitmapLength == CeilBlocks(size / 4096 - 1 - l.inodeBitmapLength)
    ensures l.inodeBitmapLength == CeilBlocks(inodes) && l.inodeTableLength == CeilBlocks(inodes * 64)
  {
    var blocks := size / 4096;
    WrapSmall(inodes);
    WrapSmall(size);
    if blocks < 1 + l.inodeBitmapLength {
      WrappedRest(blocks, l.inodeBitmapLength);
    }
    WrapSmall(blocks - 1 - l.inodeBitmapLength);
    WrapSmall(l.Reserved());
    WrapSmall(l.Reserved() * 4096);
    WrapSmall(blocks - 1 - l.inodeBitmapLength - l.dataBitmapLength);
    WrapSmall(blocks - l.Reserved());
  }

  lemma SmallLayoutFits(size: nat, inodes: nat, l: Layout)
    requires size < 0x1_0000_0000 && size % 4096 == 0 && 0 < inodes < 0x1_0000_0000
    requires l == LayoutOf(size, inodes) && l.accepted && l.Reserved() < 0x10_0000
    ensures FitsExactly(size, l)
  {
    hide LayoutOf, CeilBlocks, Wrap32;
    SmallLayout(size, inodes, l);
    CeilBounds(inodes);
    CeilBounds(inodes * 64);
    CeilBounds(size / 4096 - 1 - l.inodeBitmapLength);
  }

  lemma CeilBounds(n: nat)
    ensures n <= 4096 * CeilBlocks(n) < n + 4096
  {
  }

  lemma LayoutFreeInodes(size: nat, inodes: nat)
    requires LayoutOf(size, inodes).numInodes > 0
    ensures LayoutOf(size, inodes).freeInodes == LayoutOf(size, inodes).numInodes - 1
  {
    WrapSmall(LayoutOf(size, inodes).numInodes - 1);
  }

  lemma WrapTwice(n: int)
    ensures Wrap32(Wrap32(n)) == Wrap32(n)
  {
  }

  lemma WrapMinus(n: int, k: int)
    ensures Wrap32(Wrap32(n) - k) == Wrap32(n - k)
  {
    var q := n / 0x1_0000_0000;
    assert n == q * 0x1_0000_0000 + Wrap32(n);
    var r := (n - k) / 0x1_0000_0000;
    assert n - k == r * 0x1_0000_0000 + Wrap32(n - k);
    assert Wrap32(n) - k == (r - q) * 0x1_0000_0000 + Wrap32(n - k);
  }

  /** Whatever wraps on the way, the free blocks and the reserved ones add up to the size modulo 2^32 blocks. */
  lemma FreeIsRest(size: nat, inodes: nat, l: Layout)
    requires l == LayoutOf(size, inodes)
    ensures l.freeBlocks == Wrap32(Wrap32(size) / 4096 - l.Reserved()) && l.Reserved() < 0x1000_0000
  {
    var blocks := Wrap32(size) / 4096;
    var rest := blocks - 1 - l.inodeBitmapLength;
    LayoutBounds(size, inodes, l);
    hide Wrap32, CeilBlocks;
    WrapMinus(rest, l.dataBitmapLength);
    WrapMinus(rest - l.dataBitmapLength, l.inodeTableLength);
  }

  lemma LayoutBounds(size: nat, inodes: nat, l: Layout)
    requires l == LayoutOf(size, inodes)
    ensures l.inodeBitmapLength <= 0x10_0000 && l.dataBitmapLength <= 0x10_0000 && l.inodeTableLength <= 0x400_0000
  {
  }

  /**
   The layout for any size and number of inodes: each length is the least number of blocks
   for what it has to hold (a byte for each bit of a bitmap), and mkfs refuses when no block
   is left, or the metadata in bytes, in 32 bits, reach the size.
   */
  lemma LayoutNumbers(size: nat, inodes: nat, l: Layout)
    requires l == LayoutOf(size, inodes)
    ensures l.numInodes < 0x1_0000_0000 && (inodes - l.numInodes) % 0x1_0000_0000 == 0
    ensures l.numInodes <= 4096 * l.inodeBitmapLength < l.numInodes + 4096
    ensures 64 * l.numInodes <= 4096 * l.inodeTableLength < 64 * l.numInodes + 4096
    ensures var rest := Wrap32(Wrap32(size) / 4096 - 1 - l.inodeBitmapLength);
            rest <= 4096 * l.dataBitmapLength < rest + 4096
    ensures l.freeBlocks == Wrap32(Wrap32(size) / 4096 - l.Reserved())
    ensures l.accepted <==> l.freeBlocks > 0 && Wrap32(4096 * l.Reserved()) < size
  {
    hide CeilBlocks, Wrap32;
    FreeIsRest(size, inodes, l);
    WrapSmall(l.Reserved());
    WrapRemainder(inodes);
    CeilBounds(l.numInodes);
    CeilBounds(l.numInodes * 64);
    CeilBounds(Wrap32(Wrap32(size) / 4096 - 1 - l.inodeBitmapLength));
  }

  lemma WrapRemainder(n: nat)
    ensures Wrap32(n) < 0x1_0000_0000 && (n - Wrap32(n)) % 0x1_0000_0000 == 0
  {
    var q := n / 0x1_0000_0000;
    assert n - Wrap32(n) == q * 0x1_0000_0000;
  }

  /** An image of 4 GiB or more has more blocks than its size in 32 bits accounts for. */
  lemma LargeImageDoesNotFit(size: nat, inodes: nat, l: Layout)
    requires l == LayoutOf(size, inodes) && size >= 0x1_0000_0000
    ensures !FitsExactly(size, l)
  {
    hide LayoutOf;
    FreeIsRest(size, inodes, l);
  }

  lemma FittingIsAccepted(size: nat, inodes: nat, l: Layout)
    requires l == LayoutOf(size, inodes) && FitsExactly(size, l) && size < 0x1_0000_0000
    ensures l.accepted && l.Reserved() < 0x10_0000
  {
    hide CeilBlocks;
    WrapSmall(l.Reserved());
    WrapSmall(l.Reserved() * 4096);
  }

  /**
   For every image of whole blocks: the layout fits exactly if and only if mkfs accepts
   it, the image is smaller than 4 GiB, the number of inodes is not zero in 32 bits, and
   the metadata takes fewer than 2^20 blocks, that is, the product in the check did not
   wrap around.
   */
  lemma LayoutFitsIff(size: nat, inodes: nat)
    requires size % 4096 == 0
    ensures FitsExactly(size, LayoutOf(size, inodes))
        <==> LayoutOf(size, inodes).accepted && size < 0x1_0000_0000 && Wrap32(inodes) > 0
             && LayoutOf(size, inodes).Reserved() < 0x10_0000
  {
    hide Wrap32, CeilBlocks, FitsExactly;
    var l := LayoutOf(size, inodes);
    WrapTwice(inodes);
    WrapBound(inodes);
    NumInodesFit(size, l);
    assert l == LayoutOf(size, Wrap32(inodes));
    if size >= 0x1_0000_0000 {
      LargeImageDoesNotFit(size, inodes, l);
    } else if FitsExactly(size, l) {
      FittingIsAccepted(size, inodes, l);
    } else if l.accepted && Wrap32(inodes) > 0 && l.Reserved() < 0x10_0000 {
      SmallLayoutFits(size, Wrap32(inodes), l);
    }
  }

  lemma NumInodesFit(size: nat, l: Layout)
    ensures FitsExactly(size, l) ==> l.numInodes > 0
  {
  }

  lemma WrapBound(n: int)
    ensures Wrap32(n) < 0x1_0000_0000
  {
  }

  /** An input on which the product wraps: mkfs accepts an inode table four times the image. */
  lemma AcceptsTooManyInodes()
    ensures LayoutOf(0x4000_0000, 0x400_0000).accepted
    ensures !FitsExactly(0x4000_0000, LayoutOf(0x4000_0000, 0x400_0000))
  {
    assert CeilBlocks(0x400_0000) == 0x4000 && CeilBlocks(0x400_0000 * 64) == 0x10_0000;
    assert CeilBlocks(0x3_BFFF) == 60;
    assert Wrap32(0x400_0000) == 0x400_0000 && Wrap32(0x4000_0000) == 0x4000_0000 && Wrap32(0x3_BFFF) == 0x3_BFFF;
    assert Wrap32(0x3_BFFF - 60) == 0x3_BFC3 && Wrap32(0x3_BFC3 - 0x10_0000) == 0xFFF3_BFC3;
    assert Wrap32(0x10_403D) == 0x10_403D && Wrap32(0x10_403D * 4096) == 0x403_D000;
    hide Wrap32, CeilBlocks;
    assert LayoutOf(0x4000_0000, 0x400_0000).freeBlocks == 0xFFF3_BFC3;
  }

  /** The state after formatting a zeroed image and mounting it: a root directory, and nothing else. */
  predicate IsFresh(s: Image) {
    && LayoutOk(s) && s.numInodes > 0
    && s.usedInodes == {ROOT} && s.usedBlocks == {}
    && s.freeInodes == s.numInodes - 1 && s.freeBlocks == s.numBlocks
    && s.Ino(ROOT) == Inode(Directory, 2, 0, 0, s.Ino(ROOT).indirect, 0)
  }

  /** The initial state satisfies the global invariant. */
  lemma FreshIsInvariant(s: Image)
    requires IsFresh(s)
    ensures Invariant(s) && Abs(s) == map[ROOT := Dir([], 2)]
  {
    assert s.Extents(ROOT) == [];
    assert s.AllSlots(ROOT) == [];
    assert InodeOk(s, ROOT);
    assert NodeOf(s, ROOT) == Dir([], 2);
    var a: Tree := Abs(s);
    assert a == map[ROOT := Dir([], 2)];
    assert DirectoryOk(a, ROOT);
    var spots: map<nat, Spot> := map[];
    assert TreeBy(a, spots);
  }
}
