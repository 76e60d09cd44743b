/**
 The mounted image as a value: the two bitmaps as sets of set bits, the two free
 counters, the inode table, and the data region seen in the three ways the code
 casts it (extent tables, directory entry slots, raw bytes), each view indexed by
 block number. Every accessor is total: an access outside the image reads a default
 value, and a write outside it raises `fault`.

 Sizes are written as literals, which keeps the index arithmetic linear: a block has
 4096 bytes, or 16 directory entries of 256 bytes, or a table of 512 extents.
 */
module Images {
  import opened Bitmap

  /** What the first-fit search returns when it fails: an index outside every bitmap. */
  const NOT_FOUND: nat := 0xFFFF_FFFF

  datatype Kind = Directory | Regular

  datatype Extent = Extent(start: nat, count: nat)

  datatype Dentry = Dentry(ino: nat, name: string)

  /** `indirect` is the number of the block holding the extent table. */
  datatype Inode = Inode(kind: Kind, links: nat, size: nat, extentNum: nat, indirect: nat, numEntries: nat)

  function Minus(a: nat, b: nat): nat {
    if a >= b then a - b else 0
  }

  /** A 32-bit counter going down by one. */
  function Decrement(n: nat): nat {
    if n == 0 then 0xFFFF_FFFF else n - 1
  }

  /** Conversion to a 32-bit unsigned integer. */
  function Wrap32(n: int): nat {
    n % 0x1_0000_0000
  }

  function CeilBlocks(size: nat): nat {
    (size + 4096 - 1) / 4096
  }

  function Zeros(n: nat): seq<bv8> {
    seq(n, _ => 0)
  }

  function Splice(s: seq<bv8>, a: nat, buf: seq<bv8>): (r: seq<bv8>)
    requires a + |buf| <= |s|
    ensures |r| == |s|
  {
    s[..a] + buf + s[a + |buf|..]
  }

  function Range(start: nat, count: nat): seq<nat> {
    seq(count, (k: nat) => start + k)
  }

  /** The blocks of a list of extents, in file order. */
  function FlatBlocks(extents: seq<Extent>): seq<nat> {
    if extents == [] then []
    else
      var last := extents[|extents| - 1];
      FlatBlocks(extents[..|extents| - 1]) + Range(last.start, last.count)
  }

  function Elements<T>(s: seq<T>): set<T> {
    set x | x in s
  }

  /** The position of the first element that satisfies p. */
  function FirstWhere<T>(xs: seq<T>, p: T -> bool): (r: Option<nat>)
    ensures r.Some? ==> r.value < |xs| && p(xs[r.value])
    ensures r.Some? ==> forall k :: 0 <= k < r.value ==> !p(xs[k])
    ensures r.None? ==> forall k :: 0 <= k < |xs| ==> !p(xs[k])
  {
    if xs == [] then None
    else if p(xs[0]) then Some(0)
    else match FirstWhere(xs[1..], p)
      case None => None
      case Some(k) => Some(k + 1)
  }

  /** The first slot holding the given inode number. */
  function FindIno(slots: seq<Dentry>, ino: nat): (r: Option<nat>)
    ensures r.Some? ==> r.value < |slots| && slots[r.value].ino == ino
    ensures r.Some? ==> forall k :: 0 <= k < r.value ==> slots[k].ino != ino
    ensures r.None? ==> forall k :: 0 <= k < |slots| ==> slots[k].ino != ino
  {
    FirstWhere(slots, (e: Dentry) => e.ino == ino)
  }

  datatype Image = Image(
    numInodes: nat, numBlocks: nat, inodeBits: nat, blockBits: nat,
    usedInodes: set<nat>, usedBlocks: set<nat>,
    freeInodes: nat, freeBlocks: nat,
    inodes: seq<Inode>, tables: seq<Extent>, slots: seq<Dentry>, data: seq<bv8>,
    fault: bool)
  {
    // Reads

    function Ino(i: nat): Inode {
      if i < |inodes| then inodes[i] else Inode(Regular, 0, 0, 0, 0, 0)
    }

    function Ext(b: nat, k: nat): Extent {
      if b * 512 + k < |tables| then tables[b * 512 + k] else Extent(0, 0)
    }

    function Slot(b: nat, k: nat): Dentry {
      if b * 16 + k < |slots| then slots[b * 16 + k] else Dentry(0, "")
    }

    function Byte(b: nat, k: nat): bv8 {
      if b * 4096 + k < |data| then data[b * 4096 + k] else 0
    }

    function Extents(i: nat): (r: seq<Extent>) {
      seq(Ino(i).extentNum, (k: nat) => Ext(Ino(i).indirect, k))
    }

    function Blocks(i: nat): seq<nat> {
      FlatBlocks(Extents(i))
    }

    function LastExtent(i: nat): Extent {
      Ext(Ino(i).indirect, Minus(Ino(i).extentNum, 1))
    }

    function LastBlock(i: nat): nat {
      Minus(LastExtent(i).start + LastExtent(i).count, 1)
    }

    /** Every block an inode holds: its extent table and the blocks of its extents. */
    function Owned(i: nat): seq<nat> {
      if Ino(i).extentNum == 0 then [] else [Ino(i).indirect] + Blocks(i)
    }

    function AllBytes(i: nat): seq<bv8> {
      var bs := Blocks(i);
      seq(4096 * |bs|, (k: nat) requires k < 4096 * |bs| => Byte(bs[k / 4096], k % 4096))
    }

    function AllSlots(i: nat): seq<Dentry> {
      var bs := Blocks(i);
      seq(16 * |bs|, (k: nat) requires k < 16 * |bs| => Slot(bs[k / 16], k % 16))
    }

    function Content(i: nat): seq<bv8> {
      var bytes := AllBytes(i);
      if Ino(i).size <= |bytes| then bytes[..Ino(i).size] else bytes
    }

    /** The live entries of a directory; the slots after them are stale. */
    function Entries(i: nat): seq<Dentry> {
      var all := AllSlots(i);
      if Ino(i).numEntries <= |all| then all[..Ino(i).numEntries] else all
    }

    // Writes

    function PutInode(i: nat, x: Inode): Image {
      if i < |inodes| then this.(inodes := inodes[i := x]) else this.(fault := true)
    }

    function PutExtent(b: nat, k: nat, e: Extent): Image {
      if b * 512 + k < |tables| then this.(tables := tables[b * 512 + k := e])
      else this.(fault := true)
    }

    function PutSlot(b: nat, k: nat, e: Dentry): Image {
      if b * 16 + k < |slots| then this.(slots := slots[b * 16 + k := e])
      else this.(fault := true)
    }

    function PutBytes(a: nat, buf: seq<bv8>): Image {
      if a + |buf| <= |data| then this.(data := Splice(data, a, buf)) else this.(fault := true)
    }

    function SetSize(i: nat, size: nat): Image {
      PutInode(i, Ino(i).(size := size))
    }

    // The two bitmaps and their counters

    function FirstFreeBlock(): nat {
      match FirstFree(usedBlocks, 0, numBlocks)
      case Some(b) => b
      case None => NOT_FOUND
    }

    function FirstFreeInode(): nat {
      match FirstFree(usedInodes, 0, numInodes)
      case Some(i) => i
      case None => NOT_FOUND
    }

    function MarkBlock(b: nat): Image {
      if b < blockBits then this.(usedBlocks := usedBlocks + {b}) else this.(fault := true)
    }

    function UnmarkBlock(b: nat): Image {
      if b < blockBits then this.(usedBlocks := usedBlocks - {b}) else this.(fault := true)
    }

    function TakeBlock(b: nat): Image {
      MarkBlock(b).(freeBlocks := Decrement(freeBlocks))
    }

    function ReleaseBlock(b: nat): Image {
      UnmarkBlock(b).(freeBlocks := freeBlocks + 1)
    }

    function ReleaseAll(bs: seq<nat>): Image {
      if bs == [] then this
      else ReleaseAll(bs[..|bs| - 1]).ReleaseBlock(bs[|bs| - 1])
    }

    function TakeInode(i: nat): Image {
      if i < inodeBits then this.(usedInodes := usedInodes + {i}, freeInodes := Decrement(freeInodes))
      else this.(fault := true, freeInodes := Decrement(freeInodes))
    }

    function ReleaseInode(i: nat): Image {
      if i < inodeBits then this.(usedInodes := usedInodes - {i}, freeInodes := freeInodes + 1)
      else this.(fault := true, freeInodes := freeInodes + 1)
    }

    /** Clears a bit of the data region as if the region were a bitmap. */
    function ScribbleBlock(b: nat): Image {
      var t := this.(freeBlocks := freeBlocks + 1);
      if b < 8 * |data| then t.(data := ClearBit(data, b)) else t.(fault := true)
    }

    function ScribbleAll(bs: seq<nat>): Image {
      if bs == [] then this
      else ScribbleAll(bs[..|bs| - 1]).ScribbleBlock(bs[|bs| - 1])
    }
  }

  // The flat block list of an extent list

  lemma {:induction false} FlatBlocksPrefix(extents: seq<Extent>, m: nat)
    requires m <= |extents|
    ensures FlatBlocks(extents[..m]) <= FlatBlocks(extents)
  {
    if m == |extents| {
      assert extents[..m] == extents;
    } else {
      FlatBlocksPrefix(extents[..|extents| - 1], m);
      assert extents[..|extents| - 1][..m] == extents[..m];
    }
  }

  /** Block j of extent m sits in the flat list after the blocks of the extents before m. */
  lemma FlatBlocksAt(extents: seq<Extent>, m: nat, j: nat)
    requires m < |extents| && j < extents[m].count
    ensures var c := |FlatBlocks(extents[..m])|;
            && c + extents[m].count == |FlatBlocks(extents[..m + 1])| <= |FlatBlocks(extents)|
            && FlatBlocks(extents)[c + j] == extents[m].start + j
  {
    FlatBlocksPrefix(extents, m + 1);
    assert extents[..m + 1][..m] == extents[..m];
  }

  /** Counting blocks extent by extent, as every search does. */
  lemma FlatBlocksCount(extents: seq<Extent>, m: nat)
    requires m < |extents|
    ensures |FlatBlocks(extents[..m + 1])| == |FlatBlocks(extents[..m])| + extents[m].count <= |FlatBlocks(extents)|
  {
    FlatBlocksPrefix(extents, m + 1);
    assert extents[..m + 1][..m] == extents[..m];
  }

  lemma FlatBlocksEnds(extents: seq<Extent>)
    ensures FlatBlocks(extents[..0]) == [] && extents[..|extents|] == extents
  {
  }

  lemma FlatBlocksPush(extents: seq<Extent>, b: nat)
    ensures FlatBlocks(extents + [Extent(b, 1)]) == FlatBlocks(extents) + [b]
  {
    assert (extents + [Extent(b, 1)])[..|extents|] == extents;
  }

  lemma FlatBlocksPop(extents: seq<Extent>)
    requires |extents| > 0 && extents[|extents| - 1].count == 1
    ensures FlatBlocks(extents) == FlatBlocks(extents[..|extents| - 1]) + [extents[|extents| - 1].start]
    ensures FlatBlocks(extents[..0]) == []
  {
  }

  lemma FlatBlocksMerge(extents: seq<Extent>)
    requires |extents| > 0
    ensures var m := |extents| - 1;
            var e := extents[m];
            FlatBlocks(extents[m := e.(count := e.count + 1)]) == FlatBlocks(extents) + [e.start + e.count]
  {
    var m := |extents| - 1;
    var e := extents[m];
    assert extents[m := e.(count := e.count + 1)][..m] == extents[..m];
    assert Range(e.start, e.count + 1) == Range(e.start, e.count) + [e.start + e.count];
  }

  lemma {:induction false} FlatBlocksConcat(xs: seq<Extent>, ys: seq<Extent>)
    ensures FlatBlocks(xs + ys) == FlatBlocks(xs) + FlatBlocks(ys)
  {
    if ys == [] {
      assert xs + ys == xs;
    } else {
      var m := |ys| - 1;
      FlatBlocksConcat(xs, ys[..m]);
      assert (xs + ys)[..|xs + ys| - 1] == xs + ys[..m];
    }
  }

  lemma {:induction false} ReleaseAllEffect(s: Image, bs: seq<nat>)
    requires forall k :: 0 <= k < |bs| ==> bs[k] < s.blockBits
    ensures s.ReleaseAll(bs) ==
            s.(usedBlocks := s.usedBlocks - Elements(bs), freeBlocks := s.freeBlocks + |bs|)
  {
    if bs == [] {
      assert s.usedBlocks - Elements(bs) == s.usedBlocks;
    } else {
      var m := |bs| - 1;
      assert bs == bs[..m] + [bs[m]];
      ReleaseAllEffect(s, bs[..m]);
      assert Elements(bs) == Elements(bs[..m]) + {bs[m]};
      assert s.usedBlocks - Elements(bs) == s.usedBlocks - Elements(bs[..m]) - {bs[m]};
    }
  }
}

