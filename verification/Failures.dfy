/** For each departure of the code as written, a state that satisfies the invariant and a call that fails there. */
module Failures {
  import opened Images
  import opened Operations
  import opened Namespace
  import opened Paths
  import opened Soundness
  import opened Room
  import opened FileData
  import opened Directories
  import opened Calls
  import opened Deviations
  import opened Mkfs
  import opened RoundTrips
  import opened Runs
  import opened Samples

  /** The call is allowed in a state that satisfies the invariant, and does not meet its specification. */
  ghost predicate FailsAt(s: Image, req: Request)
    requires IsAbsolute(req.path)
  {
    && Invariant(s) && Enabled(s, req)
    && !Meets(s, req, Perform(AsWritten, s, req).0, Perform(AsWritten, s, req).1)
  }

  lemma DeviationFails(s: Image, req: Request)
    requires Invariant(s) && Enabled(s, req) && Deviates(s, req)
    ensures FailsAt(s, req)
  {
    hide Invariant, Deviates, Meets, Perform, Abs;
    var (t, status) := Perform(AsWritten, s, req);
    AsWrittenMeetsIff(s, req, t, status);
  }

  // One file, "a", that holds some blocks

  /** The root's table and block are 0 and 1, the file's table is 2. */
  function OneFile(blocks: nat, fileStart: nat, fileBlocks: nat, fileSize: nat, split: bool): Shape {
    Shape(3, blocks, 1, 0, 1, 2, fileStart, fileBlocks, fileSize, split)
  }

  lemma TruncateFails(x: Shape, s: Image, size: nat)
    requires x.Fits() && s == x.Build() && TruncateDeviates(s, 1, size) && IsAbsolute("/a")
    ensures FailsAt(s, TruncateAt("/a", size))
  {
    hide Shape.Fits, Shape.Build, Invariant, TruncateDeviates, InodeAt, FlatRoot, FailsAt, IsFileAt, Abs, IsFree;
    BuildIsInvariant(x, s);
    BuildPaths(x, s);
    DeviationFails(s, TruncateAt("/a", size));
  }

  lemma WriteFails(x: Shape, s: Image, buf: seq<bv8>, off: nat)
    requires x.Fits() && s == x.Build() && WriteAllowed(s, 1, buf, off) && WriteDeviates(s, 1, buf, off)
    requires IsAbsolute("/a")
    ensures FailsAt(s, WriteAt("/a", buf, off))
  {
    hide Shape.Fits, Shape.Build, Invariant, WriteDeviates, WriteAllowed, InodeAt, FlatRoot, FailsAt, IsFileAt, Abs;
    hide IsFree;
    BuildIsInvariant(x, s);
    BuildPaths(x, s);
    DeviationFails(s, WriteAt("/a", buf, off));
  }

  lemma OneFileFits(x: Shape)
    requires x == OneFile(x.blocks, x.fileStart, x.fileBlocks, x.fileSize, x.split)
    requires 3 <= x.fileStart && x.fileStart + x.fileBlocks <= x.blocks < 0x8000
    requires 0 < x.fileBlocks == CeilBlocks(x.fileSize) <= 512
    ensures x.Fits()
  {
  }

  lemma OneFileNumbers(x: Shape, s: Image)
    requires x == OneFile(x.blocks, x.fileStart, x.fileBlocks, x.fileSize, x.split)
    requires x.Fits() && x.fileBlocks > 0 && s == x.Build()
    ensures s.Ino(1).size == x.fileSize && |s.Blocks(1)| == x.fileBlocks
    ensures s.LastBlock(1) == x.fileStart + x.fileBlocks - 1 && s.Ino(1).extentNum == |x.FileExtents()|
    ensures s.numBlocks == x.blocks && s.freeBlocks == x.blocks - 3 - x.fileBlocks
    ensures forall b: nat :: b in s.usedBlocks <==> b < 3 || x.fileStart <= b < x.fileStart + x.fileBlocks
  {
    BuildFree(x, s);
    BuildFileNumbers(x, s);
  }

  /** a1fs.c:979: a file cut to nothing keeps an extent and its table. */
  lemma CutToNothingFails() returns (s: Image)
    ensures IsAbsolute("/a") && FailsAt(s, TruncateAt("/a", 0))
  {
    hide FailsAt, Image.Blocks, Shape.Fits, Shape.Build, StaleTail;
    var x := OneFile(4, 3, 1, 1, false);
    OneFileFits(x);
    s := x.Build();
    OneFileNumbers(x, s);
    TruncateFails(x, s, 0);
  }

  /** a1fs.c:963: a cut inside an extent frees the last block kept. */
  lemma CutInsideExtentFails() returns (s: Image)
    ensures IsAbsolute("/a") && FailsAt(s, TruncateAt("/a", 4096))
  {
    hide FailsAt, Image.Blocks, Shape.Fits, Shape.Build, StaleTail;
    var x := OneFile(5, 3, 2, 8192, false);
    OneFileFits(x);
    s := x.Build();
    OneFileNumbers(x, s);
    TruncateFails(x, s, 4096);
  }

  /** a1fs.c:972: a cut between extents leaves the bits of the later ones set. */
  lemma CutBetweenExtentsFails() returns (s: Image)
    ensures IsAbsolute("/a") && FailsAt(s, TruncateAt("/a", 4096))
    ensures |s.Extents(1)| == 2 && s.Extents(1)[0].count == 1
  {
    hide FailsAt, Image.Blocks, Shape.Fits, Shape.Build, StaleTail;
    var x := OneFile(5, 3, 2, 8192, true);
    OneFileFits(x);
    s := x.Build();
    OneFileNumbers(x, s);
    BuildFile(x, s);
    TruncateFails(x, s, 4096);
  }

  /** a1fs.c:1004-1015: the byte behind the end of the file is 1, and shows after the extension. */
  lemma StaleTailFails() returns (s: Image)
    ensures IsAbsolute("/a") && FailsAt(s, TruncateAt("/a", 2))
  {
    hide FailsAt, Image.Blocks, Shape.Fits, Shape.Build, FlatBlocks;
    var x := OneFile(4, 3, 1, 1, false);
    OneFileFits(x);
    s := x.Build();
    OneFileNumbers(x, s);
    BuildFile(x, s);
    BuildByte(x, s, 3, 1);
    assert s.Blocks(1)[0] == 3;
    assert s.AllBytes(1)[1] == s.Byte(3, 1) == 1;
    assert StaleTail(s, 1, 2);
    TruncateFails(x, s, 2);
  }

  /** a1fs.c:999-1004: the file gets a size of more than 2^32 and no block. */
  lemma HugeSizeFails() returns (s: Image)
    ensures IsAbsolute("/a") && FailsAt(s, TruncateAt("/a", 0x1_0000_0001))
  {
    hide FailsAt, Image.Blocks, Shape.Fits, Shape.Build, StaleTail;
    var x := OneFile(4, 3, 1, 1, false);
    OneFileFits(x);
    s := x.Build();
    OneFileNumbers(x, s);
    assert BlocksToAdd(AsWritten, s, 1, 0x1_0000_0001) == 0;
    RoomForNone(s, 1);
    TruncateFails(x, s, 0x1_0000_0001);
  }

  /** a1fs.c:1219-1220: a byte written two blocks past the allocation lands at the start of its block. */
  lemma MisplacedWriteFails() returns (s: Image)
    ensures IsAbsolute("/a") && FailsAt(s, WriteAt("/a", [1], 8193)) && !GrowByDeviates(s, 1, 2)
  {
    hide FailsAt, Image.Blocks, Shape.Fits, Shape.Build, RoomFor;
    var x := OneFile(8, 3, 1, 1, false);
    OneFileFits(x);
    s := x.Build();
    OneFileNumbers(x, s);
    RoomForTwo(s);
    var buf: seq<bv8> := [1];
    assert buf[0] != 0 && Lacking(s, 1, 8194) == 2;
    WriteFails(x, s, [1], 8193);
  }

  lemma RoomForTwo(s: Image)
    requires s.Ino(1).size == 1 && s.numBlocks == 8 && s.freeBlocks == 4 && s.LastBlock(1) == 3
    requires s.Ino(1).extentNum == 1 && forall b: nat :: b in s.usedBlocks <==> b < 4
    ensures RoomFor(s, 1, 2)
  {
    assert RunLength(s.usedBlocks, 8, 8) == 0;
    assert RunLength(s.usedBlocks, 4, 8) == 4;
  }

  /** fs_ctx.c:316: the file's last block is the last of the region, and another is free. */
  lemma GrowthPastEndFails() returns (s: Image)
    ensures IsAbsolute("/a") && FailsAt(s, WriteAt("/a", [1], 4096)) && s.Ino(1).size > 0
  {
    hide FailsAt, Image.Blocks, Shape.Fits, Shape.Build, RoomFor;
    var x := OneFile(5, 4, 1, 4096, false);
    OneFileFits(x);
    s := x.Build();
    OneFileNumbers(x, s);
    WriteFails(x, s, [1], 4096);
  }

  /** a1fs.c:1058: an offset of 2^32 is read as 0. */
  lemma ReadFails() returns (s: Image)
    ensures Invariant(s) && IsFileAt(Abs(s), "/a") && |s.Content(1)| == 1 && InodeAt(s, "/a") == 1
    ensures !ReadsExactly(s.Ino(1).size, 1, 0x1_0000_0000)
  {
    hide Shape.Fits, Shape.Build, Image.Content, Image.Blocks, Invariant, IsFileAt, InodeAt, IsFree;
    var x := OneFile(4, 3, 1, 1, false);
    OneFileFits(x);
    s := x.Build();
    OneFileNumbers(x, s);
    BuildIsInvariant(x, s);
    BuildPaths(x, s);
    BuildFileLive(x, s);
  }

  lemma RoomForOne(s: Image, i: nat)
    requires s.Ino(i).size == 0 && s.freeBlocks >= 2
    ensures RoomFor(s, i, 1)
  {
    RunsAtMost(s.usedBlocks + {s.FirstFreeBlock()}, 0, s.numBlocks, 1);
  }

  lemma EmptyFileAllows(t: Image, i: nat)
    requires Sound(t) && LiveFile(t, i) && t.Ino(i).size == 0
    ensures t.Content(i) == [] && WriteAllowed(t, i, [1], 0) && Lacking(t, i, 1) == 1
  {
    FileShape(t, i);
  }

  lemma StoredSize(u: Image, i: nat)
    requires Sound(u) && LiveFile(u, i)
    ensures u.Ino(i).size == |u.Content(i)|
  {
    FileShape(u, i);
  }

  /** One byte written to an empty file by the repaired code. */
  lemma RepairedWriteStores(t: Image, u: Image, status: Status)
    requires Invariant(t) && IsAbsolute("/f") && IsFileAt(Abs(t), "/f") && t.freeBlocks >= 2
    requires t.Ino(InodeAt(t, "/f")).size == 0 && (u, status) == Perform(Repaired, t, WriteAt("/f", [1], 0))
    ensures Invariant(u) && IsFileAt(Abs(u), "/f") && u.Ino(InodeAt(u, "/f")).size == 1
  {
    hide Abs, InodeAt, ResolvePath, RoomFor, Perform, Overlay, Sound, IsTree, WriteAllowed, Lacking;
    var i, c := InodeAt(t, "/f"), t.Content(InodeAt(t, "/f"));
    FileAtIsLive(t, "/f");
    EmptyFileAllows(t, i);
    RoomForOne(t, i);
    RepairedMeets(t, WriteAt("/f", [1], 0), u, status);
    ReadAfterWrite(t, "/f", [1], 0, u);
    FileAtIsLive(t, "/f");
    FileAtIsLive(u, "/f");
    OverlayReads(c, 0, [1]);
    StoredSize(u, i);
  }

  /**
   On a fresh image the repaired code creates a file and stores a byte; the cut as written
   then fails.
   */
  lemma CutAfterRepairedRunFails(s: Image, t: Image, u: Image)
    requires IsFresh(s) && s.numInodes >= 3 && s.numBlocks >= 4 && IsAbsolute("/f")
    requires t == Perform(Repaired, s, CreateAt("/f")).0
    requires u == Perform(Repaired, t, WriteAt("/f", [1], 0)).0
    ensures Leads(Repaired, s, [CreateAt("/f"), WriteAt("/f", [1], 0)], u)
    ensures FailsAt(u, TruncateAt("/f", 0))
  {
    FreshRootIsFree(s);
    PathOfOneName("/f", "f");
    FirstCreateWorks(Repaired, s, t, Perform(Repaired, s, CreateAt("/f")).1);
    RepairedWriteStores(t, u, Perform(Repaired, t, WriteAt("/f", [1], 0)).1);
    StoredFileCutFails(u);
    FileAtIsLive(t, "/f");
    EmptyFileAllows(t, InodeAt(t, "/f"));
    TwoCallsLead(s, t, u, CreateAt("/f"), WriteAt("/f", [1], 0));
  }

  lemma StoredFileCutFails(u: Image)
    requires Invariant(u) && IsAbsolute("/f") && IsFileAt(Abs(u), "/f") && u.Ino(InodeAt(u, "/f")).size == 1
    ensures FailsAt(u, TruncateAt("/f", 0))
  {
    hide FailsAt, Abs, InodeAt, Sound, IsTree, IsFileAt;
    FileAtIsLive(u, "/f");
    FileShape(u, InodeAt(u, "/f"));
    DeviationFails(u, TruncateAt("/f", 0));
  }

  lemma TwoCallsLead(s: Image, t: Image, u: Image, first: Request, second: Request)
    requires Enabled(s, first) && t == Perform(Repaired, s, first).0
    requires Enabled(t, second) && u == Perform(Repaired, t, second).0
    ensures Leads(Repaired, s, [first, second], u)
  {
    hide Enabled, Perform;
    assert [first, second][1..] == [second] && [second][1..] == [];
    assert Leads(Repaired, u, [], u);
    assert Leads(Repaired, t, [second], u);
  }

  // Creating below the root

  lemma MakeFails(s: Image)
    requires Invariant(s) && IsFree(Abs(s), "/f") && InodeAt(s, "/") == ROOT && MakeDeviates(s, ROOT)
    ensures IsAbsolute("/f") && FailsAt(s, CreateAt("/f")) && FailsAt(s, MkdirAt("/f"))
  {
    hide Invariant, MakeDeviates, InodeAt, FailsAt, IsFree, Abs;
    PathOfOneName("/f", "f");
    IsFreeHasName(s, "/f");
    DeviationFails(s, CreateAt("/f"));
    DeviationFails(s, MkdirAt("/f"));
  }

  lemma IsFreeHasName(s: Image, path: string)
    requires IsFree(Abs(s), path)
    ensures IsAbsolute(path)
  {
  }

  lemma MakeInShapeFails(x: Shape, s: Image)
    requires x.Fits() && s == x.Build() && MakeDeviates(s, ROOT)
    ensures IsAbsolute("/f") && FailsAt(s, CreateAt("/f")) && FailsAt(s, MkdirAt("/f"))
  {
    hide Invariant, MakeDeviates, InodeAt, FailsAt, IsFree, Abs, Shape.Fits, Shape.Build;
    BuildIsInvariant(x, s);
    BuildPaths(x, s);
    MakeFails(s);
  }

  /** The root's entries in blocks from `start` on, and the block of its table; the files are empty. */
  function Root(inodes: nat, blocks: nat, entries: nat, table: nat, start: nat): Shape {
    Shape(inodes, blocks, entries, table, start, 0, 0, 0, 0, false)
  }

  lemma RootFits(x: Shape)
    requires x == Root(x.inodes, x.blocks, x.entries, x.rootTable, x.rootStart)
    requires 0 < x.entries < x.inodes <= 0x8000 && x.rootTable < x.blocks < 0x8000 && x.RootBlocks() <= 512
    requires x.rootStart + x.RootBlocks() <= x.blocks
    requires x.rootTable < x.rootStart || x.rootTable >= x.rootStart + x.RootBlocks()
    ensures x.Fits()
  {
  }

  lemma RootNumbers(x: Shape, s: Image)
    requires x == Root(x.inodes, x.blocks, x.entries, x.rootTable, x.rootStart) && x.Fits() && s == x.Build()
    ensures s.Ino(ROOT) == Inode(Directory, 2, 256 * x.entries, x.RootBlocks(), x.rootTable, x.entries)
    ensures s.LastBlock(ROOT) == x.rootStart + x.RootBlocks() - 1 && s.numBlocks == x.blocks
    ensures s.freeInodes == x.inodes - x.entries - 1 && s.freeBlocks == x.blocks - 1 - x.RootBlocks()
    ensures x.rootTable in s.usedBlocks
  {
    BuildFree(x, s);
    BuildRootNumbers(x, s);
  }

  /** a1fs.c:342 and 650: the root's last block is full and the last of the region, and another is free. */
  lemma EntryPastEndFails() returns (s: Image)
    ensures IsAbsolute("/f") && FailsAt(s, CreateAt("/f")) && FailsAt(s, MkdirAt("/f"))
    ensures s.LastBlock(ROOT) + 1 == s.numBlocks
  {
    hide FailsAt, Shape.Build, Shape.Fits, Image.LastBlock;
    var x := Root(19, 3, 16, 0, 2);
    RootFits(x);
    s := x.Build();
    RootNumbers(x, s);
    MakeInShapeFails(x, s);
  }

  /** a1fs.c:364 and 672: the root has 512 full extents, and the block behind the last is its table. */
  lemma ManyExtentsFail() returns (s: Image)
    ensures IsAbsolute("/f") && FailsAt(s, CreateAt("/f")) && FailsAt(s, MkdirAt("/f"))
    ensures s.Ino(ROOT).extentNum == 512
  {
    hide FailsAt, Shape.Build, Shape.Fits, Image.LastBlock;
    var x := Root(8195, 514, 8192, 512, 0);
    RootFits(x);
    s := x.Build();
    RootNumbers(x, s);
    MakeInShapeFails(x, s);
  }

  /** a1fs.c:269 and 568: no block is free, and none is needed. */
  lemma SpareSlotFails() returns (s: Image)
    ensures IsAbsolute("/f") && FailsAt(s, CreateAt("/f")) && FailsAt(s, MkdirAt("/f"))
    ensures s.freeBlocks == 0 && CanMake(s, ROOT)
  {
    hide FailsAt, Shape.Build, Shape.Fits, Image.LastBlock;
    var x := Root(3, 2, 1, 0, 1);
    RootFits(x);
    s := x.Build();
    RootNumbers(x, s);
    MakeInShapeFails(x, s);
  }

  /** a1fs.c:292 and 600: the new inode was the last, and the root is empty. */
  lemma LastInodeFails(s: Image)
    requires IsFresh(s) && s.numInodes == 2 && s.numBlocks >= 2
    ensures IsAbsolute("/f") && FailsAt(s, CreateAt("/f")) && FailsAt(s, MkdirAt("/f"))
  {
    hide FailsAt, IsFree, InodeAt, Invariant, Abs;
    FreshRootIsFree(s);
    MakeFails(s);
  }

  /** a1fs.c:304 and 612: the root's extent table takes the last block. */
  lemma LastBlockFails(s: Image)
    requires IsFresh(s) && s.numInodes >= 3 && s.numBlocks == 1
    ensures IsAbsolute("/f") && FailsAt(s, CreateAt("/f")) && FailsAt(s, MkdirAt("/f"))
  {
    hide FailsAt, IsFree, InodeAt, Invariant, Abs;
    FreshRootIsFree(s);
    MakeFails(s);
  }

  /** a1fs.c:356 and 664: the new inode was the last, and the root needs another extent. */
  lemma LastInodeBeforeExtentFails() returns (s: Image)
    ensures IsAbsolute("/f") && FailsAt(s, CreateAt("/f")) && FailsAt(s, MkdirAt("/f"))
    ensures s.freeInodes == 1 && s.Ino(ROOT).numEntries == 16
  {
    hide FailsAt, Shape.Build, Shape.Fits, Image.LastBlock;
    var x := Root(18, 4, 16, 1, 0);
    RootFits(x);
    s := x.Build();
    RootNumbers(x, s);
    MakeInShapeFails(x, s);
  }
}
