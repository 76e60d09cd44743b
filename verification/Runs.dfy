/** Whole runs: the invariant in every reachable state, and what it says. */
module Runs {
  import opened Bitmap
  import opened Images
  import opened Operations
  import opened Namespace
  import opened Paths
  import opened Resolution
  import opened Soundness
  import opened FileData
  import opened Directories
  import opened Calls
  import opened Deviations
  import opened Mkfs
  import opened RoundTrips

  /** A sequence of calls, each one allowed where it happens, leads from s to t. */
  ghost predicate Leads(code: Code, s: Image, reqs: seq<Request>, t: Image)
    decreases |reqs|
  {
    if reqs == [] then t == s
    else Enabled(s, reqs[0]) && Leads(code, Perform(code, s, reqs[0]).0, reqs[1..], t)
  }

  /** The namespace the calls promise: each meets its specification from where the last one ended. */
  ghost predicate Promised(s: Image, reqs: seq<Request>, t: Image)
    decreases |reqs|
  {
    if reqs == [] then t == s
    else Enabled(s, reqs[0]) && exists s1, status :: Meets(s, reqs[0], s1, status) && Promised(s1, reqs[1..], t)
  }

  /** No call of the run deviates. */
  ghost predicate NeverDeviates(s: Image, reqs: seq<Request>)
    decreases |reqs|
  {
    reqs == [] || (Enabled(s, reqs[0]) && !Deviates(s, reqs[0])
                   && NeverDeviates(Perform(AsWritten, s, reqs[0]).0, reqs[1..]))
  }

  /** Every run of the repaired code keeps the invariant, and every call in it meets its specification. */
  lemma {:induction false} RunKeepsInvariant(s: Image, reqs: seq<Request>, t: Image)
    requires Invariant(s) && Leads(Repaired, s, reqs, t)
    ensures Invariant(t) && Promised(s, reqs, t)
    decreases |reqs|
  {
    if reqs != [] {
      var (s1, status) := Perform(Repaired, s, reqs[0]);
      RepairedMeets(s, reqs[0], s1, status);
      RunKeepsInvariant(s1, reqs[1..], t);
    }
  }

  /** So does every run of the code as written in which no call deviates. */
  lemma {:induction false} CleanRunKeepsInvariant(s: Image, reqs: seq<Request>, t: Image)
    requires Invariant(s) && Leads(AsWritten, s, reqs, t) && NeverDeviates(s, reqs)
    ensures Invariant(t) && Promised(s, reqs, t)
    decreases |reqs|
  {
    if reqs != [] {
      var (s1, status) := Perform(AsWritten, s, reqs[0]);
      AsWrittenMeetsIff(s, reqs[0], s1, status);
      CleanRunKeepsInvariant(s1, reqs[1..], t);
    }
  }

  /** The first call that deviates breaks the promise, after any clean run. */
  lemma FirstDeviationBreaks(s: Image, reqs: seq<Request>, t: Image, req: Request, u: Image, status: Status)
    requires Invariant(s) && Leads(AsWritten, s, reqs, t) && NeverDeviates(s, reqs)
    requires Enabled(t, req) && Deviates(t, req) && (u, status) == Perform(AsWritten, t, req)
    ensures !Meets(t, req, u, status)
  {
    CleanRunKeepsInvariant(s, reqs, t);
    AsWrittenMeetsIff(t, req, u, status);
  }

  // What the invariant says

  /** The states this is about: after a run from a fresh image, without deviations when the code is as written. */
  ghost predicate Reached(code: Code, s: Image, reqs: seq<Request>, t: Image) {
    IsFresh(s) && Leads(code, s, reqs, t) && (code.AsWritten? ==> NeverDeviates(s, reqs))
  }

  /** Every reachable state satisfies the invariant. */
  lemma ReachedInvariant(code: Code, s: Image, reqs: seq<Request>, t: Image)
    requires Reached(code, s, reqs, t)
    ensures Invariant(t)
  {
    FreshIsInvariant(s);
    if code.Repaired? {
      RunKeepsInvariant(s, reqs, t);
    } else {
      CleanRunKeepsInvariant(s, reqs, t);
    }
  }

  /**
   In every state reached from a fresh image: no write has left the image, each counter
   is the number of clear bits of its bitmap, and a block is marked exactly when one
   live inode holds it, at one place.
   */
  lemma ReachableBlocks(code: Code, s: Image, reqs: seq<Request>, t: Image)
    requires Reached(code, s, reqs, t)
    ensures !t.fault
    ensures t.freeBlocks == |Below(t.numBlocks) - t.usedBlocks| && t.freeInodes == |Below(t.numInodes) - t.usedInodes|
    ensures forall b: nat :: b in t.usedBlocks ==> b < t.numBlocks && Covered(t, b)
    ensures forall i: nat :: i in t.usedInodes ==> NoDuplicates(t.Owned(i)) && Elements(t.Owned(i)) <= t.usedBlocks
    ensures forall i: nat, j: nat :: i in t.usedInodes && j in t.usedInodes && i != j ==> Apart(t, i, j)
  {
    ReachedInvariant(code, s, reqs, t);
    CountsClearBits(t.usedBlocks, t.numBlocks, t.freeBlocks);
    CountsClearBits(t.usedInodes, t.numInodes, t.freeInodes);
    forall i: nat | i in t.usedInodes ensures NoDuplicates(t.Owned(i)) && Elements(t.Owned(i)) <= t.usedBlocks {
      assert InodeOk(t, i);
    }
    forall b: nat | b in t.usedBlocks ensures b < t.numBlocks && Covered(t, b) {
    }
  }

  /** In every reachable state each live inode is found by exactly one path. */
  lemma ReachablePaths(code: Code, s: Image, reqs: seq<Request>, t: Image, i: nat) returns (names: seq<string>)
    requires Reached(code, s, reqs, t) && i in t.usedInodes
    ensures Walk(Abs(t), ROOT, names) == Found(i)
    ensures forall others | Walk(Abs(t), ROOT, others) == Found(i) :: others == names
  {
    ReachedInvariant(code, s, reqs, t);
    names := OnePathEach(Abs(t), i);
  }

  /** In every reachable state a directory has 2 links and one more for each subdirectory. */
  lemma ReachableLinks(code: Code, s: Image, reqs: seq<Request>, t: Image, d: nat)
    requires Reached(code, s, reqs, t) && LiveDir(t, d)
    ensures t.Ino(d).links == 2 + Subdirs(Abs(t), t.Entries(d)) && DistinctNames(t.Entries(d))
    ensures t.Ino(d).size == 256 * |t.Entries(d)|
    ensures t.Ino(d).numEntries == |t.Entries(d)|
  {
    ReachedInvariant(code, s, reqs, t);
    var spots: map<nat, Spot> :| TreeBy(Abs(t), spots);
    assert Abs(t)[d] == NodeOf(t, d);
    DirShape(t, d);
    assert DirectoryOk(Abs(t), d);
  }

  /** There are fresh images: this one has three inodes and four blocks. */
  lemma FreshImageExists() returns (s: Image)
    ensures IsFresh(s) && s.numInodes == 3 && s.numBlocks == 4
  {
    var none, root := Inode(Regular, 0, 0, 0, 0, 0), Inode(Directory, 2, 0, 0, 0, 0);
    s := Image(3, 4, 8, 8, {ROOT}, {}, 2, 4, [root, none, none],
               seq(512 * 4, _ => Extent(0, 0)), seq(16 * 4, _ => Dentry(0, "")), Zeros(4096 * 4), false);
  }

  // What a run of the code as written can store

  /** No file holds a byte. */
  ghost predicate OnlyEmptyFiles(a: Tree) {
    forall i: nat | i in a && a[i].File? :: a[i].content == []
  }

  lemma EmptyCannotGrow(s: Image, i: nat, n: nat)
    requires s.Ino(i).size == 0 && s.freeBlocks < 2 && n > 0
    ensures Grow(AsWritten, s, i) == (s, false) && GrowBy(AsWritten, s, i, n) == (s, false)
  {
    GrowByOnce(AsWritten, s, s, false, i, n);
  }

  /** A truncation of an empty file that does not deviate changes nothing. */
  lemma CleanTruncateOfEmpty(s: Image, i: nat, size: nat)
    requires Sound(s) && LiveFile(s, i) && s.Ino(i).size == 0 && !TruncateDeviates(s, i, size)
    ensures Truncate(AsWritten, s, i, size).0 == s
  {
    hide Grow, GrowBy;
    FileShape(s, i);
    if size > 0 {
      if size < 0x1_0000_0000 {
        BlocksToAddAgree(s, i, size);
      }
      EmptyCannotGrow(s, i, BlocksToAdd(AsWritten, s, i, size));
    }
  }

  /** Nor does a write that does not deviate. */
  lemma CleanWriteOfEmpty(s: Image, i: nat, buf: seq<bv8>, off: nat)
    requires Sound(s) && LiveFile(s, i) && s.Ino(i).size == 0 && !WriteDeviates(s, i, buf, off)
    ensures Write(AsWritten, s, i, buf, off).0 == s
  {
    hide Grow;
    FileShape(s, i);
    if buf != [] {
      assert Lacking(s, i, off + |buf|) > 0;
      EmptyCannotGrow(s, i, 1);
    }
  }

  lemma FileIsEmpty(s: Image, path: string)
    requires Sound(s) && OnlyEmptyFiles(Abs(s)) && IsFileAt(Abs(s), path)
    ensures LiveFile(s, InodeAt(s, path)) && s.Ino(InodeAt(s, path)).size == 0
  {
    FileAtIsLive(s, path);
    EmptyFileHasNoSize(s, InodeAt(s, path));
  }

  lemma CleanCallStoresNothing(s: Image, req: Request, t: Image, status: Status)
    requires Invariant(s) && OnlyEmptyFiles(Abs(s)) && Enabled(s, req) && !Deviates(s, req)
    requires (t, status) == Perform(AsWritten, s, req)
    ensures OnlyEmptyFiles(Abs(t))
  {
    hide Sound, IsTree, Abs, ResolvePath, MakeNode, Rmdir, Unlink, Truncate, Write, WriteDeviates, TruncateDeviates;
    hide MakeDeviates, InodeAt, HasSpace;
    AsWrittenMeetsIff(s, req, t, status);
    match req
    case MkdirAt(_) =>
    case CreateAt(_) =>
    case RmdirAt(_) =>
    case UnlinkAt(_) =>
    case TruncateAt(path, size) =>
      FileIsEmpty(s, path);
      CleanTruncateOfEmpty(s, InodeAt(s, path), size);
    case WriteAt(path, buf, off) =>
      FileIsEmpty(s, path);
      CleanWriteOfEmpty(s, InodeAt(s, path), buf, off);
  }

  lemma {:induction false} CleanRunStoresNothing(s: Image, reqs: seq<Request>, t: Image)
    requires Invariant(s) && OnlyEmptyFiles(Abs(s)) && Leads(AsWritten, s, reqs, t) && NeverDeviates(s, reqs)
    ensures OnlyEmptyFiles(Abs(t))
    decreases |reqs|
  {
    hide Invariant, Abs, Perform, Deviates, OnlyEmptyFiles, Meets;
    if reqs != [] {
      var (s1, status) := Perform(AsWritten, s, reqs[0]);
      CleanCallStoresNothing(s, reqs[0], s1, status);
      AsWrittenMeetsIff(s, reqs[0], s1, status);
      MeetsKeepsInvariant(s, reqs[0], s1, status);
      CleanRunStoresNothing(s1, reqs[1..], t);
    }
  }

  lemma MeetsKeepsInvariant(s: Image, req: Request, t: Image, status: Status)
    requires Enabled(s, req) && Meets(s, req, t, status)
    ensures Invariant(t)
  {
  }

  /**
   From a fresh image the code as written never stores a byte before it deviates: the
   first growth of any file with room is wrong.
   */
  lemma ReachedFilesAreEmpty(s: Image, reqs: seq<Request>, t: Image)
    requires Reached(AsWritten, s, reqs, t)
    ensures OnlyEmptyFiles(Abs(t))
  {
    FreshIsInvariant(s);
    CleanRunStoresNothing(s, reqs, t);
  }

  // A short run in which the code as written goes wrong

  lemma FreshRootIsFree(s: Image)
    requires IsFresh(s)
    ensures Invariant(s) && IsFree(Abs(s), "/f") && InodeAt(s, "/") == ROOT
  {
    FreshIsInvariant(s);
    PathOfOneName("/f", "f");
    assert FindName([], "f") == None;
    assert Walk(Abs(s), ROOT, ["f"]) == Missing;
  }

  /** Creating the file does not deviate, so the file is there, and empty. */
  lemma FirstCreateWorks(code: Code, s: Image, t: Image, status: Status)
    requires IsFresh(s) && s.numInodes >= 3 && s.numBlocks >= 4
    requires (t, status) == MakeNode(code, s, ROOT, "f", Regular)
    ensures status == Done && Invariant(t) && t.freeBlocks >= 2
    ensures ResolvePath(Abs(t), "/f").Found? && IsFileAt(Abs(t), "/f") && t.Ino(InodeAt(t, "/f")).size == 0
  {
    FreshRootIsFree(s);
    PathOfOneName("/f", "f");
    assert LiveDir(s, ROOT) && HasRoom(s, ROOT);
    MakeAgrees(s, ROOT, "f", Regular);
    MakeMeets(s, "/f", Regular, t, status);
    MakeNodeRefines(s, t, status, ROOT, "f", Regular);
    FirstCreateCounts(s, t);
    var ino := s.FirstFreeInode();
    CreatedResolves(Abs(s), Abs(t), "/f", ino, File([]));
    assert Abs(t)[ino] == File([]) && Abs(t)[ino] == NodeOf(t, ino);
    EmptyFileHasNoSize(t, ino);
  }

  lemma FirstCreateCounts(s: Image, t: Image)
    requires IsFresh(s) && s.numInodes >= 3 && s.numBlocks >= 4
    requires t == MakeNode(AsWritten, s, ROOT, "f", Regular).0
    ensures t.freeBlocks == s.freeBlocks - 2
  {
  }

  /** On a fresh image with room, writing one byte to a new file breaks the invariant. */
  lemma FirstWriteBreaks(s: Image, t: Image, created: Status, u: Image, written: Status)
    requires IsFresh(s) && s.numInodes >= 3 && s.numBlocks >= 4
    requires IsAbsolute("/f") && (t, created) == Perform(AsWritten, s, CreateAt("/f"))
    requires (u, written) == Perform(AsWritten, t, WriteAt("/f", [1], 0))
    ensures Enabled(s, CreateAt("/f")) && Enabled(t, WriteAt("/f", [1], 0))
    ensures Invariant(t) && !Meets(t, WriteAt("/f", [1], 0), u, written)
  {
    FreshRootIsFree(s);
    PathOfOneName("/f", "f");
    FirstCreateWorks(AsWritten, s, t, created);
    var i := InodeAt(t, "/f");
    FileAtIsLive(t, "/f");
    FileShape(t, i);
    AsWrittenMeetsIff(t, WriteAt("/f", [1], 0), u, written);
  }
}
