/**
 The six calls that change the file system, by path; what each promises on the
 namespace; and the theorem that the repaired code keeps the promise in every run.
 */
module Calls {
  import opened Images
  import opened Operations
  import opened Namespace
  import opened Paths
  import opened Resolution
  import opened Soundness
  import opened FileData
  import opened Truncation
  import opened Directories

  datatype Request =
    | MkdirAt(path: string)
    | CreateAt(path: string)
    | RmdirAt(path: string)
    | UnlinkAt(path: string)
    | TruncateAt(path: string, size: nat)
    | WriteAt(path: string, buf: seq<bv8>, off: nat)

  /** path_lookup: a path that is not absolute does not exist. */
  function ResolvePath(a: Tree, path: string): PathResult {
    if IsAbsolute(path) then Lookup(a, Tokens(path)) else Missing
  }

  /** The inode number the callers use; an error code becomes an index outside the table. */
  function InodeAt(s: Image, path: string): nat {
    match ResolvePath(Abs(s), path)
    case Found(i) => i
    case _ => NOT_FOUND
  }

  /** The effect of a call. The kernel passes absolute paths only. */
  function Perform(code: Code, s: Image, req: Request): (Image, Status)
    requires IsAbsolute(req.path)
  {
    match req
    case MkdirAt(path) => MakeNode(code, s, InodeAt(s, ParentPath(path)), ChildName(path), Directory)
    case CreateAt(path) => MakeNode(code, s, InodeAt(s, ParentPath(path)), ChildName(path), Regular)
    case RmdirAt(path) => Rmdir(s, InodeAt(s, ParentPath(path)), InodeAt(s, path))
    case UnlinkAt(path) => Unlink(s, InodeAt(s, ParentPath(path)), InodeAt(s, path))
    case TruncateAt(path, size) => Truncate(code, s, InodeAt(s, path), size)
    case WriteAt(path, buf, off) => Write(code, s, InodeAt(s, path), buf, off)
  }

  // What the kernel has checked before each call

  /** The path has a last component, its parent is a directory, and it does not exist. */
  predicate IsFree(a: Tree, path: string) {
    && IsAbsolute(path) && ChildName(path) != ""
    && ResolvePath(a, ParentPath(path)).Found? && IsDir(a, ResolvePath(a, ParentPath(path)).ino)
    && !ResolvePath(a, path).Found?
  }

  predicate IsFileAt(a: Tree, path: string) {
    var r := ResolvePath(a, path);
    r.Found? && r.ino in a && a[r.ino].File?
  }

  /** A directory other than the root. */
  predicate IsSubdirAt(a: Tree, path: string) {
    var r := ResolvePath(a, path);
    IsAbsolute(path) && ChildName(path) != "" && r.Found? && IsDir(a, r.ino)
  }

  /** Preconditions of the interface. */
  predicate Enabled(s: Image, req: Request) {
    && IsAbsolute(req.path)
    && match req
       case MkdirAt(path) => IsFree(Abs(s), path)
       case CreateAt(path) => IsFree(Abs(s), path)
       case RmdirAt(path) => IsSubdirAt(Abs(s), path)
       case UnlinkAt(path) => ChildName(path) != "" && IsFileAt(Abs(s), path)
       case TruncateAt(path, size) => IsFileAt(Abs(s), path)
       case WriteAt(path, buf, off) => IsFileAt(Abs(s), path) && WriteAllowed(s, InodeAt(s, path), buf, off)
  }

  // What each call promises, on the namespace alone

  ghost predicate MakeSpec(a: Tree, path: string, node: Node, status: Status, b: Tree)
    requires IsFree(a, path)
  {
    match status
    case Done =>
      exists ino: nat :: ino !in a && b == Attach(a, ResolvePath(a, ParentPath(path)).ino, ChildName(path), ino, node)
    case NoSpace => b == a
    case NotEmpty => false
  }

  /** b is a without the node at the path: its entry gone from its parent, the last entry in its place. */
  ghost predicate RemoveSpec(a: Tree, path: string, b: Tree)
    requires IsAbsolute(path)
  {
    var p := ResolvePath(a, ParentPath(path));
    var t := ResolvePath(a, path);
    && p.Found? && t.Found?
    && exists k: nat :: HasEntry(a, p.ino, k) && a[p.ino].entries[k] == Dentry(t.ino, ChildName(path))
                        && b == Detach(a, p.ino, k)
  }

  /** The file gets content c; or, when space runs out, what had room of its growth. */
  ghost predicate ContentSpec(a: Tree, path: string, c: seq<bv8>, stopped: seq<bv8>, status: Status, b: Tree)
    requires IsFileAt(a, path)
  {
    var i := ResolvePath(a, path).ino;
    match status
    case Done => b == a[i := File(c)]
    case NoSpace => b == a[i := File(stopped)]
    case NotEmpty => false
  }

  ghost predicate Spec(s: Image, req: Request, status: Status, b: Tree)
    requires Enabled(s, req)
  {
    var a := Abs(s);
    match req
    case MkdirAt(path) => MakeSpec(a, path, Dir([], 2), status, b)
    case CreateAt(path) => MakeSpec(a, path, File([]), status, b)
    case RmdirAt(path) =>
      if a[ResolvePath(a, path).ino].entries != [] then status == NotEmpty && b == a
      else status == Done && RemoveSpec(a, path, b)
    case UnlinkAt(path) => status == Done && RemoveSpec(a, path, b)
    case TruncateAt(path, size) =>
      var i := InodeAt(s, path);
      ContentSpec(a, path, Resized(a[ResolvePath(a, path).ino].content, size),
                  StoppedContent(s, i, Lacking(s, i, size)), status, b)
    case WriteAt(path, buf, off) =>
      var c := a[ResolvePath(a, path).ino].content;
      var i := InodeAt(s, path);
      ContentSpec(a, path, if buf == [] then c else Overlay(c, off, buf),
                  StoppedContent(s, i, Lacking(s, i, off + |buf|)), status, b)
  }

  /** When there is room for what the call has to add. */
  predicate HasSpace(s: Image, req: Request)
    requires IsAbsolute(req.path)
  {
    match req
    case MkdirAt(path) => CanMake(s, InodeAt(s, ParentPath(path)))
    case CreateAt(path) => CanMake(s, InodeAt(s, ParentPath(path)))
    case RmdirAt(_) => true
    case UnlinkAt(_) => true
    case TruncateAt(path, size) =>
      var i := InodeAt(s, path);
      RoomFor(s, i, Lacking(s, i, size))
    case WriteAt(path, buf, off) =>
      var i := InodeAt(s, path);
      buf == [] || RoomFor(s, i, Lacking(s, i, off + |buf|))
  }

  /** The call keeps the invariant, does what it promises, and is refused only for lack of room. */
  ghost predicate Meets(s: Image, req: Request, t: Image, status: Status)
    requires Enabled(s, req)
  {
    Invariant(t) && Spec(s, req, status, Abs(t)) && (status.NoSpace? <==> !HasSpace(s, req))
  }

  // Resolution of parents and children

  /** A path that exists is an entry of its parent, which exists. */
  lemma ChildOfParent(a: Tree, path: string) returns (p: nat, k: nat)
    requires IsTree(a) && IsAbsolute(path) && ChildName(path) != "" && ResolvePath(a, path).Found?
    ensures ResolvePath(a, ParentPath(path)) == Found(p) && HasEntry(a, p, k)
    ensures a[p].entries[k] == Dentry(ResolvePath(a, path).ino, ChildName(path))
  {
    SplitRejoins(path);
    var names := Tokens(ParentPath(path));
    assert Tokens(path) == names + [ChildName(path)];
    p, k := WalkBack(a, Tokens(path));
    assert Tokens(path)[..|Tokens(path)| - 1] == names;
  }

  /**
   Resolving a path is looking the child up in the resolved parent, unless the path has
   two components and the root is empty.
   */
  lemma ResolvesThroughParentIff(a: Tree, path: string)
    requires IsDir(a, ROOT) && IsAbsolute(path) && ChildName(path) != ""
    ensures ResolvePath(a, path) == (match ResolvePath(a, ParentPath(path))
                                     case Found(p) => Walk(a, p, [ChildName(path)])
                                     case r => r)
            <==> !(a[ROOT].entries == [] && |Tokens(path)| == 2)
  {
    SplitRejoins(path);
    WalkConcat(a, ROOT, Tokens(ParentPath(path)), [ChildName(path)]);
    if a[ROOT].entries == [] && |Tokens(path)| >= 2 {
      assert FindName(a[ROOT].entries, Tokens(ParentPath(path))[0]).None?;
    }
  }

  /** Below an existing parent, a path that does not exist names no entry. */
  lemma FreeNameIsFresh(a: Tree, path: string)
    requires IsTree(a) && IsFree(a, path)
    ensures FindName(a[ResolvePath(a, ParentPath(path)).ino].entries, ChildName(path)).None?
    ensures ValidName(ChildName(path))
  {
    SplitRejoins(path);
    var names, name := Tokens(ParentPath(path)), ChildName(path);
    var p := ResolvePath(a, ParentPath(path)).ino;
    WalkLast(a, names, p, name);
    assert [name][1..] == [];
    assert FindName(a[p].entries, name).Some? ==> Walk(a, ROOT, Tokens(path)).Found?;
    assert names != [] ==> a[ROOT].entries != [];
  }

  /**
   mkdir and create look the parent up after the new inode has been taken; that finds what
   a lookup before would have found.
   */
  lemma LookupMidCreation(s: Image, s1: Image, kind: Kind, path: string)
    requires Invariant(s) && s.freeInodes > 0 && s1 == NewInode(s, kind)
    ensures Sound(s1) && Closed(Abs(s1)) && InodeAt(s1, path) == InodeAt(s, path)
  {
    NewInodeRefines(s, s1, s.FirstFreeInode(), kind);
    TreeIsClosed(Abs(s));
    LookupIgnoresUnnamed(Abs(s), s.FirstFreeInode(), FreshNode(kind), Tokens(path));
  }

  // The repaired code keeps its promises

  /** What making a node has to meet. */
  ghost predicate MakeMeetsSpec(s: Image, path: string, kind: Kind, t: Image, status: Status)
    requires IsFree(Abs(s), path)
  {
    && Invariant(t) && MakeSpec(Abs(s), path, FreshNode(kind), status, Abs(t))
    && (status.NoSpace? <==> !CanMake(s, InodeAt(s, ParentPath(path))))
  }

  lemma MakeMeets(s: Image, path: string, kind: Kind, t: Image, status: Status)
    requires Invariant(s) && IsFree(Abs(s), path)
    requires (t, status) == MakeNode(Repaired, s, InodeAt(s, ParentPath(path)), ChildName(path), kind)
    ensures MakeMeetsSpec(s, path, kind, t, status)
  {
    var a: Tree := Abs(s);
    var p := InodeAt(s, ParentPath(path));
    FreeNameIsFresh(a, path);
    assert LiveDir(s, p);
    MakeNodeRefines(s, t, status, p, ChildName(path), kind);
    if status.Done? {
      AttachKeepsTree(a, p, ChildName(path), s.FirstFreeInode(), FreshNode(kind));
    }
  }

  lemma RmdirMeets(s: Image, path: string, t: Image, status: Status)
    requires Invariant(s) && IsSubdirAt(Abs(s), path)
    requires (t, status) == Rmdir(s, InodeAt(s, ParentPath(path)), InodeAt(s, path))
    ensures Meets(s, RmdirAt(path), t, status)
  {
    var a: Tree := Abs(s);
    var p, k := ChildOfParent(a, path);
    RmdirRefines(s, t, status, p, k, InodeAt(s, path));
    assert a[InodeAt(s, path)].entries == s.Entries(InodeAt(s, path));
  }

  lemma UnlinkMeets(s: Image, path: string, t: Image, status: Status)
    requires Invariant(s) && IsAbsolute(path) && ChildName(path) != "" && IsFileAt(Abs(s), path)
    requires (t, status) == Unlink(s, InodeAt(s, ParentPath(path)), InodeAt(s, path))
    ensures Meets(s, UnlinkAt(path), t, status)
  {
    var a: Tree := Abs(s);
    var p, k := ChildOfParent(a, path);
    UnlinkRefines(s, t, status, p, k, InodeAt(s, path));
  }

  lemma FileAtIsLive(s: Image, path: string)
    requires IsFileAt(Abs(s), path)
    ensures LiveFile(s, InodeAt(s, path)) && Abs(s)[InodeAt(s, path)] == File(s.Content(InodeAt(s, path)))
    ensures InodeAt(s, path) == ResolvePath(Abs(s), path).ino
  {
    var i := InodeAt(s, path);
    assert Abs(s)[i] == NodeOf(s, i);
  }

  /** A namespace in which one file's content has changed is still a tree. */
  lemma ContentKeepsInvariant(s: Image, t: Image, i: nat, c: seq<bv8>)
    requires Invariant(s) && LiveFile(s, i) && Sound(t) && Abs(t) == Abs(s)[i := File(c)]
    ensures Invariant(t)
  {
    assert Abs(s)[i].File?;
    SetContentKeepsTree(Abs(s), i, c);
  }

  /** The content is the one promised, or space has run out. */
  lemma ContentMeets(s: Image, t: Image, path: string, i: nat, c: seq<bv8>, stopped: seq<bv8>, status: Status)
    requires Invariant(s) && IsFileAt(Abs(s), path) && i == InodeAt(s, path) && Sound(t) && !status.NotEmpty?
    requires status.Done? ==> Abs(t) == Abs(s)[i := File(c)]
    requires status.NoSpace? ==> Abs(t) == Abs(s)[i := File(stopped)]
    ensures Invariant(t) && ContentSpec(Abs(s), path, c, stopped, status, Abs(t))
  {
    hide Sound, IsTree;
    FileAtIsLive(s, path);
    ContentKeepsInvariant(s, t, i, if status.Done? then c else stopped);
  }

  lemma TruncateMeetsSpec(s: Image, path: string, size: nat, t: Image, status: Status)
    requires Invariant(s) && IsAbsolute(path) && IsFileAt(Abs(s), path)
    requires (t, status) == Truncate(Repaired, s, InodeAt(s, path), size)
    ensures Meets(s, TruncateAt(path, size), t, status)
  {
    hide Sound, RoomFor, Lacking, Truncate, Resized, ContentSpec, IsTree, StoppedContent, Abs, ResolvePath, InodeAt;
    var i := InodeAt(s, path);
    FileAtIsLive(s, path);
    TruncateRefines(s, t, status, i, size);
    ContentMeets(s, t, path, i, Resized(s.Content(i), size), StoppedContent(s, i, Lacking(s, i, size)), status);
  }

  lemma WriteMeetsSpec(s: Image, path: string, buf: seq<bv8>, off: nat, t: Image, status: Status)
    requires Invariant(s) && Enabled(s, WriteAt(path, buf, off))
    requires (t, status) == Write(Repaired, s, InodeAt(s, path), buf, off)
    ensures Meets(s, WriteAt(path, buf, off), t, status)
  {
    hide Sound, RoomFor, Lacking, Write, Overlay, ContentSpec, IsTree, StoppedContent, Abs, ResolvePath, InodeAt;
    var i := InodeAt(s, path);
    FileAtIsLive(s, path);
    WriteRefines(s, t, status, i, buf, off);
    assert Abs(s)[i := File(s.Content(i))] == Abs(s);
    var c := if buf == [] then s.Content(i) else Overlay(s.Content(i), off, buf);
    ContentMeets(s, t, path, i, c, StoppedContent(s, i, Lacking(s, i, off + |buf|)), status);
  }

  /** Every call of the repaired code keeps the global invariant and meets its specification. */
  lemma RepairedMeets(s: Image, req: Request, t: Image, status: Status)
    requires Invariant(s) && Enabled(s, req) && (t, status) == Perform(Repaired, s, req)
    ensures Meets(s, req, t, status)
  {
    match req
    case MkdirAt(path) => MakeMeets(s, path, Directory, t, status);
    case CreateAt(path) => MakeMeets(s, path, Regular, t, status);
    case RmdirAt(path) => RmdirMeets(s, path, t, status);
    case UnlinkAt(path) => UnlinkMeets(s, path, t, status);
    case TruncateAt(path, size) => TruncateMeetsSpec(s, path, size, t, status);
    case WriteAt(path, buf, off) => WriteMeetsSpec(s, path, buf, off, t, status);
  }
}
