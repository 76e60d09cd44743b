/** Path resolution on the namespace: the component loop of path_lookup, and what it promises. */
module Resolution {
  import opened Bitmap
  import opened Images
  import opened Namespace

  /** `OutOfBounds` is the read of inode -1 after an empty root directory. */
  datatype PathResult = Found(ino: nat) | Missing | NotDirectory | OutOfBounds

  function FindName(entries: seq<Dentry>, name: string): (r: Option<nat>)
    ensures r.Some? ==> r.value < |entries| && entries[r.value].name == name
    ensures r.Some? ==> forall k :: 0 <= k < r.value ==> entries[k].name != name
    ensures r.None? ==> forall k :: 0 <= k < |entries| ==> entries[k].name != name
  {
    FirstWhere(entries, (e: Dentry) => e.name == name)
  }

  /** The component loop, from inode i: the emptiness test comes before the file test. */
  function Walk(a: Tree, i: nat, names: seq<string>): PathResult
    decreases |names|
  {
    if names == [] then Found(i)
    else if i !in a then OutOfBounds
    else match a[i]
      case File(content) => if content == [] then Missing else NotDirectory
      case Dir(entries, _) =>
        match FindName(entries, names[0])
        case None => Missing
        case Some(k) => Walk(a, entries[k].ino, names[1..])
  }

  /** path_lookup on the tokens of an absolute path. */
  function Lookup(a: Tree, names: seq<string>): PathResult {
    if |names| >= 2 && IsDir(a, ROOT) && a[ROOT].entries == [] then OutOfBounds
    else Walk(a, ROOT, names)
  }

  /** What the interface documents: any regular file inside the path is "not a directory". */
  function Documented(a: Tree, i: nat, names: seq<string>): PathResult
    decreases |names|
  {
    if names == [] then Found(i)
    else if i !in a then OutOfBounds
    else match a[i]
      case File(_) => NotDirectory
      case Dir(entries, _) =>
        match FindName(entries, names[0])
        case None => Missing
        case Some(k) => Documented(a, entries[k].ino, names[1..])
  }

  /** Some proper prefix of the path names an empty regular file. */
  ghost predicate CrossesEmptyFile(a: Tree, names: seq<string>) {
    exists m | 0 <= m < |names| :: EmptyFileAt(a, Documented(a, ROOT, names[..m]))
  }

  predicate EmptyFileAt(a: Tree, r: PathResult) {
    r.Found? && r.ino in a && a[r.ino] == File([])
  }

  ghost predicate CrossesFrom(a: Tree, i: nat, names: seq<string>) {
    exists m | 0 <= m < |names| :: EmptyFileAt(a, Documented(a, i, names[..m]))
  }

  lemma CrossesStep(a: Tree, i: nat, names: seq<string>, k: nat)
    requires |names| > 0 && IsDir(a, i) && FindName(a[i].entries, names[0]) == Some(k)
    ensures CrossesFrom(a, i, names) <==> CrossesFrom(a, a[i].entries[k].ino, names[1..])
  {
    var j := a[i].entries[k].ino;
    if CrossesFrom(a, i, names) {
      var m :| 0 <= m < |names| && EmptyFileAt(a, Documented(a, i, names[..m]));
      assert m > 0;
      assert names[..m][1..] == names[1..][..m - 1];
      assert EmptyFileAt(a, Documented(a, j, names[1..][..m - 1]));
    }
    if CrossesFrom(a, j, names[1..]) {
      var m :| 0 <= m < |names[1..]| && EmptyFileAt(a, Documented(a, j, names[1..][..m]));
      assert names[..m + 1][1..] == names[1..][..m];
      assert EmptyFileAt(a, Documented(a, i, names[..m + 1]));
    }
  }

  lemma {:induction false} WalkMeetsDocumentation(a: Tree, i: nat, names: seq<string>)
    ensures Walk(a, i, names) == Documented(a, i, names) <==> !CrossesFrom(a, i, names)
    decreases |names|
  {
    if |names| > 0 && i in a {
      match a[i]
      case File(content) =>
        assert Documented(a, i, names[..0]) == Found(i);
        if CrossesFrom(a, i, names) {
          var m :| 0 <= m < |names| && EmptyFileAt(a, Documented(a, i, names[..m]));
          assert m == 0;
        }
      case Dir(entries, _) =>
        match FindName(entries, names[0]) {
          case None =>
            assert forall m | 0 < m < |names| :: Documented(a, i, names[..m]) == Missing;
          case Some(k) =>
            CrossesStep(a, i, names, k);
            WalkMeetsDocumentation(a, entries[k].ino, names[1..]);
        }
    }
  }

  /**
   path_lookup returns what its interface documents exactly when the path crosses no
   empty regular file and does not go two or more components below an empty root.
   */
  lemma LookupMeetsDocumentationIff(a: Tree, names: seq<string>)
    requires IsDir(a, ROOT)
    ensures Lookup(a, names) == Documented(a, ROOT, names)
            <==> !CrossesEmptyFile(a, names) && !(|names| >= 2 && a[ROOT].entries == [])
  {
    WalkMeetsDocumentation(a, ROOT, names);
    assert CrossesEmptyFile(a, names) == CrossesFrom(a, ROOT, names);
  }

  /** A path through an empty file, and one below an empty root, on which it does not. */
  lemma LookupDeparts(a: Tree, b: Tree)
    requires a == map[ROOT := Dir([Dentry(1, "f")], 2), 1 := File([])] && b == map[ROOT := Dir([], 2)]
    ensures IsTree(a) && Lookup(a, ["f", "x"]) == Missing && Documented(a, ROOT, ["f", "x"]) == NotDirectory
    ensures IsTree(b) && Lookup(b, ["x", "y"]) == OutOfBounds && Documented(b, ROOT, ["x", "y"]) == Missing
  {
    var none: map<nat, Spot> := map[];
    assert DirectoryOk(b, ROOT) && TreeBy(b, none);
    AttachKeepsTree(b, ROOT, "f", 1, File([]));
    assert [] + [Dentry(1, "f")] == [Dentry(1, "f")];
    assert a == Attach(b, ROOT, "f", 1, File([]));
    assert FindName(a[ROOT].entries, "f") == Some(0) && FindName(b[ROOT].entries, "x") == None;
    assert ["f", "x"][1..] == ["x"];
    assert Documented(a, 1, ["x"]) == NotDirectory && Walk(a, 1, ["x"]) == Missing;
  }

  /** Resolution composes: a path is walked by walking its prefix and then the rest. */
  lemma {:induction false} WalkConcat(a: Tree, i: nat, xs: seq<string>, ys: seq<string>)
    ensures Walk(a, i, xs + ys) == match Walk(a, i, xs) case Found(j) => Walk(a, j, ys) case r => r
    decreases |xs|
  {
    if xs == [] {
      assert xs + ys == ys;
    } else if IsDir(a, i) && FindName(a[i].entries, xs[0]).Some? {
      assert (xs + ys)[1..] == xs[1..] + ys;
      WalkConcat(a, a[i].entries[FindName(a[i].entries, xs[0]).value].ino, xs[1..], ys);
    }
  }

  lemma FindNameAt(entries: seq<Dentry>, k: nat)
    requires k < |entries| && DistinctNames(entries)
    ensures FindName(entries, entries[k].name) == Some(k)
  {
  }

  lemma WalkLast(a: Tree, names: seq<string>, d: nat, name: string)
    requires Walk(a, ROOT, names) == Found(d)
    ensures Walk(a, ROOT, names + [name]) == Walk(a, d, [name])
  {
    WalkConcat(a, ROOT, names, [name]);
  }

  /** In a tree, every live inode is reached from the root by some path. */
  lemma {:induction false} EveryInodeReachable(a: Tree, spots: map<nat, Spot>, i: nat) returns (names: seq<string>)
    requires TreeBy(a, spots) && i in a
    ensures Walk(a, ROOT, names) == Found(i)
    decreases Depth(spots, i)
  {
    if i == ROOT {
      names := [];
    } else {
      assert SpotOk(a, spots, i);
      var d, k := spots[i].dir, spots[i].index;
      assert EntryOk(a, spots, d, k) && DirectoryOk(a, d);
      names := EveryInodeReachable(a, spots, d);
      FindNameAt(a[d].entries, k);
      WalkLast(a, names, d, a[d].entries[k].name);
      names := names + [a[d].entries[k].name];
    }
  }

  /** The last step of a successful walk. */
  lemma WalkBack(a: Tree, names: seq<string>) returns (d: nat, k: nat)
    requires |names| > 0 && Walk(a, ROOT, names).Found?
    ensures Walk(a, ROOT, names[..|names| - 1]) == Found(d)
    ensures HasEntry(a, d, k) && a[d].entries[k].name == names[|names| - 1]
    ensures FindName(a[d].entries, names[|names| - 1]) == Some(k)
    ensures Walk(a, ROOT, names) == Found(Child(a, d, k))
  {
    var m := |names| - 1;
    assert names == names[..m] + [names[m]];
    WalkConcat(a, ROOT, names[..m], [names[m]]);
    d := Walk(a, ROOT, names[..m]).ino;
    k := FindName(a[d].entries, names[m]).value;
  }

  lemma SameEntry(a: Tree, spots: map<nat, Spot>, d: nat, k: nat, d': nat, k': nat)
    requires TreeBy(a, spots) && HasEntry(a, d, k) && HasEntry(a, d', k')
    requires Child(a, d, k) == Child(a, d', k')
    ensures d == d' && k == k'
  {
    assert EntryOk(a, spots, d, k) && EntryOk(a, spots, d', k');
  }

  lemma NeverRoot(a: Tree, spots: map<nat, Spot>, d: nat, k: nat)
    requires TreeBy(a, spots) && HasEntry(a, d, k)
    ensures Child(a, d, k) != ROOT
  {
    assert EntryOk(a, spots, d, k);
  }

  lemma RootOnlyByEmptyPath(a: Tree, spots: map<nat, Spot>, names: seq<string>)
    requires TreeBy(a, spots) && Walk(a, ROOT, names) == Found(ROOT)
    ensures names == []
  {
    if names != [] {
      var d, k := WalkBack(a, names);
      NeverRoot(a, spots, d, k);
    }
  }

  lemma {:induction false} PathUniqueBy(a: Tree, spots: map<nat, Spot>, i: nat, xs: seq<string>, ys: seq<string>)
    requires TreeBy(a, spots)
    requires Walk(a, ROOT, xs) == Found(i) && Walk(a, ROOT, ys) == Found(i)
    ensures xs == ys
    decreases |xs|
  {
    if xs == [] || ys == [] {
      RootOnlyByEmptyPath(a, spots, xs);
      RootOnlyByEmptyPath(a, spots, ys);
    } else {
      var m, n := |xs| - 1, |ys| - 1;
      var d, k := WalkBack(a, xs);
      var d', k' := WalkBack(a, ys);
      SameEntry(a, spots, d, k, d', k');
      PathUniqueBy(a, spots, d, xs[..m], ys[..n]);
      assert xs == xs[..m] + [xs[m]] && ys == ys[..n] + [ys[n]];
    }
  }

  /** In a tree every live inode is found, and by one path only. */
  lemma OnePathEach(a: Tree, i: nat) returns (names: seq<string>)
    requires IsTree(a) && i in a
    ensures Walk(a, ROOT, names) == Found(i)
    ensures forall others | Walk(a, ROOT, others) == Found(i) :: others == names
  {
    var spots: map<nat, Spot> :| TreeBy(a, spots);
    names := EveryInodeReachable(a, spots, i);
    forall others | Walk(a, ROOT, others) == Found(i) ensures others == names {
      PathUniqueBy(a, spots, i, others, names);
    }
  }

  /** What a walk finds is a live inode. */
  lemma {:induction false} WalkLive(a: Tree, spots: map<nat, Spot>, i: nat, names: seq<string>)
    requires TreeBy(a, spots) && i in a
    ensures Walk(a, i, names) != OutOfBounds
    ensures Walk(a, i, names).Found? ==> Walk(a, i, names).ino in a
    decreases |names|
  {
    if names != [] && IsDir(a, i) && FindName(a[i].entries, names[0]).Some? {
      var k := FindName(a[i].entries, names[0]).value;
      assert HasEntry(a, i, k) && EntryOk(a, spots, i, k);
      WalkLive(a, spots, Child(a, i, k), names[1..]);
    }
  }

  /** A node nobody names does not change a walk between the others. */
  lemma {:induction false} WalkIgnoresUnnamed(a: Tree, ino: nat, node: Node, i: nat, names: seq<string>)
    requires Closed(a) && ino !in a && i in a
    ensures Walk(a[ino := node], i, names) == Walk(a, i, names)
    decreases |names|
  {
    if names != [] && IsDir(a, i) && FindName(a[i].entries, names[0]).Some? {
      var k := FindName(a[i].entries, names[0]).value;
      assert HasEntry(a, i, k) && Child(a, i, k) in a;
      WalkIgnoresUnnamed(a, ino, node, Child(a, i, k), names[1..]);
    }
  }

  /** In the middle of a creation, with the new node not yet named, lookup is as before. */
  lemma LookupIgnoresUnnamed(a: Tree, ino: nat, node: Node, names: seq<string>)
    requires Closed(a) && ino !in a && (node.Dir? ==> node.entries == [])
    ensures Closed(a[ino := node]) && Lookup(a[ino := node], names) == Lookup(a, names)
  {
    var b := a[ino := node];
    WalkIgnoresUnnamed(a, ino, node, ROOT, names);
    forall d: nat, k: nat | HasEntry(b, d, k) ensures Child(b, d, k) in b {
      assert HasEntry(a, d, k) && Child(a, d, k) in a;
    }
  }

  lemma FindNamePush(entries: seq<Dentry>, e: Dentry, name: string)
    ensures FindName(entries, name).Some? ==> FindName(entries + [e], name) == FindName(entries, name)
    ensures FindName(entries, name).None? && e.name == name ==> FindName(entries + [e], name) == Some(|entries|)
  {
    var more := entries + [e];
    assert forall k | 0 <= k < |entries| :: more[k] == entries[k];
    assert more[|entries|] == e;
  }

  /** Attaching a node keeps every walk that succeeded. */
  lemma {:induction false} WalkAfterAttach(a: Tree, spots: map<nat, Spot>, p: nat, name: string, ino: nat, node: Node,
                                           i: nat, names: seq<string>)
    requires TreeBy(a, spots) && IsDir(a, p) && ino !in a && i in a && Walk(a, i, names).Found?
    ensures Walk(Attach(a, p, name, ino, node), i, names) == Walk(a, i, names)
    decreases |names|
  {
    if names != [] {
      var k := FindName(a[i].entries, names[0]).value;
      assert HasEntry(a, i, k) && EntryOk(a, spots, i, k);
      FindNamePush(a[i].entries, Dentry(ino, name), names[0]);
      WalkAfterAttach(a, spots, p, name, ino, node, Child(a, i, k), names[1..]);
    }
  }

  /** The content of a file does not matter to the walks that succeed. */
  lemma {:induction false} WalkIgnoresContent(a: Tree, f: nat, c: seq<bv8>, i: nat, names: seq<string>)
    requires f in a && a[f].File? && Walk(a, i, names).Found?
    ensures Walk(a[f := File(c)], i, names) == Walk(a, i, names)
    decreases |names|
  {
    if names != [] {
      var k := FindName(a[i].entries, names[0]).value;
      WalkIgnoresContent(a, f, c, a[i].entries[k].ino, names[1..]);
    }
  }

  /** After attaching, the new path finds the new node. */
  lemma AttachedIsFound(a: Tree, spots: map<nat, Spot>, parent: seq<string>, p: nat, name: string, ino: nat, node: Node)
    requires TreeBy(a, spots) && IsDir(a, p) && ino !in a && Walk(a, ROOT, parent) == Found(p)
    requires FindName(a[p].entries, name).None?
    ensures Walk(Attach(a, p, name, ino, node), ROOT, parent) == Found(p)
    ensures Walk(Attach(a, p, name, ino, node), ROOT, parent + [name]) == Found(ino)
  {
    var b := Attach(a, p, name, ino, node);
    WalkAfterAttach(a, spots, p, name, ino, node, ROOT, parent);
    WalkLast(b, parent, p, name);
    FindNamePush(a[p].entries, Dentry(ino, name), name);
    assert [name][1..] == [];
  }
}
