/**
 The directory tree of mdtest on a file system in which a directory can be made
 only with a new name in an existing one, and removed only when it is empty.
 */
module MdtestDirs {
  import opened Arithmetic
  import opened MdtestTree
  import opened MdtestItems

  /** The directory that a path lies in. */
  function Up(p: Path): Path
    requires p != []
  {
    p[..|p| - 1]
  }

  /** There is a root, and every other directory lies in one. */
  ghost predicate Closed(dirs: set<Path>) {
    && [] in dirs
    && forall p :: p in dirs && p != [] ==> Up(p) in dirs
  }

  class FileSystem {
    var dirs: set<Path>
    var warnings: nat

    ghost predicate Valid()
      reads this
    {
      Closed(dirs)
    }

    constructor ()
      ensures Valid() && dirs == {[]} && warnings == 0
    {
      dirs, warnings := {[]}, 0;
    }

    method Mkdir(p: Path) returns (ok: bool)
      modifies this
      ensures ok <==> p != [] && Up(p) in old(dirs) && p !in old(dirs)
      ensures dirs == if ok then old(dirs) + {p} else old(dirs)
      ensures warnings == old(warnings)
      ensures old(Valid()) ==> Valid()
    {
      ok := p != [] && Up(p) in dirs && p !in dirs;
      if ok {
        dirs := dirs + {p};
      }
    }

    method Rmdir(p: Path) returns (ok: bool)
      modifies this
      ensures ok <==> p in old(dirs) && forall q :: q in old(dirs) && q != [] ==> Up(q) != p
      ensures dirs == if ok then old(dirs) - {p} else old(dirs)
      ensures warnings == old(warnings)
      ensures old(Valid()) && p != [] ==> Valid()
    {
      ok := p in dirs && forall q | q in dirs :: q != [] ==> Up(q) != p;
      if ok {
        dirs := dirs - {p};
      }
    }

    method WarnUnless(ok: bool)
      modifies this
      ensures dirs == old(dirs) && warnings == old(warnings) + if ok then 0 else 1
    {
      if !ok {
        warnings := warnings + 1;
      }
    }
  }

  // ---------------------------------------------------------------- the tree

  /** The directories that belong to `count` siblings from `d` on, and all below them. */
  function Made(t: Tree, level: nat, d: nat, count: nat): set<Path>
    requires t.b > 0
    decreases t.depth + 1 - level, count
  {
    if level > t.depth || count == 0 then {}
    else Grown(t, level, d) + Made(t, level, d + 1, count - 1)
  }

  /** A directory and all below it. */
  function Grown(t: Tree, level: nat, d: nat): set<Path>
    requires t.b > 0 && level <= t.depth
    decreases t.depth + 1 - level, 0
  {
    {Dir(t.b, d)} + Made(t, level + 1, d * t.b + 1, t.b)
  }

  function TreeDirs(t: Tree): set<Path>
    requires t.b > 0
  {
    {[0]} + Made(t, 1, 1, t.b)
  }

  /** The directories with numbers below `n`. */
  function AllDirs(b: nat, n: nat): set<Path>
    requires b > 0
  {
    if n == 0 then {} else AllDirs(b, n - 1) + {Dir(b, n - 1)}
  }

  predicate IsDir(b: nat, p: Path)
    requires b > 0
  {
    p != [] && Dir(b, p[|p| - 1]) == p
  }

  function Everywhere(t: Tree): Tree {
    t.(leafOnly := false)
  }

  lemma {:induction false} MadeMembers(t: Tree, level: nat, d: nat, count: nat, p: Path)
    requires t.b > 0
    ensures p in Made(t, level, d, count)
            <==> IsDir(t.b, p) && count > 0 && Under(Everywhere(t), level, d, d + count, p[|p| - 1])
    decreases t.depth + 1 - level, count
  {
    hide Dir;
    if level <= t.depth && count > 0 {
      MadeMembers(t, level + 1, d * t.b + 1, t.b, p);
      MadeMembers(t, level, d + 1, count - 1, p);
      if p != [] {
        FirstOfSiblings(Everywhere(t), level, d, p[|p| - 1]);
        RestOfSiblings(Everywhere(t), level, d, count, p[|p| - 1]);
      }
    }
  }

  /** A directory is apart from what is below it, and its whole from its later siblings'. */
  lemma GrownApart(t: Tree, level: nat, d: nat, count: nat)
    requires t.b > 0 && level <= t.depth && count > 0 && d + count <= d * t.b + 1
    ensures Dir(t.b, d) !in Made(t, level + 1, d * t.b + 1, t.b)
    ensures Grown(t, level, d) !! Made(t, level, d + 1, count - 1)
  {
    hide Dir, Made, Under;
    forall p | p in Grown(t, level, d)
      ensures p !in Made(t, level, d + 1, count - 1)
      ensures p in Made(t, level + 1, d * t.b + 1, t.b) ==> p != Dir(t.b, d)
    {
      MadeMembers(t, level + 1, d * t.b + 1, t.b, p);
      MadeMembers(t, level, d + 1, count - 1, p);
      Apart(Everywhere(t), level, d, count, p[|p| - 1]);
    }
    assert Dir(t.b, d) in Grown(t, level, d);
  }

  /** The directory of siblings is none of what belongs to them. */
  lemma PathIsOutside(t: Tree, level: nat, path: Path, d: nat, count: nat)
    requires t.b > 0 && Siblings(t, path, d, count)
    ensures path !in Made(t, level, d, count)
  {
    hide Made, Under;
    if path in Made(t, level, d, count) {
      MadeMembers(t, level, d, count, path);
      UnderIsAbove(Everywhere(t), level, d, d + count, path[|path| - 1]);
      assert Dir(t.b, d) == path + [d];
      assert Up(Dir(t.b, d)) == path;
      assert false;
    }
  }

  /** What belongs to siblings lies in their directory, or in something else that belongs to them. */
  lemma {:induction false} MadeInside(t: Tree, level: nat, path: Path, d: nat, count: nat, p: Path)
    requires t.b > 0 && Siblings(t, path, d, count)
    requires p in Made(t, level, d, count)
    ensures p != [] && (Up(p) == path || Up(p) in Made(t, level, d, count))
    decreases t.depth + 1 - level, count
  {
    hide Dir, Siblings;
    NextSiblings(t, path, d, count);
    ChildrenAreSiblings(t, d);
    if p == Dir(t.b, d) {
      assert Up(p) == path;
    } else if p in Made(t, level + 1, d * t.b + 1, t.b) {
      MadeInside(t, level + 1, Dir(t.b, d), d * t.b + 1, t.b, p);
    } else {
      MadeInside(t, level, path, d + 1, count - 1, p);
    }
  }

  // --------------------------------------------------------- making, removing

  /** Nothing but what is in `m` lies in `m`. */
  ghost predicate Alone(dirs: set<Path>, m: set<Path>) {
    forall p :: p in dirs && p !in m && p != [] ==> Up(p) !in m
  }

  /** When `m` can be made in `path`, or removed. */
  ghost predicate Ready(create: bool, dirs: set<Path>, path: Path, m: set<Path>) {
    if create then path in dirs && m !! dirs else m <= dirs && Alone(dirs, m)
  }

  function Done(create: bool, dirs: set<Path>, m: set<Path>): set<Path> {
    if create then dirs + m else dirs - m
  }

  /** One sibling after the other. */
  lemma ReadyInParts(t: Tree, create: bool, dirs: set<Path>, level: nat, path: Path, d: nat, count: nat)
    requires t.b > 0 && level <= t.depth && count > 0 && Siblings(t, path, d, count) && d + count <= d * t.b + 1
    requires Ready(create, dirs, path, Made(t, level, d, count))
    ensures Ready(create, dirs, path, Grown(t, level, d))
    ensures path !in Made(t, level + 1, d * t.b + 1, t.b)
    ensures var after := Done(create, dirs, Grown(t, level, d));
            && Ready(create, after, path, Made(t, level, d + 1, count - 1))
            && Done(create, after, Made(t, level, d + 1, count - 1)) == Done(create, dirs, Made(t, level, d, count))
  {
    var all, first, rest := Made(t, level, d, count), Grown(t, level, d), Made(t, level, d + 1, count - 1);
    assert all == first + rest && first == {Dir(t.b, d)} + Made(t, level + 1, d * t.b + 1, t.b);
    hide Dir, Made, Grown, Siblings, Under;
    GrownApart(t, level, d, count);
    PathIsOutside(t, level, path, d, count);
    if !create {
      forall p | p in dirs && p !in first && p != [] ensures Up(p) !in first {
        if p in rest {
          NextSiblings(t, path, d, count);
          MadeInside(t, level, path, d + 1, count - 1, p);
        }
      }
    }
  }

  /** A directory before what is below it, or after. */
  lemma ReadyBelow(t: Tree, create: bool, dirs: set<Path>, level: nat, path: Path, d: nat)
    requires t.b > 0 && level <= t.depth && d + 1 <= d * t.b + 1
    requires path == Up(Dir(t.b, d)) && path !in Made(t, level + 1, d * t.b + 1, t.b)
    requires Ready(create, dirs, path, Grown(t, level, d))
    ensures var m, below := Dir(t.b, d), Made(t, level + 1, d * t.b + 1, t.b);
            if create then
              && m !in dirs && Ready(create, dirs + {m}, m, below)
              && Done(create, dirs + {m}, below) == Done(create, dirs, Grown(t, level, d))
            else
              && Ready(create, dirs, m, below)
              && m in dirs - below && (forall q :: q in dirs - below && q != [] ==> Up(q) != m)
              && dirs - below - {m} == Done(create, dirs, Grown(t, level, d))
  {
    var m, below, all := Dir(t.b, d), Made(t, level + 1, d * t.b + 1, t.b), Grown(t, level, d);
    assert all == {m} + below;
    GrownApart(t, level, d, 1);
    hide Dir, Made, Grown, Under;
    assert |m| == |path| + 1;
  }

  /** The recursion that makes or removes the tree. */
  method CreateRemoveTree(fs: FileSystem, t: Tree, create: bool, currDepth: nat, path: Path, dirNum: nat)
    requires t.b > 0
    requires currDepth == 0 ==> dirNum == 0 && path == []
    requires currDepth > 0 ==> Siblings(t, path, dirNum, t.b) && dirNum + t.b <= dirNum * t.b + 1
    requires Ready(create, fs.dirs, path, if currDepth == 0 then TreeDirs(t) else Made(t, currDepth, dirNum, t.b))
    modifies fs
    ensures fs.dirs
            == Done(create, old(fs.dirs), if currDepth == 0 then TreeDirs(t) else Made(t, currDepth, dirNum, t.b))
    ensures fs.warnings == old(fs.warnings)
    decreases t.depth + 1 - currDepth, 1
  {
    hide Dir, Made, Grown, Siblings, Under, Ready, Done;
    if currDepth == 0 {
      TreeIsGrown(t);
      Branch(fs, t, create, 0, path, 0);
    } else if currDepth <= t.depth {
      var currDir := dirNum;
      for i := 0 to t.b
        invariant currDir == dirNum + i
        invariant Siblings(t, path, currDir, t.b - i) && currDir + (t.b - i) <= currDir * t.b + 1
        invariant Ready(create, fs.dirs, path, Made(t, currDepth, currDir, t.b - i))
        invariant Done(create, fs.dirs, Made(t, currDepth, currDir, t.b - i))
                  == Done(create, old(fs.dirs), Made(t, currDepth, dirNum, t.b))
        invariant fs.warnings == old(fs.warnings)
      {
        ReadyInParts(t, create, fs.dirs, currDepth, path, currDir, t.b - i);
        NextSiblings(t, path, currDir, t.b - i);
        Spread(t, currDir, t.b - i);
        Branch(fs, t, create, currDepth, path, currDir);
        currDir := currDir + 1;
      }
      NothingLeft(t, create, fs.dirs, currDepth, currDir, 0);
    } else {
      NothingLeft(t, create, fs.dirs, currDepth, dirNum, t.b);
    }
  }

  lemma NothingLeft(t: Tree, create: bool, dirs: set<Path>, level: nat, d: nat, count: nat)
    requires t.b > 0 && (level > t.depth || count == 0)
    ensures Done(create, dirs, Made(t, level, d, count)) == dirs
  {
  }

  lemma TreeIsGrown(t: Tree)
    requires t.b > 0
    ensures TreeDirs(t) == Grown(t, 0, 0) && Dir(t.b, 0) == [0]
    ensures [] !in Made(t, 1, 1, t.b)
  {
    MadeMembers(t, 1, 1, t.b, []);
  }

  lemma FirstChild(b: nat, d: nat)
    requires b > 0
    ensures d + 1 <= d * b + 1
    ensures d * b + 1 + b <= (d * b + 1) * b + 1
  {
    MulAtLeast(b, d);
    MulAtLeast(b, d * b);
    assert (d * b + 1) * b == b * (d * b) + b;
  }

  /** One directory, with what is below it. */
  method Branch(fs: FileSystem, t: Tree, create: bool, currDepth: nat, path: Path, currDir: nat)
    requires t.b > 0 && currDepth <= t.depth
    requires Dir(t.b, currDir) == path + [currDir]
    requires path !in Made(t, currDepth + 1, currDir * t.b + 1, t.b)
    requires Ready(create, fs.dirs, path, Grown(t, currDepth, currDir))
    modifies fs
    ensures fs.dirs == Done(create, old(fs.dirs), Grown(t, currDepth, currDir))
    ensures fs.warnings == old(fs.warnings)
    decreases t.depth + 1 - currDepth, 0
  {
    var dir := path + [currDir];
    assert Up(dir) == path;
    assert create ==> path in fs.dirs;
    hide Dir, Made, Grown, Siblings, Under, Ready, Alone, Up;
    ghost var c := currDir * t.b + 1;
    assert t.b * currDir + 1 == c;
    FirstChild(t.b, currDir);
    ChildrenAreSiblings(t, currDir);
    ReadyBelow(t, create, fs.dirs, currDepth, path, currDir);
    assert create ==> path in fs.dirs && dir !in fs.dirs;
    if create {
      var ok := fs.Mkdir(dir);
      fs.WarnUnless(ok);
    }
    CreateRemoveTree(fs, t, create, currDepth + 1, dir, t.b * currDir + 1);
    if !create {
      var ok := fs.Rmdir(dir);
      fs.WarnUnless(ok);
    }
  }

  // ------------------------------------------------------------ the whole tree

  lemma {:induction false} AllDirsMembers(b: nat, n: nat, p: Path)
    requires b > 0
    ensures p in AllDirs(b, n) <==> IsDir(b, p) && p[|p| - 1] < n
  {
    if n > 0 {
      AllDirsMembers(b, n - 1, p);
    }
  }

  lemma {:induction false} AllDirsCount(b: nat, n: nat)
    requires b > 0
    ensures |AllDirs(b, n)| == n
  {
    if n > 0 {
      AllDirsCount(b, n - 1);
      AllDirsMembers(b, n - 1, Dir(b, n - 1));
    }
  }

  /** The tree consists of as many directories as computed: those with numbers below that. */
  lemma TreeIsAllDirs(t: Tree)
    requires t.b > 0
    ensures TreeDirs(t) == AllDirs(t.b, NumDirs(t))
    ensures |TreeDirs(t)| == NumDirs(t)
  {
    hide Dir, NumDirs, Made, AllDirs;
    NumDirsIsFirst(t);
    TreeIsGrown(t);
    RootFacts(t.b);
    AllDirsCount(t.b, NumDirs(t));
    forall p: Path ensures p in TreeDirs(t) <==> p in AllDirs(t.b, NumDirs(t)) {
      InWholeTree(t, p);
      AllDirsMembers(t.b, NumDirs(t), p);
    }
  }

  lemma InWholeTree(t: Tree, p: Path)
    requires t.b > 0
    ensures p in TreeDirs(t) <==> IsDir(t.b, p) && p[|p| - 1] < First(t.b, t.depth + 1)
  {
    assert Made(t, 0, 0, 1) == Grown(t, 0, 0);
    hide Dir, Made, Under;
    TreeIsGrown(t);
    RootFacts(t.b);
    MadeMembers(t, 0, 0, 1, p);
    if p != [] {
      UnderWholeLevel(Everywhere(t), 0, p[|p| - 1]);
    }
  }

  /** Without the directory of the tree's root there is nothing of the tree. */
  lemma {:induction false} NothingWithoutRoot(b: nat, d: nat, dirs: set<Path>)
    requires b > 0 && Closed(dirs) && Dir(b, d) in dirs
    ensures [0] in dirs
    decreases d
  {
    if d > 0 {
      assert Up(Dir(b, d)) == Dir(b, Parent(b, d));
      NothingWithoutRoot(b, Parent(b, d), dirs);
    }
  }

  lemma TreeIsNew(t: Tree, dirs: set<Path>)
    requires t.b > 0 && Closed(dirs) && [0] !in dirs
    ensures TreeDirs(t) !! dirs
    ensures Alone(dirs + TreeDirs(t), TreeDirs(t))
  {
    hide Dir, Made, AllDirs, NumDirs, TreeDirs;
    TreeIsAllDirs(t);
    forall p | p in TreeDirs(t) ensures p !in dirs {
      AllDirsMembers(t.b, NumDirs(t), p);
      if p in dirs {
        NothingWithoutRoot(t.b, p[|p| - 1], dirs);
      }
    }
  }

  /** Making the tree: every directory can be made, and they are as many as computed. */
  method CreateTree(fs: FileSystem, t: Tree)
    requires t.b > 0 && fs.Valid() && [0] !in fs.dirs
    modifies fs
    ensures fs.dirs == old(fs.dirs) + AllDirs(t.b, NumDirs(t))
    ensures |fs.dirs| == |old(fs.dirs)| + NumDirs(t)
    ensures fs.warnings == old(fs.warnings)
  {
    hide Dir, TreeDirs, AllDirs, NumDirs;
    TreeIsAllDirs(t);
    TreeIsNew(t, fs.dirs);
    CreateRemoveTree(fs, t, true, 0, [], 0);
  }

  /** Making the tree and removing it leaves the file system as it was, without a warning. */
  method CreateThenRemoveTree(fs: FileSystem, t: Tree)
    requires t.b > 0 && fs.Valid() && [0] !in fs.dirs
    modifies fs
    ensures fs.dirs == old(fs.dirs)
    ensures fs.warnings == old(fs.warnings)
  {
    hide Dir, TreeDirs, AllDirs, NumDirs;
    TreeIsAllDirs(t);
    TreeIsNew(t, fs.dirs);
    CreateTree(fs, t);
    CreateRemoveTree(fs, t, false, 0, [], 0);
  }

  /** The directories of the tree are those that items are placed in; with items in the leaves only, the leaves. */
  lemma ItemsLieInTree(t: Tree, p: Path)
    requires t.b > 0 && t.perDir > 0
    ensures (exists n: nat :: Item(p, n) in Walk(t))
            <==> p != [] && p in TreeDirs(t) && (t.leafOnly ==> p[|p| - 1] >= First(t.b, t.depth))
  {
    hide Dir, TreeDirs, Walk, First, FirstItem, ItemCount;
    InWholeTree(t, p);
    RootFacts(t.b);
    if n: nat :| Item(p, n) in Walk(t) {
      WalkMembers(t, Item(p, n));
      NumbersOfDirectories(t, n);
    }
    if p != [] && p in TreeDirs(t) && (t.leafOnly ==> p[|p| - 1] >= First(t.b, t.depth)) {
      var n: nat := p[|p| - 1] * t.perDir;
      DivModUnique(n, t.perDir, p[|p| - 1], 0);
      WalkMembers(t, Item(p, n));
      NumbersOfDirectories(t, n);
      assert Item(p, n) in Walk(t);
    }
  }
}
