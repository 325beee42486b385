/**
 The items of mdtest: a recursive walk creates them directory by directory, and a
 loop over item numbers finds them again by dividing its way up to the root.
 */
module MdtestItems {
  import opened Arithmetic
  import opened Sequences
  import opened MdtestTree

  /** An item: the path of its directory and its number. */
  datatype Item = Item(dir: Path, num: nat)

  /** The items of one directory, the first of which has number `first`. */
  function Batch(t: Tree, dir: Path, first: nat): (s: seq<Item>)
    ensures |s| == t.perDir
  {
    seq(t.perDir, i requires 0 <= i => Item(dir, first + i))
  }

  /**
   The items that the walk makes from `count` siblings on, the first of which is
   directory `d` on the given level below `path`: each sibling's own items, then
   those of its children.
   */
  function Branches(t: Tree, level: nat, path: Path, d: nat, count: nat): seq<Item>
    decreases t.depth + 1 - level, count
  {
    if level > t.depth || count == 0 then []
    else
      (if HoldsItems(t, level) then Batch(t, path + [d], d * t.perDir) else [])
      + Branches(t, level + 1, path + [d], d * t.b + 1, t.b)
      + Branches(t, level, path, d + 1, count - 1)
  }

  /** All items that the walk makes. */
  function Walk(t: Tree): seq<Item> {
    (if !t.leafOnly || t.depth == 0 then Batch(t, [0], 0) else [])
    + if t.depth > 0 then Branches(t, 1, [0], 1, t.b) else []
  }

  /** The walk itself, which appends to a log what it creates. */
  class Walker {
    const t: Tree
    var made: seq<Item>

    constructor (t: Tree)
      ensures this.t == t && made == []
    {
      this.t, made := t, [];
    }

    method CreateItemsHelper(path: Path, itemNum: nat)
      modifies this
      ensures made == old(made) + Batch(t, path, itemNum)
    {
      for i := 0 to t.perDir
        invariant made == old(made) + Batch(t, path, itemNum)[..i]
      {
        made := made + [Item(path, itemNum + i)];
      }
    }

    method CreateItems(currDepth: nat, path: Path, dirNum: nat)
      requires currDepth == 0 ==> dirNum == 0 && path == [0]
      modifies this
      ensures made == old(made) + if currDepth == 0 then Walk(t) else Branches(t, currDepth, path, dirNum, t.b)
      decreases t.depth + 1 - currDepth, 1
    {
      hide Batch, Sibling, Branches, Walk;
      WalkParts(t);
      if currDepth == 0 {
        if !t.leafOnly || (t.depth == 0 && t.leafOnly) {
          CreateItemsHelper(path, 0);
        }
        if t.depth > 0 {
          CreateItems(1, path, 1);
        }
      } else if currDepth <= t.depth {
        var currDir := dirNum;
        ghost var all := Branches(t, currDepth, path, dirNum, t.b);
        for i := 0 to t.b
          invariant currDir == dirNum + i
          invariant made + Branches(t, currDepth, path, currDir, t.b - i) == old(made) + all
        {
          ghost var before, rest := made, Branches(t, currDepth, path, currDir + 1, t.b - i - 1);
          CreateBranch(currDepth, path, currDir);
          FirstSibling(t, currDepth, path, currDir, t.b - i);
          assert made + rest == before + (Sibling(t, currDepth, path, currDir) + rest);
          currDir := currDir + 1;
        }
      }
    }

    /** One round of the loop over the branches. */
    method CreateBranch(currDepth: nat, path: Path, currDir: nat)
      requires 0 < currDepth <= t.depth
      modifies this
      ensures made == old(made) + Sibling(t, currDepth, path, currDir)
      decreases t.depth + 1 - currDepth, 0
    {
      hide Batch, Branches, Walk;
      var dir := path + [currDir];
      if !t.leafOnly || (t.leafOnly && currDepth == t.depth) {
        CreateItemsHelper(dir, currDir * t.perDir);
      }
      CreateItems(currDepth + 1, dir, currDir * t.b + 1);
    }
  }

  lemma WalkParts(t: Tree)
    ensures Walk(t) == (if !t.leafOnly || t.depth == 0 then Batch(t, [0], 0) else [])
                       + if t.depth > 0 then Branches(t, 1, [0], 1, t.b) else []
    ensures forall level: nat, path: Path, d: nat, count: nat ::
              level > t.depth || count == 0 ==> Branches(t, level, path, d, count) == []
  {
  }

  /** What the walk makes in one sibling and below. */
  function Sibling(t: Tree, level: nat, path: Path, d: nat): seq<Item> {
    (if HoldsItems(t, level) then Batch(t, path + [d], d * t.perDir) else [])
    + Branches(t, level + 1, path + [d], d * t.b + 1, t.b)
  }

  lemma FirstSibling(t: Tree, level: nat, path: Path, d: nat, count: nat)
    requires level <= t.depth && count > 0
    ensures Branches(t, level, path, d, count)
            == Sibling(t, level, path, d) + Branches(t, level, path, d + 1, count - 1)
    ensures Sibling(t, level, path, d) == (if HoldsItems(t, level) then Batch(t, path + [d], d * t.perDir) else [])
                                          + Branches(t, level + 1, path + [d], d * t.b + 1, t.b)
  {
  }

  // ------------------------------------------------------ what the walk makes

  lemma BatchMembers(t: Tree, dir: Path, d: nat, x: Item)
    ensures x in Batch(t, dir, d * t.perDir)
            <==> x.dir == dir && d * t.perDir <= x.num < d * t.perDir + t.perDir
  {
    if x.dir == dir && d * t.perDir <= x.num < d * t.perDir + t.perDir {
      assert Batch(t, dir, d * t.perDir)[x.num - d * t.perDir] == x;
    }
  }

  /** An item lies where its number says: its directory is the quotient, and its path is that directory's. */
  predicate InPlace(t: Tree, x: Item)
    requires t.b > 0 && t.perDir > 0
  {
    x.dir == Dir(t.b, x.num / t.perDir)
  }

  lemma BatchInPlace(t: Tree, d: nat, x: Item)
    requires t.b > 0 && t.perDir > 0
    ensures x in Batch(t, Dir(t.b, d), d * t.perDir) <==> InPlace(t, x) && x.num / t.perDir == d
  {
    BatchMembers(t, Dir(t.b, d), d, x);
    if x.num / t.perDir == d {
      Digits(x.num, x.num + 1, t.perDir) by { MulAtLeast(t.perDir, x.num + 1); }
    } else if d * t.perDir <= x.num < d * t.perDir + t.perDir {
      DivModUnique(x.num, t.perDir, d, x.num - d * t.perDir);
    }
  }

  /** The siblings from `d` on have the directory that `path` names as their parent. */
  ghost predicate Siblings(t: Tree, path: Path, d: nat, count: nat)
    requires t.b > 0
  {
    && d > 0
    && forall e: nat :: d <= e < d + count ==> Dir(t.b, e) == path + [e]
  }

  lemma ChildrenAreSiblings(t: Tree, d: nat)
    requires t.b > 0
    ensures Siblings(t, Dir(t.b, d), d * t.b + 1, t.b)
  {
    MulNonnegative(d, t.b);
    forall c: nat | d * t.b + 1 <= c < d * t.b + 1 + t.b ensures Dir(t.b, c) == Dir(t.b, d) + [c] {
      ChildrenOf(t.b, d, c);
    }
  }

  lemma NextSiblings(t: Tree, path: Path, d: nat, count: nat)
    requires t.b > 0 && count > 0 && Siblings(t, path, d, count)
    ensures d > 0 && Dir(t.b, d) == path + [d]
    ensures Siblings(t, path, d + 1, count - 1)
  {
    hide Dir;
  }

  /** The walk makes exactly the items that lie in place in a directory under the siblings. */
  lemma {:induction false} BranchesMembers(t: Tree, level: nat, path: Path, d: nat, count: nat, x: Item)
    requires t.b > 0 && t.perDir > 0 && Siblings(t, path, d, count)
    ensures x in Branches(t, level, path, d, count)
            <==> InPlace(t, x) && count > 0 && Under(t, level, d, d + count, x.num / t.perDir)
    decreases t.depth + 1 - level, count
  {
    hide Dir, Batch, InPlace, Siblings, HoldsItems;
    var q := x.num / t.perDir;
    if level <= t.depth && count > 0 {
      NextSiblings(t, path, d, count);
      BatchInPlace(t, d, x);
      ChildrenAreSiblings(t, d);
      BranchesMembers(t, level + 1, path + [d], d * t.b + 1, t.b, x);
      BranchesMembers(t, level, path, d + 1, count - 1, x);
      FirstOfSiblings(t, level, d, q);
      RestOfSiblings(t, level, d, count, q);
    }
  }

  lemma FirstOfSiblings(t: Tree, level: nat, d: nat, q: nat)
    requires level <= t.depth
    ensures Under(t, level, d, d + 1, q)
            <==> (HoldsItems(t, level) && q == d) || Under(t, level + 1, d * t.b + 1, d * t.b + 1 + t.b, q)
  {
    assert (d + 1) * t.b + 1 == d * t.b + 1 + t.b;
  }

  lemma RestOfSiblings(t: Tree, level: nat, d: nat, count: nat, q: nat)
    requires t.b > 0 && count > 0
    ensures Under(t, level, d, d + count, q)
            <==> Under(t, level, d, d + 1, q) || (count > 1 && Under(t, level, d + 1, d + count, q))
  {
    hide Under;
    UnderSplits(t, level, d, d + 1, d + count, q);
    if Under(t, level, d + 1, d + count, q) {
      UnderIsAbove(t, level, d + 1, d + count, q);
    }
  }

  /** The walk makes no item twice. */
  lemma {:induction false} BranchesOnce(t: Tree, level: nat, path: Path, d: nat, count: nat, x: Item)
    requires t.b > 0 && t.perDir > 0 && Siblings(t, path, d, count) && d + count <= d * t.b + 1
    ensures multiset(Branches(t, level, path, d, count))[x] <= 1
    decreases t.depth + 1 - level, count
  {
    hide *;
    WalkParts(t);
    if level <= t.depth && count > 0 {
      var q := x.num / t.perDir;
      var own := if HoldsItems(t, level) then Batch(t, path + [d], d * t.perDir) else [];
      var below := Branches(t, level + 1, path + [d], d * t.b + 1, t.b);
      var rest := Branches(t, level, path, d + 1, count - 1);
      FirstSibling(t, level, path, d, count);
      NextSiblings(t, path, d, count);
      ChildrenAreSiblings(t, d);
      Spread(t, d, count);
      BranchesOnce(t, level + 1, path + [d], d * t.b + 1, t.b, x);
      BranchesOnce(t, level, path, d + 1, count - 1, x);
      BatchOnce(t, path + [d], d * t.perDir, x);
      PartsApart(t, level, path, d, count, x);
      CountOfThree(own, below, rest, x);
    }
  }

  /** An item is in one only of: the items of a sibling, what is below it, and the later siblings. */
  lemma PartsApart(t: Tree, level: nat, path: Path, d: nat, count: nat, x: Item)
    requires t.b > 0 && t.perDir > 0 && level <= t.depth && count > 0
    requires Siblings(t, path, d, count) && d + count <= d * t.b + 1
    ensures x in Branches(t, level + 1, path + [d], d * t.b + 1, t.b) ==>
              x !in Batch(t, path + [d], d * t.perDir) && x !in Branches(t, level, path, d + 1, count - 1)
    ensures x in Batch(t, path + [d], d * t.perDir) ==> x !in Branches(t, level, path, d + 1, count - 1)
  {
    hide *;
    NextSiblings(t, path, d, count);
    ChildrenAreSiblings(t, d);
    BatchInPlace(t, d, x);
    BranchesMembers(t, level + 1, path + [d], d * t.b + 1, t.b, x);
    BranchesMembers(t, level, path, d + 1, count - 1, x);
    Apart(t, level, d, count, x.num / t.perDir);
  }

  lemma Spread(t: Tree, d: nat, count: nat)
    requires t.b > 0 && d > 0 && count > 0 && d + count <= d * t.b + 1
    ensures d * t.b + 1 + t.b <= (d * t.b + 1) * t.b + 1
    ensures d + 1 + (count - 1) <= (d + 1) * t.b + 1
  {
    MulAtLeast(t.b, d * t.b) by { MulAtLeast(d, t.b); }
    assert (d * t.b + 1) * t.b == t.b * (d * t.b) + t.b;
    assert (d + 1) * t.b == d * t.b + t.b;
  }

  /** The items of a sibling, of what is under it, and of the later siblings are apart. */
  lemma Apart(t: Tree, level: nat, d: nat, count: nat, q: nat)
    requires t.b > 0 && level <= t.depth && count > 0 && d + count <= d * t.b + 1
    ensures Under(t, level + 1, d * t.b + 1, d * t.b + 1 + t.b, q) ==> q != d && !Under(t, level, d + 1, d + count, q)
    ensures q == d ==> !Under(t, level, d + 1, d + count, q)
  {
    if Under(t, level + 1, d * t.b + 1, d * t.b + 1 + t.b, q) {
      UnderIsAbove(t, level + 1, d * t.b + 1, d * t.b + 1 + t.b, q);
      MulAtLeast(t.b, d);
      FirstOfSiblings(t, level, d, q);
      UnderIsDisjoint(t, level, d, d + 1, d + count, q);
    }
    if Under(t, level, d + 1, d + count, q) {
      UnderIsAbove(t, level, d + 1, d + count, q);
    }
  }

  lemma BatchOnce(t: Tree, dir: Path, first: nat, x: Item)
    ensures multiset(Batch(t, dir, first))[x] <= 1
  {
    var s := Batch(t, dir, first);
    forall i, j | 0 <= i < j < |s| ensures s[i] != s[j] {
      assert s[i].num == first + i && s[j].num == first + j;
    }
    DistinctOnce(s, x);
  }

  lemma CountOfThree(r: seq<Item>, s: seq<Item>, u: seq<Item>, x: Item)
    ensures multiset(r + s + u)[x] == multiset(r)[x] + multiset(s)[x] + multiset(u)[x]
    ensures x !in r <==> multiset(r)[x] == 0
    ensures x !in s <==> multiset(s)[x] == 0
    ensures x !in u <==> multiset(u)[x] == 0
  {
  }

  /** The number of the first item that the walk makes. */
  function FirstItem(t: Tree): nat
    requires t.b > 0
  {
    FirstItemIsNatural(t);
    if t.leafOnly then t.perDir * (NumDirs(t) - Pow(t.b, t.depth)) else 0
  }

  lemma FirstItemIsNatural(t: Tree)
    requires t.b > 0
    ensures t.perDir * (NumDirs(t) - Pow(t.b, t.depth)) >= 0
  {
    NumDirsIsFirst(t);
    MulNonnegative(t.perDir, First(t.b, t.depth));
  }

  /** How many items the walk makes. */
  function ItemCount(t: Tree): nat
    requires t.b > 0
  {
    NumDirsIsFirst(t);
    MulNonnegative(t.perDir, if t.leafOnly then Pow(t.b, t.depth) else NumDirs(t));
    t.perDir * if t.leafOnly then Pow(t.b, t.depth) else NumDirs(t)
  }

  /** The walk makes each item in place, with the numbers in one range, once. */
  lemma WalkMembers(t: Tree, x: Item)
    requires t.b > 0 && t.perDir > 0
    ensures multiset(Walk(t))[x]
            == if InPlace(t, x) && FirstItem(t) <= x.num < FirstItem(t) + ItemCount(t) then 1 else 0
  {
    hide Dir, Batch, InPlace, Siblings, NumDirs, Pow, Branches;
    var q := x.num / t.perDir;
    assert Dir(t.b, 0) == [0] && First(t.b, 0) == 0 && First(t.b, 1) == 1 by { hide *; RootFacts(t.b); }
    ChildrenAreSiblings(t, 0);
    BranchesMembers(t, 1, [0], 1, t.b, x);
    BranchesOnce(t, 1, [0], 1, t.b, x);
    BatchInPlace(t, 0, x);
    BatchOnce(t, [0], 0, x);
    UnderWholeLevel(t, 0, q);
    if Under(t, 1, 1, t.b + 1, q) { UnderIsAbove(t, 1, 1, t.b + 1, q); }
    NumbersOfDirectories(t, x.num);
    BranchesBelowRoot(t);
    CountOfThree([], if HoldsItems(t, 0) then Batch(t, [0], 0) else [], Branches(t, 1, [0], 1, t.b), x);
  }

  lemma RootFacts(b: nat)
    requires b > 0
    ensures Dir(b, 0) == [0] && First(b, 0) == 0 && First(b, 1) == 1
  {
    assert First(b, 1) == First(b, 0) * b + 1;
  }

  lemma BranchesBelowRoot(t: Tree)
    ensures Walk(t) == [] + (if HoldsItems(t, 0) then Batch(t, [0], 0) else []) + Branches(t, 1, [0], 1, t.b)
  {
    hide Batch;
  }

  /** The range of item numbers is that of the directories that hold items. */
  lemma NumbersOfDirectories(t: Tree, num: nat)
    requires t.b > 0 && t.perDir > 0
    ensures FirstItem(t) <= num < FirstItem(t) + ItemCount(t)
            <==> First(t.b, if t.leafOnly then t.depth else 0) <= num / t.perDir < First(t.b, t.depth + 1)
  {
    hide NumDirs, Pow, First;
    NumDirsIsFirst(t);
    var lo, hi := if t.leafOnly then First(t.b, t.depth) else 0, First(t.b, t.depth + 1);
    assert First(t.b, 0) == 0 by { RootFacts(t.b); }
    QuotientBetween(num, t.perDir, lo, hi);
    Scaled(t.perDir, lo, hi);
  }

  lemma Scaled(m: int, lo: int, hi: int)
    ensures m * lo + m * (hi - lo) == m * hi
  {
  }

  lemma QuotientBetween(num: nat, m: nat, lo: nat, hi: nat)
    requires m > 0
    ensures m * lo <= num < m * hi <==> lo <= num / m < hi
  {
    QuotientAtLeast(num, m, lo);
    QuotientAtLeast(num, m, hi);
  }

  lemma QuotientAtLeast(num: nat, m: nat, k: nat)
    requires m > 0
    ensures m * k <= num <==> k <= num / m
  {
    var q, r := num / m, num % m;
    assert num == m * q + r && 0 <= r < m;
    assert m * (q - k) == m * q - m * k;
    if k <= q {
      MulNonnegative(m, q - k);
    } else {
      MulAtLeast(k - q, m);
      assert (k - q) * m == -(m * (q - k));
    }
  }
}
