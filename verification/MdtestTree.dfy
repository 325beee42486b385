/**
 The directory tree of mdtest. Directories are numbered level by level: the root
 is 0 and the children of directory `d` are the `b` numbers from `d * b + 1` on.
 A path is the sequence of directory numbers from the root of the tree down.
 */
module MdtestTree {
  import opened Arithmetic

  /** Branch factor, depth, items per directory, and whether only the leaves hold items. */
  datatype Tree = Tree(b: nat, depth: nat, perDir: nat, leafOnly: bool)

  type Path = seq<nat>

  // --------------------------------------------------------------- tree size

  function Pow(b: nat, e: nat): nat {
    if e == 0 then 1 else Pow(b, e - 1) * b
  }

  /** The number of directories, as it is computed before the run. */
  function NumDirs(t: Tree): nat
    requires t.b > 0
  {
    if t.depth <= 0 then 1
    else if t.b == 1 then t.depth + 1
    else
      PowAtLeast(t.b, t.depth + 1);
      (Pow(t.b, t.depth + 1) - 1) / (t.b - 1)
  }

  lemma {:induction false} PowAtLeast(b: nat, e: nat)
    requires b > 0
    ensures Pow(b, e) >= 1
  {
    if e > 0 {
      PowAtLeast(b, e - 1);
      MulAtLeast(Pow(b, e - 1), b);
    }
  }

  /** The number of the first directory on a level. */
  function First(b: nat, level: nat): nat {
    if level == 0 then 0 else First(b, level - 1) * b + 1
  }

  lemma {:induction false} FirstIsGeometric(b: nat, level: nat)
    requires b > 0
    ensures First(b, level + 1) == First(b, level) + Pow(b, level)
    ensures First(b, level) * (b - 1) == Pow(b, level) - 1
  {
    if level > 0 {
      FirstIsGeometric(b, level - 1);
      GeometricStep(First(b, level - 1), Pow(b, level - 1), b);
    }
  }

  lemma GeometricStep(f: int, p: int, b: int)
    requires f * (b - 1) == p - 1
    ensures (f + p) * b == f * b + p * b
    ensures (f * b + 1) * (b - 1) == p * b - 1
  {
    assert f * b * (b - 1) == f * (b - 1) * b;
    assert (f * b + 1) * (b - 1) == f * b * (b - 1) + (b - 1);
    assert (p - 1) * b == p * b - b;
  }

  /** The computed size is the number of the first directory that would lie below the leaves. */
  lemma NumDirsIsFirst(t: Tree)
    requires t.b > 0
    ensures NumDirs(t) == First(t.b, t.depth + 1)
    ensures NumDirs(t) - Pow(t.b, t.depth) == First(t.b, t.depth)
  {
    FirstIsGeometric(t.b, t.depth + 1);
    FirstIsGeometric(t.b, t.depth);
    if t.depth == 0 {
      assert First(t.b, 1) == First(t.b, 0) * t.b + 1;
    } else if t.b == 1 {
      FirstOfLine(t.depth + 1);
    } else {
      DivModUnique(Pow(t.b, t.depth + 1) - 1, t.b - 1, First(t.b, t.depth + 1), 0);
    }
  }

  lemma {:induction false} FirstOfLine(level: nat)
    ensures First(1, level) == level
  {
    if level > 0 {
      FirstOfLine(level - 1);
    }
  }

  // -------------------------------------------------------------------- paths

  function Parent(b: nat, d: nat): (p: nat)
    requires b > 0 && d > 0
    ensures p < d
  {
    ParentIsLess(b, d);
    (d - 1) / b
  }

  lemma ParentIsLess(b: nat, d: nat)
    requires b > 0 && d > 0
    ensures 0 <= (d - 1) / b < d
  {
    MulAtLeast(b, d);
    assert d * b == b * d;
    Digits(d - 1, d, b);
  }

  /** The path of a directory: that of its parent, and its own number. */
  function Dir(b: nat, d: nat): (p: Path)
    requires b > 0
    ensures p != [] && p[|p| - 1] == d
  {
    if d == 0 then [0] else Dir(b, Parent(b, d)) + [d]
  }

  lemma ChildrenOf(b: nat, d: nat, c: nat)
    requires b > 0 && c > 0
    ensures Parent(b, c) == d <==> d * b + 1 <= c < d * b + 1 + b
  {
    if d * b + 1 <= c < d * b + 1 + b {
      DivModUnique(c - 1, b, d, c - 1 - d * b);
    }
  }

  /** Whether directories on a level hold items. */
  predicate HoldsItems(t: Tree, level: nat) {
    !t.leafOnly || level == t.depth
  }

  /**
   Whether directory `d` holds items and is, on `level`, one of the directories
   from `lo` up to `hi`, or on a lower level a descendant of one of them.
   */
  predicate Under(t: Tree, level: nat, lo: nat, hi: nat, d: nat)
    decreases t.depth + 1 - level
  {
    level <= t.depth
    && ((HoldsItems(t, level) && lo <= d < hi) || Under(t, level + 1, lo * t.b + 1, hi * t.b + 1, d))
  }

  lemma {:induction false} UnderIsAbove(t: Tree, level: nat, lo: nat, hi: nat, d: nat)
    requires t.b > 0 && Under(t, level, lo, hi, d)
    ensures lo <= d && lo < hi
    decreases t.depth + 1 - level
  {
    if !(HoldsItems(t, level) && lo <= d < hi) {
      UnderIsAbove(t, level + 1, lo * t.b + 1, hi * t.b + 1, d);
      MulAtLeast(t.b, lo);
      assert lo * t.b == t.b * lo;
      assert (lo - hi) * t.b == lo * t.b - hi * t.b;
      if lo >= hi {
        MulNonnegative(lo - hi, t.b);
      }
    }
  }

  lemma Monotone(b: nat, x: nat, y: nat)
    requires x <= y
    ensures x * b + 1 <= y * b + 1
  {
    MulNonnegative(y - x, b);
    assert (y - x) * b == y * b - x * b;
  }

  /** Splitting a range of siblings splits what is under it. */
  lemma {:induction false} UnderSplits(t: Tree, level: nat, lo: nat, mid: nat, hi: nat, d: nat)
    requires lo <= mid <= hi
    ensures Under(t, level, lo, hi, d) <==> Under(t, level, lo, mid, d) || Under(t, level, mid, hi, d)
    decreases t.depth + 1 - level
  {
    if level <= t.depth {
      Monotone(t.b, lo, mid);
      Monotone(t.b, mid, hi);
      UnderSplits(t, level + 1, lo * t.b + 1, mid * t.b + 1, hi * t.b + 1, d);
    }
  }

  /** Nothing is under two different siblings. */
  lemma {:induction false} UnderIsDisjoint(t: Tree, level: nat, lo: nat, mid: nat, hi: nat, d: nat)
    requires t.b > 0 && lo <= mid <= hi <= lo * t.b + 1
    requires Under(t, level, lo, mid, d)
    ensures !Under(t, level, mid, hi, d)
    decreases t.depth + 1 - level
  {
    Monotone(t.b, lo, mid);
    Monotone(t.b, mid, hi);
    Monotone(t.b, hi, lo * t.b + 1);
    if Under(t, level, mid, hi, d) {
      UnderIsAbove(t, level, mid, hi, d);
      UnderIsAbove(t, level + 1, lo * t.b + 1, mid * t.b + 1, d);
      UnderIsDisjoint(t, level + 1, lo * t.b + 1, mid * t.b + 1, hi * t.b + 1, d);
    }
  }

  /** Under a whole level are all directories from there on; with items in the leaves only, all leaves. */
  lemma {:induction false} UnderWholeLevel(t: Tree, level: nat, d: nat)
    requires t.b > 0 && level <= t.depth
    ensures Under(t, level, First(t.b, level), First(t.b, level + 1), d)
            <==> First(t.b, if t.leafOnly then t.depth else level) <= d < First(t.b, t.depth + 1)
    decreases t.depth - level
  {
    FirstIsGeometric(t.b, level);
    if level < t.depth {
      UnderWholeLevel(t, level + 1, d);
      FirstGrows(t.b, level + 1, t.depth);
      FirstGrows(t.b, level + 1, t.depth + 1);
    }
  }

  lemma {:induction false} FirstGrows(b: nat, i: nat, j: nat)
    requires b > 0 && i <= j
    ensures First(b, i) <= First(b, j)
  {
    if i < j {
      FirstGrows(b, i, j - 1);
      MulAtLeast(b, First(b, j - 1));
      assert First(b, j - 1) * b == b * First(b, j - 1);
    }
  }
}
