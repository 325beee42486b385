/**
 The phases of mdtest that visit the items by number: the sizes they are bounded
 by, the random order they may follow, and the path they build for each item.
 */
module MdtestStat {
  import opened Arithmetic
  import opened Sequences
  import opened MdtestTree
  import opened MdtestItems

  /**
   The sizes for a run, from the items per directory or the total that the user
   gave (zero is not given). A total alone is rounded down to full directories. If
   both are given they stay as they are; one directory loop means that they are equal.
   */
  method ComputeSizes(b: nat, depth: nat, leafOnly: bool, givenPerDir: nat, givenItems: nat)
    returns (perDir: nat, items: nat, numDirs: nat)
    requires b > 0
    requires givenPerDir == 0 || givenItems == 0 || givenItems == givenPerDir
    ensures numDirs == NumDirs(Tree(b, depth, perDir, leafOnly))
    ensures givenPerDir == 0 || givenItems == 0 ==> items == ItemCount(Tree(b, depth, perDir, leafOnly))
    ensures givenPerDir > 0 && givenItems > 0 ==> items == givenItems
    ensures givenPerDir > 0 ==> perDir == givenPerDir
    ensures givenPerDir == 0 ==>
              items <= givenItems < items + ItemCount(Tree(b, depth, 1, leafOnly))
  {
    hide Pow, NumDirs;
    perDir, items := givenPerDir, givenItems;
    ghost var t := Tree(b, depth, 1, leafOnly);
    SizesArePositive(t);
    numDirs := CountDirs(b, depth, leafOnly);
    if perDir > 0 {
      if items == 0 {
        items := perDir * if leafOnly then Pow(b, depth) else numDirs;
      }
    } else if leafOnly {
      if b <= 1 {
        perDir := items;
        PowOfOne(depth);
      } else {
        perDir := items / Pow(b, depth);
        items := perDir * Pow(b, depth);
        RoundedDown(givenItems, Pow(b, depth));
      }
    } else {
      perDir := items / numDirs;
      items := perDir * numDirs;
      RoundedDown(givenItems, numDirs);
    }
    SameDirs(b, depth, leafOnly, perDir);
  }

  method CountDirs(b: nat, depth: nat, leafOnly: bool) returns (n: nat)
    requires b > 0
    ensures n == NumDirs(Tree(b, depth, 1, leafOnly))
  {
    PowAtLeast(b, depth + 1);
    if depth <= 0 {
      n := 1;
    } else if b == 1 {
      n := depth + 1;
    } else {
      n := (Pow(b, depth + 1) - 1) / (b - 1);
    }
  }

  lemma SameDirs(b: nat, depth: nat, leafOnly: bool, perDir: nat)
    requires b > 0
    ensures NumDirs(Tree(b, depth, perDir, leafOnly)) == NumDirs(Tree(b, depth, 1, leafOnly))
  {
  }

  lemma SizesArePositive(t: Tree)
    requires t.b > 0
    ensures Pow(t.b, t.depth) > 0 && NumDirs(t) > 0
  {
    PowAtLeast(t.b, t.depth);
    NumDirsIsFirst(t);
  }

  lemma {:induction false} PowOfOne(e: nat)
    ensures Pow(1, e) == 1
  {
    if e > 0 {
      PowOfOne(e - 1);
    }
  }

  lemma RoundedDown(a: nat, m: nat)
    requires m > 0
    ensures 0 <= a / m * m <= a < a / m * m + m
  {
    assert a == a / m * m + a % m;
  }

  // ------------------------------------------------------------ visiting order

  /** The targets of the first steps, from the last place down. */
  function DrawTargets(draw: nat -> nat, items: nat, steps: nat): (targets: seq<nat>)
    requires steps <= items
    ensures |targets| == steps
  {
    seq<nat>(steps, (m: nat) requires m < steps => draw(items - 1 - m))
  }

  lemma DrawsAreOpen(draw: nat -> nat, items: nat, steps: nat)
    requires steps <= items && forall n :: draw(n) <= n
    ensures AllOpen(false, items, DrawTargets(draw, items, steps)) && |Upto(items)| == items
    ensures steps > 0 ==> DrawTargets(draw, items, steps)[..steps - 1] == DrawTargets(draw, items, steps - 1)
  {
  }

  /** The random visiting order: all places but the first are filled, from the last one down. */
  ghost function RandOrder(draw: nat -> nat, items: nat): seq<nat>
    requires forall n :: draw(n) <= n
  {
    var steps := if items == 0 then 0 else items - 1;
    DrawsAreOpen(draw, items, steps);
    Swaps(false, Upto(items), DrawTargets(draw, items, steps))
  }

  /** Draws a visiting order; `draw(n)` is the number drawn from 0 up to and including `n`. */
  method RandArray(items: nat, draw: nat -> nat) returns (order: array<nat>)
    requires forall n :: draw(n) <= n
    ensures fresh(order) && order.Length == items && order[..] == RandOrder(draw, items)
    ensures multiset(order[..]) == multiset(Upto(items))
  {
    hide Swap;
    order := new nat[items];
    for s := 0 to items
      invariant forall i :: 0 <= i < s ==> order[i] == i
    {
      order[s] := s;
    }
    assert order[..] == Upto(items);
    DrawsAreOpen(draw, items, 0);
    var n := items;
    while n > 1
      invariant n <= items && (items > 0 ==> n > 0)
      invariant AllOpen(false, items, DrawTargets(draw, items, items - n)) && |Upto(items)| == items
      invariant order[..] == Swaps(false, Upto(items), DrawTargets(draw, items, items - n))
    {
      n := n - 1;
      DrawsAreOpen(draw, items, items - n);
      var k := draw(n);
      SwapAt(order, k, n);
    }
  }

  /** Every visiting order can be drawn. */
  lemma EveryOrderIsDrawn(p: seq<nat>, items: nat) returns (draw: nat -> nat)
    requires Permutation(p, items)
    ensures forall n :: draw(n) <= n
    ensures RandOrder(draw, items) == p
  {
    hide Swaps, Swap;
    UptoIsDistinct(p, items);
    var targets := EveryOrderIsReached(false, Upto(items), p);
    draw := (n: nat) => if n < items && targets[items - 1 - n] <= n then targets[items - 1 - n] else 0;
    forall m | 0 <= m < items ensures draw(items - 1 - m) == targets[m] {
      assert Open(false, items, m, targets[m]);
    }
    if items > 0 {
      assert DrawTargets(draw, items, items - 1) == targets[..items - 1];
      LastSwapIsIdle(Upto(items), targets);
    } else {
      assert DrawTargets(draw, items, 0) == targets;
    }
  }

  /** When only one place is left its element stays there. */
  lemma LastSwapIsIdle(s: seq<nat>, targets: seq<nat>)
    requires s != [] && |targets| == |s| && AllOpen(false, |s|, targets)
    ensures AllOpen(false, |s|, targets[..|s| - 1])
    ensures Swaps(false, s, targets) == Swaps(false, s, targets[..|s| - 1])
  {
    hide Swap, Swaps;
    var m := |s| - 1;
    SwapsStep(false, s, targets);
    SwapNothing(Swaps(false, s, targets[..m]), 0);
  }

  /** Two visiting orders are the same if and only if the same numbers were drawn. */
  lemma SameRandOrderIff(a: nat -> nat, b: nat -> nat, items: nat)
    requires (forall n :: a(n) <= n) && forall n :: b(n) <= n
    ensures RandOrder(a, items) == RandOrder(b, items) <==> forall n :: 0 < n < items ==> a(n) == b(n)
  {
    hide Swaps, Swap, AllOpen;
    var steps := if items == 0 then 0 else items - 1;
    DrawsAreOpen(a, items, steps);
    DrawsAreOpen(b, items, steps);
    var s, t := DrawTargets(a, items, steps), DrawTargets(b, items, steps);
    SameOrderIff(false, Upto(items), s, t);
    if s == t {
      forall n | 0 < n < items ensures a(n) == b(n) {
        assert s[items - 1 - n] == t[items - 1 - n];
      }
    }
  }

  // ----------------------------------------------------------------- visiting

  /** The item that is visited for number `i`. */
  function StatTarget(t: Tree, i: nat): Item
    requires t.b > 0 && t.perDir > 0
  {
    var num := FirstItem(t) + i;
    Item(Dir(t.b, num / t.perDir), num)
  }

  /** The path of an item's directory, built from its end by dividing. */
  method PathOf(t: Tree, itemNum: nat) returns (path: Path)
    requires t.b > 0 && t.perDir > 0
    ensures path == Dir(t.b, itemNum / t.perDir)
  {
    var parent: nat := itemNum / t.perDir;
    ghost var whole := Dir(t.b, parent);
    path := [];
    if parent > 0 {
      path := [parent];
      while parent > t.b
        invariant parent > 0
        invariant whole == Dir(t.b, Parent(t.b, parent)) + path
        decreases parent
      {
        QuotientAtLeast(parent - 1, t.b, 1);
        ParentIsLess(t.b, parent);
        parent := (parent - 1) / t.b;
        path := [parent] + path;
      }
      ChildrenOf(t.b, 0, parent);
    }
    path := [0] + path;
  }

  method Stat(t: Tree, items: nat, random: bool, randArray: array<nat>) returns (visited: seq<Item>)
    requires t.b > 0 && (items > 0 ==> t.perDir > 0)
    requires random ==> randArray.Length == items
    ensures |visited| == items
    ensures forall i :: 0 <= i < items ==> visited[i] == StatTarget(t, if random then randArray[i] else i)
  {
    hide Dir, Pow, NumDirs;
    visited := [];
    for i := 0 to items
      invariant |visited| == i
      invariant forall j :: 0 <= j < i ==> visited[j] == StatTarget(t, if random then randArray[j] else j)
    {
      var itemNum: nat := if random then randArray[i] else i;
      if t.leafOnly {
        FirstItemIsNatural(t);
        itemNum := itemNum + t.perDir * (NumDirs(t) - Pow(t.b, t.depth));
      }
      var path := PathOf(t, itemNum);
      visited := visited + [Item(path, itemNum)];
    }
  }

  /** The visits are to the items with the lowest numbers, in whatever order: each of them once, and no other. */
  lemma VisitsTheFirst(t: Tree, items: nat, order: seq<nat>, visited: seq<Item>, x: Item)
    requires t.b > 0 && t.perDir > 0 && multiset(order) == multiset(Upto(items))
    requires |visited| == |order| && forall i :: 0 <= i < |order| ==> visited[i] == StatTarget(t, order[i])
    ensures multiset(visited)[x] == if InPlace(t, x) && FirstItem(t) <= x.num < FirstItem(t) + items then 1 else 0
  {
    hide Dir, FirstItem, Upto, StatTarget, InPlace, Permutation;
    SameSize(order, items);
    RearrangedIsPermutation(order, items);
    VisitedOnce(t, items, order, visited, x);
  }

  /**
   Creation and visiting. In whatever order the numbers are taken, the items that
   are visited are among those that the walk made, none twice; they are all of them
   if and only if there are as many visits as items.
   */
  lemma VisitsWhatWasMade(t: Tree, items: nat, order: seq<nat>, visited: seq<Item>)
    requires t.b > 0 && t.perDir > 0 && items <= ItemCount(t)
    requires multiset(order) == multiset(Upto(items))
    requires |visited| == |order| && forall i :: 0 <= i < |order| ==> visited[i] == StatTarget(t, order[i])
    ensures multiset(visited) <= multiset(Walk(t))
    ensures multiset(visited) == multiset(Walk(t)) <==> items == ItemCount(t)
    ensures forall x: Item :: multiset(Walk(t))[x] <= 1
  {
    hide Dir, Walk, ItemCount, FirstItem, Upto, StatTarget, InPlace;
    forall x: Item
      ensures multiset(visited)[x] <= multiset(Walk(t))[x] <= 1
      ensures items == ItemCount(t) ==> multiset(visited)[x] == multiset(Walk(t))[x]
    {
      VisitsTheFirst(t, items, order, visited, x);
      WalkMembers(t, x);
    }
    if items < ItemCount(t) {
      var x := StatTarget(t, items);
      TargetInPlace(t, items);
      VisitsTheFirst(t, items, order, visited, x);
      WalkMembers(t, x);
    }
  }

  lemma TargetInPlace(t: Tree, i: nat)
    requires t.b > 0 && t.perDir > 0
    ensures InPlace(t, StatTarget(t, i)) && StatTarget(t, i).num == FirstItem(t) + i
  {
  }

  lemma SameSize(order: seq<nat>, n: nat)
    requires multiset(order) == multiset(Upto(n))
    ensures |order| == |multiset(Upto(n))| == n
  {
    assert |multiset(order)| == |order|;
    assert |multiset(Upto(n))| == |Upto(n)|;
  }

  lemma VisitedOnce(t: Tree, items: nat, order: seq<nat>, visited: seq<Item>, x: Item)
    requires t.b > 0 && t.perDir > 0
    requires Permutation(order, items) && multiset(order) == multiset(Upto(items))
    requires |visited| == |order| && forall i :: 0 <= i < |order| ==> visited[i] == StatTarget(t, order[i])
    ensures multiset(visited)[x] == if InPlace(t, x) && FirstItem(t) <= x.num < FirstItem(t) + items then 1 else 0
  {
    hide Dir, ItemCount, FirstItem, Upto;
    forall i, j | 0 <= i < j < |visited| ensures visited[i] != visited[j] {
      assert visited[i].num == FirstItem(t) + order[i] && visited[j].num == FirstItem(t) + order[j];
    }
    DistinctOnce(visited, x);
    if InPlace(t, x) && FirstItem(t) <= x.num < FirstItem(t) + items {
      var k: nat := x.num - FirstItem(t);
      UptoOnce(items, k);
      assert k in multiset(order);
      var i :| 0 <= i < |order| && order[i] == k;
      assert visited[i] == x;
    }
    assert multiset(visited)[x] > 0 ==> x in visited;
  }

  /** Without items in a directory there are none. */
  lemma NothingMade(t: Tree)
    requires t.b > 0 && t.perDir == 0
    ensures Walk(t) == [] && ItemCount(t) == 0
  {
    NothingInBranches(t, 1, [0], 1, t.b);
  }

  lemma {:induction false} NothingInBranches(t: Tree, level: nat, path: Path, d: nat, count: nat)
    requires t.perDir == 0
    ensures Branches(t, level, path, d, count) == []
    decreases t.depth + 1 - level, count
  {
    if level <= t.depth && count > 0 {
      NothingInBranches(t, level + 1, path + [d], d * t.b + 1, t.b);
      NothingInBranches(t, level, path, d + 1, count - 1);
    }
  }

  /** With one item in each, as many items as directories that hold any. */
  lemma ItemDirectories(b: nat, depth: nat, perDir: nat, leafOnly: bool)
    requires b > 0
    ensures ItemCount(Tree(b, depth, perDir, leafOnly)) == perDir * ItemCount(Tree(b, depth, 1, leafOnly))
    ensures ItemCount(Tree(b, depth, 1, leafOnly)) >= 1
    ensures ItemCount(Tree(b, depth, 1, leafOnly)) == 1 <==> depth == 0 || (leafOnly && b == 1)
  {
    hide NumDirs;
    SameDirs(b, depth, leafOnly, perDir);
    SizesArePositive(Tree(b, depth, 1, leafOnly));
    NumDirsIsFirst(Tree(b, depth, 1, leafOnly));
    PowOfOne(depth);
    if depth > 0 {
      PowAtLeast(b, depth - 1);
      FirstGrows(b, 1, depth);
      assert First(b, 1) == First(b, 0) * b + 1;
      if b > 1 {
        MulAtLeast(Pow(b, depth - 1), b);
      }
    }
  }

  /** More visits than items there cannot be, and as many only if one directory holds all items. */
  lemma PartOfAll(b: nat, depth: nat, perDir: nat, leafOnly: bool)
    requires b > 0 && perDir > 0
    ensures perDir <= ItemCount(Tree(b, depth, perDir, leafOnly))
    ensures perDir == ItemCount(Tree(b, depth, perDir, leafOnly)) <==> depth == 0 || (leafOnly && b == 1)
  {
    hide ItemCount;
    ItemDirectories(b, depth, perDir, leafOnly);
    var n := ItemCount(Tree(b, depth, 1, leafOnly));
    assert perDir * n == perDir + perDir * (n - 1);
    if n > 1 {
      MulAtLeast(n - 1, perDir);
      assert (n - 1) * perDir == perDir * (n - 1);
    }
  }

  /**
   A run: sizes, creation, then a visit in the natural or in a random order. All
   items are visited if and only if only one of the two numbers was given, or a
   single directory holds all items; otherwise a proper part of them is.
   */
  method CreateAndStat(
      b: nat, depth: nat, leafOnly: bool, givenPerDir: nat, givenItems: nat, random: bool, draw: nat -> nat)
    returns (t: Tree, made: seq<Item>, visited: seq<Item>)
    requires b > 0 && (givenPerDir == 0 || givenItems == 0 || givenItems == givenPerDir)
    requires forall n :: draw(n) <= n
    ensures made == Walk(t)
    ensures multiset(visited) <= multiset(made)
    ensures multiset(visited) == multiset(made)
            <==> givenPerDir == 0 || givenItems == 0 || depth == 0 || (leafOnly && b == 1)
    ensures forall x: Item :: multiset(made)[x] <= 1
  {
    hide Walk, ItemCount, StatTarget;
    var perDir, items, numDirs := ComputeSizes(b, depth, leafOnly, givenPerDir, givenItems);
    t := Tree(b, depth, perDir, leafOnly);
    if perDir == 0 {
      NothingMade(t);
    } else {
      PartOfAll(b, depth, perDir, leafOnly);
    }
    var walker := new Walker(t);
    walker.CreateItems(0, [0], 0);
    made := walker.made;
    var order := RandArray(items, draw);
    visited := Stat(t, items, random, order);
    if perDir > 0 {
      VisitsWhatWasMade(t, items, if random then order[..] else Upto(items), visited);
    }
  }
}
