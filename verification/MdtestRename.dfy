/**
 The rename phase of mdtest: every item takes the name of the one before it, and
 the first one, kept under a temporary name, takes the last name that is free.
 */
module MdtestRename {
  import opened Arithmetic
  import opened Sequences
  import opened MdtestTree
  import opened MdtestItems
  import opened MdtestStat

  /** The name of an item, or that name with a suffix that no item has. */
  datatype Name = Final(item: Item) | Temporary(item: Item)

  class Files<C> {
    var at: map<Name, C>
    var warnings: nat
    var overwritten: nat

    constructor (at: map<Name, C>)
      ensures this.at == at && warnings == 0 && overwritten == 0
    {
      this.at, warnings, overwritten := at, 0, 0;
    }

    /** Rename fails without a source, and replaces an existing target. */
    method Rename(from: Name, to: Name) returns (ok: bool)
      modifies this
      ensures ok == (from in old(at))
      ensures at == if ok then (old(at) - {from})[to := old(at)[from]] else old(at)
      ensures warnings == old(warnings)
      ensures overwritten == old(overwritten) + if ok && to in old(at) && to != from then 1 else 0
    {
      ok := from in at;
      if ok {
        if to in at && to != from {
          overwritten := overwritten + 1;
        }
        at := (at - {from})[to := at[from]];
      }
    }

    method WarnUnless(ok: bool)
      modifies this
      ensures at == old(at) && warnings == old(warnings) + (if ok then 0 else 1) && overwritten == old(overwritten)
    {
      if !ok {
        warnings := warnings + 1;
      }
    }

    method RenameTest(t: Tree, items: nat)
      requires t.b > 0 && t.perDir > 0
      requires (forall x :: x in Names(t, items) ==> x in at) && Temporary(StatTarget(t, 0)) !in at
      modifies this
      ensures items >= 2 ==> Rotated(Names(t, items), 1, old(at), at)
      ensures items < 2 ==> at == old(at)
      ensures warnings == old(warnings) && overwritten == old(overwritten)
    {
      hide StatTarget, Midway, Rotated;
      if items == 1 {
        return;
      }
      ghost var names, aside := Names(t, items), Temporary(StatTarget(t, 0));
      NamesAreDistinct(t, items);
      var firstItemName, itemLast := Temporary(Item([], 0)), Temporary(Item([], 0));
      for i := 0 to items
        invariant i == 0 ==> at == old(at)
        invariant 0 < i < items ==> Midway(names, aside, i, old(at), at)
        invariant i > 0 && i == items ==> Rotated(names, 1, old(at), at)
        invariant i > 0 ==> firstItemName == aside
        invariant 0 < i < items ==> itemLast == names[i - 1]
        invariant warnings == old(warnings) && overwritten == old(overwritten)
      {
        var itemNum := ItemNumber(t, i);
        var path := PathOf(t, itemNum);
        var item := Final(Item(path, itemNum));
        TargetIs(t, i);
        if i == 0 {
          firstItemName := Temporary(item.item);
          itemLast := firstItemName;
        } else if i == items - 1 {
          item := firstItemName;
        }
        StepFrom(names, aside, i, old(at), at);
        var ok := Rename(item, itemLast);
        WarnUnless(ok);
        itemLast := item;
      }
    }
  }

  method ItemNumber(t: Tree, i: nat) returns (itemNum: nat)
    requires t.b > 0
    ensures itemNum == FirstItem(t) + i
  {
    itemNum := i;
    if t.leafOnly {
      FirstItemIsNatural(t);
      itemNum := itemNum + t.perDir * (NumDirs(t) - Pow(t.b, t.depth));
    }
  }

  lemma TargetIs(t: Tree, i: nat)
    requires t.b > 0 && t.perDir > 0
    ensures StatTarget(t, i) == Item(Dir(t.b, (FirstItem(t) + i) / t.perDir), FirstItem(t) + i)
  {
  }

  /** The names of the items that the phase goes through. */
  function Names(t: Tree, items: nat): (s: seq<Name>)
    requires t.b > 0 && t.perDir > 0
    ensures |s| == items
  {
    seq(items, (i: nat) => Final(StatTarget(t, i)))
  }

  lemma NamesAreDistinct(t: Tree, items: nat)
    requires t.b > 0 && t.perDir > 0
    ensures NoDuplicates(Names(t, items)) && Temporary(StatTarget(t, 0)) !in Names(t, items)
  {
    var s := Names(t, items);
    forall i, j | 0 <= i < j < |s| ensures s[i] != s[j] {
      assert s[i].item.num == FirstItem(t) + i && s[j].item.num == FirstItem(t) + j;
    }
  }

  // ------------------------------------------------------------ specification

  ghost predicate Stays<C>(names: seq<Name>, was: map<Name, C>, now: map<Name, C>) {
    forall x :: x in was && x !in names ==> x in now && now[x] == was[x]
  }

  function Place(k: nat, j: nat, n: nat): (p: nat)
    requires n > 0
    ensures p < n
  {
    (k + j) % n
  }

  lemma PlacesAddUp(k: nat, i: nat, j: nat, n: nat)
    requires n > 0
    ensures Place(Place(k, j, n), i, n) == Place(k, i + j, n)
  {
    var m := (k + j) % n;
    assert k + (i + j) == m + i + (k + j) / n * n;
    ModOfShift(m + i, n, (k + j) / n);
  }

  lemma NextPlace(k: nat, n: nat)
    requires k < n
    ensures Place(k, 1, n) == if k < n - 1 then k + 1 else 0
    ensures Place(k, n, n) == k
  {
    DivModUnique(k + 1, n, if k < n - 1 then 0 else 1, if k < n - 1 then k + 1 else 0);
    DivModUnique(k + n, n, 1, k);
  }

  /** The contents of all items but the last are rotated by `j` places; the names and everything else stay. */
  ghost predicate Rotated<C>(names: seq<Name>, j: nat, was: map<Name, C>, now: map<Name, C>)
    requires |names| >= 2
  {
    var n := |names| - 1;
    && now.Keys == was.Keys
    && (forall x :: x in names ==> x in was)
    && (forall k {:trigger Place(k, j, n)} :: 0 <= k < n ==> now[names[k]] == was[names[Place(k, j, n)]])
    && Stays(names[..n], was, now)
  }

  /** After `i` renames, one name is free and the first contents are kept aside. */
  ghost predicate Midway<C>(names: seq<Name>, aside: Name, i: nat, was: map<Name, C>, now: map<Name, C>)
    requires 0 < i < |names|
  {
    && now.Keys == was.Keys + {aside} - {names[i - 1]}
    && (forall x :: x in names ==> x in was)
    && aside in now && now[aside] == was[names[0]]
    && (forall k :: 0 <= k < i - 1 ==> names[k] in now && now[names[k]] == was[names[k + 1]])
    && Stays(names[..i], was, now)
  }

  /** One rename leads from each stage to the next, from an existing source to an unused target. */
  lemma StepFrom<C>(names: seq<Name>, aside: Name, i: nat, was: map<Name, C>, now: map<Name, C>)
    requires |names| >= 2 && i < |names| && NoDuplicates(names) && aside !in names && aside !in was
    requires forall x :: x in names ==> x in was
    requires if i == 0 then now == was else Midway(names, aside, i, was, now)
    ensures var from := if 0 < i == |names| - 1 then aside else names[i];
            var to := if i == 0 then aside else names[i - 1];
            && from in now && to !in now
            && var next := (now - {from})[to := now[from]];
               if i + 1 < |names| then Midway(names, aside, i + 1, was, next) else Rotated(names, 1, was, next)
  {
    if i == 0 {
      FirstStep(names, aside, was);
    } else if i + 1 < |names| {
      MiddleStep(names, aside, i, was, now);
    } else {
      LastStep(names, aside, was, now);
    }
  }

  lemma FirstStep<C>(names: seq<Name>, aside: Name, was: map<Name, C>)
    requires |names| >= 2 && aside !in was
    requires forall x :: x in names ==> x in was
    ensures Midway(names, aside, 1, was, (was - {names[0]})[aside := was[names[0]]])
  {
    assert names[0] in was;
    assert names[0] in names[..1];
  }

  lemma MiddleStep<C>(names: seq<Name>, aside: Name, i: nat, was: map<Name, C>, now: map<Name, C>)
    requires 0 < i < |names| - 1 && NoDuplicates(names) && aside !in names && aside !in was
    requires Midway(names, aside, i, was, now)
    ensures names[i] in now && names[i - 1] !in now
    ensures Midway(names, aside, i + 1, was, (now - {names[i]})[names[i - 1] := now[names[i]]])
  {
    assert names[..i + 1] == names[..i] + [names[i]];
    assert names[i - 1] in names[..i];
    assert names[i] !in names[..i];
  }

  lemma LastStep<C>(names: seq<Name>, aside: Name, was: map<Name, C>, now: map<Name, C>)
    requires |names| >= 2 && NoDuplicates(names) && aside !in names && aside !in was
    requires Midway(names, aside, |names| - 1, was, now)
    ensures aside in now && names[|names| - 2] !in now
    ensures Rotated(names, 1, was, (now - {aside})[names[|names| - 2] := now[aside]])
  {
    var n := |names| - 1;
    assert names[n - 1] in names[..n];
    forall k: nat | k < n ensures Place(k, 1, n) == if k < n - 1 then k + 1 else 0 {
      NextPlace(k, n);
    }
  }

  /** Phases add up. */
  lemma RotatedAgain<C>(names: seq<Name>, i: nat, j: nat, x: map<Name, C>, y: map<Name, C>, z: map<Name, C>)
    requires |names| >= 2 && Rotated(names, i, x, y) && Rotated(names, j, y, z)
    ensures Rotated(names, i + j, x, z)
  {
    hide Place;
    var n := |names| - 1;
    forall k: nat | k < n ensures z[names[k]] == x[names[Place(k, i + j, n)]] {
      PlacesAddUp(k, i, j, n);
      assert names[k] in names && names[Place(k, j, n)] in names;
    }
  }

  /** As many phases as there are rotated items give every item its own contents back. */
  lemma FullTurn<C>(names: seq<Name>, was: map<Name, C>, now: map<Name, C>)
    requires |names| >= 2 && Rotated(names, |names| - 1, was, now)
    ensures now == was
  {
    hide Place;
    var n := |names| - 1;
    forall k: nat | k < n ensures now[names[k]] == was[names[k]] {
      NextPlace(k, n);
    }
    forall x | x in was && x !in names[..n] ensures now[x] == was[x] {
      assert x in now;
    }
  }
}
