/** Sequences without duplicates, permutations of an interval, and swapping in place. */
module Sequences {

  ghost predicate NoDuplicates<T>(s: seq<T>) {
    forall i, j :: 0 <= i < j < |s| ==> s[i] != s[j]
  }

  ghost function Members<T>(s: seq<T>): (m: set<T>) {
    set x | x in s
  }

  /** The numbers from `lo` up to but not including `hi`. */
  function Range(lo: nat, hi: nat): (r: set<nat>)
    requires lo <= hi
    ensures forall x :: x in r <==> lo <= x < hi
    ensures |r| == hi - lo
  {
    if lo == hi then {} else Range(lo, hi - 1) + {hi - 1}
  }

  /** All numbers below `n`, in order. */
  function Upto(n: nat): seq<nat> {
    seq(n, i => i)
  }

  /** Every number below `n` occurs in `p`, once. */
  ghost predicate Permutation(p: seq<nat>, n: nat) {
    && |p| == n
    && (forall r :: 0 <= r < n ==> p[r] < n)
    && NoDuplicates(p)
  }

  // -------------------------------------------------------------- pigeonholes

  lemma {:induction false} SizeOfDistinct<T>(s: seq<T>)
    requires NoDuplicates(s)
    ensures |Members(s)| == |s|
  {
    if s != [] {
      var init, last := s[..|s| - 1], s[|s| - 1];
      SizeOfDistinct(init);
      assert s == init + [last];
      assert Members(s) == Members(init) + {last};
    } else {
      assert Members(s) == {};
    }
  }

  lemma {:induction false} SubsetSize<T>(a: set<T>, b: set<T>)
    requires a <= b
    ensures |a| <= |b|
    ensures |a| == |b| ==> a == b
  {
    if a != {} {
      var x :| x in a;
      SubsetSize(a - {x}, b - {x});
      if |a| == |b| {
        assert a == (a - {x}) + {x} && b == (b - {x}) + {x};
      }
    }
  }

  /** A duplicate-free sequence of as many members of a set as it has contains all of them. */
  lemma Pigeonhole<T>(s: seq<T>, b: set<T>)
    requires NoDuplicates(s)
    requires Members(s) <= b
    ensures |s| <= |b|
    ensures |s| == |b| ==> Members(s) == b
  {
    SizeOfDistinct(s);
    SubsetSize(Members(s), b);
  }

  lemma PermutationMembers(p: seq<nat>, n: nat)
    ensures Permutation(p, n) <==> |p| == n && NoDuplicates(p) && Members(p) == Range(0, n)
  {
    if Permutation(p, n) {
      assert Members(p) <= Range(0, n);
      Pigeonhole(p, Range(0, n));
    } else if |p| == n && Members(p) == Range(0, n) {
      assert forall r :: 0 <= r < n ==> p[r] in Members(p);
    }
  }

  /** Every number below `n` has a place in a permutation. */
  lemma PlaceInPermutation(p: seq<nat>, n: nat, x: nat) returns (r: nat)
    requires Permutation(p, n) && x < n
    ensures r < n && p[r] == x
  {
    PermutationMembers(p, n);
    assert x in Members(p);
    r :| 0 <= r < |p| && p[r] == x;
  }

  // ---------------------------------------------------------------- multisets

  lemma {:induction false} UptoOnce(n: nat, x: nat)
    ensures multiset(Upto(n))[x] == if x < n then 1 else 0
  {
    if n > 0 {
      UptoOnce(n - 1, x);
      assert Upto(n) == Upto(n - 1) + [n - 1];
    }
  }

  lemma TwoPlaces<T>(s: seq<T>, i: nat, j: nat)
    requires i < j < |s| && s[i] == s[j]
    ensures multiset(s)[s[i]] >= 2
  {
    assert s == s[..i] + [s[i]] + s[i + 1..j] + [s[j]] + s[j + 1..];
  }

  lemma {:induction false} DistinctOnce<T>(s: seq<T>, x: T)
    requires NoDuplicates(s)
    ensures multiset(s)[x] <= 1
    decreases |s|
  {
    if s != [] {
      DistinctOnce(s[1..], x);
      assert s == [s[0]] + s[1..];
      assert s[0] !in s[1..];
    }
  }

  lemma RearrangedIsPermutation(p: seq<nat>, n: nat)
    requires |p| == n && multiset(p) == multiset(Upto(n))
    ensures Permutation(p, n)
  {
    forall r | 0 <= r < n ensures p[r] < n {
      UptoOnce(n, p[r]);
      assert p[r] in multiset(p);
    }
    forall r, s | 0 <= r < s < n ensures p[r] != p[s] {
      if p[r] == p[s] {
        TwoPlaces(p, r, s);
        UptoOnce(n, p[r]);
      }
    }
  }

  // ----------------------------------------------------------------- swapping

  function Swap(s: seq<nat>, i: nat, j: nat): (r: seq<nat>)
    requires i < |s| && j < |s|
    ensures |r| == |s| && multiset(r) == multiset(s)
  {
    var r := s[i := s[j]][j := s[i]];
    assert multiset(s[i := s[j]]) == multiset(s) - multiset{s[i]} + multiset{s[j]};
    r
  }

  lemma SwapNothing(s: seq<nat>, i: nat)
    requires i < |s|
    ensures Swap(s, i, i) == s
  {
  }

  method SwapAt(a: array<nat>, i: nat, j: nat)
    requires i < a.Length && j < a.Length
    modifies a
    ensures a[..] == Swap(old(a[..]), i, j)
  {
    a[i], a[j] := a[j], a[i];
  }

  // ------------------------------------------------------- shuffling by swaps

  /** The place that step `m` fills: from the first to the last, or from the last to the first. */
  function Place(up: bool, size: nat, m: nat): (i: nat)
    requires m < size
    ensures i < size
  {
    if up then m else size - 1 - m
  }

  /** Whether a place is not filled yet after `m` steps. */
  predicate Open(up: bool, size: nat, m: nat, i: nat) {
    if up then m <= i < size else i + m < size
  }

  /** In each step, the element at the target is exchanged with the one at the place to fill. */
  function Swaps(up: bool, s: seq<nat>, targets: seq<nat>): (r: seq<nat>)
    requires |targets| <= |s| && forall m :: 0 <= m < |targets| ==> targets[m] < |s|
    ensures |r| == |s| && multiset(r) == multiset(s)
    decreases |targets|
  {
    if targets == [] then s
    else
      hide Swap;
      var m := |targets| - 1;
      Swap(Swaps(up, s, targets[..m]), targets[m], Place(up, |s|, m))
  }

  /** Every step takes an element that is not at a place filled before. */
  ghost predicate AllOpen(up: bool, size: nat, targets: seq<nat>) {
    |targets| <= size && forall m :: 0 <= m < |targets| ==> targets[m] < size && Open(up, size, m, targets[m])
  }

  lemma SwapKeepsDistinct(s: seq<nat>, i: nat, j: nat)
    requires NoDuplicates(s) && i < |s| && j < |s|
    ensures NoDuplicates(Swap(s, i, j))
  {
  }

  lemma {:induction false} SwapsKeepDistinct(up: bool, s: seq<nat>, targets: seq<nat>)
    requires NoDuplicates(s)
    requires |targets| <= |s| && forall m :: 0 <= m < |targets| ==> targets[m] < |s|
    ensures NoDuplicates(Swaps(up, s, targets))
    decreases |targets|
  {
    if targets != [] {
      hide Swap, NoDuplicates;
      var m := |targets| - 1;
      SwapsKeepDistinct(up, s, targets[..m]);
      SwapKeepsDistinct(Swaps(up, s, targets[..m]), targets[m], Place(up, |s|, m));
    }
  }

  /** Step `m` leads from `u` to `r`: it fills its place with element `j`, and changes no place filled before. */
  ghost predicate Fills(up: bool, u: seq<nat>, r: seq<nat>, m: nat, j: nat)
    requires m < |u| == |r| && j < |u|
  {
    var q := Place(up, |u|, m);
    && r[q] == u[j]
    && (forall i :: 0 <= i < |u| && !Open(up, |u|, m, i) ==> r[i] == u[i])
    && Open(up, |u|, m, q)
    && forall i :: 0 <= i < |u| ==> (!Open(up, |u|, m + 1, i) <==> i == q || !Open(up, |u|, m, i))
  }

  lemma LastSwap(up: bool, s: seq<nat>, targets: seq<nat>)
    requires targets != [] && AllOpen(up, |s|, targets)
    ensures var m := |targets| - 1;
            && m < |s| && AllOpen(up, |s|, targets[..m]) && targets[m] < |s|
            && Fills(up, Swaps(up, s, targets[..m]), Swaps(up, s, targets), m, targets[m])
  {
    hide Fills, Open;
    var m := |targets| - 1;
    SwapFills(up, Swaps(up, s, targets[..m]), targets[m], m);
  }

  /** The last of several steps. */
  lemma SwapsStep(up: bool, s: seq<nat>, targets: seq<nat>)
    requires targets != [] && AllOpen(up, |s|, targets)
    ensures var m := |targets| - 1;
            && m < |s| && AllOpen(up, |s|, targets[..m]) && targets[m] < |s| && Open(up, |s|, m, targets[m])
            && Swaps(up, s, targets) == Swap(Swaps(up, s, targets[..m]), targets[m], Place(up, |s|, m))
  {
    hide Swap;
  }

  lemma SwapFills(up: bool, u: seq<nat>, j: nat, m: nat)
    requires m < |u| && j < |u| && Open(up, |u|, m, j)
    ensures Fills(up, u, Swap(u, j, Place(up, |u|, m)), m, j)
  {
  }

  /** The places that are filled after `m` steps hold what they should. */
  ghost predicate Filled(up: bool, u: seq<nat>, p: seq<nat>, m: nat)
    requires |u| == |p|
  {
    forall i :: 0 <= i < |u| && !Open(up, |u|, m, i) ==> u[i] == p[i]
  }

  /** An element that belongs at the next place is at an open place. */
  lemma NextTarget(up: bool, u: seq<nat>, p: seq<nat>, m: nat) returns (j: nat)
    requires NoDuplicates(p) && multiset(p) == multiset(u) && |p| == |u| && m < |u| && Filled(up, u, p, m)
    ensures j < |u| && u[j] == p[Place(up, |u|, m)] && Open(up, |u|, m, j)
  {
    var q := Place(up, |u|, m);
    assert p[q] in multiset(p);
    j :| 0 <= j < |u| && u[j] == p[q];
  }

  lemma FilledNext(up: bool, u: seq<nat>, r: seq<nat>, p: seq<nat>, m: nat, j: nat)
    requires m < |u| == |r| == |p| && j < |u| && u[j] == p[Place(up, |u|, m)]
    requires Filled(up, u, p, m) && Fills(up, u, r, m, j)
    ensures Filled(up, r, p, m + 1)
  {
  }

  lemma FilledFirst(up: bool, u: seq<nat>, p: seq<nat>)
    requires |u| == |p|
    ensures Filled(up, u, p, 0)
  {
  }

  /** The targets that fill the first `m` places with given elements. */
  lemma {:induction false} TargetsFor(up: bool, s: seq<nat>, p: seq<nat>, m: nat) returns (targets: seq<nat>)
    requires NoDuplicates(p) && multiset(p) == multiset(s) && |p| == |s| && m <= |s|
    ensures |targets| == m && AllOpen(up, |s|, targets) && Filled(up, Swaps(up, s, targets), p, m)
  {
    hide Swaps, NoDuplicates, Filled, Fills, Open;
    targets := [];
    FilledFirst(up, Swaps(up, s, []), p);
    if m > 0 {
      var before := TargetsFor(up, s, p, m - 1);
      var j := NextTarget(up, Swaps(up, s, before), p, m - 1);
      targets := before + [j];
      assert targets[..m - 1] == before;
      LastSwap(up, s, targets);
      FilledNext(up, Swaps(up, s, before), Swaps(up, s, targets), p, m - 1, j);
    }
  }

  /** Every order is reached by swaps with open targets. */
  lemma EveryOrderIsReached(up: bool, s: seq<nat>, p: seq<nat>) returns (targets: seq<nat>)
    requires NoDuplicates(p) && multiset(p) == multiset(s) && |p| == |s|
    ensures |targets| == |s| && AllOpen(up, |s|, targets) && Swaps(up, s, targets) == p
  {
    targets := TargetsFor(up, s, p, |s|);
  }

  /** Where two lists of open targets differ, a filled place does. */
  lemma {:induction false} DifferentPlace(up: bool, s: seq<nat>, a: seq<nat>, b: seq<nat>) returns (i: nat)
    requires NoDuplicates(s) && |a| == |b| && a != b && AllOpen(up, |s|, a) && AllOpen(up, |s|, b)
    ensures i < |s| && !Open(up, |s|, |a|, i) && Swaps(up, s, a)[i] != Swaps(up, s, b)[i]
    decreases |a|
  {
    hide Swaps, NoDuplicates;
    var m := |a| - 1;
    LastSwap(up, s, a);
    LastSwap(up, s, b);
    if a[..m] != b[..m] {
      i := DifferentPlace(up, s, a[..m], b[..m]);
    } else {
      assert a == a[..m] + [a[m]] && b == b[..m] + [b[m]];
      i := Place(up, |s|, m);
      SwapsKeepDistinct(up, s, a[..m]);
      DistinctAt(Swaps(up, s, a[..m]), a[m], b[m]);
    }
  }

  lemma DistinctAt(s: seq<nat>, i: nat, j: nat)
    requires NoDuplicates(s) && i < |s| && j < |s| && i != j
    ensures s[i] != s[j]
  {
  }

  /** Two lists of open targets lead to the same order only if they are the same. */
  lemma SameOrderIff(up: bool, s: seq<nat>, a: seq<nat>, b: seq<nat>)
    requires NoDuplicates(s) && |a| == |b| && AllOpen(up, |s|, a) && AllOpen(up, |s|, b)
    ensures Swaps(up, s, a) == Swaps(up, s, b) <==> a == b
  {
    if a != b {
      var i := DifferentPlace(up, s, a, b);
    }
  }

  lemma UptoIsDistinct(p: seq<nat>, n: nat)
    requires Permutation(p, n)
    ensures NoDuplicates(Upto(n)) && multiset(p) == multiset(Upto(n))
  {
    forall x: nat ensures multiset(p)[x] == multiset(Upto(n))[x] {
      UptoOnce(n, x);
      DistinctOnce(p, x);
      if x < n {
        var r := PlaceInPermutation(p, n, x);
        assert x in p;
      } else {
        assert x !in p;
      }
    }
  }
}
