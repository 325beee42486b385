/**
 The shift register behind random-block access: the tap table, one step of the
 register, and why a maximal register visits every nonzero state exactly once
 from any nonzero seed.

 Words are natural numbers below 2^bits. A word masked with
 2^bits - 1 is `Mask(s, bits)`, `s << 1` is `2 * s`, `(s >> k) & 1` is `Bit(s, k)`, exclusive-or of single bits is
 addition modulo 2, and `|` of a word whose lowest bit is clear is `+`.
 */
module Lfsr {
  import opened Sequences

  function Pow2(n: nat): (p: nat)
    ensures p > 0
  {
    if n == 0 then 1 else 2 * Pow2(n - 1)
  }

  const MAX_BITS := 63

  /** Row `bits` of the tap table; the length of the row is its tap count. */
  function Taps(bits: nat): seq<nat>
    requires bits <= MAX_BITS
  {
    match bits
    case 0 => [0]
    case 1 => [0]
    case 2 => [1, 0]
    case 3 => [2, 1]
    case 4 => [3, 2]
    case 5 => [4, 2]
    case 6 => [5, 3, 2, 0]
    case 7 => [6, 2]
    case 8 => [7, 3, 2, 1]
    case 9 => [8, 4]
    case 10 => [9, 2]
    case 11 => [10, 1]
    case 12 => [11, 5, 3, 0]
    case 13 => [12, 11, 9, 8]
    case 14 => [13, 12, 10, 8]
    case 15 => [14, 0]
    case 16 => [15, 11, 2, 0]
    case 17 => [16, 2]
    case 18 => [17, 6]
    case 19 => [18, 17, 16, 12]
    case 20 => [19, 2]
    case 21 => [20, 1]
    case 22 => [21, 0]
    case 23 => [22, 4]
    case 24 => [23, 6, 1, 0]
    case 25 => [24, 2]
    case 26 => [25, 24, 23, 19]
    case 27 => [26, 25, 24, 21]
    case 28 => [27, 2]
    case 29 => [28, 1]
    case 30 => [29, 28, 25, 23]
    case 31 => [30, 2]
    case 32 => [31, 30, 29, 9]
    case 33 => [32, 12]
    case 34 => [33, 32, 31, 6]
    case 35 => [34, 1]
    case 36 => [35, 10]
    case 37 => [36, 35, 34, 27]
    case 38 => [37, 36, 34, 24]
    case 39 => [38, 3]
    case 40 => [39, 38, 37, 4]
    case 41 => [40, 2]
    case 42 => [41, 40, 39, 12]
    case 43 => [42, 41, 40, 30]
    case 44 => [43, 42, 40, 5]
    case 45 => [44, 43, 41, 40]
    case 46 => [45, 44, 42, 36]
    case 47 => [46, 4]
    case 48 => [47, 46, 44, 19]
    case 49 => [48, 8]
    case 50 => [49, 48, 47, 33]
    case 51 => [50, 49, 48, 22]
    case 52 => [51, 2]
    case 53 => [52, 51, 50, 46]
    case 54 => [53, 52, 51, 36]
    case 55 => [54, 23]
    case 56 => [55, 54, 53, 13]
    case 57 => [56, 6]
    case 58 => [57, 18]
    case 59 => [58, 57, 56, 34]
    case 60 => [59, 0]
    case 61 => [60, 59, 58, 55]
    case 62 => [61, 60, 58, 33]
    case 63 => [62, 0]
  }

  /** A register: its width and its taps. */
  datatype Register = Register(bits: nat, taps: seq<nat>)

  /** The first tap is the top bit and all others lie below it. */
  predicate Usable(reg: Register) {
    && 2 <= reg.bits
    && 0 < |reg.taps|
    && reg.taps[0] == reg.bits - 1
    && forall i :: 1 <= i < |reg.taps| ==> reg.taps[i] < reg.bits - 1
  }

  function RegisterOf(bits: nat): Register
    requires bits <= MAX_BITS
  {
    Register(bits, Taps(bits))
  }

  /** Every row from width 2 on has two or four taps, and its register is usable. */
  lemma TableIsUsable(bits: nat)
    requires 2 <= bits <= MAX_BITS
    ensures |Taps(bits)| == 2 || |Taps(bits)| == 4
    ensures Usable(RegisterOf(bits))
  {
    if bits < 20 {
      FirstRowsAreUsable(bits);
    } else if bits < 42 {
      MiddleRowsAreUsable(bits);
    } else {
      LastRowsAreUsable(bits);
    }
  }

  lemma FirstRowsAreUsable(bits: nat)
    requires 2 <= bits < 20
    ensures |Taps(bits)| == 2 || |Taps(bits)| == 4
    ensures Usable(RegisterOf(bits))
  {
  }

  lemma MiddleRowsAreUsable(bits: nat)
    requires 20 <= bits < 42
    ensures |Taps(bits)| == 2 || |Taps(bits)| == 4
    ensures Usable(RegisterOf(bits))
  {
  }

  lemma LastRowsAreUsable(bits: nat)
    requires 42 <= bits <= MAX_BITS
    ensures |Taps(bits)| == 2 || |Taps(bits)| == 4
    ensures Usable(RegisterOf(bits))
  {
  }

  /** Bit `k` of a word: shift right `k` times, then keep the lowest bit. */
  function Bit(s: nat, k: nat): (b: nat)
    ensures b < 2
  {
    if k == 0 then s % 2 else Bit(s / 2, k - 1)
  }

  /** The word shifted right by `k`. */
  function ShiftRight(s: nat, k: nat): nat {
    if k == 0 then s else ShiftRight(s / 2, k - 1)
  }

  lemma {:induction false} ShiftRightStep(s: nat, k: nat)
    ensures ShiftRight(s, k + 1) == ShiftRight(s, k) / 2
    ensures Bit(s, k) == ShiftRight(s, k) % 2
  {
    if k > 0 {
      ShiftRightStep(s / 2, k - 1);
    }
  }

  /** The low `m` bits of a word, which is what masking with 2^m - 1 keeps. */
  function Mask(s: nat, m: nat): (low: nat)
    ensures low < Pow2(m)
  {
    if m == 0 then 0 else s % 2 + 2 * Mask(s / 2, m - 1)
  }

  /** The word with bit `m` equal to `top` and `low` below it. */
  function Join(top: nat, low: nat, m: nat): nat {
    low + if top == 1 then Pow2(m) else 0
  }

  function XorBits(s: nat, taps: seq<nat>): (b: nat)
    ensures b < 2
  {
    if taps == [] then 0 else (Bit(s, taps[0]) + XorBits(s, taps[1..])) % 2
  }

  /** One step of the register: shift out the top bit, shift in the exclusive-or of the taps. */
  function Step(reg: Register, s: nat): (t: nat)
    requires Usable(reg)
    ensures t < Pow2(reg.bits)
  {
    assert Mask(2 * s, reg.bits) == 2 * Mask(s, reg.bits - 1);
    Mask(2 * s, reg.bits) + XorBits(s, reg.taps)
  }

  /** The state that `Step` maps to `t`. */
  function StepBack(reg: Register, t: nat): (s: nat)
    requires Usable(reg)
    requires t < Pow2(reg.bits)
    ensures s < Pow2(reg.bits)
  {
    Join((t % 2 + XorBits(t / 2, reg.taps[1..])) % 2, t / 2, reg.bits - 1)
  }

  lemma {:induction false} SplitTop(s: nat, m: nat)
    requires s < Pow2(m + 1)
    ensures s == Join(Bit(s, m), Mask(s, m), m)
  {
    if m > 0 {
      SplitTop(s / 2, m - 1);
    }
  }

  lemma {:induction false} PartsOfJoin(top: nat, low: nat, m: nat)
    requires top < 2 && low < Pow2(m)
    ensures Bit(Join(top, low, m), m) == top
    ensures Mask(Join(top, low, m), m) == low
  {
    if m > 0 {
      PartsOfJoin(top, low / 2, m - 1);
      assert Join(top, low, m) / 2 == Join(top, low / 2, m - 1);
    }
  }

  /** The bits below position `m` do not depend on what is stored from `m` up. */
  lemma {:induction false} BitOfMask(s: nat, k: nat, m: nat)
    requires k < m
    ensures Bit(Mask(s, m), k) == Bit(s, k)
  {
    assert Mask(s, m) / 2 == Mask(s / 2, m - 1);
    if k > 0 {
      BitOfMask(s / 2, k - 1, m - 1);
    }
  }

  lemma {:induction false} XorBitsOfMask(s: nat, taps: seq<nat>, m: nat)
    requires forall i :: 0 <= i < |taps| ==> taps[i] < m
    ensures XorBits(Mask(s, m), taps) == XorBits(s, taps)
  {
    if taps != [] {
      BitOfMask(s, taps[0], m);
      XorBitsOfMask(s, taps[1..], m);
    }
  }

  /** What a step does to the parts of a state: the rest moves up, the new low bit mixes the top in. */
  lemma StepOfParts(reg: Register, s: nat)
    requires Usable(reg)
    ensures Step(reg, s) / 2 == Mask(s, reg.bits - 1)
    ensures Step(reg, s) % 2 == (Bit(s, reg.bits - 1) + XorBits(Mask(s, reg.bits - 1), reg.taps[1..])) % 2
  {
    XorBitsOfMask(s, reg.taps[1..], reg.bits - 1);
    assert Mask(2 * s, reg.bits) == 2 * Mask(s, reg.bits - 1);
  }

  lemma StepBackUndoesStep(reg: Register, s: nat)
    requires Usable(reg)
    requires s < Pow2(reg.bits)
    ensures StepBack(reg, Step(reg, s)) == s
  {
    StepOfParts(reg, s);
    SplitTop(s, reg.bits - 1);
  }

  lemma StepUndoesStepBack(reg: Register, t: nat)
    requires Usable(reg)
    requires t < Pow2(reg.bits)
    ensures Step(reg, StepBack(reg, t)) == t
  {
    var top := (t % 2 + XorBits(t / 2, reg.taps[1..])) % 2;
    PartsOfJoin(top, t / 2, reg.bits - 1);
    StepOfParts(reg, StepBack(reg, t));
  }

  /** `Step` is a bijection on the states of every usable register. */
  lemma StepIsBijection(reg: Register, s: nat)
    requires Usable(reg)
    requires s < Pow2(reg.bits)
    ensures StepBack(reg, Step(reg, s)) == s
    ensures Step(reg, StepBack(reg, s)) == s
  {
    StepBackUndoesStep(reg, s);
    StepUndoesStepBack(reg, s);
  }

  lemma {:induction false} BitOfZero(k: nat)
    ensures Bit(0, k) == 0
  {
    if k > 0 {
      BitOfZero(k - 1);
    }
  }

  lemma {:induction false} XorBitsOfZero(taps: seq<nat>)
    ensures XorBits(0, taps) == 0
  {
    if taps != [] {
      BitOfZero(taps[0]);
      XorBitsOfZero(taps[1..]);
    }
  }

  lemma {:induction false} MaskOfZero(m: nat)
    ensures Mask(0, m) == 0
  {
    if m > 0 {
      MaskOfZero(m - 1);
    }
  }

  /** The zero state is a fixed point, and no other state ever steps into it. */
  lemma ZeroIsIsolated(reg: Register, s: nat)
    requires Usable(reg)
    requires s < Pow2(reg.bits)
    ensures Step(reg, s) == 0 <==> s == 0
  {
    XorBitsOfZero(reg.taps);
    MaskOfZero(reg.bits);
    StepIsBijection(reg, s);
    StepIsBijection(reg, 0);
  }

  // ---------------------------------------------------------------- orbits

  function Iter(reg: Register, s: nat, k: nat): (t: nat)
    requires Usable(reg)
    requires s < Pow2(reg.bits)
    ensures t < Pow2(reg.bits)
  {
    if k == 0 then s else Step(reg, Iter(reg, s, k - 1))
  }

  lemma {:induction false} IterPlus(reg: Register, s: nat, i: nat, j: nat)
    requires Usable(reg)
    requires s < Pow2(reg.bits)
    ensures Iter(reg, s, i + j) == Iter(reg, Iter(reg, s, i), j)
  {
    if j > 0 {
      IterPlus(reg, s, i, j - 1);
    }
  }

  lemma {:induction false} IterCancels(reg: Register, s: nat, t: nat, k: nat)
    requires Usable(reg)
    requires s < Pow2(reg.bits) && t < Pow2(reg.bits)
    requires Iter(reg, s, k) == Iter(reg, t, k)
    ensures s == t
  {
    if k > 0 {
      StepIsBijection(reg, Iter(reg, s, k - 1));
      StepIsBijection(reg, Iter(reg, t, k - 1));
      IterCancels(reg, s, t, k - 1);
    }
  }

  lemma {:induction false} IterNonzero(reg: Register, s: nat, k: nat)
    requires Usable(reg)
    requires 0 < s < Pow2(reg.bits)
    ensures Iter(reg, s, k) > 0
  {
    if k > 0 {
      IterNonzero(reg, s, k - 1);
      ZeroIsIsolated(reg, Iter(reg, s, k - 1));
    }
  }

  function Orbit(reg: Register, s: nat, k: nat): (o: seq<nat>)
    requires Usable(reg)
    requires s < Pow2(reg.bits)
    ensures |o| == k
  {
    seq(k, i requires 0 <= i => Iter(reg, s, i))
  }

  lemma OrbitInRange(reg: Register, s: nat, k: nat)
    requires Usable(reg)
    requires 0 < s < Pow2(reg.bits)
    ensures Members(Orbit(reg, s, k)) <= Range(1, Pow2(reg.bits))
  {
    forall x | x in Orbit(reg, s, k) ensures x in Range(1, Pow2(reg.bits)) {
      var i :| 0 <= i < k && Orbit(reg, s, k)[i] == x;
      IterNonzero(reg, s, i);
    }
  }

  /** From every nonzero seed the register returns to that seed: its orbit is a pure cycle. */
  lemma OrbitIsPureCycle(reg: Register, s: nat) returns (period: nat)
    requires Usable(reg)
    requires 0 < s < Pow2(reg.bits)
    ensures 0 < period < Pow2(reg.bits)
    ensures Iter(reg, s, period) == s
  {
    var p := Pow2(reg.bits);
    var o := Orbit(reg, s, p);
    OrbitInRange(reg, s, p);
    if NoDuplicates(o) {
      Pigeonhole(o, Range(1, p));
      assert false;
    }
    var i, j :| 0 <= i < j < p && o[i] == o[j];
    period := j - i;
    IterPlus(reg, s, period, i);
    IterCancels(reg, s, Iter(reg, s, period), i);
  }

  /** The one hypothesis about a tap set: the orbit of 1 has 2^n - 1 different states. */
  ghost predicate Maximal(reg: Register)
    requires Usable(reg)
  {
    NoDuplicates(Orbit(reg, 1, Pow2(reg.bits) - 1))
  }

  /** A register that left its seed after `d` steps of the orbit of 1 does not return to it. */
  lemma NoEarlyReturn(reg: Register, s: nat, k: nat, d: nat)
    requires Usable(reg)
    requires Maximal(reg)
    requires 0 < d < Pow2(reg.bits) - 1
    requires s == Iter(reg, 1, k)
    ensures Iter(reg, s, d) != s
  {
    IterPlus(reg, 1, k, d);
    IterPlus(reg, 1, d, k);
    var o := Orbit(reg, 1, Pow2(reg.bits) - 1);
    assert o[0] != o[d];
    if Iter(reg, s, d) == s {
      IterCancels(reg, Iter(reg, 1, d), 1, k);
    }
  }

  /** With maximal taps every nonzero state is in the orbit of 1. */
  lemma MaximalReaches(reg: Register, s: nat) returns (k: nat)
    requires Usable(reg)
    requires Maximal(reg)
    requires 0 < s < Pow2(reg.bits)
    ensures s == Iter(reg, 1, k)
  {
    var p := Pow2(reg.bits) - 1;
    OrbitInRange(reg, 1, p);
    Pigeonhole(Orbit(reg, 1, p), Range(1, p + 1));
    assert s in Members(Orbit(reg, 1, p));
    k :| 0 <= k < p && Orbit(reg, 1, p)[k] == s;
  }

  lemma MaximalDistinct(reg: Register, s: nat, k: nat, i: nat, j: nat)
    requires Usable(reg)
    requires Maximal(reg)
    requires s == Iter(reg, 1, k)
    requires i < j < Pow2(reg.bits) - 1
    ensures Iter(reg, s, i) != Iter(reg, s, j)
  {
    hide Step, Maximal, Usable;
    if Iter(reg, s, i) == Iter(reg, s, j) {
      IterPlus(reg, s, j - i, i);
      IterCancels(reg, s, Iter(reg, s, j - i), i);
      NoEarlyReturn(reg, s, k, j - i);
    }
  }

  /** With maximal taps no state repeats within 2^bits - 1 steps of any nonzero seed. */
  lemma MaximalNoRepeat(reg: Register, s: nat)
    requires Usable(reg)
    requires Maximal(reg)
    requires 0 < s < Pow2(reg.bits)
    ensures NoDuplicates(Orbit(reg, s, Pow2(reg.bits) - 1))
  {
    var p := Pow2(reg.bits) - 1;
    var k := MaximalReaches(reg, s);
    forall i, j | 0 <= i < j < p ensures Orbit(reg, s, p)[i] != Orbit(reg, s, p)[j] {
      MaximalDistinct(reg, s, k, i, j);
    }
  }

  /** With maximal taps every nonzero seed visits all nonzero states, each exactly once. */
  lemma MaximalFromAnySeed(reg: Register, s: nat)
    requires Usable(reg)
    requires Maximal(reg)
    requires 0 < s < Pow2(reg.bits)
    ensures NoDuplicates(Orbit(reg, s, Pow2(reg.bits) - 1))
    ensures Members(Orbit(reg, s, Pow2(reg.bits) - 1)) == Range(1, Pow2(reg.bits))
  {
    hide Maximal, NoDuplicates, Orbit, Members, Usable;
    var p := Pow2(reg.bits) - 1;
    var o, r := Orbit(reg, s, p), Range(1, p + 1);
    MaximalNoRepeat(reg, s);
    OrbitInRange(reg, s, p);
    Pigeonhole(o, r);
  }

  /** The states from `s` on are `o`, one step after the other. */
  predicate Walks(reg: Register, s: nat, o: seq<nat>)
    requires Usable(reg)
    requires s < Pow2(reg.bits)
    decreases |o|
  {
    o == [] || (o[0] == s && Walks(reg, Step(reg, s), o[1..]))
  }

  lemma WalkCons(reg: Register, s: nat, next: nat, rest: seq<nat>, o: seq<nat>)
    requires Usable(reg)
    requires s < Pow2(reg.bits)
    requires o == [s] + rest
    requires Step(reg, s) == next && Walks(reg, next, rest)
    ensures Walks(reg, s, o)
  {
  }

  lemma {:induction false} WalkIsOrbit(reg: Register, s: nat, o: seq<nat>)
    requires Usable(reg)
    requires s < Pow2(reg.bits)
    requires Walks(reg, s, o)
    ensures Orbit(reg, s, |o|) == o
    decreases |o|
  {
    if o != [] {
      WalkIsOrbit(reg, Step(reg, s), o[1..]);
      forall i | 0 < i < |o| ensures Iter(reg, s, i) == o[i] {
        IterPlus(reg, s, 1, i - 1);
        assert Iter(reg, s, 1) == Step(reg, s);
        assert Orbit(reg, Step(reg, s), |o| - 1)[i - 1] == o[1..][i - 1];
      }
    }
  }

  lemma WalkNil(reg: Register, s: nat)
    requires Usable(reg)
    requires s < Pow2(reg.bits)
    ensures Walks(reg, s, [])
  {
  }

  /** A walk through 2^bits - 1 different states shows that the taps are maximal. */
  lemma MaximalByWalk(reg: Register, o: seq<nat>)
    requires Usable(reg)
    requires |o| == Pow2(reg.bits) - 1
    requires Walks(reg, 1, o) && NoDuplicates(o)
    ensures Maximal(reg)
  {
    WalkIsOrbit(reg, 1, o);
  }

  lemma WidthTwoFrom1()
    ensures Step(Register(2, [1, 0]), 1) == 3
  {
  }

  lemma WidthTwoFrom3()
    ensures Step(Register(2, [1, 0]), 3) == 2
  {
  }

  lemma WidthTwoFrom2()
    ensures Step(Register(2, [1, 0]), 2) == 1
  {
  }

  lemma WidthTwoTaps()
    ensures RegisterOf(2) == Register(2, [1, 0])
    ensures Usable(RegisterOf(2)) && Pow2(2) == 4
  {
  }

  lemma WidthTwoIsMaximal()
    ensures Usable(RegisterOf(2)) && Maximal(RegisterOf(2))
  {
    hide *;
    var reg := Register(2, [1, 0]);
    WidthTwoTaps();
    assert reg.bits == 2;
    WalkNil(reg, 1);
    WidthTwoFrom2();
    WalkCons(reg, 2, 1, [], [2]);
    WidthTwoFrom3();
    WalkCons(reg, 3, 2, [2], [3, 2]);
    WidthTwoFrom1();
    WalkCons(reg, 1, 3, [3, 2], [1, 3, 2]);
    MaximalByWalk(reg, [1, 3, 2]);
  }

  lemma WidthThreeFrom1()
    ensures Step(Register(3, [2, 1]), 1) == 2
  {
  }

  lemma WidthThreeFrom2()
    ensures Step(Register(3, [2, 1]), 2) == 5
  {
  }

  lemma WidthThreeFrom5()
    ensures Step(Register(3, [2, 1]), 5) == 3
  {
  }

  lemma WidthThreeFrom3()
    ensures Step(Register(3, [2, 1]), 3) == 7
  {
  }

  lemma WidthThreeFrom7()
    ensures Step(Register(3, [2, 1]), 7) == 6
  {
  }

  lemma WidthThreeFrom6()
    ensures Step(Register(3, [2, 1]), 6) == 4
  {
  }

  lemma WidthThreeFrom4()
    ensures Step(Register(3, [2, 1]), 4) == 1
  {
  }

  lemma WidthThreeTaps()
    ensures RegisterOf(3) == Register(3, [2, 1])
    ensures Usable(RegisterOf(3)) && Pow2(3) == 8
  {
  }

  lemma WidthThreeIsMaximal()
    ensures Usable(RegisterOf(3)) && Maximal(RegisterOf(3))
  {
    hide *;
    var reg := Register(3, [2, 1]);
    WidthThreeTaps();
    assert reg.bits == 3;
    WalkNil(reg, 1);
    WidthThreeFrom4();
    WalkCons(reg, 4, 1, [], [4]);
    WidthThreeFrom6();
    WalkCons(reg, 6, 4, [4], [6, 4]);
    WidthThreeFrom7();
    WalkCons(reg, 7, 6, [6, 4], [7, 6, 4]);
    WidthThreeFrom3();
    WalkCons(reg, 3, 7, [7, 6, 4], [3, 7, 6, 4]);
    WidthThreeFrom5();
    WalkCons(reg, 5, 3, [3, 7, 6, 4], [5, 3, 7, 6, 4]);
    WidthThreeFrom2();
    WalkCons(reg, 2, 5, [5, 3, 7, 6, 4], [2, 5, 3, 7, 6, 4]);
    WidthThreeFrom1();
    WalkCons(reg, 1, 2, [2, 5, 3, 7, 6, 4], [1, 2, 5, 3, 7, 6, 4]);
    MaximalByWalk(reg, [1, 2, 5, 3, 7, 6, 4]);
  }
}
