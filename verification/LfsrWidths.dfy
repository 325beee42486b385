/**
 Small registers whose taps are maximal, beyond widths 2 and 3. A state is written
 out bit by bit, lowest first, and followed for as many steps as there are other
 nonzero states: it does not come back to 1 before.
 */
module LfsrWidths {
  import opened Sequences
  import opened Lfsr

  datatype Digit = O | I

  function Xor(a: Digit, b: Digit): Digit {
    if a == b then O else I
  }

  function AsNat(d: Digit): (n: nat)
    ensures n < 2
  {
    if d == I then 1 else 0
  }

  /** The word that the digits stand for. */
  function Value(bs: seq<Digit>): (s: nat)
    ensures s < Pow2(|bs|)
  {
    if bs == [] then 0 else AsNat(bs[0]) + 2 * Value(bs[1..])
  }

  lemma {:induction false} BitOfValue(bs: seq<Digit>, k: nat)
    requires k < |bs|
    ensures Bit(Value(bs), k) == AsNat(bs[k])
  {
    if k > 0 {
      BitOfValue(bs[1..], k - 1);
    }
  }

  lemma {:induction false} MaskOfValue(bs: seq<Digit>, m: nat)
    requires m <= |bs|
    ensures Mask(Value(bs), m) == Value(bs[..m])
  {
    if m > 0 {
      MaskOfValue(bs[1..], m - 1);
      assert bs[..m][1..] == bs[1..][..m - 1];
    }
  }

  /** The exclusive-or of the digits at the taps. */
  function XorAt(bs: seq<Digit>, taps: seq<nat>): Digit
    requires forall i :: 0 <= i < |taps| ==> taps[i] < |bs|
  {
    if taps == [] then O else Xor(bs[taps[0]], XorAt(bs, taps[1..]))
  }

  lemma {:induction false} XorOfValue(bs: seq<Digit>, taps: seq<nat>)
    requires forall i :: 0 <= i < |taps| ==> taps[i] < |bs|
    ensures XorBits(Value(bs), taps) == AsNat(XorAt(bs, taps))
  {
    if taps != [] {
      BitOfValue(bs, taps[0]);
      XorOfValue(bs, taps[1..]);
    }
  }

  lemma {:induction false} ValueIsOne(bs: seq<Digit>)
    requires bs != []
    ensures Value(bs) == 0 <==> forall i :: 0 <= i < |bs| ==> bs[i] == O
    ensures Value(bs) == 1 <==> bs[0] == I && forall i :: 1 <= i < |bs| ==> bs[i] == O
  {
    if |bs| > 1 {
      ValueIsOne(bs[1..]);
      assert forall i :: 1 <= i < |bs| ==> bs[i] == bs[1..][i - 1];
    }
  }

  /** A step moves the digits up and puts the exclusive-or of the taps below them. */
  lemma StepOfValue(reg: Register, bs: seq<Digit>)
    requires Usable(reg) && |bs| == reg.bits && forall i :: 0 <= i < |reg.taps| ==> reg.taps[i] < |bs|
    ensures Value(bs) < Pow2(reg.bits)
    ensures Step(reg, Value(bs)) == Value([XorAt(bs, reg.taps)] + bs[..|bs| - 1])
  {
    XorOfValue(bs, reg.taps);
    MaskOfValue(bs, |bs| - 1);
    assert Mask(2 * Value(bs), reg.bits) == 2 * Mask(Value(bs), reg.bits - 1);
    assert ([XorAt(bs, reg.taps)] + bs[..|bs| - 1])[1..] == bs[..|bs| - 1];
  }

  /** A register is not in state 1 for that many steps. */
  ghost predicate Avoids(reg: Register, s: nat, steps: nat)
    requires Usable(reg) && s < Pow2(reg.bits)
  {
    forall d :: 0 <= d < steps ==> Iter(reg, s, d) != 1
  }

  lemma AvoidsOneMore(reg: Register, s: nat, steps: nat)
    requires Usable(reg) && s < Pow2(reg.bits) && s != 1 && Avoids(reg, Step(reg, s), steps)
    ensures Avoids(reg, s, steps + 1)
  {
    hide Step, Usable;
    assert Iter(reg, s, 0) == s && Iter(reg, s, 1) == Step(reg, s);
    forall d | 0 <= d < steps + 1 ensures Iter(reg, s, d) != 1 {
      if d > 0 {
        IterPlus(reg, s, 1, d - 1);
      }
    }
  }

  lemma AvoidsNothing(reg: Register, s: nat)
    requires Usable(reg) && s < Pow2(reg.bits)
    ensures Avoids(reg, s, 0)
  {
  }

  /** A register that does not come back to 1 too early has maximal taps. */
  lemma MaximalByAvoiding(reg: Register, first: nat)
    requires Usable(reg) && 1 < Pow2(reg.bits) && first == Step(reg, 1)
    requires Avoids(reg, first, Pow2(reg.bits) - 2)
    ensures Maximal(reg)
  {
    hide Step, Usable;
    var o := Orbit(reg, 1, Pow2(reg.bits) - 1);
    assert Iter(reg, 1, 0) == 1 && Iter(reg, 1, 1) == first;
    forall i, j | 0 <= i < j < |o| ensures o[i] != o[j] {
      var d := j - i;
      IterPlus(reg, 1, d, i);
      if Iter(reg, 1, i) == Iter(reg, 1, j) {
        IterCancels(reg, Iter(reg, 1, d), 1, i);
        IterPlus(reg, 1, 1, d - 1);
      }
    }
  }

  /** The exclusive-or at two taps, and at four. */
  lemma XorAtTaps(bs: seq<Digit>, a: nat, b: nat, c: nat, d: nat)
    requires a < |bs| && b < |bs| && c < |bs| && d < |bs|
    ensures XorAt(bs, [a, b]) == Xor(bs[a], Xor(bs[b], O))
    ensures XorAt(bs, [a, b, c, d]) == Xor(bs[a], Xor(bs[b], Xor(bs[c], Xor(bs[d], O))))
  {
    XorAtCons(bs, b, []);
    XorAtCons(bs, a, [b]);
    XorAtCons(bs, d, []);
    XorAtCons(bs, c, [d]);
    XorAtCons(bs, b, [c, d]);
    XorAtCons(bs, a, [b, c, d]);
    assert [a] + [b, c, d] == [a, b, c, d] && [b] + [c, d] == [b, c, d];
  }

  lemma XorAtCons(bs: seq<Digit>, a: nat, rest: seq<nat>)
    requires a < |bs| && forall i :: 0 <= i < |rest| ==> rest[i] < |bs|
    ensures XorAt(bs, [a] + rest) == Xor(bs[a], XorAt(bs, rest)) && XorAt(bs, []) == O
  {
    assert ([a] + rest)[1..] == rest;
  }

  /** One step backwards: from a state that is not 1 to the next one, which avoids 1. */
  lemma Follow(reg: Register, bs: seq<Digit>, next: seq<Digit>, steps: nat)
    requires Usable(reg) && |bs| == |next| == reg.bits && forall i :: 0 <= i < |reg.taps| ==> reg.taps[i] < |bs|
    requires next[0] == XorAt(bs, reg.taps) && forall i :: 1 <= i < |bs| ==> next[i] == bs[i - 1]
    requires !(bs[0] == I && forall i :: 1 <= i < |bs| ==> bs[i] == O)
    requires Value(next) < Pow2(reg.bits) && Avoids(reg, Value(next), steps)
    ensures Value(bs) < Pow2(reg.bits) && Avoids(reg, Value(bs), steps + 1)
  {
    hide Avoids, Step, XorAt;
    ValueIsOne(bs);
    StepOfValue(reg, bs);
    assert next == [XorAt(bs, reg.taps)] + bs[..|bs| - 1];
    AvoidsOneMore(reg, Value(bs), steps);
  }

  // ----------------------------------------------------------------- width 4

  predicate AvoidsFour(b0: Digit, b1: Digit, b2: Digit, b3: Digit, steps: nat)
    decreases steps
  {
    if steps == 0 then true
    else if b0 == I && b1 == O && b2 == O && b3 == O then false
    else AvoidsFour(Xor(b3, Xor(b2, O)), b0, b1, b2, steps - 1)
  }

  lemma RegisterFour()
    ensures RegisterOf(4) == Register(4, [3, 2]) && Usable(RegisterOf(4)) && Pow2(4) == 16
  {
  }

  lemma {:induction false} FourMeansAvoids(
      b0: Digit, b1: Digit, b2: Digit, b3: Digit, steps: nat)
    requires AvoidsFour(b0, b1, b2, b3, steps)
    ensures Usable(RegisterOf(4)) && Value([b0, b1, b2, b3]) < Pow2(RegisterOf(4).bits)
    ensures Avoids(RegisterOf(4), Value([b0, b1, b2, b3]), steps)
    decreases steps
  {
    hide Step, Usable, Value, Avoids, XorAt, Taps, RegisterOf, Xor, Pow2;
    RegisterFour();
    var reg, bs := RegisterOf(4), [b0, b1, b2, b3];
    if steps == 0 {
      AvoidsNothing(reg, Value(bs));
    } else {
      var next := [Xor(b3, Xor(b2, O)), b0, b1, b2];
      assert bs[0] == b0 && bs[1] == b1 && bs[2] == b2 && bs[3] == b3;
      XorAtTaps(bs, 3, 2, 3, 2);
      FourMeansAvoids(Xor(b3, Xor(b2, O)), b0, b1, b2, steps - 1);
      Follow(reg, bs, next, steps - 1);
    }
  }

  lemma WidthFourIsMaximal()
    ensures Usable(RegisterOf(4)) && Maximal(RegisterOf(4))
  {
    hide Step, Usable, Value, Avoids, Taps, RegisterOf, Pow2, Maximal;
    RegisterFour();
    assert AvoidsFour(I, O, I, O, 7);
    assert AvoidsFour(O, I, O, O, 14);
    FourMeansAvoids(O, I, O, O, 14);
    FirstFour();
    MaximalByAvoiding(RegisterOf(4), 2);
  }

  lemma FirstFour()
    requires RegisterOf(4) == Register(4, [3, 2]) && Usable(RegisterOf(4))
    ensures Value([O, I, O, O]) == 2 && Step(RegisterOf(4), 1) == 2
  {
    hide Usable;
    assert Value([I, O, O, O]) == 1;
    XorAtTaps([I, O, O, O], 3, 2, 3, 2);
    StepOfValue(RegisterOf(4), [I, O, O, O]);
    assert [XorAt([I, O, O, O], [3, 2])] + [I, O, O, O][..3] == [O, I, O, O];
  }

  // ----------------------------------------------------------------- width 5

  predicate AvoidsFive(b0: Digit, b1: Digit, b2: Digit, b3: Digit, b4: Digit, steps: nat)
    decreases steps
  {
    if steps == 0 then true
    else if b0 == I && b1 == O && b2 == O && b3 == O && b4 == O then false
    else AvoidsFive(Xor(b4, Xor(b2, O)), b0, b1, b2, b3, steps - 1)
  }

  lemma RegisterFive()
    ensures RegisterOf(5) == Register(5, [4, 2]) && Usable(RegisterOf(5)) && Pow2(5) == 32
  {
  }

  lemma {:induction false} FiveMeansAvoids(
      b0: Digit, b1: Digit, b2: Digit, b3: Digit, b4: Digit, steps: nat)
    requires AvoidsFive(b0, b1, b2, b3, b4, steps)
    ensures Usable(RegisterOf(5)) && Value([b0, b1, b2, b3, b4]) < Pow2(RegisterOf(5).bits)
    ensures Avoids(RegisterOf(5), Value([b0, b1, b2, b3, b4]), steps)
    decreases steps
  {
    hide Step, Usable, Value, Avoids, XorAt, Taps, RegisterOf, Xor, Pow2;
    RegisterFive();
    var reg, bs := RegisterOf(5), [b0, b1, b2, b3, b4];
    if steps == 0 {
      AvoidsNothing(reg, Value(bs));
    } else {
      var next := [Xor(b4, Xor(b2, O)), b0, b1, b2, b3];
      assert bs[0] == b0 && bs[1] == b1 && bs[2] == b2 && bs[3] == b3 && bs[4] == b4;
      XorAtTaps(bs, 4, 2, 4, 2);
      FiveMeansAvoids(Xor(b4, Xor(b2, O)), b0, b1, b2, b3, steps - 1);
      Follow(reg, bs, next, steps - 1);
    }
  }

  lemma FiveFor14()
    ensures AvoidsFive(I, O, O, O, I, 14)
  {
    assert AvoidsFive(I, O, I, I, I, 7);
    assert AvoidsFive(I, O, O, O, I, 14);
  }

  lemma FiveFor28()
    ensures AvoidsFive(I, O, O, I, O, 28)
  {
    FiveFor14();
    assert AvoidsFive(I, I, O, O, I, 21);
    assert AvoidsFive(I, O, O, I, O, 28);
  }

  lemma WidthFiveIsMaximal()
    ensures Usable(RegisterOf(5)) && Maximal(RegisterOf(5))
  {
    hide Step, Usable, Value, Avoids, Taps, RegisterOf, Pow2, Maximal;
    RegisterFive();
    FiveFor28();
    assert AvoidsFive(O, I, O, O, O, 30);
    FiveMeansAvoids(O, I, O, O, O, 30);
    FirstFive();
    MaximalByAvoiding(RegisterOf(5), 2);
  }

  lemma FirstFive()
    requires RegisterOf(5) == Register(5, [4, 2]) && Usable(RegisterOf(5))
    ensures Value([O, I, O, O, O]) == 2 && Step(RegisterOf(5), 1) == 2
  {
    hide Usable;
    assert Value([I, O, O, O, O]) == 1;
    XorAtTaps([I, O, O, O, O], 4, 2, 4, 2);
    StepOfValue(RegisterOf(5), [I, O, O, O, O]);
    assert [XorAt([I, O, O, O, O], [4, 2])] + [I, O, O, O, O][..4] == [O, I, O, O, O];
  }

  // ----------------------------------------------------------------- width 6

  predicate AvoidsSix(b0: Digit, b1: Digit, b2: Digit, b3: Digit, b4: Digit, b5: Digit, steps: nat)
    decreases steps
  {
    if steps == 0 then true
    else if b0 == I && b1 == O && b2 == O && b3 == O && b4 == O && b5 == O then false
    else AvoidsSix(Xor(b5, Xor(b3, Xor(b2, Xor(b0, O)))), b0, b1, b2, b3, b4, steps - 1)
  }

  lemma RegisterSix()
    ensures RegisterOf(6) == Register(6, [5, 3, 2, 0]) && Usable(RegisterOf(6)) && Pow2(6) == 64
  {
  }

  lemma {:induction false} SixMeansAvoids(
      b0: Digit, b1: Digit, b2: Digit, b3: Digit, b4: Digit, b5: Digit, steps: nat)
    requires AvoidsSix(b0, b1, b2, b3, b4, b5, steps)
    ensures Usable(RegisterOf(6)) && Value([b0, b1, b2, b3, b4, b5]) < Pow2(RegisterOf(6).bits)
    ensures Avoids(RegisterOf(6), Value([b0, b1, b2, b3, b4, b5]), steps)
    decreases steps
  {
    hide Step, Usable, Value, Avoids, XorAt, Taps, RegisterOf, Xor, Pow2;
    RegisterSix();
    var reg, bs := RegisterOf(6), [b0, b1, b2, b3, b4, b5];
    if steps == 0 {
      AvoidsNothing(reg, Value(bs));
    } else {
      var next := [Xor(b5, Xor(b3, Xor(b2, Xor(b0, O)))), b0, b1, b2, b3, b4];
      assert bs[0] == b0 && bs[1] == b1 && bs[2] == b2 && bs[3] == b3 && bs[4] == b4 && bs[5] == b5;
      XorAtTaps(bs, 5, 3, 2, 0);
      SixMeansAvoids(Xor(b5, Xor(b3, Xor(b2, Xor(b0, O)))), b0, b1, b2, b3, b4, steps - 1);
      Follow(reg, bs, next, steps - 1);
    }
  }

  lemma SixFor14()
    ensures AvoidsSix(O, O, I, O, I, O, 14)
  {
    assert AvoidsSix(O, I, I, I, I, I, 7);
    assert AvoidsSix(O, O, I, O, I, O, 14);
  }

  lemma SixFor28()
    ensures AvoidsSix(I, I, I, I, O, I, 28)
  {
    SixFor14();
    assert AvoidsSix(O, O, O, I, I, O, 21);
    assert AvoidsSix(I, I, I, I, O, I, 28);
  }

  lemma SixFor42()
    ensures AvoidsSix(I, O, O, I, I, O, 42)
  {
    SixFor28();
    assert AvoidsSix(I, O, I, O, I, I, 35);
    assert AvoidsSix(I, O, O, I, I, O, 42);
  }

  lemma SixFor56()
    ensures AvoidsSix(I, O, O, O, O, I, 56)
  {
    SixFor42();
    assert AvoidsSix(I, O, O, O, I, O, 49);
    assert AvoidsSix(I, O, O, O, O, I, 56);
  }

  lemma WidthSixIsMaximal()
    ensures Usable(RegisterOf(6)) && Maximal(RegisterOf(6))
  {
    hide Step, Usable, Value, Avoids, Taps, RegisterOf, Pow2, Maximal;
    RegisterSix();
    SixFor56();
    assert AvoidsSix(I, I, O, O, O, O, 62);
    SixMeansAvoids(I, I, O, O, O, O, 62);
    FirstSix();
    MaximalByAvoiding(RegisterOf(6), 3);
  }

  lemma FirstSix()
    requires RegisterOf(6) == Register(6, [5, 3, 2, 0]) && Usable(RegisterOf(6))
    ensures Value([I, I, O, O, O, O]) == 3 && Step(RegisterOf(6), 1) == 3
  {
    hide Usable;
    assert Value([I, O, O, O, O, O]) == 1;
    XorAtTaps([I, O, O, O, O, O], 5, 3, 2, 0);
    StepOfValue(RegisterOf(6), [I, O, O, O, O, O]);
    assert [XorAt([I, O, O, O, O, O], [5, 3, 2, 0])] + [I, O, O, O, O, O][..5] == [I, I, O, O, O, O];
  }

  // ----------------------------------------------------------------- width 7

  predicate AvoidsSeven(b0: Digit, b1: Digit, b2: Digit, b3: Digit, b4: Digit, b5: Digit, b6: Digit, steps: nat)
    decreases steps
  {
    if steps == 0 then true
    else if b0 == I && b1 == O && b2 == O && b3 == O && b4 == O && b5 == O && b6 == O then false
    else AvoidsSeven(Xor(b6, Xor(b2, O)), b0, b1, b2, b3, b4, b5, steps - 1)
  }

  lemma RegisterSeven()
    ensures RegisterOf(7) == Register(7, [6, 2]) && Usable(RegisterOf(7)) && Pow2(7) == 128
  {
  }

  lemma {:induction false} SevenMeansAvoids(
      b0: Digit, b1: Digit, b2: Digit, b3: Digit, b4: Digit, b5: Digit, b6: Digit, steps: nat)
    requires AvoidsSeven(b0, b1, b2, b3, b4, b5, b6, steps)
    ensures Usable(RegisterOf(7)) && Value([b0, b1, b2, b3, b4, b5, b6]) < Pow2(RegisterOf(7).bits)
    ensures Avoids(RegisterOf(7), Value([b0, b1, b2, b3, b4, b5, b6]), steps)
    decreases steps
  {
    hide Step, Usable, Value, Avoids, XorAt, Taps, RegisterOf, Xor, Pow2;
    RegisterSeven();
    var reg, bs := RegisterOf(7), [b0, b1, b2, b3, b4, b5, b6];
    if steps == 0 {
      AvoidsNothing(reg, Value(bs));
    } else {
      var next := [Xor(b6, Xor(b2, O)), b0, b1, b2, b3, b4, b5];
      assert bs[0] == b0 && bs[1] == b1 && bs[2] == b2 && bs[3] == b3 && bs[4] == b4 && bs[5] == b5 && bs[6] == b6;
      XorAtTaps(bs, 6, 2, 6, 2);
      SevenMeansAvoids(Xor(b6, Xor(b2, O)), b0, b1, b2, b3, b4, b5, steps - 1);
      Follow(reg, bs, next, steps - 1);
    }
  }

  lemma SevenFor14()
    ensures AvoidsSeven(I, I, O, O, O, I, O, 14)
  {
    assert AvoidsSeven(I, O, O, O, I, O, O, 7);
    assert AvoidsSeven(I, I, O, O, O, I, O, 14);
  }

  lemma SevenFor28()
    ensures AvoidsSeven(I, O, I, I, O, O, O, 28)
  {
    SevenFor14();
    assert AvoidsSeven(I, I, I, O, I, O, I, 21);
    assert AvoidsSeven(I, O, I, I, O, O, O, 28);
  }

  lemma SevenFor42()
    ensures AvoidsSeven(I, O, I, O, I, O, O, 42)
  {
    SevenFor28();
    assert AvoidsSeven(O, O, I, I, O, O, I, 35);
    assert AvoidsSeven(I, O, I, O, I, O, O, 42);
  }

  lemma SevenFor56()
    ensures AvoidsSeven(I, I, O, I, I, O, I, 56)
  {
    SevenFor42();
    assert AvoidsSeven(I, I, I, O, O, I, I, 49);
    assert AvoidsSeven(I, I, O, I, I, O, I, 56);
  }

  lemma SevenFor70()
    ensures AvoidsSeven(O, I, O, I, I, I, I, 70)
  {
    SevenFor56();
    assert AvoidsSeven(O, O, O, O, I, O, I, 63);
    assert AvoidsSeven(O, I, O, I, I, I, I, 70);
  }

  lemma SevenFor84()
    ensures AvoidsSeven(I, O, O, O, I, I, O, 84)
  {
    SevenFor70();
    assert AvoidsSeven(I, O, I, O, O, I, O, 77);
    assert AvoidsSeven(I, O, O, O, I, I, O, 84);
  }

  lemma SevenFor98()
    ensures AvoidsSeven(I, I, I, I, I, I, O, 98)
  {
    SevenFor84();
    assert AvoidsSeven(I, I, I, O, O, O, I, 91);
    assert AvoidsSeven(I, I, I, I, I, I, O, 98);
  }

  lemma SevenFor112()
    ensures AvoidsSeven(I, I, I, I, O, O, I, 112)
  {
    SevenFor98();
    assert AvoidsSeven(O, O, O, I, I, I, O, 105);
    assert AvoidsSeven(I, I, I, I, O, O, I, 112);
  }

  lemma WidthSevenIsMaximal()
    ensures Usable(RegisterOf(7)) && Maximal(RegisterOf(7))
  {
    hide Step, Usable, Value, Avoids, Taps, RegisterOf, Pow2, Maximal;
    RegisterSeven();
    SevenFor112();
    assert AvoidsSeven(O, I, I, O, O, I, O, 119);
    assert AvoidsSeven(O, I, O, O, O, O, O, 126);
    SevenMeansAvoids(O, I, O, O, O, O, O, 126);
    FirstSeven();
    MaximalByAvoiding(RegisterOf(7), 2);
  }

  lemma FirstSeven()
    requires RegisterOf(7) == Register(7, [6, 2]) && Usable(RegisterOf(7))
    ensures Value([O, I, O, O, O, O, O]) == 2 && Step(RegisterOf(7), 1) == 2
  {
    hide Usable;
    assert Value([I, O, O, O, O, O, O]) == 1;
    XorAtTaps([I, O, O, O, O, O, O], 6, 2, 6, 2);
    StepOfValue(RegisterOf(7), [I, O, O, O, O, O, O]);
    assert [XorAt([I, O, O, O, O, O, O], [6, 2])] + [I, O, O, O, O, O, O][..6] == [O, I, O, O, O, O, O];
  }
}
