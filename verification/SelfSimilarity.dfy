/** How similar a report's hash vector scores against itself, given only the energy of its
    bucket sums. Both the normalisation and the score use the ten-round root, so the answer is
    not 1: it falls as the text grows, and the exact point where it reaches the search threshold
    0.7 is located here. */
module SelfSimilarity {
  import opened RealArith
  import opened NewtonRoot

  /** Relative error of the normaliser of a vector with energy `x`. */
  function NormError(x: real): (e: real)
    requires x > 0.0
    ensures e >= 0.0
  {
    RelError(x, ROUNDS)
  }

  /** Energy left after dividing by a normaliser with relative error `e`. */
  function Leftover(e: real): (y: real)
    requires e >= 0.0
    ensures 0.0 < y <= 1.0
  {
    DivOrder(1.0, 1.0, 1.0 + e);
    DivOrder(1.0, 0.0, 1.0 + e);
    1.0 / (1.0 + e)
  }

  /** Self-score of a vector normalised from energy `x`: its remaining energy is 1/(1 + e),
      and scoring that energy against itself divides once more by the root's error. */
  function SelfSim(x: real): real
    requires x > 0.0
  {
    Leftover(NormError(Leftover(NormError(x))))
  }

  /** A closed lower bound for every energy. */
  lemma SelfSimLowerBound(x: real, cap: real)
    requires x > 0.0 && cap >= 0.0
    requires x >= 4.0 ==> x <= cap * FOUR_TO_11
    requires x <= 4.0 ==> 1.0 <= cap * FOUR_TO_9 * x
    ensures SelfSim(x) * (1.0 + (1.0 + cap) / FOUR_TO_9) >= 1.0
  {
    hide RelError;
    var e := NormError(x);
    RootError(x);
    ErrorUnderCap(x, e, cap);
    var y := Leftover(e);
    assert y * (1.0 + e) == 1.0;
    RootError(y);
    var f := NormError(y);
    assert f * FOUR_TO_9 <= 1.0 + e by {
      MulMonotone(f * FOUR_TO_9 * y, 1.0 + e, 1.0, 1.0 + e);
      assert f * FOUR_TO_9 * y * (1.0 + e) == f * FOUR_TO_9 * (y * (1.0 + e));
    }
    var s, g := Leftover(f), (1.0 + cap) / FOUR_TO_9;
    assert s * (1.0 + f) == 1.0;
    MulMonotone(s, 1.0 + f, s, 1.0 + g);
  }

  lemma ErrorUnderCap(x: real, e: real, cap: real)
    requires x > 0.0 && e >= 0.0 && cap >= 0.0
    requires x >= 4.0 ==> e * FOUR_TO_11 <= x <= cap * FOUR_TO_11
    requires x <= 4.0 ==> e * FOUR_TO_9 * x <= 1.0 <= cap * FOUR_TO_9 * x
    ensures e <= cap
  {
    assert (e - cap) * FOUR_TO_9 * x == e * FOUR_TO_9 * x - cap * FOUR_TO_9 * x;
    if x < 4.0 && e > cap {
      MulPositive((e - cap) * FOUR_TO_9, x);
    }
  }

  // ----- Enclosing the error recurrence between two rounded chains -----

  lemma StepBelow(x: real, k: nat, u: real, w: real)
    requires x > 0.0 && k > 0 && RelError(x, k) <= u && u * u <= 4.0 * (1.0 + u) * w
    ensures RelError(x, k + 1) <= w
  {
    hide Damp;
    DampMonotone(RelError(x, k), u);
    DampAt(u, w);
  }

  lemma StepAbove(x: real, k: nat, l: real, w: real)
    requires x > 0.0 && k > 0 && 0.0 <= l <= RelError(x, k) && l * l >= 4.0 * (1.0 + l) * w
    ensures RelError(x, k + 1) >= w
  {
    hide Damp;
    DampMonotone(l, RelError(x, k));
    DampAt(l, w);
  }

  lemma DampAt(u: real, w: real)
    requires u >= 0.0
    ensures u * u <= 4.0 * (1.0 + u) * w ==> Damp(u) <= w
    ensures u * u >= 4.0 * (1.0 + u) * w ==> Damp(u) >= w
  {
    DivOrder(u * u, w, 4.0 * (1.0 + u));
  }

  predicate StepsDown(u: real, w: real) {
    0.0 <= u && 0.0 <= w && u * u <= 4.0 * (1.0 + u) * w
  }

  predicate StepsUp(l: real, w: real) {
    0.0 <= l && 0.0 <= w && l * l >= 4.0 * (1.0 + l) * w
  }

  lemma ChainBelow(x: real, a1: real, a2: real, a3: real, a4: real, a5: real,
                   a6: real, a7: real, a8: real, a9: real, a10: real)
    requires x > 0.0 && RelError(x, 1) <= a1
    requires StepsDown(a1, a2) && StepsDown(a2, a3) && StepsDown(a3, a4) && StepsDown(a4, a5)
    requires StepsDown(a5, a6) && StepsDown(a6, a7) && StepsDown(a7, a8) && StepsDown(a8, a9)
    requires StepsDown(a9, a10)
    ensures NormError(x) <= a10
  {
    hide RelError;
    StepBelow(x, 1, a1, a2); StepBelow(x, 2, a2, a3); StepBelow(x, 3, a3, a4);
    StepBelow(x, 4, a4, a5); StepBelow(x, 5, a5, a6); StepBelow(x, 6, a6, a7);
    StepBelow(x, 7, a7, a8); StepBelow(x, 8, a8, a9); StepBelow(x, 9, a9, a10);
  }

  lemma ChainAbove(x: real, a1: real, a2: real, a3: real, a4: real, a5: real,
                   a6: real, a7: real, a8: real, a9: real, a10: real)
    requires x > 0.0 && RelError(x, 1) >= a1
    requires StepsUp(a1, a2) && StepsUp(a2, a3) && StepsUp(a3, a4) && StepsUp(a4, a5)
    requires StepsUp(a5, a6) && StepsUp(a6, a7) && StepsUp(a7, a8) && StepsUp(a8, a9)
    requires StepsUp(a9, a10)
    ensures NormError(x) >= a10
  {
    hide RelError;
    StepAbove(x, 1, a1, a2); StepAbove(x, 2, a2, a3); StepAbove(x, 3, a3, a4);
    StepAbove(x, 4, a4, a5); StepAbove(x, 5, a5, a6); StepAbove(x, 6, a6, a7);
    StepAbove(x, 7, a7, a8); StepAbove(x, 8, a8, a9); StepAbove(x, 9, a9, a10);
  }

  /** First error of the second root, seen from the error `e` of the first:
      with y = 1/(1+e) it is e + 1/2 + 1/(16(1+e)). */
  lemma SecondStage(e: real)
    requires e >= 0.0
    ensures RelError(Leftover(e), 1) == Carry(e)
  {
    var d := 1.0 + e;
    var y := Leftover(e);
    assert y * d == 1.0;
    FirstError(y);
    assert 1.0 / y == d by {
      assert d * y == 1.0;
    }
  }

  function Carry(e: real): real
    requires e >= 0.0
  {
    e + 0.5 + 1.0 / (1.0 + e) / 16.0
  }

  lemma CarryMonotone(e: real, f: real)
    requires 0.0 <= e <= f
    ensures Carry(e) <= Carry(f)
  {
    ReciprocalGap(1.0 + e, 1.0 + f, 1.0);
  }

  /** Reciprocals of numbers at least `low` differ by at most (y - x) / low^2. */
  lemma ReciprocalGap(x: real, y: real, low: real)
    requires 0.0 < low <= x <= y
    ensures 1.0 / x - 1.0 / y <= (y - x) * ((1.0 / low) * (1.0 / low))
  {
    var p, q, r := 1.0 / x, 1.0 / y, 1.0 / low;
    DivOrder(1.0, 0.0, x);
    DivOrder(1.0, 0.0, y);
    DivOrder(1.0, 0.0, low);
    CrossDivide(1.0, x, 1.0, low);
    CrossDivide(1.0, y, 1.0, low);
    MulMonotone(p, q, r, r);
    MulMonotone(y - x, p * q, y - x, r * r);
    assert (y - x) * (p * q) == p * (q * y) - q * (p * x);
  }

  /** The first error grows with the energy above 4, and below 4 it is at most 1/x. */
  lemma FirstErrorUpTo(x: real, top: real, u: real)
    requires 1.0 / 65025.0 <= x <= top && 4.0 <= top
    requires 65025.0 <= u && top / 16.0 - 0.5 + 1.0 / top <= u
    ensures RelError(x, 1) <= u
  {
    FirstError(x);
    if x < 4.0 {
      DivOrder(1.0, 65025.0, x);
    } else {
      FirstErrorIncreasing(x, top);
    }
  }

  lemma FirstErrorIncreasing(x: real, top: real)
    requires 4.0 <= x <= top
    ensures x / 16.0 + 1.0 / x <= top / 16.0 + 1.0 / top
  {
    ReciprocalGap(x, top, 4.0);
  }

  // ----- The exact threshold -----

  /** The largest bucket weight (sum of squared byte sums) whose vector still scores above 0.7. */
  const MAX_WEIGHT: nat := 48837655610677778

  function EnergyOf(weight: nat): real {
    weight as real / 65025.0
  }

  lemma LightEnough(weight: nat)
    requires 1 <= weight <= MAX_WEIGHT
    ensures EnergyOf(weight) > 0.0 && SelfSim(EnergyOf(weight)) > 0.7
  {
    hide RelError;
    var x := EnergyOf(weight);
    var top := EnergyOf(MAX_WEIGHT);
    FirstErrorUpTo(x, top, 46941229921.3356189926965);
    ChainBelow(x,
      46941229921.3356189926965, 11735307480.0839047481795, 2933826869.77097618706618,
      733456717.192744046851758, 183364179.048186012053792, 45841044.5120465043768550,
      11460260.8780116315478416, 2865064.96950292970147064, 716265.992375819683393361,
      179066.248094303952707495);
    var e := NormError(x);
    SecondStage(e);
    CarryMonotone(e, 179066.248094303952707495);
    var y := Leftover(e);
    ChainBelow(y,
      179066.748094652983592066, 44766.4370250593655379857, 11191.3592618492575720941,
      2797.58983779898123431770, 699.147548780449159279661, 174.537244262705307123316,
      43.3857352648600957553267, 10.6020662564237574733103, 2.42206445001476027398817,
      0.428571428571428559956065);
    DivOrder(1.0, 0.7, 1.0 + NormError(y));
  }

  lemma TooHeavy(weight: nat)
    requires weight > MAX_WEIGHT
    ensures EnergyOf(weight) > 0.0 && SelfSim(EnergyOf(weight)) <= 0.7
  {
    hide RelError;
    var x := EnergyOf(weight);
    FirstError(x);
    FirstErrorIncreasing(EnergyOf(MAX_WEIGHT + 1), x);
    ChainAbove(x,
      46941229921.3356199538652, 11735307480.0839049884716, 2933826869.77097624713920,
      733456717.192744061870012, 183364179.048186015808354, 45841044.5120465053154954,
      11460260.8780116317825016, 2865064.96950292976013563, 716265.992375819698059607,
      179066.248094303956374056);
    var e := NormError(x);
    SecondStage(e);
    CarryMonotone(179066.248094303956374056, e);
    var y := Leftover(e);
    ChainAbove(y,
      179066.748094652987258626, 44766.4370250593664546256, 11191.3592618492578012540,
      2797.58983779898129160766, 699.147548780449173602148, 174.537244262705310703929,
      43.3857352648600966504508, 10.6020662564237576969776, 2.42206445001476032948958,
      0.428571428571428572646555);
    DivOrder(1.0, 0.7, 1.0 + NormError(y));
  }

  /** A vector of bucket weight `w` scores above the search threshold against itself exactly when w <= MAX_WEIGHT. */
  lemma SelfScoreThreshold(weight: nat)
    requires weight >= 1
    ensures EnergyOf(weight) > 0.0
    ensures SelfSim(EnergyOf(weight)) > 0.7 <==> weight <= MAX_WEIGHT
  {
    if weight <= MAX_WEIGHT {
      LightEnough(weight);
    } else {
      TooHeavy(weight);
    }
  }
}
