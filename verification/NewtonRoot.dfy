/** The hand-written ten-round Newton square root of the Go service, over the reals. */
module NewtonRoot {
  import opened RealArith

  const ROUNDS: nat := 10
  const FOUR_TO_9 := 262144.0
  const FOUR_TO_11 := 4194304.0

  lemma NewtonStepPositive(x: real, z: real)
    requires x > 0.0 && z > 0.0
    ensures z - (z * z - x) / (2.0 * z) == (z + x / z) / 2.0
    ensures z - (z * z - x) / (2.0 * z) > 0.0
  {
    var q := x / z;
    assert x == q * z;
    DivOrder(x, 0.0, z);
    assert (z * z - x) / (2.0 * z) == (z - q) / 2.0 by {
      assert z * z - x == (z - q) / 2.0 * (2.0 * z);
    }
  }

  /** The iterate after `k` rounds, started at x/2. */
  function Newton(x: real, k: nat): (z: real)
    requires x > 0.0
    ensures z > 0.0
    decreases k
  {
    if k == 0 then x / 2.0 else Refine(x, Newton(x, k - 1))
  }

  /** One round of the loop. */
  function Refine(x: real, z: real): (w: real)
    requires x > 0.0 && z > 0.0
    ensures w > 0.0
  {
    NewtonStepPositive(x, z);
    z - (z * z - x) / (2.0 * z)
  }

  lemma RefineIs(x: real, z: real)
    requires x > 0.0 && z > 0.0
    ensures Refine(x, z) == z - (z * z - x) / (2.0 * z)
  {
  }

  /** What one round does to the relative error z^2/x - 1. */
  function Damp(r: real): (s: real)
    requires r > -1.0
    ensures s >= 0.0
  {
    SquareNonNegative(r);
    DivOrder(r * r, 0.0, 4.0 * (1.0 + r));
    r * r / (4.0 * (1.0 + r))
  }

  /** Squaring one Newton step squares the relative error and divides it by 4(1 + r). */
  lemma StepError(x: real, z: real, r: real)
    requires x > 0.0 && z > 0.0 && r > -1.0 && z * z == x * (1.0 + r)
    ensures Refine(x, z) * Refine(x, z) == x * (1.0 + Damp(r))
  {
    NewtonStepPositive(x, z);
    var q, w, d := x / z, (z + x / z) / 2.0, Damp(r);
    assert w == Refine(x, z);
    assert q * z == x;
    assert 4.0 * (1.0 + r) * d == r * r;
    // z^2 q^2 = x^2, so everything can be expressed through z^2 = x(1+r).
    var e := 1.0 + r;
    assert q * q * e == x by {
      assert (q * z) * (q * z) == q * q * (x * e);
      assert x * x == x * (q * q * e);
    }
    assert 4.0 * (w * w) == z * z + 2.0 * x + q * q;
    assert 4.0 * e * (w * w) == x * e * e + 2.0 * x * e + x by {
      assert e * (z * z) == x * e * e;
    }
    assert x * e * e + 2.0 * x * e + x == x * (4.0 * e + r * r);
    assert 4.0 * e * (w * w) == 4.0 * e * (x * (1.0 + d)) by {
      assert 4.0 * e * d == r * r;
      assert 4.0 * e * (x * (1.0 + d)) == x * (4.0 * e + 4.0 * e * d);
    }
  }

  /** Relative error of the k-th iterate: the damping step applied k times to x/4 - 1. */
  function RelError(x: real, k: nat): (r: real)
    requires x > 0.0
    ensures r > -1.0
    ensures k > 0 ==> r >= 0.0
    decreases k
  {
    if k == 0 then x / 4.0 - 1.0 else Damp(RelError(x, k - 1))
  }

  lemma StartError(x: real)
    requires x > 0.0
    ensures Newton(x, 0) * Newton(x, 0) == x * (1.0 + RelError(x, 0))
  {
    assert Newton(x, 0) == x / 2.0 && RelError(x, 0) == x / 4.0 - 1.0;
  }

  /** The whole iteration in terms of the error recurrence: z_k^2 = x (1 + r_k), r_0 = x/4 - 1. */
  lemma {:induction false} NewtonError(x: real, k: nat)
    requires x > 0.0
    ensures Newton(x, k) * Newton(x, k) == x * (1.0 + RelError(x, k))
    decreases k
  {
    hide Refine, Damp;
    if k == 0 {
      StartError(x);
    } else {
      NewtonError(x, k - 1);
      var z, r := Newton(x, k - 1), RelError(x, k - 1);
      assert Newton(x, k) == Refine(x, z) && RelError(x, k) == Damp(r);
      hide Newton, RelError;
      StepError(x, z, r);
    }
  }

  lemma DampQuarter(r: real)
    requires r >= 0.0
    ensures Damp(r) <= r / 4.0
    ensures Damp(r) <= r * r / 4.0
  {
    var d := Damp(r);
    assert d * (4.0 * (1.0 + r)) == r * r;
    MulNonNegative(d, r);
    assert d * (4.0 * (1.0 + r)) == 4.0 * d + 4.0 * (d * r);
    MulNonNegative(r, r);
    DivOrder(r * r, r / 4.0, 4.0 * (1.0 + r));
  }

  /** A smaller error stays smaller: the damping step is increasing on non-negative errors. */
  lemma DampMonotone(r: real, s: real)
    requires 0.0 <= r <= s
    ensures Damp(r) <= Damp(s)
  {
    DampCross(r, s);
    CrossDivide(r * r, 4.0 * (1.0 + r), s * s, 4.0 * (1.0 + s));
  }

  lemma DampCross(r: real, s: real)
    requires 0.0 <= r <= s
    ensures (r * r) * (4.0 * (1.0 + s)) <= (s * s) * (4.0 * (1.0 + r))
  {
    var a, b, m := r * r, s * s, r * s;
    MulMonotone(r, r, s, s);
    MulNonNegative(r, s);
    MulMonotone(m, r, m, s);
    assert a * s == m * r && b * r == m * s;
    assert a * (4.0 * (1.0 + s)) == 4.0 * a + 4.0 * (a * s);
    assert b * (4.0 * (1.0 + r)) == 4.0 * b + 4.0 * (b * r);
  }

  /** `r` divided by four, `k` times. */
  function Quartered(r: real, k: nat): real
    decreases k
  {
    if k == 0 then r else Quartered(r, k - 1) / 4.0
  }

  /** After the first round every round divides the error by at least four. */
  lemma {:induction false} ErrorQuarters(x: real, k: nat)
    requires x > 0.0
    ensures 0.0 <= RelError(x, k + 1) <= Quartered(RelError(x, 1), k)
    decreases k
  {
    hide Damp;
    if k == 0 {
    } else {
      ErrorQuarters(x, k - 1);
      DampQuarter(RelError(x, k));
    }
  }

  /** First error: r_1 = (x/4 - 1)^2 / x, at most max(x/16, 1/x). */
  lemma FirstError(x: real)
    requires x > 0.0
    ensures RelError(x, 1) * x == (x / 4.0 - 1.0) * (x / 4.0 - 1.0)
    ensures RelError(x, 1) == x / 16.0 - 0.5 + 1.0 / x
    ensures x >= 4.0 ==> RelError(x, 1) <= x / 16.0
    ensures x <= 4.0 ==> RelError(x, 1) <= 1.0 / x
  {
    var r, i := x / 4.0 - 1.0, 1.0 / x;
    assert RelError(x, 0) == r;
    assert RelError(x, 1) == Damp(r) == r * r / x;
    var d := r * r / x;
    assert d * x == r * r;
    assert i * x == 1.0;
    assert d == x / 16.0 - 0.5 + i by {
      assert r * r == (x / 16.0 - 0.5 + i) * x by {
        assert (x / 16.0 - 0.5 + i) * x == x * x / 16.0 - x / 2.0 + i * x;
      }
    }
    if x >= 4.0 {
      DivOrder(1.0, 0.25, x);
    }
  }

  /** Newton iterates after the first stay at or above the root, never increase,
      and square their error: r_{k+1} <= r_k^2 / 4. */
  lemma IteratesDescend(x: real, k: nat)
    requires x > 0.0 && k >= 1
    ensures Newton(x, k) * Newton(x, k) >= x
    ensures Newton(x, k + 1) <= Newton(x, k)
    ensures RelError(x, k + 1) <= RelError(x, k) * RelError(x, k) / 4.0
  {
    hide Refine, Damp;
    NewtonError(x, k);
    NewtonError(x, k + 1);
    var r, s := RelError(x, k), RelError(x, k + 1);
    DampQuarter(r);
    MulNonNegative(x, r);
    Descend(x, Newton(x, k), Newton(x, k + 1), r, s);
  }

  lemma Descend(x: real, z: real, w: real, r: real, s: real)
    requires x > 0.0 && z > 0.0 && 0.0 <= s <= r
    requires z * z == x * (1.0 + r) && w * w == x * (1.0 + s)
    ensures w <= z
  {
    MulMonotone(x, 1.0 + s, x, 1.0 + r);
    SquareOrder(w, z);
  }

  /** Bounds on the relative error of the ten-round root. */
  lemma RootError(x: real)
    requires x > 0.0
    ensures 0.0 <= RelError(x, ROUNDS)
    ensures x >= 4.0 ==> RelError(x, ROUNDS) * FOUR_TO_11 <= x
    ensures x <= 4.0 ==> RelError(x, ROUNDS) * FOUR_TO_9 * x <= 1.0
  {
    hide Newton, Damp, RelError;
    FirstError(x);
    ErrorQuarters(x, 9);
    assert Quartered(RelError(x, 1), 9) == RelError(x, 1) / FOUR_TO_9;
    RootErrorFrom(x, RelError(x, 1), RelError(x, ROUNDS));
  }

  lemma RootErrorFrom(x: real, first: real, last: real)
    requires x > 0.0 && 0.0 <= last * FOUR_TO_9 <= first
    requires x >= 4.0 ==> first <= x / 16.0
    requires x <= 4.0 ==> first <= 1.0 / x
    ensures 0.0 <= last
    ensures x >= 4.0 ==> last * FOUR_TO_11 <= x
    ensures x <= 4.0 ==> last * FOUR_TO_9 * x <= 1.0
  {
    if x <= 4.0 {
      MulMonotone(last * FOUR_TO_9, x, 1.0 / x, x);
    }
  }

  function Max(a: real, b: real): real {
    if a >= b then a else b
  }

  /** Squared error of the ten-round root: between 0 and x * max(x / 4^11, 1 / (4^9 x)). */
  lemma SquaredErrorBound(x: real)
    requires x > 0.0
    ensures var z := Newton(x, ROUNDS);
      0.0 <= z * z - x <= x * Max(x / FOUR_TO_11, 1.0 / (FOUR_TO_9 * x))
  {
    hide *;
    NewtonError(x, ROUNDS);
    RootError(x);
    AbsoluteError(x, Newton(x, ROUNDS), RelError(x, ROUNDS));
  }

  lemma AbsoluteError(x: real, z: real, r: real)
    requires x > 0.0 && 0.0 <= r && z * z == x * (1.0 + r)
    requires x >= 4.0 ==> r * FOUR_TO_11 <= x
    requires x <= 4.0 ==> r * FOUR_TO_9 * x <= 1.0
    ensures 0.0 <= z * z - x <= x * Max(x / FOUR_TO_11, 1.0 / (FOUR_TO_9 * x))
  {
    var m := Max(x / FOUR_TO_11, 1.0 / (FOUR_TO_9 * x));
    if x < 4.0 {
      DivOrder(1.0, r, FOUR_TO_9 * x);
    }
    MulMonotone(x, r, x, m);
  }

  /** The Go `sqrt`: start at x/2, ten Newton updates. The result never underestimates the root,
      and its squared error is within x * max(x/4^11, 1/(4^9 x)). */
  method Sqrt(x: real) returns (z: real)
    requires x > 0.0
    ensures z == Newton(x, ROUNDS)
    ensures z > 0.0
    ensures 0.0 <= z * z - x <= x * Max(x / FOUR_TO_11, 1.0 / (FOUR_TO_9 * x))
  {
    hide Refine;
    z := x / 2.0;
    for i := 0 to ROUNDS
      invariant z == Newton(x, i)
    {
      RefineIs(x, z);
      z := z - (z * z - x) / (2.0 * z);
    }
    SquaredErrorBound(x);
  }
}
