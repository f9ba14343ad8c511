/** The modified Lentz evaluation of the incomplete-beta continued fraction, over the
    reals: `1 / (1 + k1 / (1 + k2 / (1 + ...)))`. */
module Lentz {
  import opened Fractions
  import opened BetaFraction

  function AbsR(x: real): (r: real) {
    if x < 0.0 then -x else x
  }

  const MAX_ITERATIONS := 200

  // ---- the loop ----

  /** `c` and `d` are the ratios of neighbouring numerators and denominators. */
  predicate Ratios(a0: real, a1: real, b0: real, b1: real, c: real, d: real) {
    a0 != 0.0 && a1 != 0.0 && b1 != 0.0 && c == a1 / a0 && d == b0 / b1
  }

  /** Ratios of neighbouring convergents, and the convergent itself. */
  predicate Tracks(k: nat -> real, n: nat, c: real, d: real, result: real)
    requires 0 < n
  {
    Ratios(Num(k, n - 1), Num(k, n), Den(k, n - 1), Den(k, n), c, d) && IsValue(k, n, result)
  }

  /** Replace a vanishing value by `tiny` (10 to the -300 in the program). */
  function Clamp(x: real, tiny: real): (y: real)
    requires tiny > 0.0
    ensures AbsR(y) >= tiny && y != 0.0
    ensures AbsR(x) >= tiny ==> y == x
    ensures AbsR(x) < tiny ==> y == tiny
  {
    if AbsR(x) < tiny then tiny else x
  }

  /** `u` is smaller than `tiny` times `v`. */
  predicate Shrinks(u: real, v: real, tiny: real) {
    AbsR(u) < tiny * AbsR(v)
  }

  /** Numerator and denominator do not shrink below a factor of `tiny` at convergent `i`;
      the first numerator is not looked at. */
  predicate Holds(k: nat -> real, i: nat, tiny: real)
    requires 0 < i
  {
    !Shrinks(Den(k, i), Den(k, i - 1), tiny) && (i > 1 ==> !Shrinks(Num(k, i), Num(k, i - 1), tiny))
  }

  /** No value is ever replaced up to convergent `n`. */
  ghost predicate Steady(k: nat -> real, n: nat, tiny: real) {
    forall i :: 0 < i <= n ==> Holds(k, i, tiny)
  }

  lemma RatioBelow(u: real, v: real, r: real, t: real)
    requires v != 0.0 && Quotes(r, u, v)
    ensures AbsR(r) < t <==> Shrinks(u, v, t)
  {
    var (a, w) := (AbsR(r), AbsR(v));
    assert a * w == AbsR(u);
    if a < t { assert (t - a) * w > 0.0; } else { assert (a - t) * w >= 0.0; }
  }

  /** One half-step; `clamped` says a value was replaced. */
  method HalfStep(k: nat -> real, n: nat, c: real, d: real, result: real, tiny: real)
    returns (c': real, d': real, result': real, clamped: bool)
    requires 0 < n && c != 0.0 && tiny > 0.0
    ensures c' != 0.0
    ensures Tracks(k, n, c, d, result) ==> (clamped <==> !Holds(k, n + 1, tiny))
    ensures Tracks(k, n, c, d, result) && !clamped ==> Tracks(k, n + 1, c', d', result')
  {
    hide Num, Den, Tracks, Holds;
    var coefficient := k(n + 1);
    var den := 1.0 + coefficient * d;
    ghost var e := den;
    clamped := AbsR(den) < tiny;
    den := Clamp(den, tiny);
    c' := 1.0 + coefficient / c;
    ghost var g := c';
    clamped := clamped || AbsR(c') < tiny;
    c' := Clamp(c', tiny);
    d' := 1.0 / den;
    result' := result * (d' * c');
    if Tracks(k, n, c, d, result) {
      ClampMeans(k, n, c, d, result, e, g, tiny);
      if !clamped { NextRatios(k, n, c, d, result, den, c', d'); }
    }
  }

  /** One of the two new values of a half-step is replaced. */
  predicate Clamps(e: real, g: real, tiny: real) {
    AbsR(e) < tiny || AbsR(g) < tiny
  }

  lemma ClampMeans(k: nat -> real, n: nat, c: real, d: real, result: real, e: real, g: real, tiny: real)
    requires 0 < n && c != 0.0 && Tracks(k, n, c, d, result) && e == 1.0 + k(n + 1) * d && g == 1.0 + k(n + 1) / c
    ensures Clamps(e, g, tiny) <==> !Holds(k, n + 1, tiny)
  {
    Recurs(k, n);
    hide Num, Den, Clamps, Shrinks, Ratios, Follows, IsValue, Quotes;
    NewFactors(Num(k, n - 1), Num(k, n), Num(k, n + 1), Den(k, n - 1), Den(k, n), Den(k, n + 1), k(n + 1), c, d, e, g);
    BothBelow(Num(k, n), Num(k, n + 1), Den(k, n), Den(k, n + 1), e, g, tiny);
  }

  lemma BothBelow(a1: real, a2: real, b1: real, b2: real, e: real, g: real, tiny: real)
    requires a1 != 0.0 && b1 != 0.0 && Quotes(e, b2, b1) && Quotes(g, a2, a1)
    ensures Clamps(e, g, tiny) <==> Shrinks(b2, b1, tiny) || Shrinks(a2, a1, tiny)
  {
    hide AbsR, Quotes, Shrinks;
    RatioBelow(b2, b1, e, tiny);
    RatioBelow(a2, a1, g, tiny);
  }

  lemma NewFactors(a0: real, a1: real, a2: real, b0: real, b1: real, b2: real, q: real, c: real, d: real, e: real, g: real)
    requires Ratios(a0, a1, b0, b1, c, d) && c != 0.0 && Follows(a2, a1, q, a0) && Follows(b2, b1, q, b0)
    requires e == 1.0 + q * d && g == 1.0 + q / c
    ensures a1 != 0.0 && b1 != 0.0 && Quotes(e, b2, b1) && Quotes(g, a2, a1)
  {
    NextC(a0, a1, q, c, g);
    NextD(b0, b1, q, d, e);
  }

  lemma NextRatios(k: nat -> real, n: nat, c: real, d: real, result: real, den: real, c': real, d': real)
    requires 0 < n && Tracks(k, n, c, d, result) && den == 1.0 + k(n + 1) * d && den != 0.0
    requires c != 0.0 && c' == 1.0 + k(n + 1) / c && c' != 0.0 && d' == 1.0 / den
    ensures Tracks(k, n + 1, c', d', result * (d' * c'))
  {
    Recurs(k, n);
    hide Num, Den, Ratios, Follows, IsQuotient;
    NextReal(Num(k, n - 1), Num(k, n), Num(k, n + 1), Den(k, n - 1), Den(k, n), Den(k, n + 1), k(n + 1), c, d, den, c', d',
             result, result * (d' * c'));
  }

  lemma Recurs(k: nat -> real, n: nat)
    requires 0 < n
    ensures Follows(Num(k, n + 1), Num(k, n), k(n + 1), Num(k, n - 1)) && Follows(Den(k, n + 1), Den(k, n), k(n + 1), Den(k, n - 1))
  {
  }

  /** The step on the four numbers it concerns. */
  lemma NextReal(a0: real, a1: real, a2: real, b0: real, b1: real, b2: real, q: real,
                 c: real, d: real, den: real, c': real, d': real, r: real, r': real)
    requires Ratios(a0, a1, b0, b1, c, d) && Follows(a2, a1, q, a0) && Follows(b2, b1, q, b0) && IsQuotient(a1, b1, r)
    requires c != 0.0 && den == 1.0 + q * d && den != 0.0
    requires c' == 1.0 + q / c && c' != 0.0 && d' == 1.0 / den && r' == r * (d' * c')
    ensures Ratios(a1, a2, b1, b2, c', d') && IsQuotient(a2, b2, r')
  {
    NextC(a0, a1, q, c, c');
    NextD(b0, b1, q, d, den);
    NextValue(a1, b1, a2, b2, c', d', den);
  }

  lemma NextC(a0: real, a1: real, q: real, c: real, c': real)
    requires a0 != 0.0 && a1 != 0.0 && c == a1 / a0 && c != 0.0 && c' == 1.0 + q / c
    ensures c' * a1 == a1 + q * a0 && c' == (a1 + q * a0) / a1
  {
    var r := q / c;
    assert c * a0 == a1 && r * c == q;
    assert r * a1 == r * (c * a0) == (r * c) * a0 == q * a0;
  }

  lemma NextD(b0: real, b1: real, q: real, d: real, den: real)
    requires b1 != 0.0 && d == b0 / b1 && den == 1.0 + q * d
    ensures den * b1 == b1 + q * b0
  {
    assert d * b1 == b0;
    assert (q * d) * b1 == q * (d * b1);
  }

  lemma NextValue(a1: real, b1: real, a2: real, b2: real, c': real, d': real, den: real)
    requires b1 != 0.0 && a1 != 0.0 && den != 0.0 && c' != 0.0 && d' == 1.0 / den && a2 == c' * a1 && b2 == den * b1
    ensures a2 != 0.0 && b2 != 0.0 && d' == b1 / b2
    ensures (a1 / b1) * (d' * c') == a2 / b2
  {
    NonzeroProduct(c', a1);
    NonzeroProduct(den, b1);
    assert d' * den == 1.0;
    assert d' * b2 == (d' * den) * b1 == b1;
    var r := a1 / b1;
    assert r * b1 == a1;
    assert (r * (d' * c')) * b2 == (r * c') * (d' * b2) == (r * c') * b1 == c' * (r * b1) == a2;
  }

  predicate Near(u0: real, u: real, v0: real, v: real, epsilon: real) {
    u0 != 0.0 && v != 0.0 && AbsR(v0 / v * (u / u0) - 1.0) <= epsilon
  }

  /** The last factor: the convergent with `n` partial numerators over the one before. */
  ghost predicate Settled(k: nat -> real, n: nat, epsilon: real)
    requires 0 < n
  {
    Near(Num(k, n - 1), Num(k, n), Den(k, n - 1), Den(k, n), epsilon)
  }

  /** The evaluation. While no clamp fires, what it returns is the convergent with
      `2 * iterations + 1` partial numerators, at the first iteration whose second half-step
      changes it by a factor within `epsilon` of one; it fails when none of them does. */
  method BetaContinuedFraction(a: real, b: real, x: real, epsilon: real, tiny: real)
    returns (result: real, converged: bool, iterations: nat, clamped: bool)
    requires a > 0.0 && tiny > 0.0
    ensures 0 < iterations <= MAX_ITERATIONS && (!converged ==> iterations == MAX_ITERATIONS)
    ensures Evaluated(Numerators(a, b, x), epsilon, tiny, result, converged, iterations, clamped)
  {
    hide Num, Den, Coefficient, Settled, Holds;
    var k := Numerators(a, b, x);
    var c := 1.0;
    var d := 1.0 + k(1);
    clamped := AbsR(d) < tiny;
    d := 1.0 / Clamp(d, tiny);
    result := d;
    converged, iterations := false, 0;
    FirstRatios(k, d, tiny);
    while iterations < MAX_ITERATIONS
      invariant iterations <= MAX_ITERATIONS && c != 0.0
      invariant clamped <==> !Steady(k, 2 * iterations + 1, tiny)
      invariant !clamped ==> Tracks(k, 2 * iterations + 1, c, d, result)
      invariant !clamped ==> forall i :: 1 <= i <= iterations ==> !Settled(k, 2 * i + 1, epsilon)
    {
      iterations := iterations + 1;
      var hit;
      c, d, result, hit := HalfStep(k, 2 * iterations - 1, c, d, result, tiny);
      clamped := clamped || hit;
      SteadyStep(k, 2 * iterations - 1, tiny);
      c, d, result, hit := HalfStep(k, 2 * iterations, c, d, result, tiny);
      clamped := clamped || hit;
      SteadyStep(k, 2 * iterations, tiny);
      if !clamped { Settles(k, 2 * iterations + 1, c, d, result, epsilon); }
      if AbsR(d * c - 1.0) <= epsilon { return result, true, iterations, clamped; }
    }
  }

  /** What the evaluation returns after `iterations` iterations. */
  ghost predicate Evaluated(k: nat -> real, epsilon: real, tiny: real, result: real, converged: bool, iterations: nat, clamped: bool) {
    && (clamped <==> !Steady(k, 2 * iterations + 1, tiny))
    && (!clamped ==>
          && IsValue(k, 2 * iterations + 1, result) && (converged <==> Settled(k, 2 * iterations + 1, epsilon))
          && forall i :: 1 <= i < iterations ==> !Settled(k, 2 * i + 1, epsilon))
  }

  lemma SteadyStep(k: nat -> real, n: nat, tiny: real)
    ensures Steady(k, n + 1, tiny) <==> Steady(k, n, tiny) && Holds(k, n + 1, tiny)
  {
  }

  lemma Settles(k: nat -> real, n: nat, c: real, d: real, result: real, epsilon: real)
    requires 0 < n && Tracks(k, n, c, d, result)
    ensures Settled(k, n, epsilon) <==> AbsR(d * c - 1.0) <= epsilon
  {
    hide Num, Den;
  }

  lemma FirstRatios(k: nat -> real, d: real, tiny: real)
    requires tiny > 0.0 && d == 1.0 / Clamp(1.0 + k(1), tiny)
    ensures AbsR(1.0 + k(1)) < tiny <==> !Steady(k, 1, tiny)
    ensures AbsR(1.0 + k(1)) >= tiny ==> Tracks(k, 1, 1.0, d, d)
  {
    assert Num(k, 0) == 1.0 && Den(k, 0) == 1.0;
    assert Num(k, 1) == Num(k, 0) + k(1) * 0.0 && Den(k, 1) == Den(k, 0) + k(1) * 1.0;
    assert Steady(k, 1, tiny) <==> Holds(k, 1, tiny);
  }

  // ---- whole parameters ----

  /** While no value is replaced none vanishes. */
  lemma {:induction false} SteadyNonzero(k: nat -> real, n: nat, tiny: real)
    requires tiny > 0.0 && Steady(k, n, tiny)
    ensures Num(k, n) != 0.0 && Den(k, n) != 0.0
  {
    if n != 0 {
      SteadyNonzero(k, n - 1, tiny);
      assert Holds(k, n, tiny);
      AboveZero(Den(k, n - 1), tiny);
      AboveZero(Num(k, n - 1), tiny);
      if n == 1 { assert Num(k, 1) == Num(k, 0) + k(1) * 0.0; }
    }
  }

  lemma AboveZero(v: real, t: real)
    requires v != 0.0 && t > 0.0
    ensures t * AbsR(v) > 0.0
  {
  }

  /** Where the fraction stops, the next half-step but one changes nothing. */
  lemma StopsSettled(k: nat -> real, n: nat, epsilon: real)
    requires 0 < n && k(n) == 0.0 && epsilon >= 0.0 && Num(k, n) != 0.0 && Den(k, n + 1) != 0.0
    ensures Settled(k, n + 1, epsilon)
  {
    NextConvergent(k, n);
    NextConvergent(k, n + 1);
    hide Num, Den, NumBefore, DenBefore, Follows, Near;
    Unmoved(Num(k, n), Num(k, n - 1), k(n), NumBefore(k, n - 1));
    Unmoved(Den(k, n), Den(k, n - 1), k(n), DenBefore(k, n - 1));
    SameFactors(Num(k, n + 1), Num(k, n), Den(k, n + 1), Den(k, n), k(n + 1), epsilon);
  }

  lemma Unmoved(u: real, u1: real, k: real, u0: real)
    requires Follows(u, u1, k, u0) && k == 0.0
    ensures u == u1
  {
  }

  lemma SameFactors(u: real, u0: real, v: real, v0: real, q: real, epsilon: real)
    requires Follows(u, u0, q, u0) && Follows(v, v0, q, v0) && u0 != 0.0 && v != 0.0 && epsilon >= 0.0
    ensures Near(u0, u, v0, v, epsilon)
  {
    Quoted(v0, v);
    Quoted(u, u0);
    var r, s := v0 / v, u / u0;
    Collected(q, u0);
    SameFactor(s, 1.0 + q, u0);
    Collected(q, v0);
    Unit(r, s, v, v0);
  }

  lemma Quoted(u: real, v: real)
    requires v != 0.0
    ensures u / v * v == u
  {
  }

  lemma Collected(q: real, u: real)
    ensures (1.0 + q) * u == u + q * u
  {
  }

  lemma Unit(r: real, s: real, v: real, v0: real)
    requires r * v == v0 && s * v0 == v && v != 0.0
    ensures r * s == 1.0
  {
    assert (r * s) * v == s * (r * v);
    SameFactor(r * s, 1.0, v);
  }

  /** For a whole `b` within the limit an evaluation that clamps nothing converges, by
      iteration `b`; and from iteration `b - 1` on its value times `(1 - x)^b` is the
      integrated expansion. */
  lemma WholeEvaluation(a: real, b: nat, x: real, epsilon: real, tiny: real, result: real, converged: bool, iterations: nat)
    requires a > 0.0 && 0 < b && epsilon >= 0.0 && tiny > 0.0 && 0 < iterations && (!converged ==> iterations == MAX_ITERATIONS)
    requires Evaluated(Numerators(a, b as real, x), epsilon, tiny, result, converged, iterations, false)
    ensures b <= MAX_ITERATIONS ==> converged && iterations <= b
    ensures b <= iterations + 1 ==> result * Power(1.0 - x, b) == BetaSum(a, b, x, b)
  {
    var k := Numerators(a, b as real, x);
    if b <= iterations {
      Vanishes(a, b, x);
      SteadyPart(k, 2 * b, 2 * iterations + 1, tiny);
      SteadyPart(k, 2 * b + 1, 2 * iterations + 1, tiny);
      SteadyNonzero(k, 2 * b, tiny);
      SteadyNonzero(k, 2 * b + 1, tiny);
      StopsSettled(k, 2 * b, epsilon);
    }
    if b <= iterations + 1 { ResultIsBeta(a, b, x, 2 * iterations + 1, result); }
    hide Num, Den, Power, BetaSum, Numerators;
  }

  lemma SteadyPart(k: nat -> real, m: nat, n: nat, tiny: real)
    requires m <= n && Steady(k, n, tiny)
    ensures Steady(k, m, tiny)
  {
  }
}
