/** Continued fractions `1 / (1 + k1 / (1 + k2 / (1 + ...)))` over the reals: the recurrence
    for their convergents, and the nested value it computes. */
module Fractions {
  /** Numerator and denominator of the convergent with `n` partial numerators, by the
      fundamental recurrence. */
  function Num(k: nat -> real, n: nat): (r: real) {
    if n == 0 then 1.0 else Num(k, n - 1) + k(n) * if n == 1 then 0.0 else Num(k, n - 2)
  }

  function Den(k: nat -> real, n: nat): (r: real) {
    if n == 0 then 1.0 else Den(k, n - 1) + k(n) * if n == 1 then 1.0 else Den(k, n - 2)
  }

  predicate IsQuotient(u: real, v: real, r: real) {
    v != 0.0 && r == u / v
  }

  /** `r` is the value of the convergent. */
  predicate IsValue(k: nat -> real, n: nat, r: real) {
    IsQuotient(Num(k, n), Den(k, n), r)
  }

  /** The nested denominators are all nonzero, so the finite fraction can be evaluated
      from the inside out. */
  predicate Nests(k: nat -> real, i: nat, n: nat)
    requires i <= n
    decreases n - i, 0
  {
    i == n || (Nests(k, i + 1, n) && Tail(k, i + 1, n) != 0.0)
  }

  /** `1 + k(i+1) / (1 + k(i+2) / (... 1 + k(n)))` */
  function Tail(k: nat -> real, i: nat, n: nat): (t: real)
    requires i <= n && Nests(k, i, n)
    decreases n - i, 1
  {
    if i == n then 1.0 else 1.0 + k(i + 1) / Tail(k, i + 1, n)
  }

  function At(k: nat -> real, i: nat, num: bool): (x: real) {
    if num then Num(k, i) else Den(k, i)
  }

  function Before(k: nat -> real, i: nat, num: bool): (x: real) {
    if i == 0 then (if num then 0.0 else 1.0) else At(k, i - 1, num)
  }

  /** The recurrence continued through the nest from level `i`. */
  function Through(k: nat -> real, i: nat, n: nat, num: bool): (x: real)
    requires i <= n && Nests(k, i, n)
  {
    At(k, i, num) + Before(k, i, num) * (Tail(k, i, n) - 1.0)
  }

  /** One level in multiplies numerator and denominator by the same tail. */
  lemma PeelLevel(k: nat -> real, i: nat, n: nat, num: bool)
    requires i < n && Nests(k, i, n)
    ensures Through(k, i + 1, n, num) == Tail(k, i + 1, n) * Through(k, i, n, num)
  {
    TailStep(k, i, n);
    AtStep(k, i, num);
    hide Num, Den, Tail, Nests, At, Before;
    LevelAlgebra(At(k, i, num), Before(k, i, num), Tail(k, i, n), Tail(k, i + 1, n), k(i + 1));
  }

  lemma TailStep(k: nat -> real, i: nat, n: nat)
    requires i < n && Nests(k, i, n)
    ensures Nests(k, i + 1, n) && Tail(k, i + 1, n) != 0.0 && Tail(k, i, n) - 1.0 == k(i + 1) / Tail(k, i + 1, n)
  {
  }

  lemma AtStep(k: nat -> real, i: nat, num: bool)
    ensures At(k, i + 1, num) == At(k, i, num) + k(i + 1) * Before(k, i, num) && Before(k, i + 1, num) == At(k, i, num)
  {
  }

  lemma LevelAlgebra(x: real, y: real, t: real, u: real, c: real)
    requires u != 0.0 && t - 1.0 == c / u
    ensures x + c * y + x * (u - 1.0) == u * (x + y * (t - 1.0))
  {
    var r := t - 1.0;
    assert r * u == c;
    assert u * (y * r) == y * (r * u);
  }

  lemma {:induction false} SameRatio(k: nat -> real, i: nat, n: nat)
    requires i <= n && Nests(k, i, n)
    ensures Through(k, i, n, true) * Den(k, n) == Through(k, i, n, false) * Num(k, n)
    decreases n - i
  {
    hide Num, Den, Through;
    if i == n {
      InnermostIs(k, n);
    } else {
      TailStep(k, i, n);
      SameRatio(k, i + 1, n);
      OuterLevel(k, i, n);
    }
  }

  lemma OuterLevel(k: nat -> real, i: nat, n: nat)
    requires i < n && Nests(k, i, n) && Nests(k, i + 1, n)
    requires Through(k, i + 1, n, true) * Den(k, n) == Through(k, i + 1, n, false) * Num(k, n)
    ensures Through(k, i, n, true) * Den(k, n) == Through(k, i, n, false) * Num(k, n)
  {
    hide Num, Den, Tail, Nests, Through;
    TailStep(k, i, n);
    PeelLevel(k, i, n, true);
    PeelLevel(k, i, n, false);
    Cancel(Tail(k, i + 1, n), Through(k, i, n, true), Through(k, i + 1, n, true), Den(k, n),
           Through(k, i, n, false), Through(k, i + 1, n, false), Num(k, n));
  }

  lemma InnermostIs(k: nat -> real, n: nat)
    ensures Nests(k, n, n) && Through(k, n, n, true) * Den(k, n) == Through(k, n, n, false) * Num(k, n)
  {
    assert Tail(k, n, n) == 1.0;
    hide Num, Den;
    Commute(Num(k, n), Den(k, n));
  }

  lemma Commute(x: real, y: real)
    ensures x * y == y * x
  {
  }

  lemma Cancel(u: real, x: real, ux: real, d: real, y: real, uy: real, n: real)
    requires u != 0.0 && ux == u * x && uy == u * y && ux * d == uy * n
    ensures x * d == y * n
  {
    AssocR(u, x, d);
    AssocR(u, y, n);
    var z := x * d - y * n;
    assert u * z == u * (x * d) - u * (y * n);
    if z != 0.0 { NonzeroProduct(u, z); }
  }

  lemma AssocR(x: real, y: real, z: real)
    ensures x * (y * z) == (x * y) * z
  {
  }

  /** The recurrence computes the value of the nested finite fraction. */
  lemma ConvergentIsNested(k: nat -> real, n: nat)
    requires Nests(k, 0, n) && Tail(k, 0, n) != 0.0
    ensures Den(k, n) == Tail(k, 0, n) * Num(k, n)
    ensures Den(k, n) != 0.0 ==> Num(k, n) / Den(k, n) == 1.0 / Tail(k, 0, n)
  {
    SameRatio(k, 0, n);
    var t := Tail(k, 0, n);
    assert Through(k, 0, n, true) == 1.0 && Through(k, 0, n, false) == t;
    if Den(k, n) != 0.0 { Quotients(Num(k, n), Den(k, n), t); }
  }

  lemma Quotients(x: real, d: real, t: real)
    requires d != 0.0 && t != 0.0 && d == t * x
    ensures x / d == 1.0 / t
  {
    var q := x / d;
    ZeroProduct(t, x);
    assert q * d == x;
    calc { (q * t) * x; { AssocR(q, t, x); } q * (t * x); q * d; x; }
    UnitFactor(q * t, x);
    assert q * t == 1.0;
  }

  lemma ZeroProduct(t: real, x: real)
    ensures x == 0.0 ==> t * x == 0.0
  {
  }

  lemma UnitFactor(f: real, x: real)
    requires f * x == x && x != 0.0
    ensures f == 1.0
  {
    assert (f - 1.0) * x == 0.0;
  }

  lemma NonzeroProduct(x: real, y: real)
    requires x != 0.0 && y != 0.0
    ensures x * y != 0.0
  {
  }
}
