/** The continued fraction of the incomplete beta function, and its closed value when the
    second parameter is a whole number. */
module BetaFraction {
  import opened Fractions

  /** The two partial numerators of one iteration. */
  function EvenNumerator(a: real, b: real, x: real, iteration: nat): (k: real)
    requires a > 0.0 && 0 < iteration
  {
    var m := iteration as real;
    Positive(a - 1.0 + 2.0 * m, a + 2.0 * m);
    m * (b - m) * x / ((a - 1.0 + 2.0 * m) * (a + 2.0 * m))
  }

  function OddNumerator(a: real, b: real, x: real, iteration: nat): (k: real)
    requires a > 0.0
  {
    var m := iteration as real;
    Positive(a + 2.0 * m, a + 1.0 + 2.0 * m);
    -((a + m) * (a + b + m) * x / ((a + 2.0 * m) * (a + 1.0 + 2.0 * m)))
  }

  /** The partial numerators for parameters `a`, `b` at `x`. */
  function Coefficient(a: real, b: real, x: real, j: nat): (k: real)
    requires a > 0.0 && 0 < j
  {
    if j == 1 then -((a + b) * x / (a + 1.0))
    else if j % 2 == 0 then EvenNumerator(a, b, x, j / 2)
    else OddNumerator(a, b, x, j / 2)
  }

  lemma Positive(x: real, y: real)
    requires x > 0.0 && y > 0.0
    ensures x * y > 0.0
  {
  }

  /** The partial numerators as a total sequence. */
  function Numerators(a: real, b: real, x: real): (k: nat -> real)
    requires a > 0.0
  {
    (j: nat) => if j == 0 then 1.0 else Coefficient(a, b, x, j)
  }

  // ---- hypergeometric terms ----

  /** `(p)_j (q)_j / ((s)_j j!)`, with rising factorials. */
  function Term(p: real, q: real, s: real, j: nat): (t: real)
    requires s > 0.0
  {
    if j == 0 then 1.0 else Term(p, q, s, j - 1) * Factor(p, q, s, j - 1)
  }

  function Factor(p: real, q: real, s: real, j: nat): (r: real)
    requires s > 0.0
  {
    Positive(s + j as real, j as real + 1.0);
    (p + j as real) * (q + j as real) / ((s + j as real) * (j as real + 1.0))
  }

  lemma FactorIs(p: real, q: real, s: real, j: nat)
    requires s > 0.0
    ensures Factor(p, q, s, j) * ((s + j as real) * (j as real + 1.0)) == (p + j as real) * (q + j as real)
  {
    Positive(s + j as real, j as real + 1.0);
  }

  /** `f` is `x * y / (u * v)`. */
  predicate Ratio(f: real, x: real, y: real, u: real, v: real) {
    f * (u * v) == x * y
  }

  predicate Product(t': real, t: real, f: real) {
    t' == t * f
  }

  lemma FactorAt(p: real, q: real, s: real, j: nat, x: real, y: real, u: real, v: real)
    requires s > 0.0 && x == p + j as real && y == q + j as real && u == s + j as real && v == j as real + 1.0
    ensures Ratio(Factor(p, q, s, j), x, y, u, v)
  {
    FactorIs(p, q, s, j);
  }

  lemma {:induction false} TermSwaps(p: real, q: real, s: real, j: nat)
    requires s > 0.0
    ensures Term(p, q, s, j) == Term(q, p, s, j)
  {
    if j != 0 {
      TermSwaps(p, q, s, j - 1);
      Commute(p + (j - 1) as real, q + (j - 1) as real);
    }
  }

  /** A whole negative parameter ends the terms. */
  lemma {:induction false} TermEnds(d: nat, q: real, s: real, j: nat)
    requires s > 0.0 && d < j
    ensures Term(-(d as real), q, s, j) == 0.0
  {
    if j - 1 == d {
      assert Factor(-(d as real), q, s, d) == 0.0;
    } else {
      TermEnds(d, q, s, j - 1);
    }
  }

  /** Two neighbours `t`, `u` of a term as multiples of a third, `w`. */
  predicate Law(t: real, u: real, w: real, p: real, q: real, s: real, n: real) {
    FirstLaw(t, w, p, q, s, n) && SecondLaw(u, w, p, q, s, n)
  }

  predicate Balance(t: real, n: real, c: real, d: real, u: real, w: real) {
    t * (n * c) == d * (u * w)
  }

  predicate FirstLaw(t: real, w: real, p: real, q: real, s: real, n: real) {
    Balance(t, n, s * (s + 1.0), p * q, s + n, w)
  }

  predicate SecondLaw(u: real, w: real, p: real, q: real, s: real, n: real) {
    u * (n * (s + 1.0)) == q * ((p + n) * w)
  }

  lemma {:induction false} Neighbours(p: real, q: real, s: real, j: nat)
    requires s > 0.0 && 0 < j
    ensures Law(Term(p, q, s, j), Term(p + 1.0, q, s + 1.0, j), Term(p + 1.0, q + 1.0, s + 2.0, j - 1), p, q, s, j as real)
  {
    hide Law, Factor, Term, Ratio, Product;
    if j == 1 {
      FirstNeighbours(p, q, s);
    } else {
      Neighbours(p, q, s, j - 1);
      var (n, n') := ((j - 1) as real, j as real);
      FactorAt(p, q, s, j - 1, p + n, q + n, s + n, n');
      FactorAt(p + 1.0, q, s + 1.0, j - 1, p + n', q + n, s + n', n');
      FactorAt(p + 1.0, q + 1.0, s + 2.0, j - 2, p + n, q + n, s + n', n);
      TermStep(p, q, s, j - 1);
      TermStep(p + 1.0, q, s + 1.0, j - 1);
      TermStep(p + 1.0, q + 1.0, s + 2.0, j - 2);
      LawSteps(Term(p, q, s, j - 1), Term(p + 1.0, q, s + 1.0, j - 1), Term(p + 1.0, q + 1.0, s + 2.0, j - 2),
               Factor(p, q, s, j - 1), Factor(p + 1.0, q, s + 1.0, j - 1), Factor(p + 1.0, q + 1.0, s + 2.0, j - 2),
               Term(p, q, s, j), Term(p + 1.0, q, s + 1.0, j), Term(p + 1.0, q + 1.0, s + 2.0, j - 1), p, q, s, n, n');
    }
  }

  lemma TermStep(p: real, q: real, s: real, j: nat)
    requires s > 0.0
    ensures Product(Term(p, q, s, j + 1), Term(p, q, s, j), Factor(p, q, s, j))
  {
  }

  lemma LawSteps(t: real, u: real, w: real, f: real, g: real, h: real, t': real, u': real, w': real,
                 p: real, q: real, s: real, n: real, n': real)
    requires s > 0.0 && n > 0.0 && n' == n + 1.0 && Law(t, u, w, p, q, s, n)
    requires Ratio(f, p + n, q + n, s + n, n') && Ratio(g, p + n', q + n, s + n', n') && Ratio(h, p + n, q + n, s + n', n)
    requires Product(t', t, f) && Product(u', u, g) && Product(w', w, h)
    ensures Law(t', u', w', p, q, s, n')
  {
    hide Ratio, Product, FirstLaw, SecondLaw;
    FirstStep(t, w, f, h, t', w', p, q, s, n, n');
    SecondStep(u, w, g, h, u', w', p, q, s, n, n');
  }

  lemma FirstStep(t: real, w: real, f: real, h: real, t': real, w': real, p: real, q: real, s: real, n: real, n': real)
    requires s > 0.0 && n > 0.0 && FirstLaw(t, w, p, q, s, n)
    requires Ratio(f, p + n, q + n, s + n, n') && Ratio(h, p + n, q + n, s + n', n) && Product(t', t, f) && Product(w', w, h)
    ensures FirstLaw(t', w', p, q, s, n')
  {
    hide Balance, Ratio, Product;
    NextNeighbour(t, f, w, h, t', w', s * (s + 1.0), p * q, s + n, s + n', n, n', p + n, q + n);
  }

  lemma SecondStep(u: real, w: real, g: real, h: real, u': real, w': real, p: real, q: real, s: real, n: real, n': real)
    requires s > 0.0 && n > 0.0 && n' > 0.0 && SecondLaw(u, w, p, q, s, n)
    requires Ratio(g, p + n', q + n, s + n', n') && Ratio(h, p + n, q + n, s + n', n) && Product(u', u, g) && Product(w', w, h)
    ensures SecondLaw(u', w', p, q, s, n')
  {
    OtherNeighbour(u, g, w, h, u', w', s + 1.0, q, p + n, p + n', s + n', n, n', q + n);
  }

  lemma FirstNeighbours(p: real, q: real, s: real)
    requires s > 0.0
    ensures Law(Term(p, q, s, 1), Term(p + 1.0, q, s + 1.0, 1), Term(p + 1.0, q + 1.0, s + 2.0, 0), p, q, s, 1.0)
  {
    FactorAt(p, q, s, 0, p, q, s, 1.0);
    FactorAt(p + 1.0, q, s + 1.0, 0, p + 1.0, q, s + 1.0, 1.0);
    assert Term(p, q, s, 1) == 1.0 * Factor(p, q, s, 0);
    assert Term(p + 1.0, q, s + 1.0, 1) == 1.0 * Factor(p + 1.0, q, s + 1.0, 0);
    hide Factor;
    Assoc(Factor(p, q, s, 0), s, s + 1.0);
  }

  lemma Assoc(x: real, y: real, z: real)
    ensures x * (y * z) == (x * y) * z
  {
  }

  lemma NextNeighbour(t: real, f: real, w: real, h: real, t': real, w': real, c: real, d: real, u: real, u': real, n: real, n': real, e: real, g: real)
    requires n > 0.0 && u > 0.0 && Balance(t, n, c, d, u, w) && Ratio(f, e, g, u, n') && Ratio(h, e, g, u', n)
    requires Product(t', t, f) && Product(w', w, h)
    ensures Balance(t', n', c, d, u', w')
  {
    var (x, y, z) := (t' * (n' * c), d * (u' * w'), u * n);
    assert x * z == (t * (n * c)) * (f * (u * n'));
    assert y * z == (d * (u * w)) * (h * (u' * n));
    Positive(u, n);
    SameFactor(x, y, z);
  }

  lemma OtherNeighbour(t: real, g: real, w: real, h: real, t': real, w': real, c: real, q: real, e: real, e': real, u': real, n: real, n': real, v: real)
    requires n > 0.0 && u' > 0.0 && t * (n * c) == q * (e * w) && g * (u' * n') == e' * v && h * (u' * n) == e * v
    requires t' == t * g && w' == w * h
    ensures t' * (n' * c) == q * (e' * w')
  {
    var (x, y, z) := (t' * (n' * c), q * (e' * w'), u' * n);
    assert x * z == (t * (n * c)) * (g * (u' * n'));
    assert y * z == (q * (e' * w)) * (h * (u' * n));
    assert (q * (e * w)) * (e' * v) == (q * (e' * w)) * (e * v);
    Positive(u', n);
    SameFactor(x, y, z);
  }

  lemma SameFactor(x: real, y: real, z: real)
    requires x * z == y * z && z != 0.0
    ensures x == y
  {
    if x != y { NonzeroProduct(x - y, z); }
  }

  function Weight(p: real, q: real, s: real): (r: real)
    requires s > 0.0
  {
    Positive(s, s + 1.0);
    q * (p - s) / (s * (s + 1.0))
  }

  predicate Quotes(r: real, v: real, c: real) {
    r * c == v
  }

  lemma WeightIs(p: real, q: real, s: real)
    requires s > 0.0
    ensures s * (s + 1.0) > 0.0 && Quotes(Weight(p, q, s), q * (p - s), s * (s + 1.0))
  {
    Positive(s, s + 1.0);
  }

  /** Gauss's contiguous relation, term by term. */
  lemma Contiguous(p: real, q: real, s: real, j: nat)
    requires s > 0.0 && 0 < j
    ensures Term(p, q, s, j) - Term(p + 1.0, q, s + 1.0, j) == Weight(p, q, s) * Term(p + 1.0, q + 1.0, s + 2.0, j - 1)
  {
    Neighbours(p, q, s, j);
    hide Term, Factor, Law, Weight;
    Difference(Term(p, q, s, j), Term(p + 1.0, q, s + 1.0, j), Term(p + 1.0, q + 1.0, s + 2.0, j - 1), p, q, s, j as real);
  }

  lemma Difference(x: real, y: real, w: real, p: real, q: real, s: real, n: real)
    requires s > 0.0 && n > 0.0 && Law(x, y, w, p, q, s, n)
    ensures x - y == Weight(p, q, s) * w
  {
    hide Scaled, Apart, Law, Quotes, Weight;
    var (xz, yz) := ((p * q) * ((s + n) * w), s * (q * ((p + n) * w)));
    WeightIs(p, q, s);
    ScaledBoth(x, y, w, p, q, s, n);
    Expanded(p, q, s, n, w);
    Divided(x, y, w, n, s * (s + 1.0), q * (p - s), Weight(p, q, s), xz, yz);
  }

  predicate Scaled(x: real, y: real, n: real, c: real, xz: real, yz: real) {
    x * (n * c) == xz && y * (n * c) == yz
  }

  predicate Apart(xz: real, yz: real, v: real, n: real, w: real) {
    xz - yz == v * (n * w)
  }

  lemma ScaledBoth(x: real, y: real, w: real, p: real, q: real, s: real, n: real)
    requires Law(x, y, w, p, q, s, n)
    ensures Scaled(x, y, n, s * (s + 1.0), (p * q) * ((s + n) * w), s * (q * ((p + n) * w)))
  {
    assert n * (s * (s + 1.0)) == s * (n * (s + 1.0));
    assert y * (s * (n * (s + 1.0))) == s * (y * (n * (s + 1.0)));
  }

  lemma Expanded(p: real, q: real, s: real, n: real, w: real)
    ensures Apart((p * q) * ((s + n) * w), s * (q * ((p + n) * w)), q * (p - s), n, w)
  {
    assert p * (s + n) - s * (p + n) == n * (p - s);
    assert (p * q) * ((s + n) * w) == (q * w) * (p * (s + n));
    assert s * (q * ((p + n) * w)) == (q * w) * (s * (p + n));
    assert (q * w) * (n * (p - s)) == (q * (p - s)) * (n * w);
  }

  lemma Divided(x: real, y: real, w: real, n: real, c: real, v: real, r: real, xz: real, yz: real)
    requires n > 0.0 && c > 0.0 && Quotes(r, v, c) && Scaled(x, y, n, c, xz, yz) && Apart(xz, yz, v, n, w)
    ensures x - y == r * w
  {
    assert (r * w) * (n * c) == (r * c) * (n * w);
    assert (x - y) * (n * c) == x * (n * c) - y * (n * c);
    Positive(n, c);
    SameFactor(x - y, r * w, n * c);
  }

  // ---- the polynomials behind the tails ----

  function Power(x: real, n: nat): (r: real) {
    if n == 0 then 1.0 else x * Power(x, n - 1)
  }

  /** The first `n` terms as a polynomial in `x`. */
  function Poly(p: real, q: real, s: real, x: real, n: nat): (r: real)
    requires s > 0.0
  {
    if n == 0 then 0.0 else Poly(p, q, s, x, n - 1) + Term(p, q, s, n - 1) * Power(x, n - 1)
  }

  lemma {:induction false} PolySwaps(p: real, q: real, s: real, x: real, n: nat)
    requires s > 0.0
    ensures Poly(p, q, s, x, n) == Poly(q, p, s, x, n)
  {
    if n != 0 {
      PolySwaps(p, q, s, x, n - 1);
      TermSwaps(p, q, s, n - 1);
    }
  }

  /** The contiguous relation of the polynomials; `k` is the partial numerator. */
  lemma {:induction false} PolyContiguous(p: real, q: real, s: real, x: real, k: real, n: nat)
    requires s > 0.0 && k == Weight(p, q, s) * x
    ensures Poly(p, q, s, x, n + 1) == Poly(p + 1.0, q, s + 1.0, x, n + 1) + k * Poly(p + 1.0, q + 1.0, s + 2.0, x, n)
  {
    hide Term, Power, Weight;
    if n == 0 {
      FirstTerms(p, q, s, x);
    } else {
      PolyContiguous(p, q, s, x, k, n - 1);
      Contiguous(p, q, s, n);
      PowerStep(x, n - 1);
      OneTerm(Term(p, q, s, n), Term(p + 1.0, q, s + 1.0, n), Term(p + 1.0, q + 1.0, s + 2.0, n - 1), Weight(p, q, s),
              x, Power(x, n - 1), Power(x, n), k);
      Distributes(k, Poly(p + 1.0, q + 1.0, s + 2.0, x, n - 1), Term(p + 1.0, q + 1.0, s + 2.0, n - 1) * Power(x, n - 1));
    }
  }

  lemma FirstTerms(p: real, q: real, s: real, x: real)
    requires s > 0.0
    ensures Term(p, q, s, 0) * Power(x, 0) == Term(p + 1.0, q, s + 1.0, 0) * Power(x, 0)
  {
  }

  lemma PowerStep(x: real, n: nat)
    ensures Power(x, n + 1) == x * Power(x, n)
  {
  }

  lemma Distributes(k: real, x: real, y: real)
    ensures k * (x + y) == k * x + k * y
  {
  }

  lemma OneTerm(t: real, u: real, w: real, c: real, x: real, y: real, xy: real, k: real)
    requires t - u == c * w && xy == x * y && k == c * x
    ensures t * xy == u * xy + k * (w * y)
  {
    assert (c * w) * (x * y) == (c * x) * (w * y);
    assert (t - u) * xy == t * xy - u * xy;
  }

  // ---- the levels ----

  /** The tails of the fraction for a whole `b`, cleared of denominators: level `i` over
      level `i + 1` is the tail from level `i`. */
  function Level(a: real, b: nat, x: real, i: nat): (r: real)
    requires a > 0.0
  {
    if i % 2 == 0 then EvenLevel(a, b, x, i / 2) else OddLevel(a, b, x, i / 2)
  }

  function EvenLevel(a: real, b: nat, x: real, m: nat): (r: real)
    requires a > 0.0
  {
    Poly(m as real - b as real, a + m as real, a + 2.0 * m as real, x, b + 1)
  }

  function OddLevel(a: real, b: nat, x: real, m: nat): (r: real)
    requires a > 0.0
  {
    Poly(m as real - b as real + 1.0, a + m as real, a + 2.0 * m as real + 1.0, x, b + 1)
  }

  lemma PolyEnds(d: nat, q: real, s: real, x: real, n: nat)
    requires s > 0.0 && d < n
    ensures Poly(-(d as real), q, s, x, n + 1) == Poly(-(d as real), q, s, x, n)
  {
    TermEnds(d, q, s, n);
  }

  predicate IsNumerator(k: real, p: real, q: real, s: real, x: real) {
    s > 0.0 && k == Weight(p, q, s) * x
  }

  lemma FullContiguous(p: real, q: real, s: real, x: real, k: real, b: nat, h0: real, h1: real, h2: real)
    requires s > 0.0 && IsNumerator(k, p, q, s, x)
    requires k == 0.0 || Poly(p + 1.0, q + 1.0, s + 2.0, x, b) == Poly(p + 1.0, q + 1.0, s + 2.0, x, b + 1)
    requires h0 == Poly(p, q, s, x, b + 1) && h1 == Poly(p + 1.0, q, s + 1.0, x, b + 1)
    requires h2 == Poly(p + 1.0, q + 1.0, s + 2.0, x, b + 1)
    ensures h0 == h1 + k * h2
  {
    hide Poly, Weight;
    PolyContiguous(p, q, s, x, k, b);
  }

  /** Each level is the next one plus the partial numerator times the one after. */
  lemma LevelStep(a: real, b: nat, x: real, i: nat)
    requires a > 0.0 && i + 1 <= 2 * b
    ensures Level(a, b, x, i) == Level(a, b, x, i + 1) + Coefficient(a, b as real, x, i + 1) * Level(a, b, x, i + 2)
  {
    hide Poly, Coefficient, EvenLevel, OddLevel;
    var m := i / 2;
    if i % 2 == 0 { EvenStep(a, b, x, m); } else { OddStep(a, b, x, m); }
  }

  lemma EvenStep(a: real, b: nat, x: real, m: nat)
    requires a > 0.0 && m < b
    ensures EvenLevel(a, b, x, m) == OddLevel(a, b, x, m) + Coefficient(a, b as real, x, 2 * m + 1) * EvenLevel(a, b, x, m + 1)
  {
    hide Poly, Term, Coefficient, IsNumerator;
    var r, k := m as real, Coefficient(a, b as real, x, 2 * m + 1);
    OddCoefficient(a, b as real, x, m);
    PolyEnds(b - m - 1, a + r + 1.0, a + 2.0 * r + 2.0, x, b);
    assert -((b - m - 1) as real) == r - b as real + 1.0 == (m + 1) as real - b as real;
    assert a + 2.0 * r + 2.0 == a + 2.0 * (m + 1) as real && a + r + 1.0 == a + (m + 1) as real;
    FullContiguous(r - b as real, a + r, a + 2.0 * r, x, k, b, EvenLevel(a, b, x, m), OddLevel(a, b, x, m), EvenLevel(a, b, x, m + 1));
  }

  lemma OddStep(a: real, b: nat, x: real, m: nat)
    requires a > 0.0 && m < b
    ensures OddLevel(a, b, x, m) == EvenLevel(a, b, x, m + 1) + Coefficient(a, b as real, x, 2 * m + 2) * OddLevel(a, b, x, m + 1)
  {
    hide Poly, Term, Coefficient, IsNumerator;
    var r, k := m as real, Coefficient(a, b as real, x, 2 * m + 2);
    var (p, q, s) := (r - b as real + 1.0, a + r, a + 2.0 * r + 1.0);
    EvenCoefficient(a, b as real, x, m);
    Swapped(p, q, s, x, b);
    if m + 1 < b {
      PolyEnds(b - m - 2, q + 1.0, s + 2.0, x, b);
      assert -((b - m - 2) as real) == p + 1.0;
    } else {
      NumeratorEnds(k, q, p, s, x);
    }
    assert p == (m + 1) as real - b as real && q + 1.0 == a + (m + 1) as real && s + 1.0 == a + 2.0 * (m + 1) as real;
    FullContiguous(q, p, s, x, k, b, OddLevel(a, b, x, m), EvenLevel(a, b, x, m + 1), OddLevel(a, b, x, m + 1));
  }

  lemma Swapped(p: real, q: real, s: real, x: real, b: nat)
    requires s > 0.0
    ensures Poly(p, q, s, x, b + 1) == Poly(q, p, s, x, b + 1)
    ensures Poly(p, q + 1.0, s + 1.0, x, b + 1) == Poly(q + 1.0, p, s + 1.0, x, b + 1)
    ensures Poly(p + 1.0, q + 1.0, s + 2.0, x, b) == Poly(q + 1.0, p + 1.0, s + 2.0, x, b)
    ensures Poly(p + 1.0, q + 1.0, s + 2.0, x, b + 1) == Poly(q + 1.0, p + 1.0, s + 2.0, x, b + 1)
  {
    PolySwaps(p, q, s, x, b + 1);
    PolySwaps(p, q + 1.0, s + 1.0, x, b + 1);
    PolySwaps(p + 1.0, q + 1.0, s + 2.0, x, b);
    PolySwaps(p + 1.0, q + 1.0, s + 2.0, x, b + 1);
  }

  lemma OddCoefficient(a: real, b: real, x: real, m: nat)
    requires a > 0.0
    ensures IsNumerator(Coefficient(a, b, x, 2 * m + 1), m as real - b, a + m as real, a + 2.0 * m as real, x)
  {
    if m == 0 { FirstNumerator(a, b, x); } else { LaterNumerator(a, b, x, m); }
    hide IsNumerator, OddNumerator;
  }

  lemma FirstNumerator(a: real, b: real, x: real)
    requires a > 0.0
    ensures IsNumerator(Coefficient(a, b, x, 1), -b, a, a, x)
  {
    Positive(a, a + 1.0);
    Reduced(a, a + b, x, a + 1.0);
  }

  lemma LaterNumerator(a: real, b: real, x: real, m: nat)
    requires a > 0.0
    ensures IsNumerator(OddNumerator(a, b, x, m), m as real - b, a + m as real, a + 2.0 * m as real, x)
  {
    var r := m as real;
    var (p, q, s) := (r - b, a + r, a + 2.0 * r);
    Positive(s, s + 1.0);
    assert s + 1.0 == a + 1.0 + 2.0 * r && -(p - s) == a + b + r;
    Quotient(q, -(p - s), x, s * (s + 1.0));
  }

  lemma Quotient(u: real, v: real, x: real, d: real)
    requires d > 0.0
    ensures -(u * v * x / d) == u * -v / d * x
  {
    var (y, z) := (u * v * x / d, u * -v / d);
    assert y * d == u * v * x && z * d == u * -v;
    assert (z * x) * d == (z * d) * x;
    SameFactor(-y, z * x, d);
  }

  lemma Reduced(a: real, v: real, x: real, d: real)
    requires a > 0.0 && d > 0.0 && a * d > 0.0
    ensures -(v * x / d) == a * -v / (a * d) * x
  {
    var k := -(v * x / d);
    var z := a * -v / (a * d);
    assert z * (a * d) == a * -v;
    assert k * d == -(v * x);
    assert k * (a * d) == a * (k * d);
    assert (z * x) * (a * d) == (z * (a * d)) * x;
    SameFactor(k, z * x, a * d);
  }

  lemma EvenCoefficient(a: real, b: real, x: real, m: nat)
    requires a > 0.0
    ensures IsNumerator(Coefficient(a, b, x, 2 * m + 2), a + m as real, m as real - b + 1.0, a + 2.0 * m as real + 1.0, x)
  {
    EvenIsNumerator(a, b, x, m);
    hide IsNumerator, EvenNumerator;
  }

  /** A numerator whose first parameter is zero vanishes. */
  lemma NumeratorEnds(k: real, p: real, q: real, s: real, x: real)
    requires IsNumerator(k, p, q, s, x) && q == 0.0
    ensures k == 0.0
  {
    Positive(s, s + 1.0);
    assert q * (p - s) == 0.0;
  }

  lemma EvenIsNumerator(a: real, b: real, x: real, m: nat)
    requires a > 0.0
    ensures IsNumerator(EvenNumerator(a, b, x, m + 1), a + m as real, m as real - b + 1.0, a + 2.0 * m as real + 1.0, x)
  {
    var r := m as real + 1.0;
    assert r == (m + 1) as real;
    var (p, q, s) := (r - b, a + m as real, a + 2.0 * m as real + 1.0);
    Positive(s, s + 1.0);
    assert s == a - 1.0 + 2.0 * r && s + 1.0 == a + 2.0 * r && q - s == -r && b - r == -p;
    Product3(p, r, x, s * (s + 1.0));
  }

  lemma Product3(p: real, r: real, x: real, d: real)
    requires d > 0.0
    ensures r * -p * x / d == p * -r / d * x
  {
    var (y, z) := (r * -p * x / d, p * -r / d);
    assert y * d == r * -p * x && z * d == p * -r;
    assert (z * x) * d == (z * d) * x;
    assert r * -p * x == p * -r * x;
    SameFactor(y, z * x, d);
  }

  // ---- the convergent at which the fraction stops ----

  function DenBefore(k: nat -> real, n: nat): (r: real) {
    if n == 0 then 1.0 else Den(k, n - 1)
  }

  function NumBefore(k: nat -> real, n: nat): (r: real) {
    if n == 0 then 0.0 else Num(k, n - 1)
  }

  predicate Unrolls(h: real, d: real, l1: real, k: real, e: real, l2: real) {
    h == d * l1 + k * e * l2
  }

  /** The convergents unroll the levels. */
  lemma {:induction false} Unrolled(a: real, b: nat, x: real, k: nat -> real, n: nat)
    requires a > 0.0 && n + 1 <= 2 * b && k == Numerators(a, b as real, x)
    ensures Unrolls(Level(a, b, x, 0), Den(k, n), Level(a, b, x, n + 1), k(n + 1), DenBefore(k, n), Level(a, b, x, n + 2))
    ensures Unrolls(Level(a, b, x, 1), Num(k, n), Level(a, b, x, n + 1), k(n + 1), NumBefore(k, n), Level(a, b, x, n + 2))
  {
    LevelUnrolls(a, b, x, k, n);
    if n != 0 {
      Unrolled(a, b, x, k, n - 1);
      hide Level, Numerators, Num, Den, DenBefore, NumBefore, Unrolls, Follows;
      NextConvergent(k, n);
      Substituted(Level(a, b, x, 0), Den(k, n - 1), Level(a, b, x, n), k(n), DenBefore(k, n - 1), Level(a, b, x, n + 1),
                  Den(k, n), k(n + 1), Level(a, b, x, n + 2));
      Substituted(Level(a, b, x, 1), Num(k, n - 1), Level(a, b, x, n), k(n), NumBefore(k, n - 1), Level(a, b, x, n + 1),
                  Num(k, n), k(n + 1), Level(a, b, x, n + 2));
    }
  }

  lemma LevelUnrolls(a: real, b: nat, x: real, k: nat -> real, n: nat)
    requires a > 0.0 && n + 1 <= 2 * b && k == Numerators(a, b as real, x)
    ensures Unrolls(Level(a, b, x, n), 1.0, Level(a, b, x, n + 1), k(n + 1), 1.0, Level(a, b, x, n + 2))
  {
    hide Level, Coefficient;
    LevelStep(a, b, x, n);
  }

  predicate Follows(d': real, d: real, k: real, e: real) {
    d' == d + k * e
  }

  lemma NextConvergent(k: nat -> real, n: nat)
    requires 0 < n
    ensures Follows(Den(k, n), Den(k, n - 1), k(n), DenBefore(k, n - 1)) && DenBefore(k, n) == Den(k, n - 1)
    ensures Follows(Num(k, n), Num(k, n - 1), k(n), NumBefore(k, n - 1)) && NumBefore(k, n) == Num(k, n - 1)
  {
  }

  lemma Substituted(h: real, d: real, l0: real, k: real, e: real, l1: real, d': real, k': real, l2: real)
    requires Unrolls(h, d, l0, k, e, l1) && Unrolls(l0, 1.0, l1, k', 1.0, l2) && Follows(d', d, k, e)
    ensures Unrolls(h, d', l1, k', d, l2)
  {
    assert d * l0 == d * l1 + d * (k' * l2);
    assert d' * l1 == d * l1 + k * e * l1;
  }

  // ---- the closed value ----

  function Choose(n: nat, j: nat): (c: nat) {
    if j == 0 then 1 else if n == 0 then 0 else Choose(n - 1, j) + Choose(n - 1, j - 1)
  }

  /** Coefficient of `x^j` in `(1 - x)^n`. */
  function Signed(n: nat, j: nat): (c: real) {
    if j % 2 == 0 then Choose(n, j) as real else -(Choose(n, j) as real)
  }

  /** `a` times the integral of `t^(a-1) (1-t)^(b-1)` from 0 to `x`, over `x^a`: the first
      `n` terms of the expansion, integrated one by one. */
  function BetaSum(a: real, b: nat, x: real, n: nat): (r: real)
    requires a > 0.0 && 0 < b
  {
    if n == 0 then 0.0
    else BetaSum(a, b, x, n - 1) + Signed(b - 1, n - 1) * (a / (a + (n - 1) as real)) * Power(x, n - 1)
  }

  lemma SignedPascal(n: nat, j: nat)
    requires 0 < j
    ensures Signed(n + 1, j) == Signed(n, j) - Signed(n, j - 1) && Signed(0, j) == 0.0 && Signed(n, 0) == 1.0
  {
    assert Choose(n + 1, j) == Choose(n, j) + Choose(n, j - 1) && Choose(n, 0) == 1;
  }

  lemma {:induction false} Absorbs(n: nat, j: nat)
    ensures (j as real + 1.0) * Signed(n, j + 1) == (j as real - n as real) * Signed(n, j)
    decreases n
  {
    hide Signed;
    SignedPascal(n, j + 1);
    if n == 0 {
      if j != 0 { SignedPascal(0, j); }
    } else {
      Absorbs(n - 1, j);
      SignedPascal(n - 1, j + 1);
      if j == 0 {
        SignedPascal(n - 1, 1);
        SignedPascal(n, 1);
      } else {
        Absorbs(n - 1, j - 1);
        SignedPascal(n - 1, j);
        Absorption(j as real, n as real, Signed(n - 1, j - 1), Signed(n - 1, j), Signed(n - 1, j + 1));
      }
    }
  }

  lemma Absorption(j: real, n: real, c0: real, c1: real, c2: real)
    requires j * c1 == (j - n) * c0 && (j + 1.0) * c2 == (j - (n - 1.0)) * c1
    ensures (j + 1.0) * (c2 - c1) == (j - n) * (c1 - c0)
  {
  }

  // ---- the first two levels ----

  /** Without the `a` the terms are those of the binomial. */
  lemma {:induction false} BinomialTerm(a: real, b: nat, j: nat)
    requires a > 0.0
    ensures Term(-(b as real), a, a, j) == Signed(b, j)
  {
    hide Signed, Factor;
    if j == 0 {
      SignedPascal(b, 1);
    } else {
      var n := (j - 1) as real;
      BinomialTerm(a, b, j - 1);
      TermStep(-(b as real), a, a, j - 1);
      FactorAt(-(b as real), a, a, j - 1, n - b as real, a + n, a + n, n + 1.0);
      Absorbs(b, j - 1);
      hide Term;
      NextBinomial(Term(-(b as real), a, a, j), Signed(b, j - 1), Factor(-(b as real), a, a, j - 1), Signed(b, j), n - b as real, a + n, n + 1.0);
    }
  }

  lemma NextBinomial(t: real, c: real, f: real, c': real, e: real, u: real, v: real)
    requires u > 0.0 && v > 0.0 && Product(t, c, f) && Ratio(f, e, u, u, v) && v * c' == e * c
    ensures t == c'
  {
    assert (t * v) * u == c * (f * (u * v)) == (c * e) * u;
    SameFactor(t * v, c * e, u);
    SameFactor(t, c', v);
  }

  predicate Integrated(t: real, c: real, a: real, u: real) {
    u != 0.0 && t == c * (a / u)
  }

  /** With it each is divided by its place, as integration does. */
  lemma {:induction false} IntegratedTerm(a: real, b: nat, j: nat)
    requires a > 0.0 && 0 < b
    ensures Integrated(Term(1.0 - b as real, a, a + 1.0, j), Signed(b - 1, j), a, a + j as real)
  {
    hide Signed, Factor, Product, Ratio;
    if j == 0 {
      SignedPascal(b - 1, 1);
    } else {
      var n := (j - 1) as real;
      IntegratedTerm(a, b, j - 1);
      TermStep(1.0 - b as real, a, a + 1.0, j - 1);
      FactorAt(1.0 - b as real, a, a + 1.0, j - 1, n - (b - 1) as real, a + n, a + n + 1.0, n + 1.0);
      Absorbs(b - 1, j - 1);
      hide Term, Integrated;
      NextIntegrated(Term(1.0 - b as real, a, a + 1.0, j), Term(1.0 - b as real, a, a + 1.0, j - 1), Signed(b - 1, j - 1),
                     Factor(1.0 - b as real, a, a + 1.0, j - 1), Signed(b - 1, j), n - (b - 1) as real, a, a + n, a + n + 1.0, n + 1.0);
    }
  }

  lemma NextIntegrated(t': real, t: real, c: real, f: real, c': real, e: real, a: real, u: real, u': real, v: real)
    requires u > 0.0 && u' > 0.0 && v > 0.0 && Integrated(t, c, a, u)
    requires Product(t', t, f) && Ratio(f, e, u, u', v) && v * c' == e * c
    ensures Integrated(t', c', a, u')
  {
    var (y, y') := (a / u, a / u');
    assert y * u == a && y' * u' == a;
    assert t' * (u' * v) == (c * y) * (f * (u' * v)) == (c * y) * (e * u);
    assert (c * y) * (e * u) == (e * c) * (y * u) == (v * c') * a;
    assert (c' * y') * (u' * v) == (c' * v) * (y' * u') == (v * c') * a;
    Positive(u', v);
    SameFactor(t', c' * y', u' * v);
  }

  /** The binomial theorem, on any number of terms that covers it. */
  function Expansion(b: nat, x: real, n: nat): (r: real) {
    if n == 0 then 0.0 else Expansion(b, x, n - 1) + Signed(b, n - 1) * Power(x, n - 1)
  }

  lemma {:induction false} ExpansionStep(b: nat, x: real, n: nat)
    ensures Expansion(b + 1, x, n + 1) == Expansion(b, x, n + 1) - x * Expansion(b, x, n)
  {
    hide Signed, Power;
    if n == 0 {
      SignedPascal(b, 1);
      SignedPascal(b + 1, 1);
      assert Expansion(b + 1, x, 1) == 0.0 + Signed(b + 1, 0) * Power(x, 0) && Expansion(b, x, 1) == 0.0 + Signed(b, 0) * Power(x, 0);
    } else {
      ExpansionStep(b, x, n - 1);
      SignedPascal(b, n);
      PowerStep(x, n - 1);
      PascalTerm(Signed(b + 1, n), Signed(b, n), Signed(b, n - 1), x, Power(x, n - 1), Power(x, n));
      Distributes(x, Expansion(b, x, n - 1), Signed(b, n - 1) * Power(x, n - 1));
    }
  }

  lemma PascalTerm(c: real, c1: real, c0: real, x: real, y: real, xy: real)
    requires c == c1 - c0 && xy == x * y
    ensures c * xy == c1 * xy - x * (c0 * y)
  {
    assert c * xy == c1 * xy - c0 * xy;
    assert c0 * (x * y) == x * (c0 * y);
  }

  lemma {:induction false} Binomial(b: nat, x: real, n: nat)
    requires b < n
    ensures Expansion(b, x, n) == Power(1.0 - x, b)
    decreases b
  {
    hide Signed;
    if b == 0 {
      OneOnly(x, n);
    } else {
      ExpansionStep(b - 1, x, n - 1);
      Binomial(b - 1, x, n);
      Binomial(b - 1, x, n - 1);
      PowerStep(1.0 - x, b - 1);
      Distributes(Power(1.0 - x, b - 1), 1.0, -x);
    }
  }

  lemma {:induction false} OneOnly(x: real, n: nat)
    requires 0 < n
    ensures Expansion(0, x, n) == 1.0
  {
    SignedPascal(0, n);
    if n > 1 {
      OneOnly(x, n - 1);
      SignedPascal(0, n - 1);
    }
  }

  lemma {:induction false} PolyBinomial(a: real, b: nat, x: real, n: nat)
    requires a > 0.0
    ensures Poly(-(b as real), a, a, x, n) == Expansion(b, x, n)
  {
    hide Term, Signed, Power;
    if n != 0 {
      PolyBinomial(a, b, x, n - 1);
      BinomialTerm(a, b, n - 1);
    }
  }

  lemma {:induction false} PolyIntegrated(a: real, b: nat, x: real, n: nat)
    requires a > 0.0 && 0 < b
    ensures Poly(1.0 - b as real, a, a + 1.0, x, n) == BetaSum(a, b, x, n)
  {
    hide Term, Signed, Power;
    if n != 0 {
      PolyIntegrated(a, b, x, n - 1);
      IntegratedTerm(a, b, n - 1);
    }
  }

  lemma {:induction false} PolyOne(q: real, s: real, x: real, n: nat)
    requires s > 0.0 && 0 < n
    ensures Poly(0.0, q, s, x, n) == 1.0
  {
    if n > 1 {
      PolyOne(q, s, x, n - 1);
      TermEnds(0, q, s, n - 1);
    }
  }

  /** For a whole `b` the fraction stops: its convergent with `2b - 1` partial numerators
      has denominator `(1 - x)^b` and the integrated expansion as numerator. */
  lemma WholeParameter(a: real, b: nat, x: real)
    requires a > 0.0 && 0 < b
    ensures Den(Numerators(a, b as real, x), 2 * b - 1) == Power(1.0 - x, b)
    ensures Num(Numerators(a, b as real, x), 2 * b - 1) == BetaSum(a, b, x, b)
  {
    var k := Numerators(a, b as real, x);
    Unrolled(a, b, x, k, 2 * b - 1);
    Vanishes(a, b, x);
    LevelValues(a, b, x);
    hide Level, Coefficient, BetaSum, Power, Num, Den;
  }

  lemma Vanishes(a: real, b: nat, x: real)
    requires a > 0.0 && 0 < b
    ensures Numerators(a, b as real, x)(2 * b) == 0.0
  {
    EvenCoefficient(a, b as real, x, b - 1);
    NumeratorEnds(Coefficient(a, b as real, x, 2 * b), a + (b - 1) as real, (b - 1) as real - b as real + 1.0,
                  a + 2.0 * (b - 1) as real + 1.0, x);
    hide Coefficient;
  }

  lemma LevelValues(a: real, b: nat, x: real)
    requires a > 0.0 && 0 < b
    ensures Level(a, b, x, 0) == Power(1.0 - x, b) && Level(a, b, x, 1) == BetaSum(a, b, x, b) && Level(a, b, x, 2 * b) == 1.0
  {
    hide Poly, Term, Signed, Power;
    PolyBinomial(a, b, x, b + 1);
    Binomial(b, x, b + 1);
    PolyIntegrated(a, b, x, b);
    IsLast(a, b, x);
    PolyOne(a + b as real, a + 2.0 * b as real, x, b + 1);
    hide BetaSum, Expansion;
    assert EvenLevel(a, b, x, 0) == Poly(-(b as real), a, a, x, b + 1);
    assert OddLevel(a, b, x, 0) == Poly(1.0 - b as real, a, a + 1.0, x, b + 1);
    assert EvenLevel(a, b, x, b) == Poly(0.0, a + b as real, a + 2.0 * b as real, x, b + 1);
    assert 2 * b / 2 == b;
  }

  lemma IsLast(a: real, b: nat, x: real)
    requires a > 0.0 && 0 < b
    ensures Poly(1.0 - b as real, a, a + 1.0, x, b + 1) == Poly(1.0 - b as real, a, a + 1.0, x, b)
  {
    assert 1.0 - b as real == -((b - 1) as real);
    PolyEnds(b - 1, a, a + 1.0, x, b);
  }

  predicate Cross(u: real, v: real, d: real, s: real) {
    u * d == v * s
  }

  /** Every later convergent has the same value. */
  lemma {:induction false} Frozen(a: real, b: nat, x: real, k: nat -> real, n: nat)
    requires a > 0.0 && 0 < b && 2 * b - 1 <= n && k == Numerators(a, b as real, x)
    ensures Cross(Num(k, n), Den(k, n), Power(1.0 - x, b), BetaSum(a, b, x, b))
  {
    hide Num, Den, Power, BetaSum, Numerators, Follows, Cross;
    if n == 2 * b - 1 {
      WholeParameter(a, b, x);
      Exchanged(Num(k, n), Den(k, n));
    } else {
      Frozen(a, b, x, k, n - 1);
      NextConvergent(k, n);
      if n == 2 * b {
        Vanishes(a, b, x);
        StaysWith(Num(k, n), Num(k, n - 1), NumBefore(k, n - 1), Den(k, n), Den(k, n - 1), DenBefore(k, n - 1), k(n),
                  Power(1.0 - x, b), BetaSum(a, b, x, b));
      } else {
        Frozen(a, b, x, k, n - 2);
        SameRatioNext(Num(k, n), Num(k, n - 1), Num(k, n - 2), Den(k, n), Den(k, n - 1), Den(k, n - 2), k(n),
                      Power(1.0 - x, b), BetaSum(a, b, x, b));
      }
    }
  }

  lemma Exchanged(u: real, v: real)
    ensures Cross(u, v, v, u)
  {
  }

  lemma StaysWith(u: real, u1: real, u0: real, v: real, v1: real, v0: real, k: real, d: real, s: real)
    requires Follows(u, u1, k, u0) && Follows(v, v1, k, v0) && Cross(u1, v1, d, s) && k == 0.0
    ensures Cross(u, v, d, s)
  {
  }

  lemma SameRatioNext(u: real, u1: real, u0: real, v: real, v1: real, v0: real, k: real, d: real, s: real)
    requires Follows(u, u1, k, u0) && Follows(v, v1, k, v0) && Cross(u1, v1, d, s) && Cross(u0, v0, d, s)
    ensures Cross(u, v, d, s)
  {
    assert u * d == u1 * d + k * (u0 * d);
    assert v * s == v1 * s + k * (v0 * s);
  }

  /** So from iteration `b - 1` on, what the evaluation returns is the incomplete beta
      integral over `x^a (1 - x)^b / a`. */
  lemma ResultIsBeta(a: real, b: nat, x: real, n: nat, result: real)
    requires a > 0.0 && 0 < b && 2 * b - 1 <= n && IsValue(Numerators(a, b as real, x), n, result)
    ensures result * Power(1.0 - x, b) == BetaSum(a, b, x, b)
  {
    hide Num, Den, Power, BetaSum, Numerators, Cross, IsValue;
    var k := Numerators(a, b as real, x);
    Frozen(a, b, x, k, n);
    ValueCrosses(k, n, result, Power(1.0 - x, b), BetaSum(a, b, x, b));
  }

  lemma ValueCrosses(k: nat -> real, n: nat, r: real, d: real, s: real)
    requires IsValue(k, n, r) && Cross(Num(k, n), Den(k, n), d, s)
    ensures r * d == s
  {
    hide Num, Den;
    var u, v := Num(k, n), Den(k, n);
    assert r * v == u;
    assert (r * d) * v == (r * v) * d;
    SameFactor(r * d, s, v);
  }
}
