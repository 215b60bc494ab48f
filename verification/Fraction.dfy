/** Rational approximation of a number by a walk down the Stern-Brocot tree, in
    exact arithmetic. */
module Fraction {
  import opened Bits

  // ---- greatest common divisors -----------------------------------------

  function CalculateGCD(a: nat, b: nat): nat
    decreases b
  {
    if b == 0 then a else CalculateGCD(b, a % b)
  }

  lemma MultipleKeepsRemainder(r: nat, k: nat, d: nat)
    requires 0 < d
    ensures (r + k * d) % d == r % d
  {
    var q := r / d;
    assert r == d * q + r % d;
    assert d * (q + k) == d * q + d * k;
    RemainderUnique(r + k * d, d, q + k, r % d);
  }

  /** Dividing `b`, a number divides `a` exactly when it divides what `b` leaves of `a`. */
  lemma DivisorsSurvive(a: nat, b: nat, d: nat)
    requires 0 < d && 0 < b && b % d == 0
    ensures a % d == (a % b) % d
  {
    var k, m := a / b, b / d;
    ProductIsNonNegative(k, m);
    assert b == d * m && a == b * k + a % b;
    assert b * k == (k * m) * d by {
      assert (d * m) * k == (k * m) * d;
    }
    MultipleKeepsRemainder(a % b, k * m, d);
  }

  /** The common divisors of two numbers are the divisors of what CalculateGCD returns. */
  lemma {:induction false} GCDIsGreatest(a: nat, b: nat, d: nat)
    requires 0 < d
    ensures a % d == 0 && b % d == 0 <==> CalculateGCD(a, b) % d == 0
    decreases b
  {
    if b != 0 {
      GCDIsGreatest(b, a % b, d);
      if b % d == 0 {
        DivisorsSurvive(a, b, d);
      }
    }
  }

  lemma {:induction false} GCDIsPositive(a: nat, b: nat)
    requires 0 < a || 0 < b
    ensures 0 < CalculateGCD(a, b)
    decreases b
  {
    if b != 0 {
      GCDIsPositive(b, a % b);
    }
  }

  lemma FactorOut(u: int, i: int, v: int, j: int, g: int)
    ensures u * (g * i) + v * (g * j) == g * (u * i + v * j)
  {
    assert u * (g * i) == g * (u * i);
    assert v * (g * j) == g * (v * j);
  }

  /** Only 1 divides both terms of an integer combination that is 1. */
  lemma OnlyOneDivides(u: int, p: nat, v: int, q: nat, g: nat)
    requires 0 < g && p % g == 0 && q % g == 0 && u * p + v * q == 1
    ensures g == 1
  {
    var i, j := p / g, q / g;
    FactorOut(u, i, v, j, g);
    var k := u * i + v * j;
    assert g * k == 1;
    if k != 0 {
      MultipleIsLarge(g, k);
    }
  }

  lemma NotBothZero(u: int, p: nat, v: int, q: nat)
    requires u * p + v * q == 1
    ensures 0 < p || 0 < q
  {
  }

  lemma CombinationIsOne(p: nat, q: nat, u: int, v: int)
    requires u * p + v * q == 1
    ensures CalculateGCD(p, q) == 1
  {
    NotBothZero(u, p, v, q);
    GCDIsPositive(p, q);
    var g := CalculateGCD(p, q);
    RemainderUnique(g, g, 1, 0);
    GCDIsGreatest(p, q, g);
    OnlyOneDivides(u, p, v, q, g);
  }

  // ---- fractions as numbers ---------------------------------------------

  function Quotient(p: int, q: int): (r: real)
    requires 0 < q
    ensures r * q as real == p as real
  {
    p as real / q as real
  }

  function Distance(x: real, p: int, q: int): (d: real)
    requires 0 < q
    ensures 0.0 <= d
  {
    var d := x - Quotient(p, q);
    if d < 0.0 then -d else d
  }

  lemma ProductIsPositive(a: int, b: int)
    requires 0 < a && 0 < b
    ensures 0 < a * b
  {
  }

  /** A common denominator. */
  function Common(q: int, n: int): (k: real)
    requires 0 < q && 0 < n
    ensures 0.0 < k
  {
    ProductIsPositive(q, n);
    (q * n) as real
  }

  function Times(x: real, k: real): real {
    x * k
  }

  lemma ScaleTo(x: real, y: real, k: real)
    requires 0.0 < k
    ensures x < y <==> Times(x, k) < Times(y, k)
  {
  }

  lemma ClearDenominator(p: int, q: int, n: int)
    requires 0 < q && 0 < n
    ensures Times(Quotient(p, q), Common(q, n)) == (p * n) as real
    ensures Times(Quotient(p, q), Common(n, q)) == (p * n) as real
  {
    var a := Quotient(p, q);
    assert a * (q as real * n as real) == (a * q as real) * n as real;
  }

  lemma CrossMultiply(p: int, q: int, m: int, n: int)
    requires 0 < q && 0 < n
    ensures Quotient(p, q) < Quotient(m, n) <==> p * n < m * q
  {
    ClearDenominator(p, q, n);
    ClearDenominator(m, n, q);
    hide Quotient, Common, Times;
    ScaleTo(Quotient(p, q), Quotient(m, n), Common(q, n));
  }

  // ---- approximation ----------------------------------------------------

  /** The largest denominator considered. */
  const N := 1000

  /** Nearer to `x` than 1 / (q * N). */
  predicate Close(x: real, p: int, q: int)
    requires 0 < q
  {
    Times(Distance(x, p, q), Common(q, N)) < 1.0
  }

  lemma SmallerMultiple(y: real, i: real, j: real)
    requires 0.0 <= y && i <= j
    ensures Times(y, i) <= Times(y, j)
  {
    assert y * (j - i) >= 0.0;
  }

  lemma CommonGrows(q: int, n: int, n': int)
    requires 0 < q && 0 < n <= n'
    ensures Common(q, n) <= Common(q, n')
  {
    ProductIsNonNegative(q, n' - n);
    assert q * (n' - n) == q * n' - q * n;
  }

  lemma IntegersApart(a: real, b: real, k: real, i: int, j: int)
    requires Times(a, k) == i as real && Times(b, k) == j as real && i != j
    ensures Times(b - a, k) >= 1.0 || Times(a - b, k) >= 1.0
  {
    assert (b - a) * k == b * k - a * k && (a - b) * k == a * k - b * k;
  }

  lemma PositiveFactor(y: real, k: real)
    requires 0.0 < k && 0.0 < Times(y, k)
    ensures 0.0 < y
  {
  }

  /** Different fractions lie at least the reciprocal of the product of their denominators apart. */
  lemma DifferentIsFar(p: int, q: int, m: int, n: int)
    requires 0 < q && 0 < n && Quotient(p, q) != Quotient(m, n)
    ensures Times(Distance(Quotient(m, n), p, q), Common(q, n)) >= 1.0
  {
    CrossMultiply(p, q, m, n);
    CrossMultiply(m, n, p, q);
    ClearDenominator(p, q, n);
    ClearDenominator(m, n, q);
    hide Quotient, Common, Times;
    var a, b, k := Quotient(p, q), Quotient(m, n), Common(q, n);
    IntegersApart(a, b, k, p * n, m * q);
    if Times(b - a, k) >= 1.0 {
      PositiveFactor(b - a, k);
    } else {
      PositiveFactor(a - b, k);
    }
  }

  /** Every other fraction with a denominator up to N is farther from a close
      fraction than `x` is; in particular none of them lies between the two. */
  lemma CloseIsAlone(x: real, p: int, q: int, m: int, n: int)
    requires 0 < q && 0 < n <= N && Close(x, p, q) && Quotient(m, n) != Quotient(p, q)
    ensures Distance(x, p, q) < Distance(Quotient(m, n), p, q)
  {
    hide Quotient, Common, Distance, Times;
    CommonGrows(q, n, N);
    SmallerMultiple(Distance(x, p, q), Common(q, n), Common(q, N));
    DifferentIsFar(p, q, m, n);
    ScaleTo(Distance(x, p, q), Distance(Quotient(m, n), p, q), Common(q, n));
  }

  /** A number that is a fraction with a denominator up to N is close to no other. */
  lemma CloseIsExact(m: int, n: int, p: int, q: int)
    requires 0 < q && 0 < n <= N && Close(Quotient(m, n), p, q)
    ensures Quotient(p, q) == Quotient(m, n)
  {
    if Quotient(p, q) != Quotient(m, n) {
      CloseIsAlone(Quotient(m, n), p, q, m, n);
    }
  }

  // ---- neighbours -------------------------------------------------------

  datatype Ratio = Ratio(num: nat, den: nat)

  /** `l` at or below `x`, `r` above it, next to each other in the tree. */
  predicate Bracket(x: real, l: Ratio, r: Ratio) {
    && 0 < l.den && r.num * l.den - l.num * r.den == 1
    && (0.0 <= x ==> l.num as real <= x * l.den as real)
    && x * r.den as real < r.num as real
  }

  lemma SideOf(x: real, p: int, q: int)
    requires 0 < q
    ensures x < Quotient(p, q) <==> x * q as real < p as real
    ensures x == Quotient(p, q) <==> x * q as real == p as real
  {
  }

  function Mediant(l: Ratio, r: Ratio): Ratio {
    Ratio(l.num + r.num, l.den + r.den)
  }

  /** Either half of a bracket, split at the mediant, is a bracket. */
  lemma MediantBrackets(x: real, l: Ratio, r: Ratio)
    requires Bracket(x, l, r)
    ensures Mediant(l, r).num * l.den - l.num * Mediant(l, r).den == 1
    ensures r.num * Mediant(l, r).den - Mediant(l, r).num * r.den == 1
    ensures x < Quotient(l.num + r.num, l.den + r.den) <==> Bracket(x, l, Mediant(l, r))
    ensures x >= Quotient(l.num + r.num, l.den + r.den) ==> 0.0 <= x && Bracket(x, Mediant(l, r), r)
  {
    SideOf(x, l.num + r.num, l.den + r.den);
  }

  /** An end of a bracket is close when the other end's denominator `b` is large. */
  lemma CloseBy(x: real, p: int, q: int, e: real, b: int)
    requires 0 < q && 0.0 <= e && (e == x * q as real - p as real || e == p as real - x * q as real)
    requires e * b as real <= 1.0 && N < b
    ensures Close(x, p, q)
  {
    var y := Distance(x, p, q);
    assert y * q as real == e by {
      SideOf(x, p, q);
    }
    assert Times(y, Common(q, N)) == e * N as real by {
      assert y * (q as real * N as real) == (y * q as real) * N as real;
    }
  }

  /** The upper end of a bracket is close when the lower one has a large denominator. */
  lemma UpperIsClose(x: real, l: Ratio, r: Ratio)
    requires Bracket(x, l, r) && 0.0 <= x && 0 < r.den && N < l.den
    ensures Close(x, r.num, r.den)
  {
    var e := r.num as real - x * r.den as real;
    assert e * l.den as real <= 1.0 by {
      assert (x * r.den as real) * l.den as real == (x * l.den as real) * r.den as real;
      assert (x * l.den as real) * r.den as real >= l.num as real * r.den as real;
    }
    CloseBy(x, r.num, r.den, e, l.den);
  }

  /** The lower end of a bracket is close when the upper one has a large denominator. */
  lemma LowerIsClose(x: real, l: Ratio, r: Ratio)
    requires 0 < l.den && r.num * l.den - l.num * r.den == 1 && N < r.den
    requires l.num as real <= x * l.den as real && x * r.den as real <= r.num as real
    ensures Close(x, l.num, l.den)
  {
    var e := x * l.den as real - l.num as real;
    assert e * r.den as real <= 1.0 by {
      assert (x * l.den as real) * r.den as real == (x * r.den as real) * l.den as real;
      assert (x * r.den as real) * l.den as real <= r.num as real * l.den as real;
    }
    CloseBy(x, l.num, l.den, e, r.den);
  }

  /** Neighbours among the fractions with denominators up to `n`. */
  predicate NeighboursUpto(x: real, l: Ratio, r: Ratio, n: nat) {
    && 0 < l.den <= n && 0 < r.den <= n < l.den + r.den
    && r.num * l.den - l.num * r.den == 1
    && Quotient(l.num, l.den) <= x <= Quotient(r.num, r.den)
  }

  /** Neighbours of `x` among all fractions with denominators up to N. */
  predicate Neighbours(x: real, l: Ratio, r: Ratio) {
    NeighboursUpto(x, l, r, N)
  }

  lemma WholeNeighbours(x: real) returns (l: Ratio, r: Ratio)
    requires 0.0 <= x
    ensures NeighboursUpto(x, l, r, 1)
  {
    l, r := Ratio(x.Floor, 1), Ratio(x.Floor + 1, 1);
    SideOf(x, l.num, 1);
    SideOf(x, r.num, 1);
  }

  /** Every number that is not negative has neighbours. */
  lemma {:induction false} NeighboursExist(x: real, n: nat) returns (l: Ratio, r: Ratio)
    requires 0.0 <= x && 0 < n
    ensures NeighboursUpto(x, l, r, n)
  {
    if n == 1 {
      l, r := WholeNeighbours(x);
    } else {
      l, r := NeighboursExist(x, n - 1);
      var m := Ratio(l.num + r.num, l.den + r.den);
      hide Quotient;
      if m.den == n {
        if x < Quotient(m.num, m.den) {
          r := m;
        } else {
          l := m;
        }
      }
    }
  }

  function Middle(l: Ratio, r: Ratio): real
    requires 0 < l.den + r.den
  {
    Quotient(l.num + r.num, l.den + r.den)
  }

  /** `f` is the neighbour that lies across the mediant from `x`, or the one with
      the larger denominator when `x` is the mediant. */
  predicate Rounds(x: real, f: Ratio, other: Ratio) {
    || (Neighbours(x, f, other) && (x < Middle(f, other) || (x == Middle(f, other) && other.den <= f.den)))
    || (Neighbours(x, other, f) && (Middle(other, f) < x || (x == Middle(other, f) && other.den < f.den)))
  }

  ghost predicate IsBest(x: real, p: int, q: int)
    requires 0 < q
  {
    forall m: int, n: int :: 0 < n <= N ==> Distance(x, p, q) <= Distance(x, m, n)
  }

  lemma WeightedSum(l: Ratio, r: Ratio, m: int, n: int)
    requires r.num * l.den - l.num * r.den == 1
    ensures l.den * (r.num * n - m * r.den) + r.den * (m * l.den - l.num * n) == n
  {
    assert l.den * (r.num * n - m * r.den) == (r.num * l.den) * n - m * l.den * r.den;
    assert r.den * (m * l.den - l.num * n) == m * l.den * r.den - (l.num * r.den) * n;
    assert (r.num * l.den) * n - (l.num * r.den) * n == (r.num * l.den - l.num * r.den) * n;
  }

  lemma WeightsAdd(a: nat, b: nat, i: int, j: int)
    requires 1 <= i && 1 <= j
    ensures a + b <= a * i + b * j
  {
    ProductIsNonNegative(a, i - 1);
    ProductIsNonNegative(b, j - 1);
    assert a * (i - 1) == a * i - a && b * (j - 1) == b * j - b;
  }

  /** No fraction with a denominator up to N lies between neighbours. */
  lemma NoneBetween(l: Ratio, r: Ratio, m: int, n: int)
    requires 0 < l.den && 0 < r.den && r.num * l.den - l.num * r.den == 1
    requires 0 < n < l.den + r.den
    ensures Quotient(m, n) <= Quotient(l.num, l.den) || Quotient(r.num, r.den) <= Quotient(m, n)
  {
    hide Quotient;
    CrossMultiply(l.num, l.den, m, n);
    CrossMultiply(m, n, r.num, r.den);
    WeightedSum(l, r, m, n);
    var i, j := r.num * n - m * r.den, m * l.den - l.num * n;
    if i >= 1 && j >= 1 {
      WeightsAdd(l.den, r.den, i, j);
    }
  }

  /** A neighbour is the best approximation exactly when the other one is no nearer. */
  lemma BestIffOtherIsNotNearer(x: real, f: Ratio, other: Ratio)
    requires Neighbours(x, f, other) || Neighbours(x, other, f)
    ensures IsBest(x, f.num, f.den) <==> Distance(x, f.num, f.den) <= Distance(x, other.num, other.den)
  {
    if Distance(x, f.num, f.den) <= Distance(x, other.num, other.den) {
      forall m: int, n: int | 0 < n <= N ensures Distance(x, f.num, f.den) <= Distance(x, m, n) {
        if Neighbours(x, f, other) {
          NoneBetween(f, other, m, n);
        } else {
          NoneBetween(other, f, m, n);
        }
      }
    }
  }

  // ---- when the answer is best ------------------------------------------

  /** Halfway between two fractions. */
  function Midpoint(l: Ratio, r: Ratio): real
    requires 0 < l.den && 0 < r.den
  {
    (Quotient(l.num, l.den) + Quotient(r.num, r.den)) / 2.0
  }

  predicate StrictlyBetween(x: real, a: real, b: real) {
    a < x < b || b < x < a
  }

  lemma FactorBounds(a: nat, b: nat, k: int)
    requires 0 < a && 0 < b && a == b * k
    ensures b <= a
  {
    if k != 0 {
      MultipleIsLarge(b, k);
    }
  }

  /** A reduced fraction has the smaller denominator among fractions of its value. */
  lemma SmallestOfItsValue(l: Ratio, r: Ratio, f: Ratio)
    requires 0 < l.den && 0 < f.den && r.num * l.den - l.num * r.den == 1
    requires l.num * f.den == f.num * l.den
    ensures l.den <= f.den
  {
    var k := r.num * f.den - r.den * f.num;
    calc {
      f.den;
    ==
      f.den * (r.num * l.den - l.num * r.den);
    ==
      l.den * (r.num * f.den) - r.den * (l.num * f.den);
    ==
      l.den * (r.num * f.den) - r.den * (f.num * l.den);
    ==
      l.den * k;
    }
    FactorBounds(f.den, l.den, k);
  }

  /** The same from above. */
  lemma SmallestOfItsValueAbove(l: Ratio, r: Ratio, f: Ratio)
    requires 0 < r.den && 0 < f.den && r.num * l.den - l.num * r.den == 1
    requires r.num * f.den == f.num * r.den
    ensures r.den <= f.den
  {
    var k := l.den * f.num - l.num * f.den;
    calc {
      f.den;
    ==
      f.den * (r.num * l.den - l.num * r.den);
    ==
      l.den * (r.num * f.den) - r.den * (l.num * f.den);
    ==
      l.den * (f.num * r.den) - r.den * (l.num * f.den);
    ==
      r.den * k;
    }
    FactorBounds(f.den, r.den, k);
  }

  lemma SameNumerator(a: nat, b: nat, d: nat)
    requires 0 < d && a * d == b * d
    ensures a == b
  {
  }

  lemma SameValue(l: Ratio, f: Ratio)
    requires 0 < l.den && 0 < f.den && Quotient(l.num, l.den) == Quotient(f.num, f.den)
    ensures l.num * f.den == f.num * l.den
  {
    CrossMultiply(l.num, l.den, f.num, f.den);
    CrossMultiply(f.num, f.den, l.num, l.den);
  }

  /** Neighbours on both sides of a number that is neither of them are unique. */
  lemma NeighboursAreUnique(x: real, l: Ratio, r: Ratio, a: Ratio, b: Ratio)
    requires Neighbours(x, l, r) && Neighbours(x, a, b)
    requires x != Quotient(l.num, l.den) && x != Quotient(r.num, r.den)
    requires x != Quotient(a.num, a.den) && x != Quotient(b.num, b.den)
    ensures a == l && b == r
  {
    hide Quotient;
    NoneBetween(l, r, a.num, a.den);
    NoneBetween(l, r, b.num, b.den);
    NoneBetween(a, b, l.num, l.den);
    NoneBetween(a, b, r.num, r.den);
    SameValue(l, a);
    SameValue(r, b);
    SmallestOfItsValue(l, r, a);
    SmallestOfItsValue(a, b, l);
    SmallestOfItsValueAbove(l, r, b);
    SmallestOfItsValueAbove(a, b, r);
    SameNumerator(l.num, a.num, l.den);
    SameNumerator(r.num, b.num, r.den);
  }

  /** The mediant is nearer the fraction with the larger denominator. */
  lemma MediantLeans(l: Ratio, r: Ratio)
    requires 0 < l.den && 0 < r.den && Quotient(l.num, l.den) <= Quotient(r.num, r.den)
    ensures r.den <= l.den ==> Middle(l, r) <= Midpoint(l, r)
    ensures l.den <= r.den ==> Midpoint(l, r) <= Middle(l, r)
    ensures Quotient(l.num, l.den) <= Middle(l, r) <= Quotient(r.num, r.den)
  {
    LeansByWeight(Quotient(l.num, l.den), Quotient(r.num, r.den), Middle(l, r), l.den as real, r.den as real);
  }

  lemma HeavierOutweighs(p: real, q: real, u: real, v: real)
    requires p < q && 0.0 < u <= v && 0.0 <= p + q
    ensures p * u < q * v
  {
    assert q * (v - u) >= 0.0;
    assert (q - p) * u > 0.0;
  }

  lemma HeavierIsNearer(p: real, q: real, u: real, v: real)
    requires p * u == q * v && 0.0 < u <= v && 0.0 <= p + q
    ensures q <= p
  {
    if p < q {
      HeavierOutweighs(p, q, u, v);
    }
  }

  lemma LeansByWeight(a: real, b: real, m: real, u: real, v: real)
    requires a <= b && 0.0 < u && 0.0 < v && m * (u + v) == a * u + b * v
    ensures v <= u ==> m - a <= b - m
    ensures u <= v ==> b - m <= m - a
    ensures a <= m <= b
  {
    var p, q := m - a, b - m;
    assert p * u == q * v;
    if u <= v {
      HeavierIsNearer(p, q, u, v);
    } else {
      HeavierIsNearer(q, p, v, u);
    }
    if p < 0.0 || q < 0.0 {
      OppositeSigns(p, q, u, v);
    }
  }

  lemma OppositeSigns(p: real, q: real, u: real, v: real)
    requires p * u == q * v && 0.0 < u && 0.0 < v && 0.0 <= p + q
    ensures 0.0 <= p && 0.0 <= q
  {
  }

  lemma ExactIsBest(x: real, f: Ratio, l: Ratio, r: Ratio)
    requires 0 < f.den <= N && Quotient(f.num, f.den) == x && Neighbours(x, l, r)
    ensures IsBest(x, f.num, f.den) && !StrictlyBetween(x, Middle(l, r), Midpoint(l, r))
  {
    assert Distance(x, f.num, f.den) == 0.0;
    hide Quotient, Middle, Distance;
    NoneBetween(l, r, f.num, f.den);
    MediantLeans(l, r);
  }

  /** A fraction with a denominator up to N that the answer does not equal is not the number. */
  lemma NotThere(x: real, f: Ratio, e: Ratio)
    requires 0 < f.den && 0 < e.den <= N && Close(x, f.num, f.den) && Quotient(f.num, f.den) != x
    ensures Quotient(e.num, e.den) != x
  {
    if Quotient(e.num, e.den) == x {
      CloseIsExact(e.num, e.den, f.num, f.den);
    }
  }

  lemma RoundedBest(x: real, f: Ratio, other: Ratio, l: Ratio, r: Ratio)
    requires Neighbours(x, l, r) && Rounds(x, f, other)
    requires (f == l && other == r) || (f == r && other == l)
    requires Quotient(l.num, l.den) < x < Quotient(r.num, r.den)
    ensures IsBest(x, f.num, f.den) <==> !StrictlyBetween(x, Middle(l, r), Midpoint(l, r))
  {
    BestIffOtherIsNotNearer(x, f, other);
    MediantLeans(l, r);
    assert Distance(x, l.num, l.den) <= Distance(x, r.num, r.den) <==> x <= Midpoint(l, r);
    assert Distance(x, r.num, r.den) <= Distance(x, l.num, l.den) <==> Midpoint(l, r) <= x;
    hide Quotient, Distance, IsBest;
    assert Middle(l, r) == Middle(r, l);
  }

  /** An answer is a best approximation exactly when the number does not lie strictly
      between the mediant and the midpoint of its neighbours, which every number has. */
  lemma BestIffNotBetween(x: real, f: Ratio, other: Ratio, l: Ratio, r: Ratio)
    requires Answers(x, f, other) && Neighbours(x, l, r)
    ensures IsBest(x, f.num, f.den) <==> !StrictlyBetween(x, Middle(l, r), Midpoint(l, r))
    ensures Quotient(f.num, f.den) == x ==> IsBest(x, f.num, f.den)
  {
    if Quotient(f.num, f.den) == x {
      ExactIsBest(x, f, l, r);
    } else {
      hide Quotient, Close, IsBest, Middle, Midpoint, Distance;
      NotThere(x, f, l);
      NotThere(x, f, r);
      NotThere(x, f, other);
      if Neighbours(x, f, other) {
        NeighboursAreUnique(x, l, r, f, other);
      } else {
        NeighboursAreUnique(x, l, r, other, f);
      }
      RoundedBest(x, f, other, l, r);
    }
  }

  lemma AdjacentIsReduced(l: Ratio, r: Ratio)
    requires r.num * l.den - l.num * r.den == 1
    ensures CalculateGCD(l.num, l.den) == 1 && CalculateGCD(r.num, r.den) == 1
  {
    var a: int, b: int := l.num, r.den;
    assert (-b) * l.num + r.num * l.den == 1;
    CombinationIsOne(l.num, l.den, -b, r.num);
    assert l.den * r.num + (-a) * r.den == 1;
    CombinationIsOne(r.num, r.den, l.den, -a);
  }

  lemma BracketIsNeighbours(x: real, l: Ratio, r: Ratio)
    requires 0.0 <= x && Bracket(x, l, r) && l.den <= N && 0 < r.den <= N < l.den + r.den
    ensures Neighbours(x, l, r)
  {
    SideOf(x, l.num, l.den);
    SideOf(x, r.num, r.den);
  }

  /** What the search promises of its answer for a number that is not negative. */
  predicate Answers(x: real, f: Ratio, other: Ratio) {
    0 < f.den <= N && Close(x, f.num, f.den) && (Quotient(f.num, f.den) == x || Rounds(x, f, other))
  }

  lemma MediantAnswers(x: real, l: Ratio, r: Ratio)
    requires Bracket(x, l, r) && l.den + r.den <= N
    ensures x == Middle(l, r) ==> Answers(x, Mediant(l, r), l)
  {
    if x == Middle(l, r) {
      assert Distance(x, l.num + r.num, l.den + r.den) == 0.0;
    }
  }

  lemma UpperAnswers(x: real, l: Ratio, r: Ratio)
    requires Bracket(x, l, r) && l.den <= N && r.den <= N < l.den + r.den
    ensures 0.0 <= x && (Middle(l, r) < x || (x == Middle(l, r) && l.den < r.den)) ==> Answers(x, r, l)
  {
    if 0.0 <= x && (Middle(l, r) < x || (x == Middle(l, r) && l.den < r.den)) {
      MediantBrackets(x, l, r);
      UpperIsClose(x, Mediant(l, r), r);
      BracketIsNeighbours(x, l, r);
    }
  }

  lemma LowerAnswers(x: real, l: Ratio, r: Ratio)
    requires Bracket(x, l, r) && l.den <= N && r.den <= N < l.den + r.den
    ensures 0.0 <= x && (x < Middle(l, r) || (x == Middle(l, r) && r.den <= l.den)) ==> Answers(x, l, r)
  {
    if 0.0 <= x && (x < Middle(l, r) || (x == Middle(l, r) && r.den <= l.den)) {
      MediantBrackets(x, l, r);
      SideOf(x, l.num + r.num, l.den + r.den);
      LowerIsClose(x, l, Mediant(l, r));
      BracketIsNeighbours(x, l, r);
    }
  }

  /** Numbers up to this one keep the search within 32-bit signed integers. */
  const LARGEST_SAFE := 1073741.0

  /** The sums the search forms fit a 32-bit signed integer. */
  lemma SumsFit(x: real, l: Ratio, r: Ratio)
    requires Bracket(x, l, r) && l.den <= N && r.den <= N && (x < 0.0 ==> l.num == 0 && r.num == 1)
    ensures x <= LARGEST_SAFE ==> l.num + r.num < 0x8000_0000 && l.den + r.den < 0x8000_0000
  {
    if 0.0 <= x <= LARGEST_SAFE {
      assert l.num as real <= 1073741000.0 && r.num as real <= 1073741001.0 by {
        var u, v, p, q := l.den as real, r.den as real, l.num as real, r.num as real;
        assert p <= x * u;
        UpperNumerator(x, l, r);
        hide Bracket;
        ProductFits(x, u, p);
        ProductFits(x, v, q - 1.0);
      }
      hide Bracket;
    }
  }

  lemma ProductGrows(x: real, y: real, u: real, v: real)
    requires 0.0 <= x <= y && 0.0 <= u <= v
    ensures x * u <= y * v
  {
    NonNegative(y - x, u);
    NonNegative(y, v - u);
    assert (y - x) * u == y * u - x * u;
    assert y * (v - u) == y * v - y * u;
  }

  lemma ProductFits(x: real, u: real, n: real)
    requires 0.0 <= x <= LARGEST_SAFE && 0.0 <= u <= N as real && n <= x * u
    ensures n <= 1073741000.0
  {
    ProductGrows(x, LARGEST_SAFE, u, N as real);
  }

  lemma CastProduct(a: int, b: int)
    ensures (a * b) as real == a as real * b as real
  {
  }

  lemma NonNegative(a: real, b: real)
    ensures 0.0 <= a && 0.0 <= b ==> 0.0 <= a * b
  {
  }

  /** The gap c - x d, taken b times, is 1 - (x b - a) d. */
  lemma GapIsSmall(x: real, a: real, b: real, c: real, d: real)
    requires a <= x * b && 0.0 <= d && 1.0 <= b && c * b - a * d == 1.0
    ensures c <= x * d + 1.0
  {
    var gap, xb := c - x * d, x * b;
    NonNegative(xb - a, d);
    assert (xb - a) * d == xb * d - a * d;
    assert gap * b == c * b - xb * d;
    NonNegative(gap - 1.0, b);
    assert (gap - 1.0) * b == gap * b - b;
  }

  lemma UpperNumerator(x: real, l: Ratio, r: Ratio)
    requires Bracket(x, l, r)
    ensures 0.0 <= x ==> r.num as real <= x * r.den as real + 1.0
  {
    if 0.0 <= x {
      CastProduct(r.num, l.den);
      CastProduct(l.num, r.den);
      GapIsSmall(x, l.num as real, l.den as real, r.num as real, r.den as real);
    }
  }

  lemma UnitProduct(a: nat, b: nat)
    requires a * b == 1
    ensures a == 1 && b == 1
  {
  }

  lemma NeighboursOfSmall(x: real, l: Ratio, r: Ratio)
    requires x == 0.0006 && Neighbours(x, l, r)
    ensures l == Ratio(0, 1) && r == Ratio(1, 1000)
  {
    SideOf(x, l.num, l.den);
    hide Quotient;
    assert l.num as real <= x * l.den as real;
    assert l.num == 0;
    UnitProduct(r.num, l.den);
  }

  lemma MiddleOfSmall(x: real, l: Ratio, r: Ratio)
    requires x == 0.0006 && l == Ratio(0, 1) && r == Ratio(1, 1000)
    ensures Bracket(x, l, r) && x < Middle(l, r)
  {
    assert Middle(l, r) == Quotient(1, 1001);
    SideOf(x, 1, 1001);
    hide Middle, Quotient;
  }

  lemma SmallIsNoFraction(x: real, p: nat, q: nat)
    requires x == 0.0006 && 0 < q <= N
    ensures Quotient(p, q) != x
  {
    SideOf(x, p, q);
    hide Quotient;
    assert p == 0 || 1.0 <= p as real;
  }

  lemma AnswersForSmall(x: real, f: Ratio, other: Ratio)
    requires x == 0.0006 && Answers(x, f, other)
    ensures f == Ratio(0, 1)
  {
    hide Quotient, Distance, Close, Neighbours, Middle, Bracket;
    SmallIsNoFraction(x, f.num, f.den);
    if Neighbours(x, f, other) {
      NeighboursOfSmall(x, f, other);
    } else {
      NeighboursOfSmall(x, other, f);
      MiddleOfSmall(x, other, f);
    }
  }

  lemma ThousandthIsNearer(x: real)
    requires x == 0.0006
    ensures Distance(x, 1, 1000) < Distance(x, 0, 1)
  {
  }

  /** The answer need not be the best one: for 0.0006 it can only be 0/1, though 1/1000 is nearer. */
  lemma NotAlwaysBest(x: real)
    requires x == 0.0006
    ensures Answers(x, Ratio(0, 1), Ratio(1, 1000))
    ensures forall f, other :: Answers(x, f, other) ==> f == Ratio(0, 1)
    ensures !IsBest(x, 0, 1)
  {
    hide Quotient, Distance, Answers, Bracket;
    MiddleOfSmall(x, Ratio(0, 1), Ratio(1, 1000));
    LowerAnswers(x, Ratio(0, 1), Ratio(1, 1000));
    ThousandthIsNearer(x);
    forall f, other | Answers(x, f, other) ensures f == Ratio(0, 1) {
      AnswersForSmall(x, f, other);
    }
  }

  lemma LargerFactor(t: real, u: real, v: real)
    requires 0.0 < u <= v && t * u <= -1.0
    ensures t * v <= -1.0
  {
    assert t < 0.0;
    assert t * (v - u) <= 0.0;
  }

  /** No fraction below zero is nearer to zero than -1 / N. */
  lemma BelowZero(p: int, q: int)
    requires p < 0 < q <= N
    ensures Quotient(p, q) <= Quotient(-1, N)
  {
    LargerFactor(Quotient(p, q), q as real, N as real);
    assert Quotient(-1, N) == -0.001;
  }

  /** The answer for a negative number, 0/1, is best exactly down to half of -1 / N. */
  lemma NegativeIsBestIff(x: real)
    requires x < 0.0
    ensures IsBest(x, 0, 1) <==> Quotient(-1, 2 * N) <= x
  {
    assert Quotient(-1, N) == -0.001 && Quotient(-1, 2 * N) == -0.0005 && Quotient(0, 1) == 0.0;
    assert Distance(x, 0, 1) == -x;
    if Quotient(-1, 2 * N) <= x {
      forall m: int, n: int | 0 < n <= N ensures Distance(x, 0, 1) <= Distance(x, m, n) {
        if m < 0 {
          BelowZero(m, n);
        } else {
          assert Quotient(m, n) >= 0.0;
        }
      }
    } else {
      assert Distance(x, -1, N) < Distance(x, 0, 1);
    }
  }

  // ---- the search -------------------------------------------------------

  lemma BracketStarts(x: real)
    ensures Bracket(x, Ratio(0, 1), Ratio(1, 0))
  {
  }

  /** While only whole numbers have been tried, the lower end is at most the floor. */
  lemma BracketFacts(x: real, l: Ratio, r: Ratio)
    requires Bracket(x, l, r)
    ensures 0 < l.den && r.num * l.den - l.num * r.den == 1
    ensures 0.0 <= x && l.den == 1 ==> l.num <= x.Floor
  {
  }

  /** A fraction in lowest terms, with a denominator up to N, for `x`; 0/1 if `x` is negative. */
  method CalculateFraction(x: real) returns (numerator: int, denominator: int, ghost other: Ratio)
    ensures x < 0.0 ==> numerator == 0 && denominator == 1
    ensures 0 <= numerator && 1 <= denominator <= N && CalculateGCD(numerator, denominator) == 1
    ensures 0.0 <= x ==> Answers(x, Ratio(numerator, denominator), other)
  {
    BracketStarts(x);
    hide Answers, CalculateGCD, Close, Rounds, Bracket;
    var a, b, c, d := 0, 1, 1, 0;
    ghost var l, r := Ratio(0, 1), Ratio(1, 0);
    while b <= N && d <= N
      invariant 0 <= a && 0 <= b && 0 <= c && 0 <= d && Bracket(x, Ratio(a, b), Ratio(c, d))
      invariant Bracket(x, l, r) && l.den <= N && r.den <= N
      invariant 0 < b && (b <= N || d <= N)
      invariant if b <= N then l == Ratio(a, b) else Ratio(a, b) == Mediant(l, r) && Middle(l, r) < x
      invariant if d <= N then r == Ratio(c, d) else Ratio(c, d) == Mediant(l, r) && x < Middle(l, r)
      invariant x < 0.0 ==> a == 0 && b == 1 && c == 1
      invariant d == 0 ==> b == 1
      decreases 2 * N + 1 - b - d, if d == 0 then x.Floor + 1 - a else 0
    {
      var mediant := (a + c) as real / (b + d) as real;
      assert mediant == Quotient(a + c, b + d);
      BracketFacts(x, l, r);
      MediantBrackets(x, l, r);
      SumsFit(x, l, r);
      assert x <= LARGEST_SAFE ==> a + c < 0x8000_0000 && b + d < 0x8000_0000;
      if x == mediant {
        AdjacentIsReduced(l, r);
        AdjacentIsReduced(l, Mediant(l, r));
        if b + d <= N {
          MediantAnswers(x, l, r);
          numerator, denominator, other := a + c, b + d, l;
        } else if d > b {
          UpperAnswers(x, l, r);
          numerator, denominator, other := c, d, l;
        } else {
          LowerAnswers(x, l, r);
          numerator, denominator, other := a, b, r;
        }
        return;
      } else if x > mediant {
        a := a + c;
        b := b + d;
        if b <= N {
          l := Ratio(a, b);
        }
      } else {
        c := a + c;
        d := b + d;
        if d <= N {
          r := Ratio(c, d);
        }
      }
    }
    BracketFacts(x, l, r);
    AdjacentIsReduced(l, r);
    if b > N {
      UpperAnswers(x, l, r);
      numerator, denominator, other := c, d, l;
    } else {
      LowerAnswers(x, l, r);
      numerator, denominator, other := a, b, r;
    }
  }
}
