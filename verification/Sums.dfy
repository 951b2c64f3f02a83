/** Finite sums of reals over a sequence of names, with the few laws that rank propagation needs. */
module Sums {
  import opened Base

  ghost function Sum<T>(s: seq<T>, f: T -> real): real {
    if s == [] then 0.0 else Sum(s[..|s| - 1], f) + f(s[|s| - 1])
  }

  ghost function Abs(x: real): (a: real)
    ensures a >= 0.0 && a >= x && a >= -x && (a == x || a == -x)
  {
    if x < 0.0 then -x else x
  }

  lemma {:induction false} SumEqual<T>(s: seq<T>, f: T -> real, g: T -> real)
    requires forall x :: x in s ==> f(x) == g(x)
    ensures Sum(s, f) == Sum(s, g)
  {
    if s != [] { SumEqual(s[..|s| - 1], f, g); }
  }

  lemma {:induction false} SumZero<T>(s: seq<T>, f: T -> real)
    requires forall x :: x in s ==> f(x) == 0.0
    ensures Sum(s, f) == 0.0
  {
    if s != [] { SumZero(s[..|s| - 1], f); }
  }

  lemma {:induction false} SumLessEqual<T>(s: seq<T>, f: T -> real, g: T -> real)
    requires forall x :: x in s ==> f(x) <= g(x)
    ensures Sum(s, f) <= Sum(s, g)
  {
    if s != [] { SumLessEqual(s[..|s| - 1], f, g); }
  }

  lemma {:induction false} SumNonNegative<T>(s: seq<T>, f: T -> real)
    requires forall x :: x in s ==> f(x) >= 0.0
    ensures Sum(s, f) >= 0.0
  {
    if s != [] { SumNonNegative(s[..|s| - 1], f); }
  }

  lemma {:induction false} SumPlus<T>(s: seq<T>, f: T -> real, g: T -> real, h: T -> real)
    requires forall x :: x in s ==> h(x) == f(x) + g(x)
    ensures Sum(s, h) == Sum(s, f) + Sum(s, g)
  {
    if s != [] { SumPlus(s[..|s| - 1], f, g, h); }
  }

  lemma {:induction false} SumScaled<T>(s: seq<T>, c: real, f: T -> real, h: T -> real)
    requires forall x :: x in s ==> h(x) == c * f(x)
    ensures Sum(s, h) == c * Sum(s, f)
  {
    if s != [] {
      SumScaled(s[..|s| - 1], c, f, h);
      Distribute(c, Sum(s[..|s| - 1], f), f(s[|s| - 1]));
    }
  }

  lemma Distribute(c: real, a: real, b: real)
    ensures c * (a + b) == c * a + c * b
  {
  }

  /** An element that occurs once contributes once. */
  lemma {:induction false} SumPoint<T>(s: seq<T>, x: T, c: real, f: T -> real)
    requires Distinct(s) && x in s && f(x) == c && forall y :: y in s && y != x ==> f(y) == 0.0
    ensures Sum(s, f) == c
  {
    var n := |s| - 1;
    if s[n] == x {
      SumZero(s[..n], f);
    } else {
      assert x in s[..n];
      SumPoint(s[..n], x, c, f);
    }
  }

  /** Exchanging the order of summation: `byRow(x)(y)` and `byColumn(y)(x)` are the same entry. */
  lemma {:induction false} SumExchange<S, T>(s: seq<S>, t: seq<T>, byRow: S -> T -> real, byColumn: T -> S -> real,
                                             rows: S -> real, columns: T -> real)
    requires forall x, y :: x in s && y in t ==> byRow(x)(y) == byColumn(y)(x)
    requires forall x :: x in s ==> rows(x) == Sum(t, byRow(x))
    requires forall y :: y in t ==> columns(y) == Sum(s, byColumn(y))
    ensures Sum(s, rows) == Sum(t, columns)
  {
    if s == [] {
      SumZero(t, columns);
    } else {
      var n := |s| - 1;
      var shorter := y => Sum(s[..n], byColumn(y));
      SumExchange(s[..n], t, byRow, byColumn, rows, shorter);
      SumPlus(t, shorter, byRow(s[n]), columns);
    }
  }
}

/** Score vectors: functions on names, measured over a sequence of them. */
module Vectors {
  import opened Base
  import opened Sums

  type Vector<!T> = T -> real

  ghost function Plus<T>(x: Vector<T>, y: Vector<T>): Vector<T> { n => x(n) + y(n) }

  ghost function Minus<T>(x: Vector<T>, y: Vector<T>): Vector<T> { n => x(n) - y(n) }

  ghost function Scaled<T>(c: real, x: Vector<T>): Vector<T> { n => c * x(n) }

  ghost function Product<T>(x: Vector<T>, y: Vector<T>): Vector<T> { n => x(n) * y(n) }

  ghost function AbsOf<T>(x: Vector<T>): Vector<T> { n => Abs(x(n)) }

  /** L1 distance over s. */
  ghost function Distance<T>(s: seq<T>, x: Vector<T>, y: Vector<T>): real {
    Sum(s, AbsOf(Minus(x, y)))
  }

  ghost predicate NonNegative<T(!new)>(x: Vector<T>) {
    forall n :: x(n) >= 0.0
  }

  // Products of two reals, one law at a time.

  lemma AbsTimes(a: real, b: real)
    requires b >= 0.0
    ensures Abs(a * b) == Abs(a) * b
  {
  }

  lemma TimesMonotone(a: real, b: real, c: real)
    requires a <= b && c >= 0.0
    ensures a * c <= b * c && c * a <= c * b
  {
  }

  lemma TimesZero(a: real, b: real)
    requires a == 0.0 || b == 0.0
    ensures a * b == 0.0
  {
  }

  lemma TimesMinus(a: real, b: real, c: real)
    ensures (a - b) * c == a * c - b * c && c * (a - b) == c * a - c * b
  {
  }

  lemma TimesPlus(a: real, b: real, c: real)
    ensures (a + b) * c == a * c + b * c && c * (a + b) == c * a + c * b
  {
  }

  lemma AffineGap(a: real, c: real, x: real, y: real)
    requires c >= 0.0
    ensures Abs((a + c * x) - (a + c * y)) == c * Abs(x - y)
  {
    TimesMinus(x, y, c);
    AbsTimes(x - y, c);
  }

  lemma MixtureGap(alpha: real, x: real, y: real)
    requires 0.0 <= alpha <= 1.0
    ensures Abs((alpha * x + (1.0 - alpha) * y) - x) == (1.0 - alpha) * Abs(y - x)
  {
    TimesMinus(y, x, 1.0 - alpha);
    TimesPlus(alpha, 1.0 - alpha, x);
    AbsTimes(y - x, 1.0 - alpha);
  }

  // Sums of combined vectors.

  lemma SumOfPlus<T(!new)>(s: seq<T>, x: Vector<T>, y: Vector<T>)
    ensures Sum(s, Plus(x, y)) == Sum(s, x) + Sum(s, y)
  {
    SumPlus(s, x, y, Plus(x, y));
  }

  lemma SumOfScaled<T(!new)>(s: seq<T>, c: real, x: Vector<T>)
    ensures Sum(s, Scaled(c, x)) == c * Sum(s, x)
  {
    SumScaled(s, c, x, Scaled(c, x));
  }

  lemma {:induction false} SumTriangle<T>(s: seq<T>, x: Vector<T>, y: Vector<T>, z: Vector<T>)
    requires forall n :: n in s ==> Abs(x(n) - y(n)) <= z(n)
    ensures Abs(Sum(s, x) - Sum(s, y)) <= Sum(s, z)
  {
    if s != [] { SumTriangle(s[..|s| - 1], x, y, z); }
  }

  /** Weighted sums of two vectors differ by at most the weighted sum of their distance. */
  lemma WeightedTriangle<T(!new)>(s: seq<T>, x: Vector<T>, y: Vector<T>, p: Vector<T>)
    requires NonNegative(p)
    ensures Abs(Sum(s, Product(x, p)) - Sum(s, Product(y, p))) <= Sum(s, Product(AbsOf(Minus(x, y)), p))
  {
    forall n ensures Abs(Product(x, p)(n) - Product(y, p)(n)) <= Product(AbsOf(Minus(x, y)), p)(n) {
      TimesMinus(x(n), y(n), p(n));
      AbsTimes(x(n) - y(n), p(n));
    }
    SumTriangle(s, Product(x, p), Product(y, p), Product(AbsOf(Minus(x, y)), p));
  }

  lemma ProductNonNegative<T(!new)>(x: Vector<T>, y: Vector<T>)
    requires NonNegative(x) && NonNegative(y)
    ensures NonNegative(Product(x, y))
  {
    forall n ensures Product(x, y)(n) >= 0.0 { TimesMonotone(0.0, x(n), y(n)); }
  }

  // Distances.

  lemma DistanceTriangle<T(!new)>(s: seq<T>, x: Vector<T>, y: Vector<T>, z: Vector<T>)
    ensures Distance(s, x, z) <= Distance(s, x, y) + Distance(s, y, z)
    ensures Distance(s, x, y) >= 0.0
  {
    SumOfPlus(s, AbsOf(Minus(x, y)), AbsOf(Minus(y, z)));
    SumLessEqual(s, AbsOf(Minus(x, z)), Plus(AbsOf(Minus(x, y)), AbsOf(Minus(y, z))));
    SumNonNegative(s, AbsOf(Minus(x, y)));
  }

  lemma DistanceSymmetric<T(!new)>(s: seq<T>, x: Vector<T>, y: Vector<T>)
    ensures Distance(s, x, y) == Distance(s, y, x)
  {
    SumEqual(s, AbsOf(Minus(x, y)), AbsOf(Minus(y, x)));
  }

  lemma DistanceToItself<T(!new)>(s: seq<T>, x: Vector<T>)
    ensures Distance(s, x, x) == 0.0
  {
    SumZero(s, AbsOf(Minus(x, x)));
  }

  /** Shifting both vectors changes nothing, scaling both scales the distance. */
  lemma DistanceOfAffine<T(!new)>(s: seq<T>, a: Vector<T>, c: real, x: Vector<T>, y: Vector<T>)
    requires c >= 0.0
    ensures Distance(s, Plus(a, Scaled(c, x)), Plus(a, Scaled(c, y))) == c * Distance(s, x, y)
  {
    hide Sum, Abs;
    var gap := AbsOf(Minus(Plus(a, Scaled(c, x)), Plus(a, Scaled(c, y))));
    forall n ensures gap(n) == c * AbsOf(Minus(x, y))(n) { AffineGap(a(n), c, x(n), y(n)); }
    SumScaled(s, c, AbsOf(Minus(x, y)), gap);
  }

  /** A mixture of two vectors lies proportionally close to the first. */
  lemma DistanceOfMixture<T(!new)>(s: seq<T>, alpha: real, x: Vector<T>, y: Vector<T>)
    requires 0.0 <= alpha <= 1.0
    ensures Distance(s, Plus(Scaled(alpha, x), Scaled(1.0 - alpha, y)), x) == (1.0 - alpha) * Distance(s, y, x)
  {
    hide Sum, Abs;
    var gap := AbsOf(Minus(Plus(Scaled(alpha, x), Scaled(1.0 - alpha, y)), x));
    forall n ensures gap(n) == (1.0 - alpha) * AbsOf(Minus(y, x))(n) { MixtureGap(alpha, x(n), y(n)); }
    SumScaled(s, 1.0 - alpha, AbsOf(Minus(y, x)), gap);
  }

  /** Two non-negative vectors are no farther apart than their sums together. */
  lemma DistanceOfNonNegative<T(!new)>(s: seq<T>, x: Vector<T>, y: Vector<T>)
    requires NonNegative(x) && NonNegative(y)
    ensures Distance(s, x, y) <= Sum(s, x) + Sum(s, y)
  {
    SumOfPlus(s, x, y);
    SumLessEqual(s, AbsOf(Minus(x, y)), Plus(x, y));
  }
}
