/**
  Linear systems x = b + A x with non-negative A whose columns sum to less than one: they are solvable, by elimination.
 */
module LinearSystems {
  import opened Base
  import opened Sums
  import opened Vectors

  type Matrix<!T> = T -> T -> real

  ghost function Column<T>(a: Matrix<T>, n: T): Vector<T> { t => a(t)(n) }

  ghost predicate Positive<T(!new)>(a: Matrix<T>) {
    forall t, n :: a(t)(n) >= 0.0
  }

  ghost predicate ColumnsWithin<T>(s: seq<T>, a: Matrix<T>, c: real) {
    forall n :: n in s ==> Sum(s, Column(a, n)) <= c
  }

  ghost predicate Solves<T>(s: seq<T>, a: Matrix<T>, b: Vector<T>, x: Vector<T>) {
    forall t :: t in s ==> x(t) == b(t) + Sum(s, Product(a(t), x))
  }

  /** The entry left after the variable z has been eliminated; d is what its own equation leaves of it. */
  ghost function Schur<T>(a: Matrix<T>, z: T, d: real, t: T, n: T): real
    requires d > 0.0
  {
    a(t)(n) + a(t)(z) * (a(z)(n) / d)
  }

  ghost function Eliminated<T>(a: Matrix<T>, z: T, d: real): Matrix<T>
    requires d > 0.0
  {
    t => n => Schur(a, z, d, t, n)
  }

  ghost function Reduced<T>(a: Matrix<T>, b: Vector<T>, z: T, d: real): Vector<T>
    requires d > 0.0
  {
    t => b(t) + a(t)(z) * (b(z) / d)
  }

  lemma QuotientNonNegative(p: real, d: real)
    requires p >= 0.0 && d > 0.0
    ensures p / d >= 0.0
  {
  }

  lemma QuotientTimes(p: real, d: real)
    requires d > 0.0
    ensures (p / d) * d == p
  {
  }

  /** p w <= (p / d) d = p where the weight w does not exceed d. */
  lemma ShareWithin(p: real, w: real, d: real)
    requires p >= 0.0 && d > 0.0 && w <= d
    ensures (p / d) * w <= p
  {
    QuotientNonNegative(p, d);
    TimesMonotone(w, d, p / d);
    QuotientTimes(p, d);
  }

  lemma EliminatedIsPositive<T(!new)>(a: Matrix<T>, z: T, d: real)
    requires Positive(a) && d > 0.0
    ensures Positive(Eliminated(a, z, d))
  {
    forall t, n ensures Eliminated(a, z, d)(t)(n) >= 0.0 {
      QuotientNonNegative(a(z)(n), d);
      TimesMonotone(0.0, a(t)(z), a(z)(n) / d);
    }
  }

  /** One column after the elimination: the rest of it, and its share of the eliminated one. */
  lemma EliminatedColumn<T(!new)>(s: seq<T>, a: Matrix<T>, z: T, d: real, n: T)
    requires d > 0.0
    ensures Sum(s, Column(Eliminated(a, z, d), n)) == Sum(s, Column(a, n)) + (a(z)(n) / d) * Sum(s, Column(a, z))
  {
    hide Sum;
    SumScaled(s, a(z)(n) / d, Column(a, z), Scaled(a(z)(n) / d, Column(a, z)));
    SumPlus(s, Column(a, n), Scaled(a(z)(n) / d, Column(a, z)), Column(Eliminated(a, z, d), n));
  }

  /** The elimination keeps the columns within the bound. */
  lemma EliminationKeepsColumns<T(!new)>(s: seq<T>, z: T, a: Matrix<T>, c: real)
    requires Positive(a) && ColumnsWithin(s + [z], a, c) && c < 1.0
    ensures a(z)(z) <= c && ColumnsWithin(s, Eliminated(a, z, 1.0 - a(z)(z)), c)
  {
    SplitSum(s, z, Column(a, z));
    SumNonNegative(s, Column(a, z));
    assert z in s + [z];
    var d := 1.0 - a(z)(z);
    forall n | n in s ensures Sum(s, Column(Eliminated(a, z, d), n)) <= c {
      assert n in s + [z];
      SplitSum(s, z, Column(a, n));
      EliminatedColumn(s, a, z, d, n);
      ShareWithin(a(z)(n), Sum(s, Column(a, z)), d);
    }
  }

  lemma SplitSum<T>(s: seq<T>, z: T, f: T -> real)
    ensures Sum(s + [z], f) == Sum(s, f) + f(z)
  {
    assert (s + [z])[..|s|] == s;
  }

  /** The eliminated variable put back. */
  ghost function Extended<T>(x: Vector<T>, z: T, value: real): Vector<T> { n => if n == z then value else x(n) }

  /** A row of the reduced system, taken apart again. */
  lemma ReducedRow<T(!new)>(s: seq<T>, a: Matrix<T>, z: T, d: real, t: T, x: Vector<T>)
    requires d > 0.0
    ensures Sum(s, Product(Eliminated(a, z, d)(t), x))
            == Sum(s, Product(a(t), x)) + a(t)(z) * (Sum(s, Product(a(z), x)) / d)
  {
    hide Sum;
    var share := Scaled(a(t)(z) / d, Product(a(z), x));
    SumOfScaled(s, a(t)(z) / d, Product(a(z), x));
    forall n ensures Product(Eliminated(a, z, d)(t), x)(n) == Product(a(t), x)(n) + share(n) {
      ProductOfSchur(a(t)(n), a(t)(z), a(z)(n), d, x(n));
    }
    SumPlus(s, Product(a(t), x), share, Product(Eliminated(a, z, d)(t), x));
    QuotientMoves(a(t)(z), Sum(s, Product(a(z), x)), d);
  }

  lemma QuotientMoves(p: real, q: real, d: real)
    requires d > 0.0
    ensures (p / d) * q == p * (q / d)
  {
  }

  lemma ProductOfSchur(tn: real, tz: real, zn: real, d: real, x: real)
    requires d > 0.0
    ensures (tn + tz * (zn / d)) * x == tn * x + (tz / d) * (zn * x)
  {
    TimesPlus(tn, tz * (zn / d), x);
    QuotientMoves(tz, zn, d);
    Reassociate(tz / d, zn, x);
  }

  lemma Reassociate(p: real, q: real, r: real)
    ensures (p * q) * r == p * (q * r)
  {
  }

  lemma ExtendedSum<T(!new)>(s: seq<T>, z: T, f: Vector<T>, x: Vector<T>, value: real)
    requires z !in s
    ensures Sum(s + [z], Product(f, Extended(x, z, value))) == Sum(s, Product(f, x)) + f(z) * value
  {
    SplitSum(s, z, Product(f, Extended(x, z, value)));
    SumEqual(s, Product(f, Extended(x, z, value)), Product(f, x));
  }

  /** The value of the eliminated variable solves its own equation. */
  lemma OwnEquation(own: real, rest: real, d: real)
    requires d == 1.0 - own && d > 0.0
    ensures rest / d == rest + own * (rest / d)
  {
    QuotientTimes(rest, d);
    TimesMinus(1.0, own, rest / d);
  }

  lemma EliminatedRowHolds<T(!new)>(s: seq<T>, z: T, a: Matrix<T>, b: Vector<T>, d: real, x: Vector<T>, value: real)
    requires z !in s && d == 1.0 - a(z)(z) && d > 0.0 && value == (b(z) + Sum(s, Product(a(z), x))) / d
    ensures value == b(z) + Sum(s + [z], Product(a(z), Extended(x, z, value)))
  {
    hide Sum;
    ExtendedSum(s, z, a(z), x, value);
    OwnEquation(a(z)(z), b(z) + Sum(s, Product(a(z), x)), d);
  }

  lemma OtherRowHolds<T(!new)>(s: seq<T>, z: T, a: Matrix<T>, b: Vector<T>, d: real, x: Vector<T>, value: real, t: T)
    requires z !in s && d > 0.0 && value == (b(z) + Sum(s, Product(a(z), x))) / d
    requires x(t) == Reduced(a, b, z, d)(t) + Sum(s, Product(Eliminated(a, z, d)(t), x))
    ensures x(t) == b(t) + Sum(s + [z], Product(a(t), Extended(x, z, value)))
  {
    hide Sum;
    ExtendedSum(s, z, a(t), x, value);
    ReducedRow(s, a, z, d, t, x);
    SplitQuotient(a(t)(z), b(z), Sum(s, Product(a(z), x)), d);
    AddUp(b(t), a(t)(z) * (b(z) / d), Sum(s, Product(a(t), x)), a(t)(z) * (Sum(s, Product(a(z), x)) / d),
          a(t)(z) * value);
  }

  lemma AddUp(b: real, p: real, r: real, q: real, v: real)
    requires v == p + q
    ensures (b + p) + (r + q) == b + (r + v)
  {
  }

  /** The solution of the reduced system, extended by the eliminated variable, solves the whole one. */
  lemma ExtensionSolves<T(!new)>(s: seq<T>, z: T, a: Matrix<T>, b: Vector<T>, d: real, x: Vector<T>)
    requires z !in s && d == 1.0 - a(z)(z) && d > 0.0 && Solves(s, Eliminated(a, z, d), Reduced(a, b, z, d), x)
    ensures Solves(s + [z], a, b, Extended(x, z, (b(z) + Sum(s, Product(a(z), x))) / d))
  {
    hide Sum, Eliminated, Reduced;
    var value := (b(z) + Sum(s, Product(a(z), x))) / d;
    forall t | t in s + [z]
      ensures Extended(x, z, value)(t) == b(t) + Sum(s + [z], Product(a(t), Extended(x, z, value)))
    {
      if t == z { EliminatedRowHolds(s, z, a, b, d, x, value); } else { OtherRowHolds(s, z, a, b, d, x, value, t); }
    }
  }

  lemma SplitQuotient(p: real, q: real, r: real, d: real)
    requires d > 0.0
    ensures p * ((q + r) / d) == p * (q / d) + p * (r / d)
  {
    assert (q + r) / d == q / d + r / d;
    TimesPlus(q / d, r / d, p);
  }

  /** Every such system has a solution. */
  lemma {:induction false} Solvable<T(!new)>(s: seq<T>, a: Matrix<T>, b: Vector<T>, c: real) returns (x: Vector<T>)
    requires Distinct(s) && Positive(a) && ColumnsWithin(s, a, c) && c < 1.0
    ensures Solves(s, a, b, x)
  {
    if s == [] {
      x := b;
    } else {
      var k := |s| - 1;
      var z := s[k];
      assert s == s[..k] + [z] && z !in s[..k];
      EliminationKeepsColumns(s[..k], z, a, c);
      var d := 1.0 - a(z)(z);
      EliminatedIsPositive(a, z, d);
      var reduced := Solvable(s[..k], Eliminated(a, z, d), Reduced(a, b, z, d), c);
      ExtensionSolves(s[..k], z, a, b, d, reduced);
      x := Extended(reduced, z, (b(z) + Sum(s[..k], Product(a(z), reduced))) / d);
    }
  }
}

/** The fixpoint that the PageRank error bound speaks of exists. */
module PprFixpoint {
  import opened Base
  import opened Sums
  import opened Vectors
  import opened PprTheory
  import LinearSystems

  /** One iteration as a matrix: the walk, and the restarts of what dangles. */
  ghost function Entry(g: Graph, seeds: seq<Node>, alpha: real, t: Node, n: Node): real
    requires seeds != []
  {
    (1.0 - alpha) * (Probability(g, n, t) + if Dangling(g, n) then Restarts(seeds)(t) else 0.0)
  }

  ghost function Steps(g: Graph, seeds: seq<Node>, alpha: real): Node -> Node -> real
    requires seeds != []
  {
    t => n => Entry(g, seeds, alpha, t, n)
  }

  /** Where the mass of node n goes. */
  ghost function Spread(g: Graph, seeds: seq<Node>, n: Node): Scores
    requires seeds != []
  {
    if Dangling(g, n) then Restarts(seeds) else Row(g, n)
  }

  lemma SpreadAddsUp(g: Graph, seeds: seq<Node>, n: Node)
    requires Prepared(g, seeds)
    ensures Sum(g.nodes, Spread(g, seeds, n)) == 1.0
  {
    RestartIsADistribution(g, seeds);
    RowAddsUp(g, n);
  }

  lemma StepsArePositive(g: Graph, seeds: seq<Node>, alpha: real)
    requires Prepared(g, seeds) && alpha <= 1.0
    ensures LinearSystems.Positive(Steps(g, seeds, alpha))
  {
    hide Sum, Dangling, Probability;
    RestartIsADistribution(g, seeds);
    assert forall t :: Restarts(seeds)(t) >= 0.0;
    hide Restarts;
    forall t, n ensures Steps(g, seeds, alpha)(t)(n) >= 0.0 {
      ProbabilitySign(g, n, t);
      var p := Probability(g, n, t) + if Dangling(g, n) then Restarts(seeds)(t) else 0.0;
      assert p >= 0.0;
      TimesMonotone(0.0, p, 1.0 - alpha);
      TimesZero(1.0 - alpha, 0.0);
      assert Steps(g, seeds, alpha)(t)(n) == (1.0 - alpha) * p;
    }
  }

  lemma StepsColumns(g: Graph, seeds: seq<Node>, alpha: real)
    requires Prepared(g, seeds)
    ensures LinearSystems.ColumnsWithin(g.nodes, Steps(g, seeds, alpha), 1.0 - alpha)
  {
    hide Sum, Dangling, Restarts, Probability;
    forall n | n in g.nodes ensures Sum(g.nodes, LinearSystems.Column(Steps(g, seeds, alpha), n)) <= 1.0 - alpha {
      StepIsSpread(g, seeds, alpha, n);
      SumScaled(g.nodes, 1.0 - alpha, Spread(g, seeds, n), LinearSystems.Column(Steps(g, seeds, alpha), n));
      SpreadAddsUp(g, seeds, n);
    }
  }

  lemma StepIsSpread(g: Graph, seeds: seq<Node>, alpha: real, n: Node)
    requires seeds != []
    ensures forall t :: LinearSystems.Column(Steps(g, seeds, alpha), n)(t) == (1.0 - alpha) * Spread(g, seeds, n)(t)
  {
  }

  /** A row of the matrix applied to scores is what walks and restarts bring to its node. */
  lemma StepsTimes(g: Graph, seeds: seq<Node>, alpha: real, x: Scores, t: Node)
    requires seeds != []
    ensures Sum(g.nodes, Product(Steps(g, seeds, alpha)(t), x)) == (1.0 - alpha) * Move(g, seeds, x)(t)
  {
    hide Sum, Dangling, Restarts, Probability;
    var r := Restarts(seeds)(t);
    var dangling := Scaled(r, AtDangling(g, x));
    var moved := Plus(Product(x, Column(g, t)), dangling);
    SumScaled(g.nodes, r, AtDangling(g, x), dangling);
    SumPlus(g.nodes, Product(x, Column(g, t)), dangling, moved);
    forall n ensures Product(Steps(g, seeds, alpha)(t), x)(n) == (1.0 - alpha) * moved(n) {
      EntryTimes(1.0 - alpha, Probability(g, n, t), Dangling(g, n), r, x(n));
    }
    SumScaled(g.nodes, 1.0 - alpha, moved, Product(Steps(g, seeds, alpha)(t), x));
  }

  lemma EntryTimes(walk: real, p: real, dangling: bool, r: real, x: real)
    ensures (walk * (p + if dangling then r else 0.0)) * x == walk * (x * p + r * if dangling then x else 0.0)
  {
    var q := if dangling then r else 0.0;
    LinearSystems.Reassociate(walk, p + q, x);
    TimesPlus(p, q, x);
    TimesZero(r, 0.0);
  }

  /**
    For every graph and seeds, and every positive restart probability, there are scores that an iteration leaves alone.
   */
  lemma FixpointExists(g: Graph, seeds: seq<Node>, alpha: real) returns (x: Scores)
    requires Prepared(g, seeds) && 0.0 < alpha <= 1.0
    ensures IsFixpoint(g, seeds, alpha, x)
  {
    hide Sum, Move;
    StepsArePositive(g, seeds, alpha);
    StepsColumns(g, seeds, alpha);
    var b := Scaled(alpha, Restarts(seeds));
    x := LinearSystems.Solvable(g.nodes, Steps(g, seeds, alpha), b, 1.0 - alpha);
    var y := Iteration(g, seeds, alpha, x);
    forall t | t in g.nodes ensures AbsOf(Minus(y, x))(t) == 0.0 { StepsTimes(g, seeds, alpha, x, t); }
    SumZero(g.nodes, AbsOf(Minus(y, x)));
  }
}
