/**
  Personalised PageRank as a map on score vectors: the walk conserves mass, so one iteration contracts
  the L1 distance by the walk probability, and everything else follows.
 */
module PprTheory {
  import opened Base
  import opened Sums
  import opened Vectors

  type Node = string

  datatype Edge = Edge(to: Node, w: real)

  datatype Graph = Graph(nodes: seq<Node>, adjacency: map<Node, seq<Edge>>)

  /** Nodes and seeds as the algorithm leaves them: without repetition, seeds among the nodes. */
  ghost predicate Prepared(g: Graph, seeds: seq<Node>) {
    Distinct(g.nodes) && Distinct(seeds) && seeds != [] && forall s :: s in seeds ==> s in g.nodes
  }

  /** The edges that count: into the graph and with positive weight. */
  function Live(g: Graph, edges: seq<Edge>): (r: seq<Edge>)
    ensures forall e :: e in r ==> e.to in g.nodes && e.w > 0.0
  {
    if edges == [] then []
    else
      var n := |edges| - 1;
      Live(g, edges[..n]) + (if edges[n].to in g.nodes && edges[n].w > 0.0 then [edges[n]] else [])
  }

  function OutEdges(g: Graph, n: Node): (r: seq<Edge>)
    ensures forall e :: e in r ==> e.to in g.nodes && e.w > 0.0
  {
    if n in g.adjacency then Live(g, g.adjacency[n]) else []
  }

  /** Total weight of a list of edges. */
  function Degree(edges: seq<Edge>): real {
    if edges == [] then 0.0 else Degree(edges[..|edges| - 1]) + edges[|edges| - 1].w
  }

  /** Weight of the edges into one node; parallel edges add up. */
  ghost function WeightInto(edges: seq<Edge>, t: Node): real {
    if edges == [] then 0.0
    else WeightInto(edges[..|edges| - 1], t) + (if edges[|edges| - 1].to == t then edges[|edges| - 1].w else 0.0)
  }

  ghost predicate Dangling(g: Graph, n: Node) {
    Degree(OutEdges(g, n)) == 0.0
  }

  /** Probability of walking from n to t. */
  ghost function Probability(g: Graph, n: Node, t: Node): real {
    if Dangling(g, n) then 0.0 else WeightInto(OutEdges(g, n), t) / Degree(OutEdges(g, n))
  }

  function SeedMass(seeds: seq<Node>): real
    requires seeds != []
  {
    1.0 / |seeds| as real
  }

  type Scores = Node -> real

  ghost function Indicator(seeds: seq<Node>, c: real): Scores { n => if n in seeds then c else 0.0 }

  /** Where restarts go: evenly to the seeds. */
  ghost function Restarts(seeds: seq<Node>): Scores
    requires seeds != []
  {
    Indicator(seeds, SeedMass(seeds))
  }

  ghost function Into(edges: seq<Edge>): Scores { t => WeightInto(edges, t) }

  /** The transition matrix by rows and by columns. */
  ghost function Row(g: Graph, n: Node): Scores { t => Probability(g, n, t) }

  ghost function Column(g: Graph, t: Node): Scores { n => Probability(g, n, t) }

  ghost function AtDangling(g: Graph, x: Scores): Scores { n => if Dangling(g, n) then x(n) else 0.0 }

  ghost function AtWalking(g: Graph, x: Scores): Scores { n => if Dangling(g, n) then 0.0 else x(n) }

  /** What arrives at t along the edges. */
  ghost function Flow(g: Graph, x: Scores): Scores { t => Sum(g.nodes, Product(x, Column(g, t))) }

  ghost function DanglingMass(g: Graph, x: Scores): real {
    Sum(g.nodes, AtDangling(g, x))
  }

  /** One move of the walk; mass at nodes without edges restarts at the seeds. */
  ghost function Move(g: Graph, seeds: seq<Node>, x: Scores): Scores
    requires seeds != []
  {
    Plus(Flow(g, x), Scaled(DanglingMass(g, x), Restarts(seeds)))
  }

  /** Restart with probability alpha, walk otherwise. */
  ghost function Iteration(g: Graph, seeds: seq<Node>, alpha: real, x: Scores): Scores
    requires seeds != []
  {
    Plus(Scaled(alpha, Restarts(seeds)), Scaled(1.0 - alpha, Move(g, seeds, x)))
  }

  ghost function Iterate(g: Graph, seeds: seq<Node>, alpha: real, k: nat): Scores
    requires seeds != []
  {
    if k == 0 then Restarts(seeds) else Iteration(g, seeds, alpha, Iterate(g, seeds, alpha, k - 1))
  }

  // ---------------------------------------------------------------------------------------------
  // Probabilities
  // ---------------------------------------------------------------------------------------------

  lemma {:induction false} DegreePositive(edges: seq<Edge>)
    requires forall e :: e in edges ==> e.w > 0.0
    ensures Degree(edges) >= 0.0 && (Degree(edges) == 0.0 <==> edges == [])
  {
    if edges != [] {
      assert edges[|edges| - 1] in edges;
      DegreePositive(edges[..|edges| - 1]);
    }
  }

  ghost predicate HasTarget(edges: seq<Edge>, t: Node) {
    exists i :: 0 <= i < |edges| && edges[i].to == t
  }

  lemma {:induction false} WeightIntoSign(edges: seq<Edge>, t: Node)
    requires forall e :: e in edges ==> e.w > 0.0
    ensures WeightInto(edges, t) >= 0.0
    ensures WeightInto(edges, t) > 0.0 ==> HasTarget(edges, t)
  {
    if edges != [] {
      var shorter := edges[..|edges| - 1];
      assert edges[|edges| - 1] in edges;
      WeightIntoSign(shorter, t);
      if HasTarget(shorter, t) {
        var i :| 0 <= i < |shorter| && shorter[i].to == t;
        assert edges[i].to == t;
      }
    }
  }

  /** Every edge ends at exactly one node. */
  lemma {:induction false} WeightsAddUp(g: Graph, edges: seq<Edge>)
    requires Distinct(g.nodes) && forall e :: e in edges ==> e.to in g.nodes
    ensures Sum(g.nodes, Into(edges)) == Degree(edges)
  {
    if edges == [] {
      SumZero(g.nodes, Into(edges));
    } else {
      var last := edges[|edges| - 1];
      assert last in edges;
      WeightsAddUp(g, edges[..|edges| - 1]);
      SumPoint(g.nodes, last.to, last.w, Indicator([last.to], last.w));
      SumPlus(g.nodes, Into(edges[..|edges| - 1]), Indicator([last.to], last.w), Into(edges));
    }
  }

  lemma QuotientSign(a: real, b: real)
    requires a >= 0.0 && b > 0.0
    ensures a / b >= 0.0 && (a == 0.0 ==> a / b == 0.0)
  {
  }

  lemma QuotientAsProduct(a: real, d: real)
    requires d != 0.0
    ensures a / d == (1.0 / d) * a && (1.0 / d) * d == 1.0
  {
  }

  lemma ProbabilitySign(g: Graph, n: Node, t: Node)
    ensures Probability(g, n, t) >= 0.0
    ensures Probability(g, n, t) > 0.0 ==> HasTarget(OutEdges(g, n), t)
  {
    var edges := OutEdges(g, n);
    DegreePositive(edges);
    WeightIntoSign(edges, t);
    if !Dangling(g, n) { QuotientSign(WeightInto(edges, t), Degree(edges)); }
  }

  lemma ColumnNonNegative(g: Graph, t: Node)
    ensures NonNegative(Column(g, t))
  {
    forall n ensures Column(g, t)(n) >= 0.0 { ProbabilitySign(g, n, t); }
  }

  lemma RowAsScaled(g: Graph, n: Node)
    requires !Dangling(g, n)
    ensures Sum(g.nodes, Row(g, n)) == (1.0 / Degree(OutEdges(g, n))) * Sum(g.nodes, Into(OutEdges(g, n)))
  {
    hide Sum;
    var edges := OutEdges(g, n);
    var d := Degree(edges);
    forall t ensures Row(g, n)(t) == (1.0 / d) * Into(edges)(t) { QuotientAsProduct(WeightInto(edges, t), d); }
    SumScaled(g.nodes, 1.0 / d, Into(edges), Row(g, n));
  }

  lemma RowAddsUp(g: Graph, n: Node)
    requires Distinct(g.nodes)
    ensures Sum(g.nodes, Row(g, n)) == if Dangling(g, n) then 0.0 else 1.0
  {
    if Dangling(g, n) {
      SumZero(g.nodes, Row(g, n));
    } else {
      WeightsAddUp(g, OutEdges(g, n));
      RowAsScaled(g, n);
      QuotientAsProduct(1.0, Degree(OutEdges(g, n)));
    }
  }

  lemma IndicatorSplits(nodes: seq<Node>, seeds: seq<Node>, c: real)
    requires seeds != [] && Distinct(seeds)
    ensures var k := |seeds| - 1;
            Sum(nodes, Indicator(seeds, c))
              == Sum(nodes, Indicator(seeds[..k], c)) + Sum(nodes, Indicator([seeds[k]], c))
  {
    var k := |seeds| - 1;
    var s := seeds[k];
    forall t ensures Indicator(seeds, c)(t) == Indicator(seeds[..k], c)(t) + Indicator([s], c)(t) {
      assert seeds == seeds[..k] + [s];
      assert s !in seeds[..k];
    }
    SumPlus(nodes, Indicator(seeds[..k], c), Indicator([s], c), Indicator(seeds, c));
  }

  lemma {:induction false} IndicatorSum(nodes: seq<Node>, seeds: seq<Node>, c: real)
    requires Distinct(nodes) && Distinct(seeds) && forall s :: s in seeds ==> s in nodes
    ensures Sum(nodes, Indicator(seeds, c)) == |seeds| as real * c
  {
    if seeds == [] {
      SumZero(nodes, Indicator(seeds, c));
    } else {
      var k := |seeds| - 1;
      IndicatorSum(nodes, seeds[..k], c);
      SumPoint(nodes, seeds[k], c, Indicator([seeds[k]], c));
      IndicatorSplits(nodes, seeds, c);
      TimesPlus(k as real, 1.0, c);
    }
  }

  lemma RestartIsADistribution(g: Graph, seeds: seq<Node>)
    requires Prepared(g, seeds)
    ensures IsDistribution(g, Restarts(seeds))
  {
    IndicatorSum(g.nodes, seeds, SeedMass(seeds));
    QuotientSign(1.0, |seeds| as real);
    QuotientAsProduct(1.0, |seeds| as real);
  }

  // ---------------------------------------------------------------------------------------------
  // The walk
  // ---------------------------------------------------------------------------------------------

  ghost predicate IsDistribution(g: Graph, x: Scores) {
    Sum(g.nodes, x) == 1.0 && NonNegative(x)
  }

  /** The mass that leaves one node along its edges. */
  lemma OutflowOfNode(g: Graph, x: Scores, n: Node)
    requires Distinct(g.nodes)
    ensures Sum(g.nodes, Scaled(x(n), Row(g, n))) == AtWalking(g, x)(n)
  {
    RowAddsUp(g, n);
    SumOfScaled(g.nodes, x(n), Row(g, n));
    if Dangling(g, n) { TimesZero(x(n), 0.0); }
  }

  /** What flows in equals what the nodes with edges hold. */
  lemma FlowAddsUp(g: Graph, x: Scores)
    requires Distinct(g.nodes)
    ensures Sum(g.nodes, Flow(g, x)) == Sum(g.nodes, AtWalking(g, x))
  {
    hide Probability;
    forall n ensures AtWalking(g, x)(n) == Sum(g.nodes, Scaled(x(n), Row(g, n))) {
      OutflowOfNode(g, x, n);
    }
    var byRow := n => Scaled(x(n), Row(g, n));
    var byColumn := t => Product(x, Column(g, t));
    SumExchange(g.nodes, g.nodes, byRow, byColumn, AtWalking(g, x), Flow(g, x));
  }

  lemma MassSplits(g: Graph, x: Scores)
    ensures Sum(g.nodes, x) == Sum(g.nodes, AtWalking(g, x)) + DanglingMass(g, x)
  {
    SumPlus(g.nodes, AtWalking(g, x), AtDangling(g, x), x);
  }

  lemma MassOfSplit(g: Graph, f: Scores, d: real, r: Scores)
    requires Sum(g.nodes, r) == 1.0
    ensures Sum(g.nodes, Plus(f, Scaled(d, r))) == Sum(g.nodes, f) + d
  {
    SumOfScaled(g.nodes, d, r);
    SumOfPlus(g.nodes, f, Scaled(d, r));
  }

  /** The walk neither creates nor loses mass. */
  lemma MoveConservesMass(g: Graph, seeds: seq<Node>, x: Scores)
    requires Prepared(g, seeds)
    ensures Sum(g.nodes, Move(g, seeds, x)) == Sum(g.nodes, x)
  {
    RestartIsADistribution(g, seeds);
    MassOfSplit(g, Flow(g, x), DanglingMass(g, x), Restarts(seeds));
    FlowAddsUp(g, x);
    MassSplits(g, x);
  }

  lemma FlowGap(g: Graph, x: Scores, y: Scores, t: Node)
    ensures Abs(Flow(g, x)(t) - Flow(g, y)(t)) <= Flow(g, AbsOf(Minus(x, y)))(t)
  {
    ColumnNonNegative(g, t);
    WeightedTriangle(g.nodes, x, y, Column(g, t));
  }

  lemma DanglingGap(g: Graph, x: Scores, y: Scores)
    ensures Abs(DanglingMass(g, x) - DanglingMass(g, y)) <= DanglingMass(g, AbsOf(Minus(x, y)))
  {
    SumTriangle(g.nodes, AtDangling(g, x), AtDangling(g, y), AtDangling(g, AbsOf(Minus(x, y))));
  }

  lemma GapOfSums(f: real, f': real, f'': real, d: real, d': real, d'': real, r: real)
    requires Abs(f - f') <= f'' && Abs(d - d') <= d'' && r >= 0.0
    ensures Abs((f + d * r) - (f' + d' * r)) <= f'' + d'' * r
  {
    TimesMinus(d, d', r);
    AbsTimes(d - d', r);
    TimesMonotone(Abs(d - d'), d'', r);
  }

  /** Pointwise bounds on the two parts of a move bound the move. */
  lemma GapOfSplit(s: seq<Node>, f: Scores, f': Scores, f'': Scores, d: real, d': real, d'': real, r: Scores)
    requires (forall t :: Abs(f(t) - f'(t)) <= f''(t)) && Abs(d - d') <= d'' && NonNegative(r)
    ensures Distance(s, Plus(f, Scaled(d, r)), Plus(f', Scaled(d', r))) <= Sum(s, Plus(f'', Scaled(d'', r)))
  {
    hide Sum, Abs;
    var gap := AbsOf(Minus(Plus(f, Scaled(d, r)), Plus(f', Scaled(d', r))));
    forall t ensures gap(t) <= Plus(f'', Scaled(d'', r))(t) {
      assert Abs(f(t) - f'(t)) <= f''(t) && r(t) >= 0.0;
      GapOfSums(f(t), f'(t), f''(t), d, d', d'', r(t));
      assert gap(t) == Abs((f(t) + d * r(t)) - (f'(t) + d' * r(t)));
    }
    SumLessEqual(s, gap, Plus(f'', Scaled(d'', r)));
  }

  /** A move does not increase the distance. */
  lemma MoveDoesNotExpand(g: Graph, seeds: seq<Node>, x: Scores, y: Scores)
    requires Prepared(g, seeds)
    ensures Distance(g.nodes, Move(g, seeds, x), Move(g, seeds, y)) <= Distance(g.nodes, x, y)
  {
    var gap := AbsOf(Minus(x, y));
    forall t ensures Abs(Flow(g, x)(t) - Flow(g, y)(t)) <= Flow(g, gap)(t) { FlowGap(g, x, y, t); }
    DanglingGap(g, x, y);
    RestartIsADistribution(g, seeds);
    GapOfSplit(g.nodes, Flow(g, x), Flow(g, y), Flow(g, gap), DanglingMass(g, x), DanglingMass(g, y),
               DanglingMass(g, gap), Restarts(seeds));
    MoveConservesMass(g, seeds, gap);
  }

  /** One iteration contracts the L1 distance by the walk probability, on any graph. */
  lemma IterationContracts(g: Graph, seeds: seq<Node>, alpha: real, x: Scores, y: Scores)
    requires Prepared(g, seeds) && 0.0 <= alpha <= 1.0
    ensures Distance(g.nodes, Iteration(g, seeds, alpha, x),
                     Iteration(g, seeds, alpha, y)) <= (1.0 - alpha) * Distance(g.nodes, x, y)
  {
    DistanceOfAffine(g.nodes, Scaled(alpha, Restarts(seeds)), 1.0 - alpha, Move(g, seeds, x), Move(g, seeds, y));
    MoveDoesNotExpand(g, seeds, x, y);
    TimesMonotone(Distance(g.nodes, Move(g, seeds, x), Move(g, seeds, y)), Distance(g.nodes, x, y), 1.0 - alpha);
  }

  // ---------------------------------------------------------------------------------------------
  // The iterates
  // ---------------------------------------------------------------------------------------------

  lemma FlowNonNegative(g: Graph, x: Scores)
    requires NonNegative(x)
    ensures NonNegative(Flow(g, x))
  {
    forall t ensures Flow(g, x)(t) >= 0.0 {
      ColumnNonNegative(g, t);
      ProductNonNegative(x, Column(g, t));
      SumNonNegative(g.nodes, Product(x, Column(g, t)));
    }
  }

  lemma AffineNonNegative(a: Scores, c: real, x: Scores)
    requires NonNegative(a) && c >= 0.0 && NonNegative(x)
    ensures NonNegative(Plus(a, Scaled(c, x))) && forall n :: a(n) <= Plus(a, Scaled(c, x))(n)
  {
    forall n ensures 0.0 <= a(n) <= Plus(a, Scaled(c, x))(n) { TimesMonotone(0.0, x(n), c); }
  }

  lemma ScaledNonNegative(c: real, x: Scores)
    requires c >= 0.0 && NonNegative(x)
    ensures NonNegative(Scaled(c, x))
  {
    forall n ensures Scaled(c, x)(n) >= 0.0 { TimesMonotone(0.0, x(n), c); }
  }

  lemma MoveKeepsDistribution(g: Graph, seeds: seq<Node>, x: Scores)
    requires Prepared(g, seeds) && IsDistribution(g, x)
    ensures IsDistribution(g, Move(g, seeds, x))
  {
    MoveConservesMass(g, seeds, x);
    FlowNonNegative(g, x);
    SumNonNegative(g.nodes, AtDangling(g, x));
    RestartIsADistribution(g, seeds);
    AffineNonNegative(Flow(g, x), DanglingMass(g, x), Restarts(seeds));
  }

  lemma MassOfMixture(g: Graph, alpha: real, x: Scores, y: Scores)
    requires Sum(g.nodes, x) == 1.0 && Sum(g.nodes, y) == 1.0
    ensures Sum(g.nodes, Plus(Scaled(alpha, x), Scaled(1.0 - alpha, y))) == 1.0
  {
    SumOfScaled(g.nodes, alpha, x);
    MassOfSplit(g, Scaled(alpha, x), 1.0 - alpha, y);
  }

  /** An iteration of a distribution is a distribution, and keeps alpha / |seeds| at every seed. */
  lemma IterationKeepsDistribution(g: Graph, seeds: seq<Node>, alpha: real, x: Scores)
    requires Prepared(g, seeds) && 0.0 <= alpha <= 1.0 && IsDistribution(g, x)
    ensures IsDistribution(g, Iteration(g, seeds, alpha, x))
    ensures forall n :: Scaled(alpha, Restarts(seeds))(n) <= Iteration(g, seeds, alpha, x)(n)
  {
    RestartIsADistribution(g, seeds);
    MoveKeepsDistribution(g, seeds, x);
    MassOfMixture(g, alpha, Restarts(seeds), Move(g, seeds, x));
    ScaledNonNegative(alpha, Restarts(seeds));
    AffineNonNegative(Scaled(alpha, Restarts(seeds)), 1.0 - alpha, Move(g, seeds, x));
  }

  /** After every iteration the scores are non-negative, sum to one, and favour the seeds. */
  lemma {:induction false} IteratesAreDistributions(g: Graph, seeds: seq<Node>, alpha: real, k: nat)
    requires Prepared(g, seeds) && 0.0 <= alpha <= 1.0
    ensures IsDistribution(g, Iterate(g, seeds, alpha, k))
    ensures forall s :: s in seeds ==> Iterate(g, seeds, alpha, k)(s) >= alpha * SeedMass(seeds)
  {
    hide Sum, Move;
    if k == 0 {
      RestartIsADistribution(g, seeds);
      QuotientSign(1.0, |seeds| as real);
      TimesMonotone(alpha, 1.0, SeedMass(seeds));
    } else {
      var x := Iterate(g, seeds, alpha, k - 1);
      IteratesAreDistributions(g, seeds, alpha, k - 1);
      IterationKeepsDistribution(g, seeds, alpha, x);
      forall s | s in seeds ensures Iterate(g, seeds, alpha, k)(s) >= alpha * SeedMass(seeds) {
        assert Scaled(alpha, Restarts(seeds))(s) <= Iteration(g, seeds, alpha, x)(s);
      }
    }
  }

  ghost predicate HasEdge(g: Graph, n: Node, t: Node) {
    n in g.nodes && HasTarget(OutEdges(g, n), t)
  }

  /** A walk along counted edges from a seed. */
  ghost predicate IsWalk(g: Graph, seeds: seq<Node>, path: seq<Node>) {
    path != [] && path[0] in seeds && forall i :: 0 <= i < |path| - 1 ==> HasEdge(g, path[i], path[i + 1])
  }

  ghost predicate Reachable(g: Graph, seeds: seq<Node>, n: Node) {
    exists path :: IsWalk(g, seeds, path) && path[|path| - 1] == n
  }

  lemma ReachableExtends(g: Graph, seeds: seq<Node>, n: Node, t: Node)
    requires Reachable(g, seeds, n) && HasEdge(g, n, t)
    ensures Reachable(g, seeds, t)
  {
    var path :| IsWalk(g, seeds, path) && path[|path| - 1] == n;
    var longer := path + [t];
    forall i | 0 <= i < |longer| - 1 ensures HasEdge(g, longer[i], longer[i + 1]) {
      if i < |path| - 1 { assert HasEdge(g, path[i], path[i + 1]); }
    }
    assert IsWalk(g, seeds, longer) && longer[|longer| - 1] == t;
  }

  lemma SeedsAreReachable(g: Graph, seeds: seq<Node>)
    ensures forall s :: s in seeds ==> Reachable(g, seeds, s)
  {
    forall s | s in seeds ensures Reachable(g, seeds, s) {
      assert IsWalk(g, seeds, [s]) && [s][|[s]| - 1] == s;
    }
  }

  /** If only reachable nodes score, no walking step leads to an unreachable one. */
  lemma NoStepOut(g: Graph, seeds: seq<Node>, x: Scores, t: Node)
    requires !Reachable(g, seeds, t) && forall n :: !Reachable(g, seeds, n) ==> x(n) == 0.0
    ensures forall n :: n in g.nodes ==> x(n) == 0.0 || Probability(g, n, t) == 0.0
  {
    hide Probability, Reachable, HasTarget;
    forall n | n in g.nodes ensures x(n) == 0.0 || Probability(g, n, t) == 0.0 {
      ProbabilitySign(g, n, t);
      if HasEdge(g, n, t) && Reachable(g, seeds, n) { ReachableExtends(g, seeds, n, t); }
    }
  }

  /** A node that no walk from a seed reaches keeps score zero. */
  lemma {:induction false} UnreachableScoresZero(g: Graph, seeds: seq<Node>, alpha: real, k: nat, t: Node)
    requires Prepared(g, seeds) && !Reachable(g, seeds, t)
    ensures Iterate(g, seeds, alpha, k)(t) == 0.0
  {
    hide Reachable, Iteration;
    SeedsAreReachable(g, seeds);
    if k > 0 {
      var x := Iterate(g, seeds, alpha, k - 1);
      forall n | !Reachable(g, seeds, n) ensures x(n) == 0.0 { UnreachableScoresZero(g, seeds, alpha, k - 1, n); }
      NoStepOut(g, seeds, x, t);
      NothingMoves(g, seeds, alpha, x, t);
    }
  }

  lemma NothingMoves(g: Graph, seeds: seq<Node>, alpha: real, x: Scores, t: Node)
    requires seeds != [] && t !in seeds && forall n :: n in g.nodes ==> x(n) == 0.0 || Probability(g, n, t) == 0.0
    ensures Iteration(g, seeds, alpha, x)(t) == 0.0
  {
    hide Sum, Probability;
    NothingFlows(g, x, t);
    NothingArrives(alpha, Flow(g, x), DanglingMass(g, x), Restarts(seeds), t);
  }

  lemma NothingFlows(g: Graph, x: Scores, t: Node)
    requires forall n :: n in g.nodes ==> x(n) == 0.0 || Probability(g, n, t) == 0.0
    ensures Flow(g, x)(t) == 0.0
  {
    forall n | n in g.nodes ensures Product(x, Column(g, t))(n) == 0.0 { TimesZero(x(n), Probability(g, n, t)); }
    SumZero(g.nodes, Product(x, Column(g, t)));
  }

  lemma NothingArrives(alpha: real, f: Scores, d: real, r: Scores, t: Node)
    requires f(t) == 0.0 && r(t) == 0.0
    ensures Plus(Scaled(alpha, r), Scaled(1.0 - alpha, Plus(f, Scaled(d, r))))(t) == 0.0
  {
    TimesZero(d, r(t));
    TimesZero(alpha, r(t));
    TimesZero(1.0 - alpha, Plus(f, Scaled(d, r))(t));
  }

  // ---------------------------------------------------------------------------------------------
  // Convergence
  // ---------------------------------------------------------------------------------------------

  ghost function Power(b: real, k: nat): real {
    if k == 0 then 1.0 else b * Power(b, k - 1)
  }

  /** How far the k-th iteration moved the scores. */
  ghost function Delta(g: Graph, seeds: seq<Node>, alpha: real, k: nat): real
    requires seeds != [] && k > 0
  {
    Distance(g.nodes, Iterate(g, seeds, alpha, k), Iterate(g, seeds, alpha, k - 1))
  }

  /** The first move: the restart vector is its own image but for the walking part. */
  lemma FirstDelta(g: Graph, seeds: seq<Node>, alpha: real)
    requires Prepared(g, seeds) && 0.0 <= alpha <= 1.0
    ensures Delta(g, seeds, alpha, 1) <= (1.0 - alpha) * 2.0
  {
    var r := Restarts(seeds);
    var moved := Move(g, seeds, r);
    RestartIsADistribution(g, seeds);
    MoveKeepsDistribution(g, seeds, r);
    DistanceOfNonNegative(g.nodes, moved, r);
    DistanceOfMixture(g.nodes, alpha, r, moved);
    TimesMonotone(Distance(g.nodes, moved, r), 2.0, 1.0 - alpha);
    FirstIterates(g, seeds, alpha);
  }

  lemma FirstIterates(g: Graph, seeds: seq<Node>, alpha: real)
    requires seeds != []
    ensures Iterate(g, seeds, alpha, 0) == Restarts(seeds)
    ensures Iterate(g, seeds, alpha, 1) == Iteration(g, seeds, alpha, Restarts(seeds))
  {
  }

  lemma DeltaContracts(g: Graph, seeds: seq<Node>, alpha: real, k: nat)
    requires Prepared(g, seeds) && 0.0 <= alpha <= 1.0 && k > 0
    ensures Delta(g, seeds, alpha, k + 1) <= (1.0 - alpha) * Delta(g, seeds, alpha, k)
  {
    hide Sum, Abs;
    IterationContracts(g, seeds, alpha, Iterate(g, seeds, alpha, k), Iterate(g, seeds, alpha, k - 1));
  }

  lemma PowerStep(walk: real, a: real, b: real, k: nat)
    requires a <= walk * b && b <= 2.0 * Power(walk, k) && walk >= 0.0
    ensures a <= 2.0 * Power(walk, k + 1)
  {
    TimesMonotone(b, 2.0 * Power(walk, k), walk);
    Swap(walk, 2.0, Power(walk, k));
  }

  /** The k-th move is at most 2 (1 - alpha)^k: geometric convergence. */
  lemma {:induction false} DeltasShrink(g: Graph, seeds: seq<Node>, alpha: real, k: nat)
    requires Prepared(g, seeds) && 0.0 <= alpha <= 1.0 && k > 0
    ensures Delta(g, seeds, alpha, k) <= 2.0 * Power(1.0 - alpha, k)
  {
    if k == 1 {
      FirstDelta(g, seeds, alpha);
      assert Power(1.0 - alpha, 1) == (1.0 - alpha) * Power(1.0 - alpha, 0);
    } else {
      DeltasShrink(g, seeds, alpha, k - 1);
      DeltaContracts(g, seeds, alpha, k - 1);
      PowerStep(1.0 - alpha, Delta(g, seeds, alpha, k), Delta(g, seeds, alpha, k - 1), k - 1);
    }
  }

  /** No later iterate is farther away than delta (1 - alpha) / alpha. */
  lemma {:induction false} LaterIteratesStayClose(g: Graph, seeds: seq<Node>, alpha: real, k: nat, m: nat)
    requires Prepared(g, seeds) && 0.0 < alpha <= 1.0 && k > 0
    ensures alpha * Distance(g.nodes, Iterate(g, seeds, alpha, k + m),
                             Iterate(g, seeds, alpha, k)) <= (1.0 - alpha) * Delta(g, seeds, alpha, k)
  {
    hide Sum, Move, Distance;
    var x := Iterate(g, seeds, alpha, k);
    var delta := Delta(g, seeds, alpha, k);
    if m == 0 {
      DistanceTriangle(g.nodes, x, Iterate(g, seeds, alpha, k - 1), x);
      DistanceToItself(g.nodes, x);
      TimesMonotone(0.0, delta, 1.0 - alpha);
      TimesZero(alpha, 0.0);
    } else {
      var y := Iterate(g, seeds, alpha, k + m - 1);
      var z := Iterate(g, seeds, alpha, k + m);
      LaterIteratesStayClose(g, seeds, alpha, k, m - 1);
      IterationContracts(g, seeds, alpha, y, x);
      DeltaContracts(g, seeds, alpha, k);
      DistanceTriangle(g.nodes, z, Iterate(g, seeds, alpha, k + 1), x);
      GeometricStep(alpha, Distance(g.nodes, z, x), Distance(g.nodes, y, x), delta);
    }
  }

  /** alpha far <= alpha (n + d) = walk (alpha near) + alpha d <= walk d + alpha d = d. */
  lemma GeometricStep(alpha: real, far: real, near: real, delta: real)
    requires 0.0 < alpha <= 1.0 && far <= (1.0 - alpha) * near + (1.0 - alpha) * delta
    requires alpha * near <= (1.0 - alpha) * delta
    ensures alpha * far <= (1.0 - alpha) * delta
  {
    var walk := 1.0 - alpha;
    var n, d := walk * near, walk * delta;
    assert alpha * far <= alpha * n + alpha * d by {
      TimesMonotone(far, n + d, alpha);
      TimesPlus(n, d, alpha);
    }
    assert alpha * n <= walk * d by {
      Swap(alpha, walk, near);
      TimesMonotone(alpha * near, d, walk);
    }
    assert walk * d + alpha * d == d by { TimesPlus(walk, alpha, d); }
  }

  lemma Swap(a: real, b: real, c: real)
    ensures a * (b * c) == b * (a * c)
  {
  }

  /** Scores that an iteration leaves alone. */
  ghost predicate IsFixpoint(g: Graph, seeds: seq<Node>, alpha: real, x: Scores)
    requires seeds != []
  {
    Distance(g.nodes, Iteration(g, seeds, alpha, x), x) == 0.0
  }

  /** The k-th iterate lies within delta (1 - alpha) / alpha of every fixpoint. */
  lemma CloseToFixpoint(g: Graph, seeds: seq<Node>, alpha: real, k: nat, x: Scores)
    requires Prepared(g, seeds) && 0.0 < alpha <= 1.0 && k > 0 && IsFixpoint(g, seeds, alpha, x)
    ensures alpha * Distance(g.nodes, Iterate(g, seeds, alpha, k), x) <= (1.0 - alpha) * Delta(g, seeds, alpha, k)
  {
    hide Sum;
    var y, z := Iterate(g, seeds, alpha, k), Iterate(g, seeds, alpha, k - 1);
    IterationContracts(g, seeds, alpha, z, x);
    DistanceTriangle(g.nodes, y, Iteration(g, seeds, alpha, x), x);
    DistanceTriangle(g.nodes, z, y, x);
    DistanceSymmetric(g.nodes, z, y);
    FixpointStep(alpha, Distance(g.nodes, y, x), Distance(g.nodes, z, x), Distance(g.nodes, y, z));
  }

  lemma FixpointStep(alpha: real, here: real, before: real, delta: real)
    requires 0.0 < alpha <= 1.0 && here <= (1.0 - alpha) * before && before <= delta + here
    ensures alpha * here <= (1.0 - alpha) * delta
  {
    var walk := 1.0 - alpha;
    TimesMonotone(before, delta + here, walk);
    TimesPlus(delta, here, walk);
    TimesPlus(walk, alpha, here);
  }

  /** With a positive restart probability there is at most one fixpoint. */
  lemma FixpointIsUnique(g: Graph, seeds: seq<Node>, alpha: real, x: Scores, y: Scores)
    requires Prepared(g, seeds) && 0.0 < alpha <= 1.0 && IsFixpoint(g, seeds, alpha, x)
    requires IsFixpoint(g, seeds, alpha, y)
    ensures Distance(g.nodes, x, y) == 0.0
  {
    var u, v := Iteration(g, seeds, alpha, x), Iteration(g, seeds, alpha, y);
    IterationContracts(g, seeds, alpha, x, y);
    DistanceTriangle(g.nodes, x, u, y);
    DistanceTriangle(g.nodes, u, v, y);
    DistanceSymmetric(g.nodes, x, u);
    DistanceTriangle(g.nodes, x, y, y);
    OnlyZeroContracts(alpha, Distance(g.nodes, x, y));
  }

  lemma OnlyZeroContracts(alpha: real, d: real)
    requires 0.0 < alpha <= 1.0 && 0.0 <= d <= (1.0 - alpha) * d
    ensures d == 0.0
  {
    TimesPlus(1.0 - alpha, alpha, d);
    assert alpha * d <= 0.0;
  }
}
