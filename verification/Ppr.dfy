/**
  The PageRank loop as it runs: score maps rebuilt edge by edge, stopped by the iteration limit or the
  tolerance, and proved to compute the iterates of `PprTheory`.
 */
module Ppr {
  import opened Base
  import opened Sums
  import opened Vectors
  import opened PprTheory

  type ScoreMap = map<Node, real>

  /** A score map read as a vector; absent names count as zero. */
  function Read(m: ScoreMap): Scores {
    n => if n in m then m[n] else 0.0
  }

  /** `[...new Set(names)]`: first occurrences, in order. */
  function Deduplicated(names: seq<Node>): (r: seq<Node>)
    ensures Distinct(r) && forall n :: n in r <==> n in names
  {
    if names == [] then []
    else
      var k := |names| - 1;
      var shorter := Deduplicated(names[..k]);
      if names[k] in names[..k] then shorter else shorter + [names[k]]
  }

  /** `filter((seed) => nodeSet.has(seed))`. */
  function Among(names: seq<Node>, nodes: seq<Node>): (r: seq<Node>)
    requires Distinct(names)
    ensures Distinct(r) && forall n :: n in r <==> n in names && n in nodes
  {
    if names == [] then []
    else
      var k := |names| - 1;
      var shorter := Among(names[..k], nodes);
      if names[k] in nodes then shorter + [names[k]] else shorter
  }

  function Clamp(x: real, low: real, high: real): real {
    if x < low then low else if x > high then high else x
  }

  /** What edges of this total weight carry away from a node. */
  function Share(walk: real, mass: real, weight: real, degree: real): real
    requires degree != 0.0
  {
    walk * mass * weight / degree
  }

  lemma SharesAddUp(walk: real, mass: real, v: real, w: real, degree: real)
    requires degree != 0.0
    ensures Share(walk, mass, v + w, degree) == Share(walk, mass, v, degree) + Share(walk, mass, w, degree)
    ensures Share(walk, mass, 0.0, degree) == 0.0
  {
    var c := walk * mass;
    TimesPlus(v, w, c);
    QuotientAsProduct(c * v, degree);
    QuotientAsProduct(c * w, degree);
    QuotientAsProduct(c * v + c * w, degree);
    TimesPlus(c * v, c * w, 1.0 / degree);
  }

  lemma ShareAsProduct(walk: real, mass: real, weight: real, degree: real)
    requires degree != 0.0
    ensures Share(walk, mass, weight, degree) == walk * (mass * (weight / degree))
  {
    QuotientAsProduct(walk * mass * weight, degree);
    QuotientAsProduct(weight, degree);
    ThreeFactors(walk, mass, weight, 1.0 / degree);
  }

  lemma ThreeFactors(a: real, b: real, c: real, d: real)
    ensures d * (a * b * c) == a * (b * (d * c))
  {
  }

  /** The inner loop: one node hands its walking mass out along its edges. */
  method Distribute(edges: seq<Edge>, walk: real, mass: real, degree: real, start: ScoreMap) returns (next: ScoreMap)
    requires degree != 0.0 && forall e :: e in edges ==> e.to in start
    ensures next.Keys == start.Keys
    ensures forall t :: t in next ==> next[t] == start[t] + Share(walk, mass, WeightInto(edges, t), degree)
  {
    hide Share;
    next := start;
    SharesAddUp(walk, mass, 0.0, 0.0, degree);
    for j := 0 to |edges|
      invariant next.Keys == start.Keys
      invariant forall t :: t in next ==> next[t] == start[t] + Share(walk, mass, WeightInto(edges[..j], t), degree)
    {
      var e := edges[j];
      assert edges[..j + 1][..j] == edges[..j];
      SharesAddUp(walk, mass, WeightInto(edges[..j], e.to), e.w, degree);
      next := next[e.to := next[e.to] + Share(walk, mass, e.w, degree)];
    }
    assert edges[..|edges|] == edges;
  }

  /** `edges.reduce((sum, edge) => sum + edge.w, 0)`. */
  method TotalWeight(edges: seq<Edge>) returns (degree: real)
    ensures degree == Degree(edges)
  {
    degree := 0.0;
    for j := 0 to |edges|
      invariant degree == Degree(edges[..j])
    {
      assert edges[..j + 1][..j] == edges[..j];
      degree := degree + edges[j].w;
    }
    assert edges[..|edges|] == edges;
  }

  /** Taking one more node into account. */
  lemma OneMoreNode(g: Graph, nodes: seq<Node>, n: Node, x: Scores, t: Node)
    ensures Sum(nodes + [n], Product(x, Column(g, t)))
            == Sum(nodes, Product(x, Column(g, t))) + x(n) * Probability(g, n, t)
    ensures Sum(nodes + [n], AtDangling(g, x)) == Sum(nodes, AtDangling(g, x)) + if Dangling(g, n) then x(n) else 0.0
  {
    hide Probability, Dangling;
    assert (nodes + [n])[..|nodes|] == nodes;
  }

  /** What the loop over the nodes has built after the first of them. */
  ghost predicate Built(g: Graph, nodes: seq<Node>, walk: real, base: ScoreMap, x: Scores, next: ScoreMap,
                        dangling: real) {
    && next.Keys == base.Keys
    && (forall t :: t in next ==> next[t] == base[t] + walk * Sum(nodes, Product(x, Column(g, t))))
    && dangling == Sum(nodes, AtDangling(g, x))
  }

  lemma BuiltDangling(g: Graph, nodes: seq<Node>, n: Node, walk: real, base: ScoreMap, x: Scores, next: ScoreMap,
                      dangling: real)
    requires Built(g, nodes, walk, base, x, next, dangling) && Dangling(g, n)
    ensures Built(g, nodes + [n], walk, base, x, next, dangling + x(n))
  {
    hide Sum, Degree;
    forall t | t in next ensures next[t] == base[t] + walk * Sum(nodes + [n], Product(x, Column(g, t))) {
      OneMoreNode(g, nodes, n, x, t);
      TimesZero(x(n), Probability(g, n, t));
    }
    OneMoreNode(g, nodes, n, x, n);
  }

  lemma BuiltWalking(g: Graph, nodes: seq<Node>, n: Node, walk: real, base: ScoreMap, x: Scores, next: ScoreMap,
                     dangling: real, next': ScoreMap)
    requires Built(g, nodes, walk, base, x, next, dangling) && !Dangling(g, n)
    requires next'.Keys == next.Keys
    requires forall t :: t in next'
               ==> next'[t] == next[t] + Share(walk, x(n), WeightInto(OutEdges(g, n), t), Degree(OutEdges(g, n)))
    ensures Built(g, nodes + [n], walk, base, x, next', dangling)
  {
    hide Sum, Degree, Share, WeightInto;
    forall t | t in next' ensures next'[t] == base[t] + walk * Sum(nodes + [n], Product(x, Column(g, t))) {
      OneMoreNode(g, nodes, n, x, t);
      ShareAsProduct(walk, x(n), WeightInto(OutEdges(g, n), t), Degree(OutEdges(g, n)));
      TimesPlus(Sum(nodes, Product(x, Column(g, t))), x(n) * Probability(g, n, t), walk);
    }
    OneMoreNode(g, nodes, n, x, n);
  }

  /** The loop over the nodes of one iteration. */
  method WalkStep(g: Graph, walk: real, scores: ScoreMap, base: ScoreMap) returns (next: ScoreMap, dangling: real)
    requires forall n :: n in g.nodes <==> n in base
    requires base.Keys == scores.Keys
    ensures Built(g, g.nodes, walk, base, Read(scores), next, dangling)
  {
    hide Degree, Share, WeightInto, Built;
    next, dangling := base, 0.0;
    assert Built(g, g.nodes[..0], walk, base, Read(scores), next, dangling) by {
      NothingBuilt(g, walk, base, Read(scores));
    }
    for i := 0 to |g.nodes|
      invariant next.Keys == base.Keys
      invariant Built(g, g.nodes[..i], walk, base, Read(scores), next, dangling)
    {
      var n := g.nodes[i];
      var mass := scores[n];
      var edges := OutEdges(g, n);
      var degree := TotalWeight(edges);
      assert g.nodes[..i + 1] == g.nodes[..i] + [n];
      if degree == 0.0 {
        BuiltDangling(g, g.nodes[..i], n, walk, base, Read(scores), next, dangling);
        dangling := dangling + mass;
      } else {
        var handed := Distribute(edges, walk, mass, degree, next);
        BuiltWalking(g, g.nodes[..i], n, walk, base, Read(scores), next, dangling, handed);
        next := handed;
      }
    }
    assert g.nodes[..|g.nodes|] == g.nodes;
  }

  lemma NothingBuilt(g: Graph, walk: real, base: ScoreMap, x: Scores)
    ensures Built(g, g.nodes[..0], walk, base, x, base, 0.0)
  {
    forall t | t in base ensures base[t] == base[t] + walk * Sum(g.nodes[..0], Product(x, Column(g, t))) {
      TimesZero(walk, Sum(g.nodes[..0], Product(x, Column(g, t))));
    }
  }

  /** The dangling mass goes back to the seeds. */
  method ReturnDangling(seeds: seq<Node>, amount: real, start: ScoreMap) returns (next: ScoreMap)
    requires Distinct(seeds) && forall s :: s in seeds ==> s in start
    ensures next.Keys == start.Keys
    ensures forall t :: t in next ==> next[t] == start[t] + if t in seeds then amount else 0.0
  {
    next := start;
    for i := 0 to |seeds|
      invariant next.Keys == start.Keys
      invariant forall t :: t in next ==> next[t] == start[t] + if t in seeds[..i] then amount else 0.0
    {
      next := next[seeds[i] := next[seeds[i]] + amount];
    }
  }

  /** `nodes.reduce((sum, node) => sum + Math.abs(next - scores), 0)`. */
  method Change(nodes: seq<Node>, next: ScoreMap, scores: ScoreMap) returns (delta: real)
    requires forall n :: n in nodes ==> n in next && n in scores
    ensures delta == Distance(nodes, Read(next), Read(scores))
  {
    delta := 0.0;
    for i := 0 to |nodes|
      invariant delta == Sum(nodes[..i], AbsOf(Minus(Read(next), Read(scores))))
    {
      var n := nodes[i];
      var d := next[n] - scores[n];
      assert nodes[..i + 1][..i] == nodes[..i];
      delta := delta + if d < 0.0 then -d else d;
    }
    assert nodes[..|nodes|] == nodes;
  }

  /** The walk sees scores only at the nodes. */
  lemma IterationAgrees(g: Graph, seeds: seq<Node>, alpha: real, x: Scores, y: Scores, t: Node)
    requires seeds != [] && forall n :: n in g.nodes ==> x(n) == y(n)
    ensures Iteration(g, seeds, alpha, x)(t) == Iteration(g, seeds, alpha, y)(t)
  {
    hide Sum, Probability;
    SumEqual(g.nodes, Product(x, Column(g, t)), Product(y, Column(g, t)));
    SumEqual(g.nodes, AtDangling(g, x), AtDangling(g, y));
  }

  lemma PutTogether(alpha: real, r: real, walk: real, f: real, d: real, mass: real)
    requires r == mass || r == 0.0
    ensures alpha * r + walk * f + (if r == mass then walk * d * mass else 0.0) == alpha * r + walk * (f + d * r)
  {
    TimesPlus(f, d * r, walk);
    if r == mass { assert walk * d * mass == walk * (d * mass); } else { TimesZero(d, r); TimesZero(walk, d * r); }
  }

  /** The three stages of an iteration add up to `Iteration`. */
  lemma StagesAddUp(g: Graph, seeds: seq<Node>, alpha: real, x: Scores, base: ScoreMap, built: ScoreMap, dangling: real,
                    next: ScoreMap, t: Node)
    requires Prepared(g, seeds) && Built(g, g.nodes, 1.0 - alpha, base, x, built, dangling)
    requires t in base && base[t] == alpha * Restarts(seeds)(t) && t in next
    requires next[t] == built[t] + if t in seeds then (1.0 - alpha) * dangling * SeedMass(seeds) else 0.0
    ensures next[t] == Iteration(g, seeds, alpha, x)(t)
  {
    hide Sum;
    var c := SeedMass(seeds);
    assert c > 0.0;
    PutTogether(alpha, Restarts(seeds)(t), 1.0 - alpha, Flow(g, x)(t), dangling, c);
  }

  /** `alpha * (restart.get(node) ?? 0)` for every node. */
  function RestartPart(seeds: seq<Node>, alpha: real, scores: ScoreMap): (base: ScoreMap)
    requires seeds != []
  {
    var seedMass := 1.0 / |seeds| as real;
    map t | t in scores :: alpha * if t in seeds then seedMass else 0.0
  }

  lemma RestartPartIs(seeds: seq<Node>, alpha: real, scores: ScoreMap)
    requires seeds != []
    ensures RestartPart(seeds, alpha, scores).Keys == scores.Keys
    ensures forall t :: t in scores ==> RestartPart(seeds, alpha, scores)[t] == alpha * Restarts(seeds)(t)
  {
  }

  /** One pass of the outer loop. */
  method Iterated(g: Graph, seeds: seq<Node>, alpha: real, scores: ScoreMap) returns (next: ScoreMap)
    requires Prepared(g, seeds) && scores.Keys == Elements(g.nodes)
    ensures next.Keys == scores.Keys
    ensures forall t :: t in next ==> next[t] == Iteration(g, seeds, alpha, Read(scores))(t)
  {
    hide Sum, Iteration, Built, Restarts, RestartPart, SeedMass;
    var base := RestartPart(seeds, alpha, scores);
    RestartPartIs(seeds, alpha, scores);
    var built, dangling := WalkStep(g, 1.0 - alpha, scores, base);
    BuiltKeys(g, 1.0 - alpha, base, Read(scores), built, dangling);
    var seedMass := SeedMass(seeds);
    next := ReturnDangling(seeds, (1.0 - alpha) * dangling * seedMass, built);
    forall t | t in next ensures next[t] == Iteration(g, seeds, alpha, Read(scores))(t) {
      StagesAddUp(g, seeds, alpha, Read(scores), base, built, dangling, next, t);
    }
  }

  lemma BuiltKeys(g: Graph, walk: real, base: ScoreMap, x: Scores, next: ScoreMap, dangling: real)
    requires Built(g, g.nodes, walk, base, x, next, dangling)
    ensures next.Keys == base.Keys
  {
  }

  lemma RestartsAre(seeds: seq<Node>)
    requires seeds != []
    ensures forall t :: Restarts(seeds)(t) == if t in seeds then 1.0 / |seeds| as real else 0.0
  {
  }

  /** The map holds the k-th iterate at every node, and nothing else. */
  ghost predicate Holds(g: Graph, seeds: seq<Node>, alpha: real, k: nat, scores: ScoreMap)
    requires seeds != []
  {
    scores.Keys == Elements(g.nodes) && forall n :: n in scores ==> scores[n] == Iterate(g, seeds, alpha, k)(n)
  }

  lemma NextHolds(g: Graph, seeds: seq<Node>, alpha: real, k: nat, scores: ScoreMap, next: ScoreMap)
    requires Prepared(g, seeds) && Holds(g, seeds, alpha, k, scores) && next.Keys == scores.Keys
    requires forall t :: t in next ==> next[t] == Iteration(g, seeds, alpha, Read(scores))(t)
    ensures Holds(g, seeds, alpha, k + 1, next)
    ensures Distance(g.nodes, Read(next), Read(scores)) == Delta(g, seeds, alpha, k + 1)
  {
    hide Sum, Iteration, Abs;
    forall n | n in next ensures next[n] == Iterate(g, seeds, alpha, k + 1)(n) {
      IterationAgrees(g, seeds, alpha, Read(scores), Iterate(g, seeds, alpha, k), n);
    }
    SameGaps(g.nodes, Read(next), Iterate(g, seeds, alpha, k + 1), Read(scores), Iterate(g, seeds, alpha, k));
  }

  lemma SameGaps(nodes: seq<Node>, x: Scores, x': Scores, y: Scores, y': Scores)
    requires forall n :: n in nodes ==> x(n) == x'(n) && y(n) == y'(n)
    ensures Distance(nodes, x, y) == Distance(nodes, x', y')
  {
    SumEqual(nodes, AbsOf(Minus(x, y)), AbsOf(Minus(x', y')));
  }

  /**
    The loop stops after the first iterate whose change is below the tolerance, or at the limit if no earlier one is.
   */
  ghost predicate StopsAt(g: Graph, seeds: seq<Node>, alpha: real, limit: nat, tol: real, k: nat)
    requires seeds != []
  {
    1 <= k <= limit && GoesOn(g, seeds, alpha, tol, k) && (k == limit || Delta(g, seeds, alpha, k) < tol)
  }

  /** No change before the k-th was below the tolerance. */
  ghost predicate GoesOn(g: Graph, seeds: seq<Node>, alpha: real, tol: real, k: nat)
    requires seeds != []
  {
    forall j: nat :: 1 <= j < k ==> Delta(g, seeds, alpha, j) >= tol
  }

  ghost predicate IsResult(g: Graph, seeds: seq<Node>, alpha: real, limit: nat, tol: real, scores: ScoreMap)
    requires seeds != []
  {
    exists k: nat :: StopsAt(g, seeds, alpha, limit, tol, k) && Holds(g, seeds, alpha, k, scores)
  }

  /** The outer loop: iterate up to the limit, or until the change falls below the tolerance. */
  method IterateUntil(g: Graph, seeds: seq<Node>, alpha: real, maxIter: nat, tol: real) returns (scores: ScoreMap)
    requires Prepared(g, seeds) && maxIter > 0
    ensures IsResult(g, seeds, alpha, maxIter, tol, scores)
  {
    var seedMass := 1.0 / |seeds| as real;
    hide Sum, Iteration, Holds, Delta, Distance, Prepared, GoesOn;
    scores := map n | n in g.nodes :: if n in seeds then seedMass else 0.0;
    StartHolds(g, seeds, alpha, scores);
    var iteration := 0;
    var delta := tol;
    while iteration < maxIter
      invariant 0 <= iteration <= maxIter
      invariant Holds(g, seeds, alpha, iteration, scores)
      invariant iteration > 0 ==> GoesOn(g, seeds, alpha, tol, iteration) && Delta(g, seeds, alpha, iteration) >= tol
    {
      OneMoreRound(g, seeds, alpha, tol, iteration);
      HoldsKeys(g, seeds, alpha, iteration, scores);
      var next := Iterated(g, seeds, alpha, scores);
      NextHolds(g, seeds, alpha, iteration, scores, next);
      delta := Change(g.nodes, next, scores);
      scores := next;
      iteration := iteration + 1;
      if delta < tol {
        assert StopsAt(g, seeds, alpha, maxIter, tol, iteration);
        return scores;
      }
    }
    assert StopsAt(g, seeds, alpha, maxIter, tol, iteration);
  }

  lemma OneMoreRound(g: Graph, seeds: seq<Node>, alpha: real, tol: real, k: nat)
    requires seeds != [] && (k > 0 ==> GoesOn(g, seeds, alpha, tol, k) && Delta(g, seeds, alpha, k) >= tol)
    ensures GoesOn(g, seeds, alpha, tol, k + 1)
  {
  }

  /**
    `personalizedPageRank`. The result is the k-th iterate for the first k whose change is below the
    tolerance, or for the limit if no earlier change is.
   */
  method PersonalizedPageRank(graph: Graph, seeds: seq<Node>, alphaOption: real, maxIterOption: int, tolOption: real)
    returns (scores: ScoreMap)
    ensures var g := Graph(Deduplicated(graph.nodes), graph.adjacency);
            var valid := Among(Deduplicated(seeds), g.nodes);
            var alpha := if alphaOption < 0.0 then 0.0 else if alphaOption > 1.0 then 1.0 else alphaOption;
            var limit := if maxIterOption < 1 then 1 else maxIterOption;
            var tol := if tolOption < 0.0 then 0.0 else tolOption;
            && (valid == [] ==> scores == map[])
            && (valid != [] ==> Prepared(g, valid) && IsResult(g, valid, alpha, limit, tol, scores))
  {
    hide Sum, Iteration, Holds, Delta;
    var g := Graph(Deduplicated(graph.nodes), graph.adjacency);
    var valid := Among(Deduplicated(seeds), g.nodes);
    assert valid != [] ==> valid[0] in g.nodes;
    if g.nodes == [] || valid == [] { return map[]; }
    var alpha := Clamp(alphaOption, 0.0, 1.0);
    var maxIter := if maxIterOption < 1 then 1 else maxIterOption;
    var tol := if tolOption < 0.0 then 0.0 else tolOption;
    scores := IterateUntil(g, valid, alpha, maxIter, tol);
  }

  lemma StartHolds(g: Graph, seeds: seq<Node>, alpha: real, scores: ScoreMap)
    requires Prepared(g, seeds) && scores == map n | n in g.nodes :: if n in seeds then 1.0 / |seeds| as real else 0.0
    ensures Holds(g, seeds, alpha, 0, scores)
  {
    RestartsAre(seeds);
  }

  lemma HoldsKeys(g: Graph, seeds: seq<Node>, alpha: real, k: nat, scores: ScoreMap)
    requires seeds != [] && Holds(g, seeds, alpha, k, scores)
    ensures scores.Keys == Elements(g.nodes) && forall n :: n in g.nodes ==> n in scores
  {
  }

  /** What a caller gets: a distribution that favours the seeds and is zero where no walk leads. */
  lemma ResultIsADistribution(g: Graph, seeds: seq<Node>, alpha: real, limit: nat, tol: real, scores: ScoreMap)
    requires Prepared(g, seeds) && 0.0 <= alpha <= 1.0 && IsResult(g, seeds, alpha, limit, tol, scores)
    ensures Sum(g.nodes, Read(scores)) == 1.0
    ensures forall n :: n in scores ==> scores[n] >= 0.0
    ensures forall n :: n in seeds ==> n in scores && scores[n] >= alpha * SeedMass(seeds)
    ensures forall n :: n in scores && !Reachable(g, seeds, n) ==> scores[n] == 0.0
  {
    hide Sum, Iteration, Reachable, SeedMass, StopsAt;
    var k: nat :| StopsAt(g, seeds, alpha, limit, tol, k) && Holds(g, seeds, alpha, k, scores);
    HoldsKeys(g, seeds, alpha, k, scores);
    IteratesAreDistributions(g, seeds, alpha, k);
    forall n | n in scores && !Reachable(g, seeds, n)
      ensures scores[n] == 0.0
    {
      UnreachableScoresZero(g, seeds, alpha, k, n);
    }
    SumEqual(g.nodes, Read(scores), Iterate(g, seeds, alpha, k));
  }

  ghost predicate IsIterate(g: Graph, seeds: seq<Node>, alpha: real, j: nat, x: Scores)
    requires seeds != []
  {
    x == Iterate(g, seeds, alpha, j)
  }

  /**
    If the loop stopped by tolerance, the scores are within tol (1 - alpha) / alpha of any fixpoint and of every later
    iterate.
   */
  lemma ResultIsClose(g: Graph, seeds: seq<Node>, alpha: real, tol: real, k: nat, scores: ScoreMap, x: Scores)
    requires Prepared(g, seeds) && 0.0 < alpha <= 1.0 && k > 0 && Holds(g, seeds, alpha, k, scores)
    requires Delta(g, seeds, alpha, k) < tol
    requires IsFixpoint(g, seeds, alpha, x) || exists j: nat :: j >= k && IsIterate(g, seeds, alpha, j, x)
    ensures alpha * Distance(g.nodes, Read(scores), x) <= (1.0 - alpha) * tol
  {
    hide Sum, Iteration, Delta, IsFixpoint, Distance, Iterate;
    HoldsKeys(g, seeds, alpha, k, scores);
    var y := Iterate(g, seeds, alpha, k);
    SameGaps(g.nodes, Read(scores), y, x, x);
    if IsFixpoint(g, seeds, alpha, x) {
      CloseToFixpoint(g, seeds, alpha, k, x);
    } else {
      var j: nat :| j >= k && IsIterate(g, seeds, alpha, j, x);
      LaterIteratesStayClose(g, seeds, alpha, k, j - k);
      assert k + (j - k) == j;
      DistanceSymmetric(g.nodes, x, y);
    }
    assert alpha * Distance(g.nodes, y, x) <= (1.0 - alpha) * Delta(g, seeds, alpha, k);
    TimesMonotone(Delta(g, seeds, alpha, k), tol, 1.0 - alpha);
    assert (1.0 - alpha) * Delta(g, seeds, alpha, k) <= (1.0 - alpha) * tol;
  }
}
