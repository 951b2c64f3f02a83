/** One iteration of the walk as an equation over the edge lists and scores, with nothing left to look up. */
module PprLaws {
  import opened Base
  import opened Sums
  import opened Vectors
  import opened PprTheory

  /** The edges listed for a node. */
  function Listed(g: Graph, n: Node): seq<Edge> {
    if n in g.adjacency then g.adjacency[n] else []
  }

  /** What an edge weighs, and what it weighs towards one node: edges out of the graph or not positive weigh nothing. */
  ghost function Weight(g: Graph): Edge -> real {
    (e: Edge) => if e.to in g.nodes && e.w > 0.0 then e.w else 0.0
  }

  ghost function WeightTo(g: Graph, t: Node): Edge -> real {
    (e: Edge) => if e.to in g.nodes && e.w > 0.0 && e.to == t then e.w else 0.0
  }

  lemma {:induction false} LiveWeights(g: Graph, edges: seq<Edge>, t: Node)
    ensures Degree(Live(g, edges)) == Sum(edges, Weight(g))
    ensures WeightInto(Live(g, edges), t) == Sum(edges, WeightTo(g, t))
  {
    if edges != [] {
      var n := |edges| - 1;
      LiveWeights(g, edges[..n], t);
      var live := Live(g, edges[..n]);
      if edges[n].to in g.nodes && edges[n].w > 0.0 {
        assert (live + [edges[n]])[..|live|] == live;
      } else {
        assert live + [] == live;
      }
    }
  }

  /**
    A node walks along each listed edge in proportion to its weight, and is dangling if none of them weighs anything.
   */
  lemma TransitionIs(g: Graph, n: Node, t: Node)
    ensures Dangling(g, n) <==> Sum(Listed(g, n), Weight(g)) == 0.0
    ensures Sum(Listed(g, n), Weight(g)) == 0.0 ==> Probability(g, n, t) == 0.0
    ensures Sum(Listed(g, n), Weight(g)) != 0.0
            ==> Probability(g, n, t) == Sum(Listed(g, n), WeightTo(g, t)) / Sum(Listed(g, n), Weight(g))
  {
    LiveWeights(g, Listed(g, n), t);
    assert OutEdges(g, n) == Live(g, Listed(g, n));
  }

  /** What each node sends to t, and what it cannot send anywhere. */
  ghost function Sent(g: Graph, x: Scores, t: Node): Scores {
    n => var out := Sum(Listed(g, n), Weight(g));
         if out == 0.0 then 0.0 else x(n) * (Sum(Listed(g, n), WeightTo(g, t)) / out)
  }

  ghost function Stuck(g: Graph, x: Scores): Scores {
    n => if Sum(Listed(g, n), Weight(g)) == 0.0 then x(n) else 0.0
  }

  /**
    The new score of t: alpha of an even restart at the seeds, and for the rest what the nodes send to t and an even
    share, at a seed, of what is stuck.
   */
  lemma IterationIs(g: Graph, seeds: seq<Node>, alpha: real, x: Scores, t: Node)
    requires seeds != []
    ensures var restart := if t in seeds then 1.0 / |seeds| as real else 0.0;
            Iteration(g, seeds, alpha, x)(t)
            == alpha * restart + (1.0 - alpha) * (Sum(g.nodes, Sent(g, x, t)) + Sum(g.nodes, Stuck(g, x)) * restart)
  {
    hide Sum, Probability, Dangling, Sent, Stuck;
    forall n ensures Product(x, Column(g, t))(n) == Sent(g, x, t)(n) && AtDangling(g, x)(n) == Stuck(g, x)(n) {
      SentIs(g, x, n, t);
    }
    SumEqual(g.nodes, Product(x, Column(g, t)), Sent(g, x, t));
    SumEqual(g.nodes, AtDangling(g, x), Stuck(g, x));
    assert Flow(g, x)(t) == Sum(g.nodes, Sent(g, x, t)) && DanglingMass(g, x) == Sum(g.nodes, Stuck(g, x));
    assert Restarts(seeds)(t) == if t in seeds then 1.0 / |seeds| as real else 0.0;
  }

  lemma SentIs(g: Graph, x: Scores, n: Node, t: Node)
    ensures Product(x, Column(g, t))(n) == Sent(g, x, t)(n) && AtDangling(g, x)(n) == Stuck(g, x)(n)
  {
    hide Sum;
    TransitionIs(g, n, t);
    hide Probability, Dangling;
    if Dangling(g, n) { assert x(n) * 0.0 == 0.0; }
  }
}
