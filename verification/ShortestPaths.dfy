/**
 The mathematics of the shortest-path searches, over graphs that are values.

 A graph keeps only its usable links: those that are enabled and start at an
 enabled node.  A walk runs from a node to the target; it pays for every link and
 for every node strictly between its two ends.
 */
module ShortestPaths {
  import opened Wrappers
  import opened Weights

  datatype Graph<!N, !L> = Graph(
    nodes: set<N>,
    links: set<L>,
    src: map<L, N>,
    dst: map<L, N>,
    linkWeight: map<L, Dist>,
    nodeWeight: map<N, Dist>,
    target: N)

  ghost predicate WellFormed<N, L>(g: Graph<N, L>) {
    && g.target in g.nodes
    && (forall n :: n in g.nodes ==> n in g.nodeWeight && ZERO.AtMost(g.nodeWeight[n]))
    && (forall l :: l in g.links ==>
          && l in g.src && g.src[l] in g.nodes
          && l in g.dst && g.dst[l] in g.nodes
          && l in g.linkWeight && ZERO.Less(g.linkWeight[l]))
  }

  // ----- Walks to the target and their cost -----

  ghost predicate IsWalk<N, L>(g: Graph<N, L>, n: N, p: seq<L>)
    requires WellFormed(g)
  {
    if p == [] then n == g.target
    else p[0] in g.links && g.src[p[0]] == n && IsWalk(g, g.dst[p[0]], p[1..])
  }

  ghost function Cost<N, L>(g: Graph<N, L>, n: N, p: seq<L>): Dist
    requires WellFormed(g) && IsWalk(g, n, p)
  {
    if p == [] then ZERO
    else
      var next := g.dst[p[0]];
      var through := if |p| == 1 then ZERO else g.nodeWeight[next];
      g.linkWeight[p[0]].Plus(through).Plus(Cost(g, next, p[1..]))
  }

  /** What routing through n costs: nothing at the target. */
  ghost function Charge<N, L>(g: Graph<N, L>, n: N): Dist
    requires WellFormed(g) && n in g.nodes
  {
    if n == g.target then ZERO else g.nodeWeight[n]
  }

  ghost function NewDist<N, L>(g: Graph<N, L>, D: map<N, Dist>, l: L): Dist
    requires WellFormed(g) && l in g.links && D.Keys == g.nodes
  {
    D[g.dst[l]].Plus(g.linkWeight[l]).Plus(Charge(g, g.dst[l]))
  }

  // ----- What a finished search must satisfy -----

  /** No usable link offers a shorter way. */
  ghost predicate Relaxed<N, L>(g: Graph<N, L>, D: map<N, Dist>) {
    && WellFormed(g) && D.Keys == g.nodes
    && D[g.target] == ZERO
    && forall l :: l in g.links ==> D[g.src[l]].AtMost(NewDist(g, D, l))
  }

  /** l is a usable link out of n on which the distance of n is attained. */
  ghost predicate Attains<N, L>(g: Graph<N, L>, D: map<N, Dist>, n: N, l: L)
    requires WellFormed(g) && D.Keys == g.nodes && n in g.nodes
  {
    l in g.links && g.src[l] == n && D[n] == NewDist(g, D, l)
  }

  /** Every node with a finite distance, other than the target, attains it on its out-path. */
  ghost predicate Realised<N, L>(g: Graph<N, L>, D: map<N, Dist>, P: map<N, Option<L>>) {
    && WellFormed(g) && D.Keys == P.Keys == g.nodes
    && D[g.target] == ZERO
    && forall n {:trigger P[n]} :: n in g.nodes && n != g.target && D[n].Fin? ==>
         P[n].Some? && Attains(g, D, n, P[n].value)
  }

  /** p is the walk that takes the out-path link at every node until it meets the target. */
  ghost predicate FollowsOutPath<N, L>(g: Graph<N, L>, P: map<N, Option<L>>, n: N, p: seq<L>)
    requires WellFormed(g) && P.Keys == g.nodes && n in g.nodes
  {
    if p == [] then n == g.target
    else
      && n != g.target && P[n] == Some(p[0]) && p[0] in g.links
      && g.src[p[0]] == n && FollowsOutPath(g, P, g.dst[p[0]], p[1..])
  }

  // ----- Optimality -----

  /** A relaxed labelling is a lower bound on the cost of every walk. */
  lemma {:induction false} RelaxedIsLowerBound<N, L>(g: Graph<N, L>, D: map<N, Dist>, n: N, p: seq<L>)
    requires Relaxed(g, D) && n in g.nodes && IsWalk(g, n, p)
    ensures D[n].AtMost(Cost(g, n, p))
    decreases |p|
  {
    if p == [] {
    } else {
      var next := g.dst[p[0]];
      RelaxedIsLowerBound(g, D, next, p[1..]);
      assert D[n].AtMost(NewDist(g, D, p[0]));
    }
  }

  ghost function Nearer<N, L>(g: Graph<N, L>, D: map<N, Dist>, n: N): set<N>
    requires D.Keys == g.nodes && n in g.nodes
  {
    set m | m in g.nodes && D[m].Less(D[n])
  }

  lemma NearerNodesShrink<N, L>(g: Graph<N, L>, D: map<N, Dist>, n: N, m: N)
    requires D.Keys == g.nodes && n in g.nodes && m in g.nodes && D[m].Less(D[n])
    ensures Nearer(g, D, m) < Nearer(g, D, n)
  {
    assert m in Nearer(g, D, n) && m !in Nearer(g, D, m);
  }

  /** The links met by taking the out-path at every node until the target. */
  ghost function OutWalk<N, L>(g: Graph<N, L>, D: map<N, Dist>, P: map<N, Option<L>>, n: N): seq<L>
    requires Realised(g, D, P) && n in g.nodes && D[n].Fin?
    decreases Nearer(g, D, n)
  {
    if n == g.target then []
    else
      var l := P[n].value;
      assert Attains(g, D, n, l);
      NearerNodesShrink(g, D, n, g.dst[l]);
      [l] + OutWalk(g, D, P, g.dst[l])
  }

  /** Following the out-paths from a node of finite distance reaches the target at that cost. */
  lemma {:induction false} OutWalkRealisesDistance<N, L>(g: Graph<N, L>, D: map<N, Dist>, P: map<N, Option<L>>, n: N)
    requires Realised(g, D, P) && n in g.nodes && D[n].Fin?
    ensures var p := OutWalk(g, D, P, n);
      FollowsOutPath(g, P, n, p) && IsWalk(g, n, p) && Cost(g, n, p) == D[n]
    decreases Nearer(g, D, n)
  {
    if n == g.target {
    } else {
      var l := P[n].value;
      assert Attains(g, D, n, l);
      var next := g.dst[l];
      NearerNodesShrink(g, D, n, next);
      OutWalkRealisesDistance(g, D, P, next);
      var p := OutWalk(g, D, P, n);
      assert p[1..] == OutWalk(g, D, P, next);
      assert (|p| == 1) == (next == g.target);
    }
  }

  /** The labels a search must leave behind. */
  ghost predicate ShortestTree<N, L>(g: Graph<N, L>, D: map<N, Dist>, P: map<N, Option<L>>) {
    Relaxed(g, D) && Realised(g, D, P)
  }

  /**
   What that means: the distance of a node is a lower bound on the cost of every walk to the
   target and, if finite, the cost of the walk along the out-paths.  So it is the minimum,
   and infinite exactly when every walk has infinite cost.
   */
  lemma ShortestTreeIsOptimal<N, L>(g: Graph<N, L>, D: map<N, Dist>, P: map<N, Option<L>>, n: N)
    requires ShortestTree(g, D, P) && n in g.nodes
    ensures forall p :: IsWalk(g, n, p) ==> D[n].AtMost(Cost(g, n, p))
    ensures D[n].Fin? ==>
      var p := OutWalk(g, D, P, n);
      FollowsOutPath(g, P, n, p) && IsWalk(g, n, p) && Cost(g, n, p) == D[n]
    ensures D[n].Inf? <==> forall p :: IsWalk(g, n, p) ==> Cost(g, n, p).Inf?
  {
    forall p | IsWalk(g, n, p)
      ensures D[n].AtMost(Cost(g, n, p))
    {
      RelaxedIsLowerBound(g, D, n, p);
    }
    if D[n].Fin? {
      OutWalkRealisesDistance(g, D, P, n);
    }
  }

  /** Distances are determined by the graph alone, whichever search found them. */
  lemma {:induction false} DistancesAreUnique<N, L>(
      g: Graph<N, L>, D1: map<N, Dist>, P1: map<N, Option<L>>, D2: map<N, Dist>, P2: map<N, Option<L>>)
    requires ShortestTree(g, D1, P1) && ShortestTree(g, D2, P2)
    ensures D1 == D2
  {
    forall n | n in g.nodes
      ensures D1[n] == D2[n]
    {
      if D1[n].Fin? {
        OutWalkRealisesDistance(g, D1, P1, n);
        RelaxedIsLowerBound(g, D2, n, OutWalk(g, D1, P1, n));
      }
      if D2[n].Fin? {
        OutWalkRealisesDistance(g, D2, P2, n);
        RelaxedIsLowerBound(g, D1, n, OutWalk(g, D2, P2, n));
      }
    }
  }
}
