/**
 One step of a shortest-path search as a function of values, and the invariant
 every step keeps.  The loops of Topology are proved against these steps.
 */
module SearchSteps {
  import opened Wrappers
  import opened Weights
  import opened ShortestPaths

  /** dist and outPath of every node, the queue, and the nodes already popped. */
  datatype State<!N, !L> = State(D: map<N, Dist>, P: map<N, Option<L>>, q: seq<N>, done: set<N>)

  // ----- The queue: a hand-kept sorted list -----

  ghost predicate Distinct<N>(q: seq<N>) {
    forall i, j :: 0 <= i < j < |q| ==> q[i] != q[j]
  }

  ghost predicate Sorted<N>(q: seq<N>, D: map<N, Dist>) {
    && (forall n :: n in q ==> n in D)
    && forall i, j :: 0 <= i < j < |q| ==> D[q[i]].AtMost(D[q[j]])
  }

  /** q.remove(x): every occurrence goes. */
  function Remove<N(==)>(q: seq<N>, x: N): seq<N> {
    if q == [] then []
    else if q[0] == x then Remove(q[1..], x)
    else [q[0]] + Remove(q[1..], x)
  }

  ghost function Entries<T>(s: seq<T>): set<T> {
    set x | x in s
  }

  lemma {:induction false} RemoveContents<N>(q: seq<N>, x: N)
    ensures Entries(Remove(q, x)) == Entries(q) - {x}
  {
    if q == [] {
    } else {
      RemoveContents(q[1..], x);
      assert q == [q[0]] + q[1..];
      assert Entries(q) == {q[0]} + Entries(q[1..]);
      if q[0] != x {
        assert Entries(Remove(q, x)) == {q[0]} + Entries(Remove(q[1..], x));
      }
    }
  }

  lemma {:induction false} RemoveKeepsOrder<N>(q: seq<N>, x: N, D: map<N, Dist>)
    requires Distinct(q) && Sorted(q, D)
    ensures forall n :: n in Remove(q, x) <==> n in q && n != x
    ensures Distinct(Remove(q, x)) && Sorted(Remove(q, x), D)
  {
    if q == [] {
    } else {
      RemoveKeepsOrder(q[1..], x, D);
      assert q == [q[0]] + q[1..];
      var r := Remove(q, x);
      if q[0] != x {
        forall i, j | 0 <= i < j < |r|
          ensures r[i] != r[j] && D[r[i]].AtMost(D[r[j]])
        {
          var rest := Remove(q[1..], x);
          assert r[j] == rest[j - 1] && rest[j - 1] in rest;
          assert rest[j - 1] in q[1..];
          assert i > 0 ==> r[i] == rest[i - 1];
        }
      }
    }
  }

  /** i is where the source inserts a node of distance d: before the first entry that is further away. */
  ghost predicate InsertionPoint<N>(q: seq<N>, D: map<N, Dist>, d: Dist, i: nat)
    requires forall n :: n in q ==> n in D
  {
    && i <= |q|
    && (forall k :: 0 <= k < i ==> !d.Less(D[q[k]]))
    && (i < |q| ==> d.Less(D[q[i]]))
  }

  function Insert<N>(q: seq<N>, x: N, i: nat): seq<N>
    requires i <= |q|
  {
    q[..i] + [x] + q[i..]
  }

  lemma InsertContents<N>(q: seq<N>, x: N, i: nat)
    requires i <= |q|
    ensures forall n :: n in Insert(q, x, i) <==> n == x || n in q
    ensures Distinct(q) && x !in q ==> Distinct(Insert(q, x, i))
  {
    assert q == q[..i] + q[i..];
  }

  lemma InsertKeepsOrder<N>(q: seq<N>, D: map<N, Dist>, x: N, d: Dist, i: nat)
    requires Sorted(q, D) && x !in q && x in D && d.Fin?
    requires InsertionPoint(q, D, d, i)
    ensures Sorted(Insert(q, x, i), D[x := d])
  {
    var r, E := Insert(q, x, i), D[x := d];
    InsertContents(q, x, i);
    forall a, b | 0 <= a < b < |r|
      ensures E[r[a]].AtMost(E[r[b]])
    {
      if a < i {
        assert r[a] == q[a] && q[a] in q;
      } else if a > i {
        assert r[a] == q[a - 1] && q[a - 1] in q;
      }
      if b < i {
        assert r[b] == q[b] && q[b] in q;
      } else if b > i {
        assert r[b] == q[b - 1] && q[b - 1] in q;
        assert a == i ==> D[q[i]].AtMost(D[q[b - 1]]);
      }
    }
  }

  // ----- The invariant -----

  /** The links into popped nodes that have been looked at: all of them, save those into dest still to come. */
  ghost predicate Scanned<N, L>(g: Graph<N, L>, s: State<N, L>, dest: N, seen: set<L>, l: L)
    requires WellFormed(g)
  {
    l in g.links && g.dst[l] in s.done && (g.dst[l] == dest ==> l in seen)
  }

  /**
   The queue is sorted and duplicate-free and holds exactly the unpopped nodes of finite
   distance; no popped node is further away than dest, no queued node nearer.
   */
  ghost predicate QueueInvariant<N, L>(g: Graph<N, L>, s: State<N, L>, dest: N) {
    && WellFormed(g) && s.D.Keys == s.P.Keys == g.nodes
    && dest in s.done && g.target in s.done && s.done <= g.nodes
    && Distinct(s.q) && Sorted(s.q, s.D)
    && (forall n :: n in s.q ==> n !in s.done)
    && (forall n :: n in g.nodes ==> (s.D[n].Fin? <==> n in s.done || n in s.q))
    && (forall n :: n in s.done ==> s.D[n].AtMost(s.D[dest]))
    && (forall n :: n in s.q ==> s.D[dest].AtMost(s.D[n]))
  }

  /** Links already looked at are relaxed; reached nodes attain their distance on a link to a popped node. */
  ghost predicate LinkInvariant<N, L>(g: Graph<N, L>, s: State<N, L>, dest: N, seen: set<L>) {
    && WellFormed(g) && s.D.Keys == s.P.Keys == g.nodes
    && (forall l :: l in g.links && Scanned(g, s, dest, seen, l) ==> s.D[g.src[l]].AtMost(NewDist(g, s.D, l)))
    && Realised(g, s.D, s.P)
    && (forall n {:trigger s.P[n]} :: n in g.nodes && n != g.target && s.D[n].Fin? ==> g.dst[s.P[n].value] in s.done)
  }

  /** While the links into dest, the node popped last, are looked at: those of `seen` are done. */
  ghost predicate Scanning<N, L>(g: Graph<N, L>, s: State<N, L>, dest: N, seen: set<L>) {
    QueueInvariant(g, s, dest) && LinkInvariant(g, s, dest, seen)
  }

  /** Between two pops. */
  ghost predicate Between<N, L>(g: Graph<N, L>, s: State<N, L>) {
    && WellFormed(g) && s.D.Keys == s.P.Keys == g.nodes
    && s.done <= g.nodes && (g.target in s.done || s.q == [g.target])
    && Distinct(s.q) && Sorted(s.q, s.D)
    && (forall n :: n in s.q ==> n !in s.done)
    && (forall n :: n in g.nodes ==> (s.D[n].Fin? <==> n in s.done || n in s.q))
    && (forall m, n :: m in s.done && n in s.q ==> s.D[m].AtMost(s.D[n]))
    && (forall l :: l in g.links && g.dst[l] in s.done ==> s.D[g.src[l]].AtMost(NewDist(g, s.D, l)))
    && Realised(g, s.D, s.P)
    && (forall n {:trigger s.P[n]} :: n in g.nodes && n != g.target && s.D[n].Fin? ==> g.dst[s.P[n].value] in s.done)
  }

  ghost function Start<N, L>(g: Graph<N, L>): State<N, L>
    requires WellFormed(g)
  {
    State(map n | n in g.nodes :: if n == g.target then ZERO else Inf,
          map n | n in g.nodes :: None, [g.target], {})
  }

  lemma StartIsBetween<N, L>(g: Graph<N, L>)
    requires WellFormed(g)
    ensures Between(g, Start(g)) && Narrow(Start(g))
  {
  }

  ghost function Pop<N, L>(s: State<N, L>): State<N, L>
    requires s.q != []
  {
    s.(q := s.q[1..], done := s.done + {s.q[0]})
  }

  lemma PopStartsScan<N, L>(g: Graph<N, L>, s: State<N, L>)
    requires Between(g, s) && s.q != []
    ensures Scanning(g, Pop(s), s.q[0], {}) && s.q[0] in g.nodes - s.done
  {
    var t, dest := Pop(s), s.q[0];
    assert forall n :: n in s.q <==> n == dest || n in t.q;
    assert forall n :: n in t.q ==> s.D[dest].AtMost(s.D[n]);
  }

  /** A link that can belong to a walk of finite cost. */
  ghost predicate IsRouting<N, L>(g: Graph<N, L>, l: L)
    requires WellFormed(g) && l in g.links
  {
    g.linkWeight[l].Fin? && Charge(g, g.dst[l]).Fin?
  }

  /** A node that is about to be popped is the target, or the source of such a link. */
  lemma PoppedIsReached<N, L>(g: Graph<N, L>, s: State<N, L>)
    requires Between(g, s) && s.q != [] && s.q[0] != g.target
    ensures var l := s.P[s.q[0]];
      l.Some? && l.value in g.links && g.src[l.value] == s.q[0] && IsRouting(g, l.value)
  {
    assert s.q[0] in s.q;
    assert Attains(g, s.D, s.q[0], s.P[s.q[0]].value);
  }

  lemma ScanEnds<N, L>(g: Graph<N, L>, s: State<N, L>, dest: N, seen: set<L>)
    requires Scanning(g, s, dest, seen)
    requires forall l :: l in g.links && g.dst[l] == dest ==> l in seen
    ensures Between(g, s)
  {
    forall l | l in g.links && g.dst[l] in s.done
      ensures s.D[g.src[l]].AtMost(NewDist(g, s.D, l))
    {
      assert Scanned(g, s, dest, seen, l);
    }
  }

  lemma EmptyQueueIsOptimal<N, L>(g: Graph<N, L>, s: State<N, L>)
    requires Between(g, s) && s.q == []
    ensures ShortestTree(g, s.D, s.P)
  {
  }

  // ----- Looking at one link -----

  ghost predicate Improves<N, L>(g: Graph<N, L>, D: map<N, Dist>, l: L)
    requires WellFormed(g) && l in g.links && D.Keys == g.nodes
  {
    NewDist(g, D, l).Fin? && NewDist(g, D, l).Less(D[g.src[l]])
  }

  /** The queue after q.remove(src), which the source calls only for a node already reached. */
  function Unqueued<N(==)>(q: seq<N>, src: N, reached: bool): seq<N> {
    if reached then Remove(q, src) else q
  }

  /** s after src has got its new distance through l and re-entered the queue at position i. */
  ghost function Improve<N, L>(g: Graph<N, L>, s: State<N, L>, l: L, i: nat): State<N, L>
    requires WellFormed(g) && l in g.links && s.D.Keys == s.P.Keys == g.nodes
    requires i <= |Unqueued(s.q, g.src[l], s.D[g.src[l]].Fin?)|
  {
    var n := g.src[l];
    var q := Unqueued(s.q, n, s.D[n].Fin?);
    State(s.D[n := NewDist(g, s.D, l)], s.P[n := Some(l)], Insert(q, n, i), s.done)
  }

  ghost predicate CanImproveAt<N, L>(g: Graph<N, L>, s: State<N, L>, l: L, i: nat)
    requires WellFormed(g) && l in g.links && s.D.Keys == s.P.Keys == g.nodes
  {
    var q := Unqueued(s.q, g.src[l], s.D[g.src[l]].Fin?);
    (forall n :: n in q ==> n in s.D) && InsertionPoint(q, s.D, NewDist(g, s.D, l), i)
  }

  /** A node being improved has not been popped; if it was reached before, it is still queued. */
  lemma ImprovedIsQueued<N, L>(g: Graph<N, L>, s: State<N, L>, dest: N, l: L)
    requires QueueInvariant(g, s, dest) && l in g.links && g.dst[l] == dest && Improves(g, s.D, l)
    requires s.D[g.target] == ZERO
    ensures g.src[l] !in s.done && g.src[l] != g.target
    ensures s.D[g.src[l]].Fin? <==> g.src[l] in s.q
    ensures s.D[dest].Less(NewDist(g, s.D, l))
  {
  }

  /** The queue after an improvement holds the nodes it held before, and the improved one. */
  lemma ImprovedQueue<N, L>(g: Graph<N, L>, s: State<N, L>, dest: N, l: L, i: nat)
    requires QueueInvariant(g, s, dest) && l in g.links && g.dst[l] == dest && Improves(g, s.D, l)
    requires CanImproveAt(g, s, l, i) && (s.D[g.src[l]].Fin? <==> g.src[l] in s.q)
    ensures var t := Improve(g, s, l, i);
      && Distinct(t.q) && Sorted(t.q, t.D)
      && forall m :: m in t.q <==> m in s.q || m == g.src[l]
  {
    var n := g.src[l];
    var q := Unqueued(s.q, n, s.D[n].Fin?);
    RemoveKeepsOrder(s.q, n, s.D);
    assert forall m :: m in q <==> m in s.q && m != n;
    InsertContents(q, n, i);
    InsertKeepsOrder(q, s.D, n, NewDist(g, s.D, l), i);
  }

  lemma ImproveKeepsQueue<N, L>(g: Graph<N, L>, s: State<N, L>, dest: N, l: L, i: nat)
    requires QueueInvariant(g, s, dest) && l in g.links && g.dst[l] == dest && Improves(g, s.D, l)
    requires s.D[g.target] == ZERO && CanImproveAt(g, s, l, i)
    ensures QueueInvariant(g, Improve(g, s, l, i), dest)
  {
    var n, d, t := g.src[l], NewDist(g, s.D, l), Improve(g, s, l, i);
    ImprovedIsQueued(g, s, dest, l);
    ImprovedQueue(g, s, dest, l, i);
    assert t.D[n] == d && t.D[dest] == s.D[dest] && t.done == s.done;
    assert forall m :: m in g.nodes && m != n ==> t.D[m] == s.D[m];
  }

  lemma ImproveKeepsLinks<N, L>(g: Graph<N, L>, s: State<N, L>, dest: N, seen: set<L>, l: L, i: nat)
    requires LinkInvariant(g, s, dest, seen) && l in g.links && g.dst[l] == dest && Improves(g, s.D, l)
    requires dest in s.done && g.src[l] !in s.done && g.src[l] != g.target
    requires CanImproveAt(g, s, l, i)
    ensures LinkInvariant(g, Improve(g, s, l, i), dest, seen + {l})
  {
    var n, t := g.src[l], Improve(g, s, l, i);
    forall k | k in g.links && Scanned(g, t, dest, seen + {l}, k)
      ensures t.D[g.src[k]].AtMost(NewDist(g, t.D, k))
    {
      assert NewDist(g, t.D, k) == NewDist(g, s.D, k);
      if k != l {
        assert Scanned(g, s, dest, seen, k);
      }
    }
    forall m | m in g.nodes && m != g.target && t.D[m].Fin?
      ensures t.P[m].Some? && Attains(g, t.D, m, t.P[m].value) && g.dst[t.P[m].value] in t.done
    {
      if m != n {
        assert Attains(g, s.D, m, s.P[m].value);
      }
    }
  }

  lemma ImproveKeepsScanning<N, L>(g: Graph<N, L>, s: State<N, L>, dest: N, seen: set<L>, l: L, i: nat)
    requires Scanning(g, s, dest, seen) && l in g.links && g.dst[l] == dest && Improves(g, s.D, l)
    requires CanImproveAt(g, s, l, i)
    ensures Scanning(g, Improve(g, s, l, i), dest, seen + {l})
  {
    ImprovedIsQueued(g, s, dest, l);
    ImproveKeepsQueue(g, s, dest, l, i);
    ImproveKeepsLinks(g, s, dest, seen, l, i);
  }

  lemma SkipKeepsScanning<N, L>(g: Graph<N, L>, s: State<N, L>, dest: N, seen: set<L>, l: L)
    requires Scanning(g, s, dest, seen) && (l in g.links ==> g.dst[l] == dest && !Improves(g, s.D, l))
    ensures Scanning(g, s, dest, seen + {l})
  {
    forall k | Scanned(g, s, dest, seen + {l}, k)
      ensures s.D[g.src[k]].AtMost(NewDist(g, s.D, k))
    {
      if k != l {
        assert Scanned(g, s, dest, seen, k);
      }
    }
  }

  /** i is a position at which link l can be handled: any, if it brings no improvement. */
  ghost predicate LookedAt<N, L>(g: Graph<N, L>, s: State<N, L>, l: L, i: nat) {
    && WellFormed(g) && s.D.Keys == s.P.Keys == g.nodes
    && (l in g.links && Improves(g, s.D, l) ==> CanImproveAt(g, s, l, i))
  }

  /** s after looking at link l. */
  ghost function Look<N, L>(g: Graph<N, L>, s: State<N, L>, l: L, i: nat): State<N, L>
    requires LookedAt(g, s, l, i)
  {
    if l in g.links && Improves(g, s.D, l) then Improve(g, s, l, i) else s
  }

  lemma LookKeepsScanning<N, L>(g: Graph<N, L>, s: State<N, L>, dest: N, seen: set<L>, l: L, i: nat)
    requires Scanning(g, s, dest, seen) && LookedAt(g, s, l, i)
    requires l in g.links ==> g.dst[l] == dest
    ensures Scanning(g, Look(g, s, l, i), dest, seen + {l})
  {
    if l in g.links && Improves(g, s.D, l) {
      ImproveKeepsScanning(g, s, dest, seen, l, i);
    } else {
      SkipKeepsScanning(g, s, dest, seen, l);
    }
  }

  // ----- Breadth-first search is the weighted search on unit weights -----

  ghost predicate UnitWeights<N, L>(g: Graph<N, L>)
    requires WellFormed(g)
  {
    && (forall l :: l in g.links ==> g.linkWeight[l] == Fin(1.0))
    && (forall n :: n in g.nodes ==> g.nodeWeight[n] == ZERO)
  }

  /** On unit weights the cost of a walk is its number of links. */
  lemma {:induction false} HopsAreLinks<N, L>(g: Graph<N, L>, n: N, p: seq<L>)
    requires WellFormed(g) && UnitWeights(g) && n in g.nodes && IsWalk(g, n, p)
    ensures Cost(g, n, p) == Fin(|p| as real)
    decreases |p|
  {
    if p == [] {
    } else {
      HopsAreLinks(g, g.dst[p[0]], p[1..]);
    }
  }

  /**
   So the labels of a finished search are hop counts: the out-paths make a walk of that many
   links, and no walk has fewer.
   */
  lemma FewestHops<N, L>(g: Graph<N, L>, D: map<N, Dist>, P: map<N, Option<L>>, n: N)
    requires WellFormed(g) && UnitWeights(g) && ShortestTree(g, D, P) && n in g.nodes
    ensures D[n].Inf? <==> forall p :: !IsWalk(g, n, p)
    ensures D[n].Fin? ==> var p := OutWalk(g, D, P, n);
      && FollowsOutPath(g, P, n, p) && IsWalk(g, n, p) && D[n] == Fin(|p| as real)
      && forall q :: IsWalk(g, n, q) ==> |p| <= |q|
  {
    ShortestTreeIsOptimal(g, D, P, n);
    forall p | IsWalk(g, n, p)
      ensures Cost(g, n, p) == Fin(|p| as real)
    {
      HopsAreLinks(g, n, p);
    }
  }

  /** Every node reached so far is at most one hop further than dest. */
  ghost predicate OneHopAhead<N, L>(s: State<N, L>, dest: N) {
    && dest in s.D && s.D[dest].Fin?
    && forall n :: n in s.q ==> n in s.D && s.D[n].AtMost(s.D[dest].Plus(Fin(1.0)))
  }

  /** What the breadth-first search does with a link: only unreached nodes, always at the queue's end. */
  ghost function HopLook<N, L>(g: Graph<N, L>, s: State<N, L>, l: L): State<N, L>
    requires WellFormed(g) && s.D.Keys == s.P.Keys == g.nodes
  {
    if l in g.links && s.D[g.src[l]].Inf? then
      var n := g.src[l];
      State(s.D[n := s.D[g.dst[l]].Plus(Fin(1.0))], s.P[n := Some(l)], s.q + [n], s.done)
    else s
  }

  /** With unit weights the weighted search does just the same. */
  lemma HopLookIsLook<N, L>(g: Graph<N, L>, s: State<N, L>, dest: N, seen: set<L>, l: L)
    requires Scanning(g, s, dest, seen) && (l in g.links ==> g.dst[l] == dest)
    requires UnitWeights(g) && OneHopAhead(s, dest)
    ensures LookedAt(g, s, l, |s.q|) && HopLook(g, s, l) == Look(g, s, l, |s.q|)
    ensures OneHopAhead(HopLook(g, s, l), dest)
  {
    if l in g.links && s.D[g.src[l]].Inf? {
      assert Insert(s.q, g.src[l], |s.q|) == s.q + [g.src[l]];
    }
  }

  lemma HopLookKeepsScanning<N, L>(g: Graph<N, L>, s: State<N, L>, dest: N, seen: set<L>, l: L)
    requires Scanning(g, s, dest, seen) && (l in g.links ==> g.dst[l] == dest)
    requires UnitWeights(g) && OneHopAhead(s, dest)
    ensures Scanning(g, HopLook(g, s, l), dest, seen + {l}) && OneHopAhead(HopLook(g, s, l), dest)
  {
    HopLookIsLook(g, s, dest, seen, l);
    LookKeepsScanning(g, s, dest, seen, l, |s.q|);
  }

  /** Between two pops the queue spans at most one hop. */
  ghost predicate Narrow<N, L>(s: State<N, L>) {
    s.q != [] ==> OneHopAhead(s, s.q[0])
  }

  lemma PopIsOneHopAhead<N, L>(g: Graph<N, L>, s: State<N, L>)
    requires Between(g, s) && Narrow(s) && s.q != []
    ensures OneHopAhead(Pop(s), s.q[0])
  {
  }

  lemma ScannedIsNarrow<N, L>(g: Graph<N, L>, s: State<N, L>, dest: N, seen: set<L>)
    requires Scanning(g, s, dest, seen) && OneHopAhead(s, dest)
    ensures Narrow(s)
  {
    if s.q != [] {
      assert s.q[0] in s.q;
    }
  }
}
