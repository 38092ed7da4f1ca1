/**
 * Prim's algorithm with a lazily pruned priority queue: start from vertex 0
 * with weight 0, repeatedly take the least (weight, vertex) entry of the
 * frontier, skip it when its vertex is already in the tree, and otherwise
 * record (vertex, weight) and push every arc to a vertex not yet in the
 * tree.
 */
module Prim {
  import opened GraphBasics

  /** An entry of a vertex's arc list: the neighbour and the edge weight. */
  datatype Arc = Arc(to: int, weight: int)

  /** A frontier entry; the frontier orders them by weight, then vertex. */
  datatype Candidate = Candidate(weight: int, vertex: int)

  /** An entry of the result: a vertex and the weight it was reached with. */
  datatype Visit = Visit(vertex: int, weight: int)

  /** The lexicographic order of (weight, vertex) pairs. */
  predicate Precedes(a: Candidate, b: Candidate) {
    a.weight < b.weight || (a.weight == b.weight && a.vertex <= b.vertex)
  }

  /** Every arc leads to a vertex of the graph. */
  predicate WellFormedWeighted(g: seq<seq<Arc>>) {
    forall u, i :: 0 <= u < |g| && 0 <= i < |g[u]| ==> 0 <= g[u][i].to < |g|
  }

  /** The graph without its weights, as a plain adjacency list. */
  function Targets(g: seq<seq<Arc>>): (adj: seq<seq<int>>)
    ensures |adj| == |g|
    ensures forall u :: 0 <= u < |g| ==> |adj[u]| == |g[u]|
    ensures forall u, i :: 0 <= u < |g| && 0 <= i < |g[u]| ==> adj[u][i] == g[u][i].to
  {
    seq(|g|, u requires 0 <= u < |g| =>
      seq(|g[u]|, i requires 0 <= i < |g[u]| => g[u][i].to))
  }

  /** The vertices of the result, in visit order. */
  function Order(mst: seq<Visit>): (r: seq<int>)
    ensures |r| == |mst|
    ensures forall k :: 0 <= k < |mst| ==> r[k] == mst[k].vertex
  {
    seq(|mst|, k requires 0 <= k < |mst| => mst[k].vertex)
  }

  /** The candidate an entry of the result was taken as. */
  function AsCandidate(v: Visit): Candidate {
    Candidate(v.weight, v.vertex)
  }

  /** The frontier entry an arc gives rise to. */
  function Offer(a: Arc): Candidate {
    Candidate(a.weight, a.to)
  }

  ghost predicate InGraph(g: seq<seq<Arc>>, mst: seq<Visit>) {
    forall k :: 0 <= k < |mst| ==> 0 <= mst[k].vertex < |g|
  }

  /** Some arc from an entry before k leads to entry k's vertex with entry k's weight. */
  ghost predicate EnteredFromEarlier(g: seq<seq<Arc>>, mst: seq<Visit>, k: int)
    requires InGraph(g, mst) && 0 <= k < |mst|
  {
    exists j, i :: 0 <= j < k && 0 <= i < |g[mst[j].vertex]| &&
      g[mst[j].vertex][i] == Arc(mst[k].vertex, mst[k].weight)
  }

  /** Every entry after the first is a new vertex entered from an earlier entry. */
  ghost predicate Grown(g: seq<seq<Arc>>, mst: seq<Visit>)
    requires InGraph(g, mst)
  {
    forall k :: 1 <= k < |mst| ==>
      mst[k].vertex !in Order(mst)[..k] && EnteredFromEarlier(g, mst, k)
  }

  /**
   * Every entry after the first is the least (weight, vertex) over all arcs
   * from earlier entries to vertices not listed yet.
   */
  ghost predicate Cheapest(g: seq<seq<Arc>>, mst: seq<Visit>)
    requires InGraph(g, mst)
  {
    forall k, j, i ::
      1 <= k < |mst| && 0 <= j < k && 0 <= i < |g[mst[j].vertex]| &&
      g[mst[j].vertex][i].to !in Order(mst)[..k] ==>
        Precedes(AsCandidate(mst[k]), Offer(g[mst[j].vertex][i]))
  }

  /** Every arc from a listed vertex leads to a listed vertex. */
  ghost predicate Closed(g: seq<seq<Arc>>, mst: seq<Visit>)
    requires InGraph(g, mst)
  {
    forall j, i :: 0 <= j < |mst| && 0 <= i < |g[mst[j].vertex]| ==>
      g[mst[j].vertex][i].to in Order(mst)
  }

  /** mst is the visit order of Prim's algorithm on g started at vertex 0. */
  ghost predicate IsPrimOrder(g: seq<seq<Arc>>, mst: seq<Visit>) {
    && InGraph(g, mst)
    && |mst| >= 1 && mst[0] == Visit(0, 0)
    && Grown(g, mst)
    && Cheapest(g, mst)
    && Closed(g, mst)
  }

  /**
   * The priority queue's top-and-pop: the least entry under (weight, vertex)
   * order and the frontier without one copy of it.
   */
  method PopMin(frontier: seq<Candidate>) returns (c: Candidate, rest: seq<Candidate>)
    requires frontier != []
    ensures c in frontier
    ensures forall x :: x in frontier ==> Precedes(c, x)
    ensures multiset(rest) == multiset(frontier) - multiset{c}
    ensures |rest| == |frontier| - 1
  {
    var m := 0;
    for q := 1 to |frontier|
      invariant 0 <= m < |frontier|
      invariant forall p :: 0 <= p < q ==> Precedes(frontier[m], frontier[p])
    {
      if !Precedes(frontier[m], frontier[q]) {
        m := q;
      }
    }
    c := frontier[m];
    rest := frontier[..m] + frontier[m + 1..];
    assert frontier == frontier[..m] + [c] + frontier[m + 1..];
  }

  /** Every frontier entry offers an arc from a vertex already in the tree. */
  ghost predicate FrontierSound(g: seq<seq<Arc>>, mst: seq<Visit>, frontier: seq<Candidate>)
    requires InGraph(g, mst)
  {
    forall x :: x in frontier ==>
      && 0 <= x.vertex < |g|
      && (|mst| >= 1 ==>
            exists j, i :: 0 <= j < |mst| && 0 <= i < |g[mst[j].vertex]| && Offer(g[mst[j].vertex][i]) == x)
  }

  /** Every arc from the tree leads into the tree or is on offer in the frontier. */
  ghost predicate FrontierComplete(g: seq<seq<Arc>>, mst: seq<Visit>, frontier: seq<Candidate>)
    requires InGraph(g, mst)
  {
    forall j, i :: 0 <= j < |mst| && 0 <= i < |g[mst[j].vertex]| ==>
      g[mst[j].vertex][i].to in Order(mst) || Offer(g[mst[j].vertex][i]) in frontier
  }

  /** What holds of the tree built so far and the frontier at the top of prim's loop. */
  ghost predicate PrimInv(g: seq<seq<Arc>>, mst: seq<Visit>, frontier: seq<Candidate>) {
    && InGraph(g, mst)
    && Distinct(Order(mst))
    && (|mst| == 0 ==> frontier == [Candidate(0, 0)])
    && (|mst| >= 1 ==> mst[0] == Visit(0, 0))
    && Grown(g, mst)
    && Cheapest(g, mst)
    && FrontierSound(g, mst, frontier)
    && FrontierComplete(g, mst, frontier)
  }

  lemma OrderAppend(mst: seq<Visit>, v: Visit)
    ensures Order(mst + [v]) == Order(mst) + [v.vertex]
  {
  }

  /** Popping an entry whose vertex is already in the tree keeps the invariant. */
  lemma SkipKeepsInv(g: seq<seq<Arc>>, mst: seq<Visit>, frontier: seq<Candidate>, c: Candidate, rest: seq<Candidate>)
    requires PrimInv(g, mst, frontier)
    requires c in frontier && multiset(rest) == multiset(frontier) - multiset{c}
    requires c.vertex in Order(mst)
    ensures PrimInv(g, mst, rest)
  {
    forall x | x in rest ensures x in frontier {
      assert x in multiset(rest);
    }
    forall j, i | 0 <= j < |mst| && 0 <= i < |g[mst[j].vertex]|
      ensures g[mst[j].vertex][i].to in Order(mst) || Offer(g[mst[j].vertex][i]) in rest
    {
      var o := Offer(g[mst[j].vertex][i]);
      if o in frontier && o != c {
        assert o in multiset(rest);
      }
    }
  }

  /** The tree grown by one popped entry whose vertex is new. */
  function Extend(mst: seq<Visit>, c: Candidate): seq<Visit> {
    mst + [Visit(c.vertex, c.weight)]
  }

  lemma VisitGrownOld(g: seq<seq<Arc>>, mst: seq<Visit>, c: Candidate, k: int)
    requires InGraph(g, mst) && Grown(g, mst) && 0 <= c.vertex < |g|
    requires 1 <= k < |mst|
    ensures InGraph(g, Extend(mst, c))
    ensures Extend(mst, c)[k].vertex !in Order(Extend(mst, c))[..k]
    ensures EnteredFromEarlier(g, Extend(mst, c), k)
  {
    var m := Extend(mst, c);
    assert Order(m)[..k] == Order(mst)[..k];
    assert EnteredFromEarlier(g, mst, k);
    var j, i :| 0 <= j < k && 0 <= i < |g[mst[j].vertex]| &&
      g[mst[j].vertex][i] == Arc(mst[k].vertex, mst[k].weight);
    assert m[j] == mst[j] && m[k] == mst[k];
  }

  lemma VisitGrownNew(g: seq<seq<Arc>>, mst: seq<Visit>, c: Candidate)
    requires InGraph(g, mst) && |mst| >= 1 && 0 <= c.vertex < |g|
    requires c.vertex !in Order(mst)
    requires exists j, i :: 0 <= j < |mst| && 0 <= i < |g[mst[j].vertex]| && Offer(g[mst[j].vertex][i]) == c
    ensures InGraph(g, Extend(mst, c))
    ensures Extend(mst, c)[|mst|].vertex !in Order(Extend(mst, c))[..|mst|]
    ensures EnteredFromEarlier(g, Extend(mst, c), |mst|)
  {
    var m := Extend(mst, c);
    var k := |mst|;
    OrderAppend(mst, Visit(c.vertex, c.weight));
    assert Order(m)[..k] == Order(mst);
    var j, i :| 0 <= j < |mst| && 0 <= i < |g[mst[j].vertex]| && Offer(g[mst[j].vertex][i]) == c;
    assert m[j] == mst[j];
    assert g[m[j].vertex][i] == Arc(m[k].vertex, m[k].weight);
  }

  lemma VisitGrown(g: seq<seq<Arc>>, mst: seq<Visit>, frontier: seq<Candidate>, c: Candidate)
    requires PrimInv(g, mst, frontier)
    requires c in frontier && c.vertex !in Order(mst)
    ensures InGraph(g, Extend(mst, c)) && Grown(g, Extend(mst, c))
  {
    var m := Extend(mst, c);
    assert InGraph(g, m);
    forall k | 1 <= k < |m|
      ensures m[k].vertex !in Order(m)[..k] && EnteredFromEarlier(g, m, k)
    {
      if k < |mst| {
        VisitGrownOld(g, mst, c, k);
      } else {
        VisitGrownNew(g, mst, c);
      }
    }
  }

  lemma VisitCheapest(g: seq<seq<Arc>>, mst: seq<Visit>, frontier: seq<Candidate>, c: Candidate)
    requires PrimInv(g, mst, frontier)
    requires c in frontier && (forall x :: x in frontier ==> Precedes(c, x))
    requires c.vertex !in Order(mst)
    ensures InGraph(g, Extend(mst, c)) && Cheapest(g, Extend(mst, c))
  {
    var m := Extend(mst, c);
    OrderAppend(mst, Visit(c.vertex, c.weight));
    forall k, j, i | 1 <= k < |m| && 0 <= j < k && 0 <= i < |g[m[j].vertex]| &&
        g[m[j].vertex][i].to !in Order(m)[..k]
      ensures Precedes(AsCandidate(m[k]), Offer(g[m[j].vertex][i]))
    {
      assert m[j] == mst[j];
      if k < |mst| {
        assert Order(m)[..k] == Order(mst)[..k];
        assert m[k] == mst[k];
      } else {
        assert Order(m)[..k] == Order(mst);
        assert Offer(g[mst[j].vertex][i]) in frontier;
      }
    }
  }

  /** What PushUnvisited promises, with visited read as membership in the grown tree. */
  ghost predicate PushedFrom(rest: seq<Candidate>, arcs: seq<Arc>, listed: seq<int>, grown: seq<Candidate>) {
    && (forall x :: x in rest ==> x in grown)
    && (forall i :: 0 <= i < |arcs| && arcs[i].to !in listed ==> Offer(arcs[i]) in grown)
    && (forall x :: x in grown ==> x in rest || exists i :: 0 <= i < |arcs| && x == Offer(arcs[i]))
  }

  lemma VisitFrontier(g: seq<seq<Arc>>, mst: seq<Visit>, frontier: seq<Candidate>, c: Candidate,
                      rest: seq<Candidate>, grown: seq<Candidate>)
    requires WellFormedWeighted(g)
    requires PrimInv(g, mst, frontier)
    requires c in frontier && multiset(rest) == multiset(frontier) - multiset{c}
    requires c.vertex !in Order(mst)
    requires PushedFrom(rest, g[c.vertex], Order(Extend(mst, c)), grown)
    ensures InGraph(g, Extend(mst, c))
    ensures FrontierSound(g, Extend(mst, c), grown)
    ensures FrontierComplete(g, Extend(mst, c), grown)
  {
    var m := Extend(mst, c);
    var k := |mst|;
    OrderAppend(mst, Visit(c.vertex, c.weight));
    forall x | x in rest ensures x in frontier {
      assert x in multiset(rest);
    }
    forall x | x in grown
      ensures exists j, i :: 0 <= j < |m| && 0 <= i < |g[m[j].vertex]| && Offer(g[m[j].vertex][i]) == x
    {
      if x in rest {
        if |mst| == 0 {
          assert false;
        } else {
          var j, i :| 0 <= j < |mst| && 0 <= i < |g[mst[j].vertex]| && Offer(g[mst[j].vertex][i]) == x;
          assert m[j] == mst[j];
        }
      } else {
        var i :| 0 <= i < |g[c.vertex]| && x == Offer(g[c.vertex][i]);
        assert m[k].vertex == c.vertex;
      }
    }
    forall j, i | 0 <= j < |m| && 0 <= i < |g[m[j].vertex]|
      ensures g[m[j].vertex][i].to in Order(m) || Offer(g[m[j].vertex][i]) in grown
    {
      if j < k {
        assert m[j] == mst[j];
        var o := Offer(g[mst[j].vertex][i]);
        if o in frontier && o != c {
          assert o in multiset(rest);
        }
      }
    }
  }

  /** Popping an entry whose vertex is new and pushing its arcs keeps the invariant. */
  lemma VisitKeepsInv(g: seq<seq<Arc>>, mst: seq<Visit>, frontier: seq<Candidate>, c: Candidate,
                      rest: seq<Candidate>, grown: seq<Candidate>)
    requires WellFormedWeighted(g)
    requires PrimInv(g, mst, frontier)
    requires c in frontier && (forall x :: x in frontier ==> Precedes(c, x))
    requires multiset(rest) == multiset(frontier) - multiset{c}
    requires c.vertex !in Order(mst)
    requires PushedFrom(rest, g[c.vertex], Order(Extend(mst, c)), grown)
    ensures PrimInv(g, Extend(mst, c), grown)
    ensures |Extend(mst, c)| <= |g|
  {
    var m := Extend(mst, c);
    OrderAppend(mst, Visit(c.vertex, c.weight));
    VisitGrown(g, mst, frontier, c);
    VisitCheapest(g, mst, frontier, c);
    VisitFrontier(g, mst, frontier, c, rest, grown);
    if |mst| == 0 {
      assert c == Candidate(0, 0);
    }
    DistinctVerticesBound(Order(m), |g|);
  }

  /** Every frontier entry names a vertex of the graph. */
  lemma FrontierInRange(g: seq<seq<Arc>>, mst: seq<Visit>, frontier: seq<Candidate>, c: Candidate)
    requires PrimInv(g, mst, frontier) && c in frontier
    ensures 0 <= c.vertex < |g|
  {
  }

  /** Once the frontier is empty the invariant is the postcondition. */
  lemma FinishedIsPrimOrder(g: seq<seq<Arc>>, mst: seq<Visit>)
    requires PrimInv(g, mst, [])
    ensures IsPrimOrder(g, mst)
  {
  }

  /** Pushing the arcs of the newly visited vertex whose target is not yet visited. */
  method PushUnvisited(frontier: seq<Candidate>, arcs: seq<Arc>, visited: array<bool>)
    returns (grown: seq<Candidate>)
    requires forall i :: 0 <= i < |arcs| ==> 0 <= arcs[i].to < visited.Length
    ensures forall x :: x in frontier ==> x in grown
    ensures forall i :: 0 <= i < |arcs| && !visited[arcs[i].to] ==> Offer(arcs[i]) in grown
    ensures forall x :: x in grown ==> x in frontier || exists i :: 0 <= i < |arcs| && !visited[arcs[i].to] && x == Offer(arcs[i])
  {
    grown := frontier;
    for i := 0 to |arcs|
      invariant forall x :: x in frontier ==> x in grown
      invariant forall i' :: 0 <= i' < i && !visited[arcs[i'].to] ==> Offer(arcs[i']) in grown
      invariant forall x :: x in grown ==> x in frontier || exists i' :: 0 <= i' < i && !visited[arcs[i'].to] && x == Offer(arcs[i'])
    {
      if !visited[arcs[i].to] {
        grown := grown + [Candidate(arcs[i].weight, arcs[i].to)];
      }
    }
  }

  /**
   * The visiting branch of prim's loop: mark the popped vertex, record it
   * and push the arcs from it to vertices not yet visited.
   */
  method VisitVertex(g: seq<seq<Arc>>, mst: seq<Visit>, frontier: seq<Candidate>, c: Candidate,
                     rest: seq<Candidate>, visited: array<bool>) returns (grown: seq<Candidate>)
    requires WellFormedWeighted(g) && visited.Length == |g| && PrimInv(g, mst, frontier)
    requires c in frontier && (forall x :: x in frontier ==> Precedes(c, x))
    requires multiset(rest) == multiset(frontier) - multiset{c}
    requires 0 <= c.vertex < |g| && !visited[c.vertex]
    requires forall x :: 0 <= x < |g| ==> (visited[x] <==> x in Order(mst))
    modifies visited
    ensures PrimInv(g, Extend(mst, c), grown) && |Extend(mst, c)| <= |g|
    ensures forall x :: 0 <= x < |g| ==> (visited[x] <==> x in Order(Extend(mst, c)))
  {
    visited[c.vertex] := true;
    OrderAppend(mst, Visit(c.vertex, c.weight));
    grown := PushUnvisited(rest, g[c.vertex], visited);
    VisitKeepsInv(g, mst, frontier, c, rest, grown);
  }

  /**
   * prim: the (vertex, weight) pairs in the order the vertices join the
   * tree. Vertex 0 must exist, since the routine marks it unconditionally.
   */
  method Prim(g: seq<seq<Arc>>) returns (mst: seq<Visit>)
    requires |g| >= 1 && WellFormedWeighted(g)
    ensures IsPrimOrder(g, mst)
  {
    var n := |g|;
    mst := [];
    var visited := new bool[n](_ => false);
    var frontier := [Candidate(0, 0)];
    while frontier != []
      invariant visited.Length == n && PrimInv(g, mst, frontier) && |mst| <= n
      invariant forall x :: 0 <= x < n ==> (visited[x] <==> x in Order(mst))
      decreases n - |mst|, |frontier|
    {
      var c, rest := PopMin(frontier);
      FrontierInRange(g, mst, frontier, c);
      if visited[c.vertex] {
        SkipKeepsInv(g, mst, frontier, c, rest);
        frontier := rest;
      } else {
        frontier := VisitVertex(g, mst, frontier, c, rest, visited);
        mst := Extend(mst, c);
      }
    }
    FinishedIsPrimOrder(g, mst);
  }

  /** Total weight of the recorded (vertex, weight) pairs. */
  function TotalWeight(mst: seq<Visit>): int {
    if mst == [] then 0 else TotalWeight(mst[..|mst| - 1]) + mst[|mst| - 1].weight
  }

  /** The unweighted view of a well-formed weighted graph is well formed. */
  lemma TargetsWellFormed(g: seq<seq<Arc>>)
    requires WellFormedWeighted(g)
    ensures WellFormed(Targets(g))
  {
  }

  /**
   * Where two Prim orders agree on the first p entries, each one's entry p
   * is one of the choices the other passed over, so it precedes it.
   */
  lemma PrimStepPrecedes(g: seq<seq<Arc>>, a: seq<Visit>, b: seq<Visit>, p: int)
    requires IsPrimOrder(g, a) && IsPrimOrder(g, b)
    requires 1 <= p < |a| && p < |b| && a[..p] == b[..p]
    ensures Precedes(AsCandidate(b[p]), AsCandidate(a[p]))
  {
    assert a[p].vertex !in Order(a)[..p] && EnteredFromEarlier(g, a, p);
    var j, i :| 0 <= j < p && 0 <= i < |g[a[j].vertex]| && g[a[j].vertex][i] == Arc(a[p].vertex, a[p].weight);
    assert a[j] == a[..p][j] == b[..p][j] == b[j];
    PrefixOrder(a, b, p);
    CheapestAt(g, b, p, j, i);
  }

  /** One instance of Cheapest: entry k precedes every arc from entry j < k to a vertex not yet listed. */
  lemma CheapestAt(g: seq<seq<Arc>>, mst: seq<Visit>, k: int, j: int, i: int)
    requires InGraph(g, mst) && Cheapest(g, mst)
    requires 1 <= k < |mst| && 0 <= j < k && 0 <= i < |g[mst[j].vertex]|
    requires g[mst[j].vertex][i].to !in Order(mst)[..k]
    ensures Precedes(AsCandidate(mst[k]), Offer(g[mst[j].vertex][i]))
  {
  }

  lemma {:induction false} PrimPrefixesAgree(g: seq<seq<Arc>>, a: seq<Visit>, b: seq<Visit>, k: int)
    requires IsPrimOrder(g, a) && IsPrimOrder(g, b)
    requires 1 <= k <= |a| && k <= |b|
    ensures a[..k] == b[..k]
  {
    if k > 1 {
      var p := k - 1;
      PrimPrefixesAgree(g, a, b, p);
      PrimStepPrecedes(g, a, b, p);
      PrimStepPrecedes(g, b, a, p);
      assert a[..k] == a[..p] + [a[p]] && b[..k] == b[..p] + [b[p]];
    } else {
      assert a[..1] == [a[0]] && b[..1] == [b[0]];
    }
  }

  lemma PrefixOrder(a: seq<Visit>, b: seq<Visit>, k: int)
    requires 0 <= k <= |a| && k <= |b| && a[..k] == b[..k]
    ensures Order(a)[..k] == Order(b)[..k]
  {
    forall l | 0 <= l < k ensures Order(a)[l] == Order(b)[l] {
      assert a[l] == a[..k][l] == b[..k][l] == b[l];
    }
  }

  /** A Prim order cannot continue past another Prim order of the same graph. */
  lemma PrimLengthBound(g: seq<seq<Arc>>, a: seq<Visit>, b: seq<Visit>)
    requires IsPrimOrder(g, a) && IsPrimOrder(g, b)
    ensures |b| <= |a|
  {
    if |a| < |b| {
      var k := |a|;
      PrimPrefixesAgree(g, a, b, k);
      assert EnteredFromEarlier(g, b, k);
      var j, i :| 0 <= j < k && 0 <= i < |g[b[j].vertex]| && g[b[j].vertex][i] == Arc(b[k].vertex, b[k].weight);
      assert a[j] == a[..k][j] == b[..k][j] == b[j];
      PrefixOrder(a, b, k);
      assert false;
    }
  }

  /**
   * The visit order is determined by the graph: ties in the queue are
   * broken by vertex number, so prim has exactly one possible result.
   */
  lemma PrimOrderUnique(g: seq<seq<Arc>>, a: seq<Visit>, b: seq<Visit>)
    requires IsPrimOrder(g, a) && IsPrimOrder(g, b)
    ensures a == b
  {
    PrimLengthBound(g, a, b);
    PrimLengthBound(g, b, a);
    PrimPrefixesAgree(g, a, b, |a|);
  }

  /** Each vertex is recorded once, so the result has at most n entries. */
  lemma PrimVisitsOnce(g: seq<seq<Arc>>, mst: seq<Visit>)
    requires IsPrimOrder(g, mst)
    ensures Distinct(Order(mst))
    ensures |mst| <= |g|
  {
    forall l, k | 0 <= l < k < |mst| ensures Order(mst)[l] != Order(mst)[k] {
      assert Order(mst)[..k][l] == Order(mst)[l];
    }
    DistinctVerticesBound(Order(mst), |g|);
  }

  lemma {:induction false} PrimEntryReachable(g: seq<seq<Arc>>, mst: seq<Visit>, k: int)
    requires WellFormedWeighted(g) && IsPrimOrder(g, mst)
    requires 0 <= k < |mst|
    ensures Reachable(Targets(g), 0, mst[k].vertex)
  {
    if k == 0 {
      ReachableSelf(Targets(g), 0);
    } else {
      assert EnteredFromEarlier(g, mst, k);
      var j, i :| 0 <= j < k && 0 <= i < |g[mst[j].vertex]| &&
        g[mst[j].vertex][i] == Arc(mst[k].vertex, mst[k].weight);
      PrimEntryReachable(g, mst, j);
      assert Targets(g)[mst[j].vertex][i] == mst[k].vertex;
      TargetsWellFormed(g);
      ReachableStep(Targets(g), 0, mst[j].vertex, mst[k].vertex);
    }
  }

  lemma PrimReachesAll(g: seq<seq<Arc>>, mst: seq<Visit>, v: int)
    requires IsPrimOrder(g, mst)
    requires Reachable(Targets(g), 0, v)
    ensures v in Order(mst)
  {
    var adj := Targets(g);
    var closed := Elements(Order(mst));
    forall x, y | x in closed && 0 <= x < |adj| && y in adj[x] ensures y in closed {
      var j :| 0 <= j < |mst| && Order(mst)[j] == x;
      var i :| 0 <= i < |adj[x]| && adj[x][i] == y;
      assert g[mst[j].vertex][i].to in Order(mst);
    }
    assert Order(mst)[0] == 0;
    ClosedSetHoldsReachable(adj, closed, 0, v);
  }

  /** prim records exactly the vertices reachable from vertex 0. */
  lemma PrimVisitsExactlyReachable(g: seq<seq<Arc>>, mst: seq<Visit>)
    requires WellFormedWeighted(g) && IsPrimOrder(g, mst)
    ensures forall v :: v in Order(mst) <==> Reachable(Targets(g), 0, v)
  {
    forall v ensures v in Order(mst) <==> Reachable(Targets(g), 0, v) {
      if v in Order(mst) {
        var k :| 0 <= k < |mst| && Order(mst)[k] == v;
        PrimEntryReachable(g, mst, k);
      }
      if Reachable(Targets(g), 0, v) {
        PrimReachesAll(g, mst, v);
      }
    }
  }

  /** On a graph where every vertex is reachable from 0, prim records all n vertices. */
  lemma PrimSpansConnected(g: seq<seq<Arc>>, mst: seq<Visit>)
    requires WellFormedWeighted(g) && IsPrimOrder(g, mst)
    requires forall v :: 0 <= v < |g| ==> Reachable(Targets(g), 0, v)
    ensures |mst| == |g|
  {
    PrimVisitsOnce(g, mst);
    forall v | 0 <= v < |g| ensures v in Order(mst) {
      PrimReachesAll(g, mst, v);
    }
    CoveredPrefixBound(Order(mst), |g|);
  }

  /** The weighted graph of the demonstration run. */
  function DemoWeightedGraph(): seq<seq<Arc>> {
    [ [Arc(1, 1), Arc(2, 2)],
      [Arc(0, 1), Arc(2, 3)],
      [Arc(0, 2), Arc(1, 3), Arc(3, 1)],
      [Arc(2, 1), Arc(4, 4), Arc(5, 5)],
      [Arc(3, 4)],
      [Arc(3, 5)] ]
  }

  function DemoTree(): seq<Visit> {
    [Visit(0, 0), Visit(1, 1), Visit(2, 2), Visit(3, 1), Visit(4, 4), Visit(5, 5)]
  }

  lemma DemoOrder()
    ensures Order(DemoTree()) == [0, 1, 2, 3, 4, 5]
  {
  }

  lemma DemoGrownAt(k: int)
    requires 1 <= k < 6
    ensures InGraph(DemoWeightedGraph(), DemoTree())
    ensures DemoTree()[k].vertex !in Order(DemoTree())[..k]
    ensures EnteredFromEarlier(DemoWeightedGraph(), DemoTree(), k)
  {
    var g: seq<seq<Arc>>, t: seq<Visit> := DemoWeightedGraph(), DemoTree();
    DemoOrder();
    if k == 1 {
      assert g[t[0].vertex][0] == Arc(t[1].vertex, t[1].weight);
    } else if k == 2 {
      assert g[t[0].vertex][1] == Arc(t[2].vertex, t[2].weight);
    } else if k == 3 {
      assert g[t[2].vertex][2] == Arc(t[3].vertex, t[3].weight);
    } else if k == 4 {
      assert g[t[3].vertex][1] == Arc(t[4].vertex, t[4].weight);
    } else {
      assert g[t[3].vertex][2] == Arc(t[5].vertex, t[5].weight);
    }
  }

  lemma DemoCheapestAt(k: int)
    requires 1 <= k < 6
    ensures InGraph(DemoWeightedGraph(), DemoTree())
    ensures forall j, i ::
      (0 <= j < k && 0 <= i < |DemoWeightedGraph()[DemoTree()[j].vertex]| &&
       DemoWeightedGraph()[DemoTree()[j].vertex][i].to !in Order(DemoTree())[..k]) ==>
        Precedes(AsCandidate(DemoTree()[k]), Offer(DemoWeightedGraph()[DemoTree()[j].vertex][i]))
  {
    DemoOrder();
    var o := Order(DemoTree());
    if k == 1 {
      assert o[..1] == [0];
    } else if k == 2 {
      assert o[..2] == [0, 1];
    } else if k == 3 {
      assert o[..3] == [0, 1, 2];
    } else if k == 4 {
      assert o[..4] == [0, 1, 2, 3];
    } else {
      assert o[..5] == [0, 1, 2, 3, 4];
    }
  }

  lemma DemoGrown()
    ensures InGraph(DemoWeightedGraph(), DemoTree())
    ensures Grown(DemoWeightedGraph(), DemoTree())
  {
    var g: seq<seq<Arc>>, t: seq<Visit> := DemoWeightedGraph(), DemoTree();
    forall k | 1 <= k < |t| ensures t[k].vertex !in Order(t)[..k] && EnteredFromEarlier(g, t, k) {
      DemoGrownAt(k);
    }
  }

  lemma DemoCheapest()
    ensures InGraph(DemoWeightedGraph(), DemoTree())
    ensures Cheapest(DemoWeightedGraph(), DemoTree())
  {
    var g: seq<seq<Arc>>, t: seq<Visit> := DemoWeightedGraph(), DemoTree();
    forall k: int, j: int, i: int | 1 <= k < |t| && 0 <= j < k && 0 <= i < |g[t[j].vertex]| && g[t[j].vertex][i].to !in Order(t)[..k]
      ensures Precedes(AsCandidate(t[k]), Offer(g[t[j].vertex][i]))
    {
      DemoCheapestAt(k);
    }
  }

  lemma DemoClosed()
    ensures WellFormedWeighted(DemoWeightedGraph())
    ensures InGraph(DemoWeightedGraph(), DemoTree())
    ensures Closed(DemoWeightedGraph(), DemoTree())
  {
    DemoOrder();
  }

  lemma DemoIsPrimOrder()
    ensures WellFormedWeighted(DemoWeightedGraph())
    ensures IsPrimOrder(DemoWeightedGraph(), DemoTree())
  {
    DemoClosed();
    DemoGrown();
    DemoCheapest();
  }

  lemma DemoTotalWeight()
    ensures TotalWeight(DemoTree()) == 13
  {
    var t := DemoTree();
    assert TotalWeight(t[..0]) == 0;
    assert TotalWeight(t[..1]) == 0 by { assert t[..1][..0] == t[..0]; }
    assert TotalWeight(t[..2]) == 1 by { assert t[..2][..1] == t[..1]; }
    assert TotalWeight(t[..3]) == 3 by { assert t[..3][..2] == t[..2]; }
    assert TotalWeight(t[..4]) == 4 by { assert t[..4][..3] == t[..3]; }
    assert TotalWeight(t[..5]) == 8 by { assert t[..5][..4] == t[..4]; }
    assert t[..6] == t;
  }

  /**
   * The demonstration run: the vertices join in order 0..5 with weights
   * 0, 1, 2, 1, 4, 5, for a total of 13.
   */
  method DemoPrim() returns (mst: seq<Visit>)
    ensures mst == [Visit(0, 0), Visit(1, 1), Visit(2, 2), Visit(3, 1), Visit(4, 4), Visit(5, 5)]
    ensures TotalWeight(mst) == 13
  {
    DemoIsPrimOrder();
    mst := Prim(DemoWeightedGraph());
    PrimOrderUnique(DemoWeightedGraph(), mst, DemoTree());
    DemoTotalWeight();
  }
}
