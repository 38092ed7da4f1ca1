/**
 * Kruskal's algorithm with component labels: sort the (weight, u, v) edges,
 * then accept an edge exactly when its endpoints carry different labels,
 * relabelling v's whole component with u's label. The labels stand for
 * "connected by the edges accepted so far", which is what the reference
 * selection Select below uses directly.
 */
module Kruskal {
  import opened GraphBasics
  import opened Sorting

  /** An undirected weighted edge, ordered by weight, then u, then v. */
  datatype WeightedEdge = WeightedEdge(weight: int, u: int, v: int)

  /** The lexicographic order of (weight, (u, v)) that std::sort applies to the edges. */
  predicate EdgeLe(a: WeightedEdge, b: WeightedEdge) {
    || a.weight < b.weight
    || (a.weight == b.weight && a.u < b.u)
    || (a.weight == b.weight && a.u == b.u && a.v <= b.v)
  }

  lemma EdgeLeTotalOrder()
    ensures TotalOrder(EdgeLe)
  {
  }

  /** An accepted edge, as the pair (u, v) the routine returns. */
  type Link = (int, int)

  /** The accepted edges contain x-y in one direction or the other. */
  ghost predicate Joins(tree: seq<Link>, x: int, y: int) {
    exists k :: 0 <= k < |tree| && (tree[k] == (x, y) || tree[k] == (y, x))
  }

  /** p is a walk along accepted edges. */
  ghost predicate IsWalk(tree: seq<Link>, p: seq<int>) {
    |p| >= 1 && forall i :: 0 <= i < |p| - 1 ==> Joins(tree, p[i], p[i + 1])
  }

  /** x and y lie in the same component of the accepted edges. */
  ghost predicate Connected(tree: seq<Link>, x: int, y: int) {
    exists p :: IsWalk(tree, p) && p[0] == x && p[|p| - 1] == y
  }

  /**
   * The reference selection: go through the sorted edges in order and keep
   * an edge exactly when the edges kept so far do not already connect its
   * endpoints.
   */
  ghost function Select(sorted: seq<WeightedEdge>, tree: seq<Link>): seq<Link>
    decreases |sorted|
  {
    if sorted == [] then tree
    else
      var e := sorted[0];
      Select(sorted[1..], if Connected(tree, e.u, e.v) then tree else tree + [(e.u, e.v)])
  }

  /** Every accepted edge joins two vertices of an n-vertex graph. */
  ghost predicate TreeInRange(tree: seq<Link>, n: int) {
    forall k :: 0 <= k < |tree| ==> 0 <= tree[k].0 < n && 0 <= tree[k].1 < n
  }

  /** Each label is equal across every accepted edge. */
  ghost predicate Respects(tree: seq<Link>, labels: seq<int>) {
    && TreeInRange(tree, |labels|)
    && forall k :: 0 <= k < |tree| ==> labels[tree[k].0] == labels[tree[k].1]
  }

  /** Two vertices share a label exactly when the accepted edges connect them. */
  ghost predicate LabelsMatch(tree: seq<Link>, labels: seq<int>) {
    forall x, y :: 0 <= x < |labels| && 0 <= y < |labels| ==>
      (labels[x] == labels[y] <==> Connected(tree, x, y))
  }

  /** The labels in use. */
  function LabelSet(labels: seq<int>): set<int> {
    set i | 0 <= i < |labels| :: labels[i]
  }

  /** Every vertex labelled from is relabelled to. */
  function Merged(labels: seq<int>, from: int, to: int): (r: seq<int>)
    ensures |r| == |labels|
    ensures forall i :: 0 <= i < |labels| ==> r[i] == (if labels[i] == from then to else labels[i])
  {
    seq(|labels|, i requires 0 <= i < |labels| => if labels[i] == from then to else labels[i])
  }

  lemma ConnectedSelf(tree: seq<Link>, x: int)
    ensures Connected(tree, x, x)
  {
    assert IsWalk(tree, [x]);
  }

  lemma ConnectedByEdge(tree: seq<Link>, x: int, y: int)
    requires Joins(tree, x, y)
    ensures Connected(tree, x, y)
  {
    assert IsWalk(tree, [x, y]);
  }

  lemma ConnectedTransitive(tree: seq<Link>, x: int, y: int, z: int)
    requires Connected(tree, x, y) && Connected(tree, y, z)
    ensures Connected(tree, x, z)
  {
    var p :| IsWalk(tree, p) && p[0] == x && p[|p| - 1] == y;
    var q :| IsWalk(tree, q) && q[0] == y && q[|q| - 1] == z;
    var r := p + q[1..];
    forall i | 0 <= i < |r| - 1 ensures Joins(tree, r[i], r[i + 1]) {
      if i < |p| - 1 {
        assert r[i] == p[i] && r[i + 1] == p[i + 1];
      } else {
        var j := i - |p| + 1;
        assert r[i] == q[j] && r[i + 1] == q[j + 1];
      }
    }
    assert IsWalk(tree, r);
  }

  /** Accepting more edges never disconnects anything. */
  lemma ConnectedGrows(tree: seq<Link>, more: seq<Link>, x: int, y: int)
    requires Connected(tree, x, y)
    ensures Connected(tree + more, x, y)
  {
    var p :| IsWalk(tree, p) && p[0] == x && p[|p| - 1] == y;
    forall i | 0 <= i < |p| - 1 ensures Joins(tree + more, p[i], p[i + 1]) {
      var k :| 0 <= k < |tree| && (tree[k] == (p[i], p[i + 1]) || tree[k] == (p[i + 1], p[i]));
      assert (tree + more)[k] == tree[k];
    }
    assert IsWalk(tree + more, p);
  }

  /** A labelling that respects the accepted edges is constant along every walk. */
  lemma {:induction false} WalkKeepsLabel(tree: seq<Link>, labels: seq<int>, p: seq<int>)
    requires Respects(tree, labels) && IsWalk(tree, p)
    requires 0 <= p[0] < |labels|
    ensures 0 <= p[|p| - 1] < |labels| && labels[p[|p| - 1]] == labels[p[0]]
  {
    if |p| > 1 {
      var q := p[..|p| - 1];
      assert IsWalk(tree, q);
      WalkKeepsLabel(tree, labels, q);
      var a, b := p[|p| - 2], p[|p| - 1];
      assert a == q[|q| - 1];
      assert Joins(tree, a, b);
      var k :| 0 <= k < |tree| && (tree[k] == (a, b) || tree[k] == (b, a));
    }
  }

  /** Vertices with different labels under a respecting labelling are not connected. */
  lemma LabelsSeparate(tree: seq<Link>, labels: seq<int>, x: int, y: int)
    requires Respects(tree, labels)
    requires 0 <= x < |labels| && 0 <= y < |labels| && labels[x] != labels[y]
    ensures !Connected(tree, x, y)
  {
    if p :| IsWalk(tree, p) && p[0] == x && p[|p| - 1] == y {
      WalkKeepsLabel(tree, labels, p);
    }
  }

  /** With no edges accepted, every vertex is its own component. */
  lemma ConnectedEmpty(x: int, y: int)
    requires Connected([], x, y)
    ensures x == y
  {
    var p :| IsWalk([], p) && p[0] == x && p[|p| - 1] == y;
    if |p| > 1 {
      NothingJoinedYet(p[0], p[1]);
      assert false;
    }
  }

  lemma NothingJoinedYet(x: int, y: int)
    ensures !Joins([], x, y)
  {
  }

  /** The initial labelling parent[i] = i matches the empty selection. */
  lemma IdentityLabelsMatch(n: nat)
    ensures LabelsMatch([], seq(n, i => i))
    ensures LabelSet(seq(n, i => i)) == Range(n)
  {
    var labels := seq(n, i => i);
    forall x, y | 0 <= x < n && 0 <= y < n ensures labels[x] == labels[y] <==> Connected([], x, y) {
      if x == y {
        ConnectedSelf([], x);
      }
      if Connected([], x, y) {
        ConnectedEmpty(x, y);
      }
    }
    forall l | l in Range(n) ensures l in LabelSet(labels) {
      assert labels[l] == l;
    }
  }

  /** A labelling that matches the components respects the accepted edges. */
  lemma MatchingLabelsRespect(tree: seq<Link>, labels: seq<int>)
    requires LabelsMatch(tree, labels) && TreeInRange(tree, |labels|)
    ensures Respects(tree, labels)
  {
    forall k | 0 <= k < |tree| ensures labels[tree[k].0] == labels[tree[k].1] {
      assert Joins(tree, tree[k].0, tree[k].1);
      ConnectedByEdge(tree, tree[k].0, tree[k].1);
    }
  }

  /** Relabelling v's component with u's label respects the grown selection. */
  lemma MergeRespects(tree: seq<Link>, labels: seq<int>, u: int, v: int)
    requires Respects(tree, labels)
    requires 0 <= u < |labels| && 0 <= v < |labels|
    ensures Respects(tree + [(u, v)], Merged(labels, labels[v], labels[u]))
  {
  }

  /** Vertices that share a label after the merge are connected once u-v is accepted. */
  lemma MergeConnects(tree: seq<Link>, labels: seq<int>, u: int, v: int, x: int, y: int)
    requires LabelsMatch(tree, labels)
    requires 0 <= u < |labels| && 0 <= v < |labels|
    requires 0 <= x < |labels| && 0 <= y < |labels|
    requires Merged(labels, labels[v], labels[u])[x] == Merged(labels, labels[v], labels[u])[y]
    ensures Connected(tree + [(u, v)], x, y)
  {
    var grown := tree + [(u, v)];
    assert grown[|tree|] == (u, v);
    if labels[x] == labels[y] {
      ConnectedGrows(tree, [(u, v)], x, y);
    } else if labels[x] == labels[v] {
      // x lies in v's component and y in u's
      ConnectedGrows(tree, [(u, v)], x, v);
      ConnectedGrows(tree, [(u, v)], u, y);
      ConnectedByEdge(grown, v, u);
      ConnectedTransitive(grown, x, v, u);
      ConnectedTransitive(grown, x, u, y);
    } else {
      // x lies in u's component and y in v's
      ConnectedGrows(tree, [(u, v)], x, u);
      ConnectedGrows(tree, [(u, v)], v, y);
      ConnectedByEdge(grown, u, v);
      ConnectedTransitive(grown, x, u, v);
      ConnectedTransitive(grown, x, v, y);
    }
  }

  /** Accepting u-v and relabelling v's component keeps the labels matching the components. */
  lemma MergeMatches(tree: seq<Link>, labels: seq<int>, u: int, v: int)
    requires LabelsMatch(tree, labels) && TreeInRange(tree, |labels|)
    requires 0 <= u < |labels| && 0 <= v < |labels|
    ensures LabelsMatch(tree + [(u, v)], Merged(labels, labels[v], labels[u]))
  {
    var merged := Merged(labels, labels[v], labels[u]);
    MatchingLabelsRespect(tree, labels);
    MergeRespects(tree, labels, u, v);
    forall x, y | 0 <= x < |merged| && 0 <= y < |merged|
      ensures merged[x] == merged[y] <==> Connected(tree + [(u, v)], x, y)
    {
      if merged[x] == merged[y] {
        MergeConnects(tree, labels, u, v, x, y);
      }
      if Connected(tree + [(u, v)], x, y) {
        var p :| IsWalk(tree + [(u, v)], p) && p[0] == x && p[|p| - 1] == y;
        WalkKeepsLabel(tree + [(u, v)], merged, p);
      }
    }
  }

  /** Merging two different labels leaves one label fewer. */
  lemma MergeDropsLabel(labels: seq<int>, u: int, v: int)
    requires 0 <= u < |labels| && 0 <= v < |labels| && labels[u] != labels[v]
    ensures LabelSet(Merged(labels, labels[v], labels[u])) == LabelSet(labels) - {labels[v]}
    ensures |LabelSet(Merged(labels, labels[v], labels[u]))| == |LabelSet(labels)| - 1
  {
    var merged := Merged(labels, labels[v], labels[u]);
    forall l | l in LabelSet(labels) - {labels[v]} ensures l in LabelSet(merged) {
      var i :| 0 <= i < |labels| && labels[i] == l;
      assert merged[i] == l;
    }
    assert labels[v] in LabelSet(labels);
  }

  /** What one edge does to the selection, given labels that match the components. */
  lemma SelectStep(sorted: seq<WeightedEdge>, i: int, tree: seq<Link>, labels: seq<int>)
    requires 0 <= i < |sorted| && LabelsMatch(tree, labels)
    requires 0 <= sorted[i].u < |labels| && 0 <= sorted[i].v < |labels|
    ensures Select(sorted[i..], tree) ==
      Select(sorted[i + 1..],
        if labels[sorted[i].u] == labels[sorted[i].v] then tree else tree + [(sorted[i].u, sorted[i].v)])
  {
    assert sorted[i..][1..] == sorted[i + 1..];
  }

  /** The state of kruskals after the first i sorted edges, with labels as the parent array. */
  ghost predicate KruskalInv(sorted: seq<WeightedEdge>, i: int, mst: seq<Link>, labels: seq<int>, n: int) {
    && 0 <= i <= |sorted| && |labels| == n
    && (forall x :: 0 <= x < n ==> 0 <= labels[x] < n)
    && Select(sorted[i..], mst) == Select(sorted, [])
    && TreeInRange(mst, n)
    && LabelsMatch(mst, labels)
    && |LabelSet(labels)| + |mst| == n
  }

  /** One iteration of the outer loop keeps KruskalInv, whether the edge is accepted or not. */
  lemma KruskalStep(sorted: seq<WeightedEdge>, i: int, mst: seq<Link>, labels: seq<int>, n: int)
    requires KruskalInv(sorted, i, mst, labels, n) && i < |sorted|
    requires 0 <= sorted[i].u < n && 0 <= sorted[i].v < n
    ensures labels[sorted[i].u] == labels[sorted[i].v] ==> KruskalInv(sorted, i + 1, mst, labels, n)
    ensures labels[sorted[i].u] != labels[sorted[i].v] ==>
      KruskalInv(sorted, i + 1, mst + [(sorted[i].u, sorted[i].v)],
        Merged(labels, labels[sorted[i].v], labels[sorted[i].u]), n)
  {
    var u, v := sorted[i].u, sorted[i].v;
    SelectStep(sorted, i, mst, labels);
    if labels[u] != labels[v] {
      MergeMatches(mst, labels, u, v);
      MergeDropsLabel(labels, u, v);
    }
  }

  /** Before the first edge: nothing accepted, every vertex its own label. */
  lemma KruskalStart(sorted: seq<WeightedEdge>, labels: seq<int>)
    requires forall x :: 0 <= x < |labels| ==> labels[x] == x
    ensures KruskalInv(sorted, 0, [], labels, |labels|)
  {
    assert labels == seq(|labels|, i => i);
    IdentityLabelsMatch(|labels|);
    assert sorted[0..] == sorted;
  }

  /**
   * After the last edge the accepted list is the selection, and since each
   * accepted edge removed one of n labels while at least one label remains,
   * a non-empty result has fewer than n edges.
   */
  lemma KruskalFinish(sorted: seq<WeightedEdge>, mst: seq<Link>, labels: seq<int>, n: int)
    requires KruskalInv(sorted, |sorted|, mst, labels, n)
    ensures mst == Select(sorted, [])
    ensures mst == [] || |mst| < n
  {
    assert sorted[|sorted|..] == [];
    if n > 0 {
      assert labels[0] in LabelSet(labels);
    }
  }

  /** Sorting moves edges around but keeps every endpoint a vertex. */
  lemma SortKeepsEndpoints(original: seq<WeightedEdge>, sorted: seq<WeightedEdge>, n: int)
    requires forall k :: 0 <= k < |original| ==> 0 <= original[k].u < n && 0 <= original[k].v < n
    requires multiset(sorted) == multiset(original)
    ensures forall k :: 0 <= k < |sorted| ==> 0 <= sorted[k].u < n && 0 <= sorted[k].v < n
  {
    forall k | 0 <= k < |sorted| ensures 0 <= sorted[k].u < n && 0 <= sorted[k].v < n {
      assert sorted[k] in multiset(original);
    }
  }

  /** The in-place relabelling loop: every label from becomes to. */
  method Relabel(parent: array<int>, from: int, to: int)
    modifies parent
    ensures parent[..] == Merged(old(parent[..]), from, to)
  {
    for i := 0 to parent.Length
      invariant forall j :: 0 <= j < i ==> parent[j] == (if old(parent[j]) == from then to else old(parent[j]))
      invariant forall j :: i <= j < parent.Length ==> parent[j] == old(parent[j])
    {
      if parent[i] == from {
        parent[i] := to;
      }
    }
  }

  /** std::sort on the edge vector, in place. */
  method SortEdges(edges: array<WeightedEdge>)
    modifies edges
    ensures edges[..] == Sort(old(edges[..]), EdgeLe)
  {
    EdgeLeTotalOrder();
    var sorted := Sort(edges[..], EdgeLe);
    assert |sorted| == |multiset(sorted)| == |multiset(edges[..])| == edges.Length;
    forall i | 0 <= i < edges.Length {
      edges[i] := sorted[i];
    }
  }

  /**
   * One pass of kruskals' outer loop: the edge is accepted when its
   * endpoints carry different labels, and then every vertex labelled like
   * v is relabelled like u.
   */
  method ConsiderEdge(e: WeightedEdge, parent: array<int>, mst: seq<Link>,
                      ghost sorted: seq<WeightedEdge>, ghost i: int) returns (grown: seq<Link>)
    requires 0 <= i < |sorted| && sorted[i] == e
    requires 0 <= e.u < parent.Length && 0 <= e.v < parent.Length
    requires KruskalInv(sorted, i, mst, parent[..], parent.Length)
    modifies parent
    ensures KruskalInv(sorted, i + 1, grown, parent[..], parent.Length)
    ensures old(parent[e.u]) != old(parent[e.v]) ==>
              grown == mst + [(e.u, e.v)] && parent[..] == Merged(old(parent[..]), old(parent[e.v]), old(parent[e.u]))
    ensures old(parent[e.u]) == old(parent[e.v]) ==> grown == mst && parent[..] == old(parent[..])
  {
    var u, v := e.u, e.v;
    var pu, pv := parent[u], parent[v];
    KruskalStep(sorted, i, mst, parent[..], parent.Length);
    grown := mst;
    if pu != pv {
      grown := mst + [(u, v)];
      Relabel(parent, pv, pu);
    }
  }

  /**
   * kruskals: sorts the caller's edge vector in place, then returns the
   * accepted (u, v) pairs in the order they were accepted. Only the size of
   * nodes is used; every endpoint must be one of its indices.
   */
  method Kruskal(nodes: seq<(int, int)>, edges: array<WeightedEdge>) returns (mst: seq<Link>)
    requires forall k :: 0 <= k < edges.Length ==> 0 <= edges[k].u < |nodes| && 0 <= edges[k].v < |nodes|
    modifies edges
    ensures edges[..] == Sort(old(edges[..]), EdgeLe)
    ensures mst == Select(edges[..], [])
    ensures mst == [] || |mst| < |nodes|
  {
    var n := |nodes|;
    var parent := new int[n];
    for i := 0 to n
      invariant forall x :: 0 <= x < i ==> parent[x] == x
      invariant edges[..] == old(edges[..])
    {
      parent[i] := i;
    }
    ghost var original := edges[..];
    SortEdges(edges);
    ghost var sorted := edges[..];
    assert multiset(sorted) == multiset(original) by {
      EdgeLeTotalOrder();
    }
    SortKeepsEndpoints(original, sorted, n);
    KruskalStart(sorted, parent[..]);
    mst := [];
    for i := 0 to edges.Length
      invariant edges[..] == sorted
      invariant parent.Length == n
      invariant KruskalInv(sorted, i, mst, parent[..], n)
    {
      mst := ConsiderEdge(edges[i], parent, mst, sorted, i);
    }
    KruskalFinish(sorted, mst, parent[..], n);
  }

  /** Every accepted edge joins two vertices the edges accepted before it did not connect. */
  ghost predicate Forest(tree: seq<Link>) {
    forall k :: 0 <= k < |tree| ==> !Connected(tree[..k], tree[k].0, tree[k].1)
  }

  /** The selection only ever appends to the edges already accepted. */
  lemma {:induction false} SelectExtends(sorted: seq<WeightedEdge>, tree: seq<Link>)
    ensures |tree| <= |Select(sorted, tree)|
    ensures Select(sorted, tree)[..|tree|] == tree
    decreases |sorted|
  {
    if sorted != [] {
      var e := sorted[0];
      var next := if Connected(tree, e.u, e.v) then tree else tree + [(e.u, e.v)];
      SelectExtends(sorted[1..], next);
      assert next[..|tree|] == tree;
    }
  }

  /** An edge accepted by the selection never closes a cycle. */
  lemma {:induction false} SelectKeepsForest(sorted: seq<WeightedEdge>, tree: seq<Link>)
    requires Forest(tree)
    ensures Forest(Select(sorted, tree))
    decreases |sorted|
  {
    if sorted != [] {
      var e := sorted[0];
      if !Connected(tree, e.u, e.v) {
        var grown := tree + [(e.u, e.v)];
        forall k | 0 <= k < |grown| ensures !Connected(grown[..k], grown[k].0, grown[k].1) {
          if k < |tree| {
            assert grown[..k] == tree[..k];
          } else {
            assert grown[..k] == tree;
          }
        }
        SelectKeepsForest(sorted[1..], grown);
      } else {
        SelectKeepsForest(sorted[1..], tree);
      }
    }
  }

  lemma SelectKeepsConnected(sorted: seq<WeightedEdge>, tree: seq<Link>, x: int, y: int)
    requires Connected(tree, x, y)
    ensures Connected(Select(sorted, tree), x, y)
  {
    var r := Select(sorted, tree);
    SelectExtends(sorted, tree);
    assert r == tree + r[|tree|..];
    ConnectedGrows(tree, r[|tree|..], x, y);
  }

  /** Every input edge's endpoints end up connected by the selection. */
  lemma {:induction false} SelectSpans(sorted: seq<WeightedEdge>, tree: seq<Link>, k: int)
    requires 0 <= k < |sorted|
    ensures Connected(Select(sorted, tree), sorted[k].u, sorted[k].v)
    decreases |sorted|
  {
    var e := sorted[0];
    var next := if Connected(tree, e.u, e.v) then tree else tree + [(e.u, e.v)];
    if k == 0 {
      if !Connected(tree, e.u, e.v) {
        assert next[|tree|] == (e.u, e.v);
        ConnectedByEdge(next, e.u, e.v);
      }
      SelectKeepsConnected(sorted[1..], next, e.u, e.v);
    } else {
      SelectSpans(sorted[1..], next, k - 1);
    }
  }

  /** Every edge the selection adds is one of the input edges. */
  lemma {:induction false} SelectFromInput(sorted: seq<WeightedEdge>, tree: seq<Link>)
    ensures |tree| <= |Select(sorted, tree)|
    ensures forall k :: |tree| <= k < |Select(sorted, tree)| ==>
      exists e :: e in sorted && Select(sorted, tree)[k] == (e.u, e.v)
    decreases |sorted|
  {
    SelectExtends(sorted, tree);
    if sorted != [] {
      var e := sorted[0];
      var next := if Connected(tree, e.u, e.v) then tree else tree + [(e.u, e.v)];
      SelectFromInput(sorted[1..], next);
      var r := Select(sorted, tree);
      forall k | |tree| <= k < |r| ensures exists e' :: e' in sorted && r[k] == (e'.u, e'.v) {
        if k < |next| {
          SelectExtends(sorted[1..], next);
          assert r[k] == next[k] == (e.u, e.v);
        } else {
          var e' :| e' in sorted[1..] && r[k] == (e'.u, e'.v);
          assert e' in sorted;
        }
      }
    }
  }

  /**
   * The edges kruskals accepts form a spanning forest of the input: no
   * accepted edge closes a cycle, every input edge's endpoints end up
   * connected, and every accepted pair is an input edge.
   */
  lemma SelectIsSpanningForest(sorted: seq<WeightedEdge>)
    ensures Forest(Select(sorted, []))
    ensures forall k :: 0 <= k < |sorted| ==> Connected(Select(sorted, []), sorted[k].u, sorted[k].v)
    ensures forall k :: 0 <= k < |Select(sorted, [])| ==>
      exists e :: e in sorted && Select(sorted, [])[k] == (e.u, e.v)
  {
    SelectKeepsForest(sorted, []);
    forall k | 0 <= k < |sorted| ensures Connected(Select(sorted, []), sorted[k].u, sorted[k].v) {
      SelectSpans(sorted, [], k);
    }
    SelectFromInput(sorted, []);
  }

  /** The edge list of the demonstration run, as given. */
  function DemoEdges(): seq<WeightedEdge> {
    [ WeightedEdge(1, 0, 1), WeightedEdge(2, 0, 2), WeightedEdge(3, 1, 2),
      WeightedEdge(1, 2, 3), WeightedEdge(4, 3, 4), WeightedEdge(5, 4, 5) ]
  }

  /** The demonstration edges in sorted order, entry by entry. */
  ghost predicate IsDemoSorted(s: seq<WeightedEdge>) {
    && |s| == 6
    && s[0] == WeightedEdge(1, 0, 1) && s[1] == WeightedEdge(1, 2, 3) && s[2] == WeightedEdge(2, 0, 2)
    && s[3] == WeightedEdge(3, 1, 2) && s[4] == WeightedEdge(4, 3, 4) && s[5] == WeightedEdge(5, 4, 5)
  }

  function DemoSorted(): seq<WeightedEdge> {
    [ WeightedEdge(1, 0, 1), WeightedEdge(1, 2, 3), WeightedEdge(2, 0, 2),
      WeightedEdge(3, 1, 2), WeightedEdge(4, 3, 4), WeightedEdge(5, 4, 5) ]
  }

  /** The sorted demonstration list is in order. */
  lemma DemoSortedInOrder()
    ensures Sorted(DemoSorted(), EdgeLe)
  {
    var d := DemoSorted();
    assert forall i :: 0 <= i < |d| - 1 ==> EdgeLe(d[i], d[i + 1]);
    EdgeLeTotalOrder();
    SortedFromNeighbours(d, EdgeLe);
  }

  /** The sorted demonstration list holds the given edges: the weight-1 edge 2-3 moves up two places. */
  lemma DemoSameEdges()
    ensures multiset(DemoSorted()) == multiset(DemoEdges())
  {
    var a, b, c, d := [WeightedEdge(1, 0, 1)], [WeightedEdge(1, 2, 3)],
      [WeightedEdge(2, 0, 2), WeightedEdge(3, 1, 2)], [WeightedEdge(4, 3, 4), WeightedEdge(5, 4, 5)];
    assert DemoSorted() == a + b + c + d;
    assert DemoEdges() == a + c + b + d;
  }

  /** Any ordered permutation of the demonstration edges is the sorted list above. */
  lemma DemoSort(s: seq<WeightedEdge>)
    requires Sorted(s, EdgeLe) && multiset(s) == multiset(DemoEdges())
    ensures IsDemoSorted(s)
  {
    DemoSortedInOrder();
    DemoSameEdges();
    EdgeLeTotalOrder();
    SortedPermutationUnique(s, DemoSorted(), EdgeLe);
  }

  /** An edge whose endpoints a respecting labelling separates is accepted. */
  lemma SelectAccepts(sorted: seq<WeightedEdge>, tree: seq<Link>, labels: seq<int>)
    requires sorted != [] && Respects(tree, labels)
    requires 0 <= sorted[0].u < |labels| && 0 <= sorted[0].v < |labels|
    requires labels[sorted[0].u] != labels[sorted[0].v]
    ensures Select(sorted, tree) == Select(sorted[1..], tree + [(sorted[0].u, sorted[0].v)])
  {
    LabelsSeparate(tree, labels, sorted[0].u, sorted[0].v);
  }

  /** An edge whose endpoints are already connected is rejected. */
  lemma SelectRejects(sorted: seq<WeightedEdge>, tree: seq<Link>, p: seq<int>)
    requires sorted != [] && IsWalk(tree, p) && p[0] == sorted[0].u && p[|p| - 1] == sorted[0].v
    ensures Select(sorted, tree) == Select(sorted[1..], tree)
  {
  }

  /** 0-1 and 2-3 join vertices that are still apart. */
  lemma DemoSelectFirst(s: seq<WeightedEdge>)
    requires IsDemoSorted(s)
    ensures Select(s, []) == Select(s[2..], [(0, 1), (2, 3)])
  {
    var t1 := [] + [(s[0].u, s[0].v)];
    var t2 := t1 + [(s[1].u, s[1].v)];
    SelectAccepts(s, [], [0, 1, 2, 3, 4, 5]);
    assert s[1..][1..] == s[2..];
    SelectAccepts(s[1..], t1, [0, 0, 2, 3, 4, 5]);
    assert t2 == [(0, 1), (2, 3)];
  }

  /** 0-2 is accepted; then 1-2 is rejected, since 1-0-2 already connects it. */
  lemma DemoSelectMiddle(s: seq<WeightedEdge>, t: seq<Link>)
    requires |s| == 4 && s[0] == WeightedEdge(2, 0, 2) && s[1] == WeightedEdge(3, 1, 2)
    requires t == [(0, 1), (2, 3)]
    ensures Select(s, t) == Select(s[2..], t + [(0, 2)])
  {
    SelectAccepts(s, t, [0, 0, 2, 2, 4, 5]);
    var t3 := t + [(0, 2)];
    assert s[1..][1..] == s[2..];
    assert t3[0] == (0, 1) && t3[2] == (0, 2);
    assert Joins(t3, 1, 0) && Joins(t3, 0, 2);
    SelectRejects(s[1..], t3, [1, 0, 2]);
  }

  /** 3-4 and 4-5 each reach a vertex not yet connected. */
  lemma DemoSelectLast(s: seq<WeightedEdge>, t: seq<Link>)
    requires |s| == 2 && s[0] == WeightedEdge(4, 3, 4) && s[1] == WeightedEdge(5, 4, 5)
    requires t == [(0, 1), (2, 3), (0, 2)]
    ensures Select(s, t) == t + [(3, 4), (4, 5)]
  {
    SelectAccepts(s, t, [0, 0, 0, 0, 4, 5]);
    assert s[1..][1..] == [];
    SelectAccepts(s[1..], t + [(3, 4)], [0, 0, 0, 0, 0, 5]);
    assert t + [(3, 4)] + [(4, 5)] == t + [(3, 4), (4, 5)];
  }

  /** The selection on the sorted demonstration edges rejects only 1-2. */
  lemma DemoSelect(s: seq<WeightedEdge>)
    requires IsDemoSorted(s)
    ensures Select(s, []) == [(0, 1), (2, 3), (0, 2), (3, 4), (4, 5)]
  {
    DemoSelectFirst(s);
    DemoSelectMiddle(s[2..], [(0, 1), (2, 3)]);
    assert s[2..][2..] == s[4..];
    DemoSelectLast(s[4..], [(0, 1), (2, 3)] + [(0, 2)]);
    assert [(0, 1), (2, 3)] + [(0, 2)] + [(3, 4), (4, 5)] == [(0, 1), (2, 3), (0, 2), (3, 4), (4, 5)];
  }

  /**
   * The demonstration run: after sorting, the weight-3 edge 1-2 is the only
   * one rejected, since 0-1 and 0-2 already connect its endpoints.
   */
  method DemoKruskal() returns (mst: seq<Link>)
    ensures mst == [(0, 1), (2, 3), (0, 2), (3, 4), (4, 5)]
  {
    var nodes := seq(6, i => (i, i));
    var edges := new WeightedEdge[6](i requires 0 <= i < 6 => DemoEdges()[i]);
    assert edges[..] == DemoEdges();
    mst := Kruskal(nodes, edges);
    EdgeLeTotalOrder();
    DemoSort(edges[..]);
    DemoSelect(edges[..]);
  }
}
