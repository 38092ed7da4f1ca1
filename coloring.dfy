/**
 * The two greedy colouring passes over an adjacency list: graph_coloring
 * and edge_coloring. Despite its name the second one colours vertices, not
 * edges. Both visit the vertices in increasing order and give vertex u the
 * least colour that none of its already-coloured neighbours holds; since
 * exactly the neighbours v < u are coloured when u is reached, both compute
 * the same colouring (GreedyColouringUnique).
 */
module Coloring {
  import opened GraphBasics
  import Sorting

  /** Colour held by a vertex that has not been coloured yet. */
  const Uncoloured := -1

  /**
   * The colours of the neighbours of u that precede u, in adjacency order.
   * When u is reached these are exactly the coloured neighbours.
   */
  function ColoursBefore(nbrs: seq<int>, colors: seq<int>, u: int): (r: seq<int>)
    requires forall k :: 0 <= k < |nbrs| ==> 0 <= nbrs[k] < |colors|
    ensures |r| <= |nbrs|
  {
    if nbrs == [] then []
    else
      var init, v := nbrs[..|nbrs| - 1], nbrs[|nbrs| - 1];
      ColoursBefore(init, colors, u) + (if v < u then [colors[v]] else [])
  }

  /** A colour is listed exactly when some neighbour below u holds it. */
  lemma {:induction false} ColoursBeforeMembership(nbrs: seq<int>, colors: seq<int>, u: int, c: int)
    requires forall k :: 0 <= k < |nbrs| ==> 0 <= nbrs[k] < |colors|
    ensures c in ColoursBefore(nbrs, colors, u) <==>
      exists k :: 0 <= k < |nbrs| && nbrs[k] < u && colors[nbrs[k]] == c
  {
    if nbrs != [] {
      var init, v := nbrs[..|nbrs| - 1], nbrs[|nbrs| - 1];
      ColoursBeforeMembership(init, colors, u, c);
      if c in ColoursBefore(init, colors, u) {
        var k :| 0 <= k < |init| && init[k] < u && colors[init[k]] == c;
        assert nbrs[k] == init[k];
      }
      if exists k :: 0 <= k < |nbrs| && nbrs[k] < u && colors[nbrs[k]] == c {
        var k :| 0 <= k < |nbrs| && nbrs[k] < u && colors[nbrs[k]] == c;
        if k < |init| {
          assert init[k] == nbrs[k];
        }
      }
    }
  }

  /** m is the least non-negative integer that does not occur in used. */
  predicate IsMexOf(used: seq<int>, m: int) {
    0 <= m && m !in used && forall k :: 0 <= k < m ==> k in used
  }

  /** Vertex u holds the least colour not held by a neighbour that precedes it. */
  predicate GreedyAt(adj: seq<seq<int>>, colors: seq<int>, u: int)
    requires WellFormed(adj) && |colors| == |adj| && 0 <= u < |adj|
  {
    IsMexOf(ColoursBefore(adj[u], colors, u), colors[u])
  }

  /** colors is the greedy colouring of adj in increasing vertex order. */
  predicate IsGreedyColouring(adj: seq<seq<int>>, colors: seq<int>)
    requires WellFormed(adj)
  {
    |colors| == |adj| && forall u :: 0 <= u < |adj| ==> GreedyAt(adj, colors, u)
  }

  /** Every edge appears in both directions. */
  predicate Symmetric(adj: seq<seq<int>>)
    requires WellFormed(adj)
  {
    forall u, k :: 0 <= u < |adj| && 0 <= k < |adj[u]| ==> u in adj[adj[u][k]]
  }

  /** The colouring in progress: vertices below u coloured, the others not. */
  predicate ColouredBelow(adj: seq<seq<int>>, colors: seq<int>, u: int)
    requires WellFormed(adj)
  {
    && |colors| == |adj| && 0 <= u <= |adj|
    && (forall x :: 0 <= x < u ==> GreedyAt(adj, colors, x))
    && (forall x :: u <= x < |adj| ==> colors[x] == Uncoloured)
  }

  /** While colouring, a vertex is coloured exactly when it is below u. */
  lemma ColouredExactlyBelow(adj: seq<seq<int>>, colors: seq<int>, u: int, v: int)
    requires WellFormed(adj) && ColouredBelow(adj, colors, u) && 0 <= v < |adj|
    ensures colors[v] != Uncoloured <==> v < u
  {
    if v < u {
      assert GreedyAt(adj, colors, v);
    }
  }

  predicate IntLe(a: int, b: int) {
    a <= b
  }

  lemma IntLeTotalOrder()
    ensures Sorting.TotalOrder(IntLe)
  {
  }

  /** ColoursBefore only looks at the colours of vertices below u. */
  lemma {:induction false} ColoursBeforeFrame(nbrs: seq<int>, c1: seq<int>, c2: seq<int>, u: int)
    requires |c1| == |c2|
    requires forall k :: 0 <= k < |nbrs| ==> 0 <= nbrs[k] < |c1|
    requires forall v :: 0 <= v < u && v < |c1| ==> c1[v] == c2[v]
    ensures ColoursBefore(nbrs, c1, u) == ColoursBefore(nbrs, c2, u)
  {
    if nbrs != [] {
      ColoursBeforeFrame(nbrs[..|nbrs| - 1], c1, c2, u);
    }
  }

  /**
   * Giving u the least colour missing among its earlier neighbours extends
   * a colouring of the vertices below u to one of the vertices up to u.
   */
  lemma ColourNext(adj: seq<seq<int>>, before: seq<int>, u: int, color: int)
    requires WellFormed(adj) && ColouredBelow(adj, before, u) && u < |adj|
    requires IsMexOf(ColoursBefore(adj[u], before, u), color)
    ensures ColouredBelow(adj, before[u := color], u + 1)
  {
    var after := before[u := color];
    forall x | 0 <= x <= u
      ensures GreedyAt(adj, after, x)
    {
      ColoursBeforeFrame(adj[x], after, before, x);
      if x < u {
        assert GreedyAt(adj, before, x);
      }
    }
  }

  /** There is only one least excluded value. */
  lemma MexUnique(used: seq<int>, a: int, b: int)
    requires IsMexOf(used, a) && IsMexOf(used, b)
    ensures a == b
  {
  }

  /** The least excluded value of a list is at most the list's length. */
  lemma MexBound(used: seq<int>, m: int)
    requires IsMexOf(used, m)
    ensures m <= |used|
  {
    CoveredPrefixBound(used, m);
  }

  /**
   * A greedy colouring gives vertex u a colour between 0 and the number of
   * u's neighbours; an isolated vertex gets colour 0.
   */
  lemma GreedyColourBound(adj: seq<seq<int>>, colors: seq<int>)
    requires WellFormed(adj) && IsGreedyColouring(adj, colors)
    ensures forall u :: 0 <= u < |adj| ==> 0 <= colors[u] <= |adj[u]|
    ensures forall u :: 0 <= u < |adj| && adj[u] == [] ==> colors[u] == 0
  {
    forall u | 0 <= u < |adj|
      ensures 0 <= colors[u] <= |adj[u]|
    {
      assert GreedyAt(adj, colors, u);
      MexBound(ColoursBefore(adj[u], colors, u), colors[u]);
    }
    forall u | 0 <= u < |adj| && adj[u] == []
      ensures colors[u] == 0
    {
      assert GreedyAt(adj, colors, u);
    }
  }

  /**
   * The greedy colouring is determined by the adjacency list alone, so both
   * colouring passes produce the same colours.
   */
  lemma GreedyColouringUnique(adj: seq<seq<int>>, c1: seq<int>, c2: seq<int>)
    requires WellFormed(adj)
    requires IsGreedyColouring(adj, c1) && IsGreedyColouring(adj, c2)
    ensures c1 == c2
  {
    GreedyPrefixesAgree(adj, c1, c2, |adj|);
    assert c1 == c1[..|adj|] && c2 == c2[..|adj|];
  }

  lemma {:induction false} GreedyPrefixesAgree(adj: seq<seq<int>>, c1: seq<int>, c2: seq<int>, m: nat)
    requires WellFormed(adj) && m <= |adj|
    requires IsGreedyColouring(adj, c1) && IsGreedyColouring(adj, c2)
    ensures c1[..m] == c2[..m]
  {
    if m > 0 {
      var u := m - 1;
      GreedyPrefixesAgree(adj, c1, c2, u);
      forall v | 0 <= v < u
        ensures c1[v] == c2[v]
      {
        assert c1[v] == c1[..u][v];
      }
      ColoursBeforeFrame(adj[u], c1, c2, u);
      assert GreedyAt(adj, c1, u) && GreedyAt(adj, c2, u);
      MexUnique(ColoursBefore(adj[u], c1, u), c1[u], c2[u]);
      assert c1[..m] == c1[..u] + [c1[u]];
      assert c2[..m] == c2[..u] + [c2[u]];
    }
  }

  /**
   * What graph_coloring guarantees on any adjacency list, directed or not:
   * a vertex never shares its colour with a neighbour that precedes it.
   */
  lemma EarlierNeighbourDiffers(adj: seq<seq<int>>, colors: seq<int>)
    requires WellFormed(adj)
    requires IsGreedyColouring(adj, colors)
    ensures forall u, k :: 0 <= u < |adj| && 0 <= k < |adj[u]| && adj[u][k] < u ==>
      colors[u] != colors[adj[u][k]]
  {
    forall u, k | 0 <= u < |adj| && 0 <= k < |adj[u]| && adj[u][k] < u
      ensures colors[u] != colors[adj[u][k]]
    {
      assert GreedyAt(adj, colors, u);
      ColoursBeforeMembership(adj[u], colors, u, colors[adj[u][k]]);
    }
  }

  /**
   * On a symmetric adjacency list the greedy colouring is proper: no two
   * distinct adjacent vertices share a colour.
   */
  lemma GreedyColouringProper(adj: seq<seq<int>>, colors: seq<int>)
    requires WellFormed(adj) && Symmetric(adj)
    requires IsGreedyColouring(adj, colors)
    ensures forall u, k :: 0 <= u < |adj| && 0 <= k < |adj[u]| && adj[u][k] != u ==>
      colors[u] != colors[adj[u][k]]
  {
    EarlierNeighbourDiffers(adj, colors);
    forall u, k | 0 <= u < |adj| && 0 <= k < |adj[u]| && u < adj[u][k]
      ensures colors[u] != colors[adj[u][k]]
    {
      var v := adj[u][k];
      assert u in adj[v];
      var k' :| 0 <= k' < |adj[v]| && adj[v][k'] == u;
      assert adj[v][k'] < v;
    }
  }

  /**
   * The scan over u's neighbours in graph_coloring: ok tells whether no
   * neighbour holds color.
   */
  method NoNeighbourHolds(nbrs: seq<int>, c: array<int>, color: int) returns (ok: bool)
    requires forall k :: 0 <= k < |nbrs| ==> 0 <= nbrs[k] < c.Length
    ensures ok <==> forall k :: 0 <= k < |nbrs| ==> c[nbrs[k]] != color
  {
    ok := true;
    var j := 0;
    while j < |nbrs|
      invariant 0 <= j <= |nbrs|
      invariant ok
      invariant forall k :: 0 <= k < j ==> c[nbrs[k]] != color
    {
      if c[nbrs[j]] == color {
        ok := false;
        break;
      }
      j := j + 1;
    }
  }

  /**
   * The candidate loop of graph_coloring for vertex u: colours 0, 1, ...
   * are tried until one is free. A blocked candidate is held by an earlier
   * neighbour, so the candidate never passes u's degree, which bounds this
   * otherwise unbounded loop.
   */
  method LeastFreeColour(adj: seq<seq<int>>, c: array<int>, u: int) returns (color: int)
    requires WellFormed(adj) && ColouredBelow(adj, c[..], u) && u < |adj|
    ensures IsMexOf(ColoursBefore(adj[u], c[..], u), color)
  {
    color := 0;
    while true
      invariant 0 <= color <= |adj[u]|
      invariant forall k :: 0 <= k < color ==> k in ColoursBefore(adj[u], c[..], u)
      decreases |adj[u]| - color
    {
      var ok := NoNeighbourHolds(adj[u], c, color);
      ColoursBeforeMembership(adj[u], c[..], u, color);
      if ok {
        break;
      }
      color := color + 1;
      CoveredPrefixBound(ColoursBefore(adj[u], c[..], u), color);
    }
  }

  /**
   * graph_coloring: every vertex, in increasing order, that is still
   * uncoloured takes the least colour no neighbour holds.
   */
  method GraphColoring(adj: seq<seq<int>>) returns (colors: seq<int>)
    requires WellFormed(adj)
    ensures IsGreedyColouring(adj, colors)
  {
    var n := |adj|;
    var c := new int[n](_ => Uncoloured);
    for u := 0 to n
      invariant ColouredBelow(adj, c[..], u)
    {
      if c[u] == Uncoloured {
        var color := LeastFreeColour(adj, c, u);
        ColourNext(adj, c[..], u, color);
        c[u] := color;
      }
    }
    colors := c[..];
  }

  /**
   * The "increment on match" scan over an ascending list of used colours
   * finds the least colour missing from it, duplicates included.
   */
  method SmallestMissing(sorted: seq<int>) returns (m: int)
    requires Sorting.Sorted(sorted, IntLe)
    ensures IsMexOf(sorted, m)
  {
    m := 0;
    for i := 0 to |sorted|
      invariant 0 <= m
      invariant m !in sorted[..i]
      invariant forall k :: 0 <= k < m ==> k in sorted[..i]
    {
      assert sorted[..i + 1] == sorted[..i] + [sorted[i]];
      if sorted[i] == m {
        assert forall j :: 0 <= j < i ==> IntLe(sorted[j], sorted[i]);
        m := m + 1;
      }
    }
    assert sorted[..|sorted|] == sorted;
  }

  /**
   * edge_coloring's choice of colour: sort the used colours ascending
   * (std::sort, whose result under <= on integers is unique) and scan them.
   */
  method LeastUnusedColour(used: seq<int>) returns (m: int)
    ensures IsMexOf(used, m)
  {
    IntLeTotalOrder();
    var sorted := Sorting.Sort(used, IntLe);
    m := SmallestMissing(sorted);
    forall x
      ensures x in sorted <==> x in used
    {
      assert x in sorted <==> x in multiset(sorted);
      assert x in used <==> x in multiset(used);
    }
  }

  /**
   * The gathering loop of edge_coloring: the colours of u's neighbours that
   * are already coloured, in adjacency order.
   */
  method UsedColours(adj: seq<seq<int>>, c: array<int>, u: int) returns (used: seq<int>)
    requires WellFormed(adj) && ColouredBelow(adj, c[..], u) && u < |adj|
    ensures used == ColoursBefore(adj[u], c[..], u)
  {
    used := [];
    for j := 0 to |adj[u]|
      invariant used == ColoursBefore(adj[u][..j], c[..], u)
    {
      var v := adj[u][j];
      assert adj[u][..j + 1][..j] == adj[u][..j];
      ColouredExactlyBelow(adj, c[..], u, v);
      if c[v] != Uncoloured {
        used := used + [c[v]];
      }
    }
    assert adj[u][..|adj[u]|] == adj[u];
  }

  /**
   * edge_coloring: for each vertex in turn, gather the colours of the
   * coloured neighbours, sort them, take the least colour missing, and keep
   * the largest colour + 1 seen as the number of colours. The per-vertex
   * colours are local to the routine and given back here as a ghost.
   */
  method NeighbourColoring(adj: seq<seq<int>>) returns (numColors: int, ghost colors: seq<int>)
    requires WellFormed(adj)
    ensures IsGreedyColouring(adj, colors)
    ensures forall u :: 0 <= u < |adj| ==> colors[u] < numColors
    ensures |adj| == 0 ==> numColors == 0
    ensures |adj| > 0 ==> exists u :: 0 <= u < |adj| && numColors == colors[u] + 1
  {
    var n := |adj|;
    var c := new int[n](_ => Uncoloured);
    numColors := 0;
    for u := 0 to n
      invariant ColouredBelow(adj, c[..], u)
      invariant forall x :: 0 <= x < u ==> c[x] < numColors
      invariant u == 0 ==> numColors == 0
      invariant u > 0 ==> exists x :: 0 <= x < u && numColors == c[x] + 1
    {
      var used := UsedColours(adj, c, u);
      var newColor := LeastUnusedColour(used);
      ghost var top := u;
      if numColors >= newColor + 1 {
        top :| 0 <= top < u && numColors == c[top] + 1;
      }
      ColourNext(adj, c[..], u, newColor);
      c[u] := newColor;
      numColors := if numColors < newColor + 1 then newColor + 1 else numColors;
      assert numColors == c[top] + 1;
    }
    colors := c[..];
  }

  /** The neighbour-greedy pass needs at most one colour more than the largest degree. */
  lemma ColourCountBound(adj: seq<seq<int>>, colors: seq<int>, numColors: int, maxDegree: nat)
    requires WellFormed(adj) && IsGreedyColouring(adj, colors)
    requires forall u :: 0 <= u < |adj| ==> |adj[u]| <= maxDegree
    requires |adj| > 0 ==> exists u :: 0 <= u < |adj| && numColors == colors[u] + 1
    requires |adj| == 0 ==> numColors == 0
    ensures numColors <= maxDegree + 1
  {
    GreedyColourBound(adj, colors);
  }

  /**
   * Each demonstration vertex holds the least colour its earlier neighbours
   * do not: vertex 1 sees colour 0, vertex 2 sees 0 and 1, vertices 3 and 4
   * see 1, vertex 5 sees 2 and vertex 0 sees nothing.
   */
  lemma DemoGreedyAt(adj: seq<seq<int>>, colors: seq<int>, u: int)
    requires adj == DemoAdjacency() && colors == [0, 1, 2, 0, 0, 0] && 0 <= u < 6
    ensures WellFormed(adj)
    ensures GreedyAt(adj, colors, u)
  {
    DemoWellFormed();
    if u == 1 || u == 2 {
      DemoGreedySeesColours(adj, colors, u);
    } else {
      ColoursBeforeMembership(adj[u], colors, u, 0);
    }
  }

  /** Vertices 1 and 2 see every colour below their own on earlier neighbours 0 and 1. */
  lemma DemoGreedySeesColours(adj: seq<seq<int>>, colors: seq<int>, u: int)
    requires adj == DemoAdjacency() && colors == [0, 1, 2, 0, 0, 0] && (u == 1 || u == 2)
    ensures WellFormed(adj)
    ensures GreedyAt(adj, colors, u)
  {
    DemoWellFormed();
    var nbrs := adj[u];
    assert nbrs[0] == 0 && nbrs[1] == (if u == 1 then 2 else 1);
    ColoursBeforeMembership(nbrs, colors, u, colors[u]);
    ColoursBeforeMembership(nbrs, colors, u, 0);
    if u == 2 {
      ColoursBeforeMembership(nbrs, colors, u, 1);
    }
  }

  /** On the demonstration list the greedy colouring is 0, 1, 2, 0, 0, 0. */
  lemma DemoGreedyColouring()
    ensures WellFormed(DemoAdjacency())
    ensures IsGreedyColouring(DemoAdjacency(), [0, 1, 2, 0, 0, 0])
  {
    DemoWellFormed();
    forall u | 0 <= u < 6
      ensures GreedyAt(DemoAdjacency(), [0, 1, 2, 0, 0, 0], u)
    {
      DemoGreedyAt(DemoAdjacency(), [0, 1, 2, 0, 0, 0], u);
    }
  }

  /**
   * Both passes on the demonstration list: colours 0, 1, 2, 0, 0, 0 and
   * three colours reported.
   */
  method DemoColourings() returns (colors: seq<int>, numColors: int)
    ensures colors == [0, 1, 2, 0, 0, 0] && numColors == 3
  {
    DemoGreedyColouring();
    colors := GraphColoring(DemoAdjacency());
    GreedyColouringUnique(DemoAdjacency(), colors, [0, 1, 2, 0, 0, 0]);
    ghost var others;
    numColors, others := NeighbourColoring(DemoAdjacency());
    GreedyColouringUnique(DemoAdjacency(), others, [0, 1, 2, 0, 0, 0]);
    assert others[2] < numColors;
  }
}
