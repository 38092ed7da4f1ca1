/**
 * Shared vocabulary for the graph routines: vertices are the integers
 * 0 .. n-1 of an adjacency list with n slots.
 */
module GraphBasics {

  /** Every neighbour named in every slot is itself a vertex of the graph. */
  predicate WellFormed(adj: seq<seq<int>>) {
    forall u, k :: 0 <= u < |adj| && 0 <= k < |adj[u]| ==> 0 <= adj[u][k] < |adj|
  }

  /** No value occurs twice in s. */
  predicate Distinct(s: seq<int>) {
    forall i, j :: 0 <= i < j < |s| ==> s[i] != s[j]
  }

  /** The set of vertices 0 .. n-1. */
  function Range(n: nat): (r: set<int>)
    ensures forall x :: x in r <==> 0 <= x < n
    ensures |r| == n
  {
    if n == 0 then {} else Range(n - 1) + {n - 1}
  }

  /** The values of a sequence, as a set. */
  function Elements(s: seq<int>): set<int> {
    set x | x in s
  }

  lemma {:induction false} ElementsBound(s: seq<int>)
    ensures |Elements(s)| <= |s|
    ensures Distinct(s) ==> |Elements(s)| == |s|
  {
    if s != [] {
      var t := s[..|s| - 1];
      ElementsBound(t);
      assert s == t + [s[|s| - 1]];
      assert Elements(s) == Elements(t) + {s[|s| - 1]};
      if Distinct(s) {
        assert Distinct(t);
        assert s[|s| - 1] !in Elements(t);
      }
    }
  }

  lemma SubsetCard(a: set<int>, b: set<int>)
    requires a <= b
    ensures |a| <= |b|
  {
    assert b == a + (b - a);
    assert a * (b - a) == {};
  }

  /**
   * Pigeonhole: a duplicate-free sequence of vertices of an n-vertex graph
   * has at most n entries.
   */
  lemma DistinctVerticesBound(s: seq<int>, n: nat)
    requires Distinct(s)
    requires forall i :: 0 <= i < |s| ==> 0 <= s[i] < n
    ensures |s| <= n
  {
    ElementsBound(s);
    SubsetCard(Elements(s), Range(n));
  }

  /**
   * Pigeonhole: if every value below c occurs in s, then s has at least
   * c entries.
   */
  lemma CoveredPrefixBound(s: seq<int>, c: nat)
    requires forall k :: 0 <= k < c ==> k in s
    ensures c <= |s|
  {
    ElementsBound(s);
    SubsetCard(Range(c), Elements(s));
  }

  /** p is a walk along the out-edges of adj. */
  ghost predicate IsPath(adj: seq<seq<int>>, p: seq<int>) {
    && |p| >= 1
    && (forall i :: 0 <= i < |p| ==> 0 <= p[i] < |adj|)
    && (forall i :: 0 <= i < |p| - 1 ==> p[i + 1] in adj[p[i]])
  }

  /** t can be reached from s by following out-edges of adj. */
  ghost predicate Reachable(adj: seq<seq<int>>, s: int, t: int) {
    exists p :: IsPath(adj, p) && p[0] == s && p[|p| - 1] == t
  }

  lemma ReachableSelf(adj: seq<seq<int>>, s: int)
    requires 0 <= s < |adj|
    ensures Reachable(adj, s, s)
  {
    assert IsPath(adj, [s]);
  }

  /** Reachability extends along one more out-edge. */
  lemma ReachableStep(adj: seq<seq<int>>, s: int, x: int, y: int)
    requires WellFormed(adj)
    requires Reachable(adj, s, x)
    requires 0 <= x < |adj| && y in adj[x]
    ensures Reachable(adj, s, y)
  {
    var p :| IsPath(adj, p) && p[0] == s && p[|p| - 1] == x;
    var q := p + [y];
    assert q[|q| - 1] == y;
    assert forall i :: 0 <= i < |q| - 1 ==> q[i + 1] in adj[q[i]] by {
      forall i | 0 <= i < |q| - 1 ensures q[i + 1] in adj[q[i]] {
        if i < |p| - 1 { assert q[i] == p[i] && q[i + 1] == p[i + 1]; }
      }
    }
    assert IsPath(adj, q);
  }

  /**
   * A set of vertices that holds s and is closed under out-edges holds the
   * end of every path that starts at s.
   */
  lemma {:induction false} ClosedSetHoldsPath(adj: seq<seq<int>>, closed: set<int>, p: seq<int>)
    requires IsPath(adj, p) && p[0] in closed
    requires forall x, y :: x in closed && 0 <= x < |adj| && y in adj[x] ==> y in closed
    ensures p[|p| - 1] in closed
  {
    if |p| > 1 {
      var q := p[..|p| - 1];
      assert IsPath(adj, q);
      ClosedSetHoldsPath(adj, closed, q);
      assert p[|p| - 1] in adj[q[|q| - 1]];
    }
  }

  /** Everything reachable from s lies in any out-edge-closed set holding s. */
  lemma ClosedSetHoldsReachable(adj: seq<seq<int>>, closed: set<int>, s: int, t: int)
    requires s in closed && Reachable(adj, s, t)
    requires forall x, y :: x in closed && 0 <= x < |adj| && y in adj[x] ==> y in closed
    ensures t in closed
  {
    var p :| IsPath(adj, p) && p[0] == s && p[|p| - 1] == t;
    ClosedSetHoldsPath(adj, closed, p);
  }

  /** The adjacency list the demonstration program colours and traverses. */
  function DemoAdjacency(): seq<seq<int>> {
    [[1, 2], [0, 2, 3, 4], [0, 1, 5], [1], [1], [2]]
  }

  lemma DemoWellFormed()
    ensures WellFormed(DemoAdjacency())
  {
    var adj := DemoAdjacency();
    assert adj[0] == [1, 2] && adj[1] == [0, 2, 3, 4] && adj[2] == [0, 1, 5];
  }
}
