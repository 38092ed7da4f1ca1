/**
 * Building an adjacency list from a list of directed edges: n empty slots,
 * then each edge's destination appended to its source's slot, in input
 * order. No reverse edge is added and nothing is deduplicated.
 */
module AdjacencyList {

  /** A directed edge src -> dest. */
  datatype Edge = Edge(src: int, dest: int)

  /** The destinations of the edges leaving i, in the order the edges are given. */
  function Destinations(edges: seq<Edge>, i: int): (r: seq<int>)
    ensures |r| <= |edges|
    ensures forall d :: d in r <==> Edge(i, d) in edges
  {
    if edges == [] then []
    else
      var init, last := edges[..|edges| - 1], edges[|edges| - 1];
      assert edges == init + [last];
      Destinations(init, i) + (if last.src == i then [last.dest] else [])
  }

  /** The adjacency list built from edges over n vertices, slot by slot. */
  class Graph {
    var adjList: seq<seq<int>>

    /**
     * Only the sources index a slot, so only they must be vertices;
     * destinations are stored as given.
     */
    constructor (edges: seq<Edge>, n: nat)
      requires forall k :: 0 <= k < |edges| ==> 0 <= edges[k].src < n
      ensures |adjList| == n
      ensures forall i :: 0 <= i < n ==> adjList[i] == Destinations(edges, i)
    {
      adjList := seq(n, _ => []);
      new;
      for k := 0 to |edges|
        invariant |adjList| == n
        invariant forall i :: 0 <= i < n ==> adjList[i] == Destinations(edges[..k], i)
      {
        var e := edges[k];
        assert edges[..k + 1][..k] == edges[..k];
        adjList := adjList[e.src := adjList[e.src] + [e.dest]];
      }
      assert edges[..|edges|] == edges;
    }
  }

  /**
   * Slots are built in input order: the destinations for a concatenated
   * edge list are those of the first part followed by those of the second.
   */
  lemma {:induction false} DestinationsConcat(a: seq<Edge>, b: seq<Edge>, i: int)
    ensures Destinations(a + b, i) == Destinations(a, i) + Destinations(b, i)
  {
    if b == [] {
      assert a + b == a;
    } else {
      var init, last := b[..|b| - 1], b[|b| - 1];
      DestinationsConcat(a, init, i);
      assert a + b == (a + init) + [last];
    }
  }

  /** Number of entries in the first m slots built from edges. */
  function SlotEntries(edges: seq<Edge>, m: nat): nat {
    if m == 0 then 0 else SlotEntries(edges, m - 1) + |Destinations(edges, m - 1)|
  }

  lemma {:induction false} SlotEntriesAppend(edges: seq<Edge>, e: Edge, m: nat)
    ensures SlotEntries(edges + [e], m)
         == SlotEntries(edges, m) + (if 0 <= e.src < m then 1 else 0)
  {
    if m > 0 {
      SlotEntriesAppend(edges, e, m - 1);
      assert (edges + [e])[..|edges + [e]| - 1] == edges;
    }
  }

  /**
   * Every edge whose source is a vertex lands in exactly one slot: the
   * slots of an n-vertex graph hold |edges| entries in all.
   */
  lemma {:induction false} SlotsHoldEveryEdge(edges: seq<Edge>, n: nat)
    requires forall k :: 0 <= k < |edges| ==> 0 <= edges[k].src < n
    ensures SlotEntries(edges, n) == |edges|
  {
    if edges == [] {
      EmptySlots(n);
    } else {
      var init, last := edges[..|edges| - 1], edges[|edges| - 1];
      assert edges == init + [last];
      SlotsHoldEveryEdge(init, n);
      SlotEntriesAppend(init, last, n);
    }
  }

  lemma {:induction false} EmptySlots(m: nat)
    ensures SlotEntries([], m) == 0
  {
    if m > 0 { EmptySlots(m - 1); }
  }
}
