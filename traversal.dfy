/**
 * Iterative depth-first search with an explicit stack: pop the top vertex,
 * skip it if it was visited already, otherwise record it and push all of
 * its neighbours in list order (so the last neighbour is explored first).
 * The stack is a sequence whose top is its last element.
 */
module Traversal {
  import opened GraphBasics

  /** Every stacked vertex is a vertex of g. */
  predicate StackInRange(g: seq<seq<int>>, stack: seq<int>) {
    forall i :: 0 <= i < |stack| ==> 0 <= stack[i] < |g|
  }

  /**
   * The visit order the search produces from a given stack, visited set and
   * order so far; the search from start is DfsRun(g, [start], {}, []). The
   * run only appends to the order, and what it appends are vertices of g that
   * were not yet visited.
   */
  function DfsRun(g: seq<seq<int>>, stack: seq<int>, visited: set<int>, order: seq<int>): (r: seq<int>)
    requires WellFormed(g) && StackInRange(g, stack)
    ensures |order| <= |r| && r[..|order|] == order
    ensures forall i :: |order| <= i < |r| ==> 0 <= r[i] < |g| && r[i] !in visited
    decreases |Range(|g|) - visited|, |stack|
  {
    if stack == [] then order
    else
      var top, rest := stack[|stack| - 1], stack[..|stack| - 1];
      if top in visited then
        DfsRun(g, rest, visited, order)
      else
        assert (Range(|g|) - (visited + {top})) + {top} == Range(|g|) - visited;
        var r := DfsRun(g, rest + g[top], visited + {top}, order + [top]);
        RecordedFirst(order, top, visited, |g|, r);
        r
  }

  /** A run that recorded top after order has appended order + [top] and then only new vertices. */
  lemma RecordedFirst(order: seq<int>, top: int, visited: set<int>, n: int, r: seq<int>)
    requires 0 <= top < n && top !in visited
    requires |order| + 1 <= |r| && r[..|order| + 1] == order + [top]
    requires forall i :: |order| + 1 <= i < |r| ==> 0 <= r[i] < n && r[i] !in visited + {top}
    ensures r[..|order|] == order
    ensures forall i :: |order| <= i < |r| ==> 0 <= r[i] < n && r[i] !in visited
  {
    assert r[..|order|] == r[..|order| + 1][..|order|];
    assert r[|order|] == r[..|order| + 1][|order|];
  }

  /** One pop of the search, as DfsRun takes it. */
  lemma DfsRunPop(g: seq<seq<int>>, stack: seq<int>, visited: set<int>, order: seq<int>)
    requires WellFormed(g) && StackInRange(g, stack) && stack != []
    ensures StackInRange(g, stack[..|stack| - 1] + g[stack[|stack| - 1]])
    ensures DfsRun(g, stack, visited, order) ==
      var top, rest := stack[|stack| - 1], stack[..|stack| - 1];
      if top in visited then DfsRun(g, rest, visited, order)
      else DfsRun(g, rest + g[top], visited + {top}, order + [top])
  {
  }

  /** Popping a visited vertex only shortens the stack. */
  lemma DfsRunSkip(g: seq<seq<int>>, stack: seq<int>, visited: set<int>, order: seq<int>)
    requires WellFormed(g) && StackInRange(g, stack) && stack != [] && stack[|stack| - 1] in visited
    ensures StackInRange(g, stack[..|stack| - 1])
    ensures DfsRun(g, stack, visited, order) == DfsRun(g, stack[..|stack| - 1], visited, order)
  {
    DfsRunPop(g, stack, visited, order);
  }

  /**
   * Popping a new vertex records it, marks it and pushes its neighbours;
   * the unvisited part of the graph shrinks.
   */
  lemma DfsRunVisit(g: seq<seq<int>>, stack: seq<int>, visited: set<int>, order: seq<int>)
    requires WellFormed(g) && StackInRange(g, stack) && stack != [] && stack[|stack| - 1] !in visited
    ensures var top := stack[|stack| - 1];
      && StackInRange(g, stack[..|stack| - 1] + g[top])
      && DfsRun(g, stack, visited, order) == DfsRun(g, stack[..|stack| - 1] + g[top], visited + {top}, order + [top])
      && |Range(|g|) - (visited + {top})| < |Range(|g|) - visited|
  {
    var top := stack[|stack| - 1];
    DfsRunPop(g, stack, visited, order);
    assert (Range(|g|) - (visited + {top})) + {top} == Range(|g|) - visited;
  }

  /**
   * What holds at the top of the search loop: the visited set is the set of
   * recorded vertices, recorded once each, everything recorded or stacked is
   * reachable from start, and every neighbour of a visited vertex is visited
   * or still on the stack.
   */
  ghost predicate DfsInv(g: seq<seq<int>>, start: int, stack: seq<int>, visited: set<int>, order: seq<int>) {
    && 0 <= start < |g|
    && (forall i :: 0 <= i < |stack| ==> 0 <= stack[i] < |g| && Reachable(g, start, stack[i]))
    && (forall i :: 0 <= i < |order| ==> Reachable(g, start, order[i]))
    && visited == Elements(order)
    && Distinct(order)
    && (forall x, y :: x in visited && 0 <= x < |g| && y in g[x] ==> y in visited || y in stack)
    && (start in visited || start in stack)
    && (order == [] ==> stack == [start])
    && (order != [] ==> order[0] == start)
  }

  lemma DfsInvInit(g: seq<seq<int>>, start: int)
    requires 0 <= start < |g|
    ensures DfsInv(g, start, [start], {}, [])
  {
    ReachableSelf(g, start);
  }

  /** Popping a visited vertex keeps the invariant. */
  lemma DfsInvSkip(g: seq<seq<int>>, start: int, stack: seq<int>, visited: set<int>, order: seq<int>)
    requires DfsInv(g, start, stack, visited, order)
    requires stack != [] && stack[|stack| - 1] in visited
    ensures DfsInv(g, start, stack[..|stack| - 1], visited, order)
  {
    var top, rest := stack[|stack| - 1], stack[..|stack| - 1];
    assert stack == rest + [top];
    forall x, y | x in visited && 0 <= x < |g| && y in g[x] ensures y in visited || y in rest {
    }
  }

  /** Visiting a new vertex and stacking its neighbours keeps the invariant. */
  lemma DfsInvVisit(g: seq<seq<int>>, start: int, stack: seq<int>, visited: set<int>, order: seq<int>)
    requires WellFormed(g) && DfsInv(g, start, stack, visited, order)
    requires stack != [] && stack[|stack| - 1] !in visited
    ensures var top := stack[|stack| - 1];
      DfsInv(g, start, stack[..|stack| - 1] + g[top], visited + {top}, order + [top])
  {
    var top, rest := stack[|stack| - 1], stack[..|stack| - 1];
    var stack', order' := rest + g[top], order + [top];
    assert stack == rest + [top];
    forall i | 0 <= i < |stack'| ensures 0 <= stack'[i] < |g| && Reachable(g, start, stack'[i]) {
      if i >= |rest| {
        assert stack'[i] == g[top][i - |rest|];
        ReachableStep(g, start, top, stack'[i]);
      }
    }
    assert Elements(order') == Elements(order) + {top};
    forall x, y | x in visited + {top} && 0 <= x < |g| && y in g[x] ensures y in visited + {top} || y in stack' {
      if x == top {
        assert y in g[top];
      }
    }
  }

  /** With the stack empty, the invariant makes the order complete. */
  lemma DfsDone(g: seq<seq<int>>, start: int, visited: set<int>, order: seq<int>)
    requires WellFormed(g) && DfsInv(g, start, [], visited, order)
    ensures Distinct(order)
    ensures forall v :: v in order <==> Reachable(g, start, v)
    ensures |order| >= 1 && order[0] == start
  {
    forall v | Reachable(g, start, v) ensures v in order {
      ClosedSetHoldsReachable(g, visited, start, v);
    }
    forall v | v in order ensures Reachable(g, start, v) {
    }
  }

  /**
   * The search from a state satisfying the invariant extends the order so far
   * to a duplicate-free order of exactly the vertices reachable from start.
   */
  lemma {:induction false} DfsRunCorrect(g: seq<seq<int>>, start: int, stack: seq<int>, visited: set<int>, order: seq<int>)
    requires WellFormed(g) && DfsInv(g, start, stack, visited, order)
    ensures StackInRange(g, stack)
    ensures Distinct(DfsRun(g, stack, visited, order))
    ensures forall v :: v in DfsRun(g, stack, visited, order) <==> Reachable(g, start, v)
    ensures |DfsRun(g, stack, visited, order)| >= 1 && DfsRun(g, stack, visited, order)[0] == start
    decreases |Range(|g|) - visited|, |stack|
  {
    if stack == [] {
      DfsDone(g, start, visited, order);
    } else {
      var top, rest := stack[|stack| - 1], stack[..|stack| - 1];
      if top in visited {
        DfsInvSkip(g, start, stack, visited, order);
        DfsRunSkip(g, stack, visited, order);
        DfsRunCorrect(g, start, rest, visited, order);
      } else {
        DfsInvVisit(g, start, stack, visited, order);
        DfsRunVisit(g, stack, visited, order);
        DfsRunCorrect(g, start, rest + g[top], visited + {top}, order + [top]);
      }
    }
  }

  /** The search from start records exactly the vertices reachable from start, each once. */
  lemma DfsVisitsExactlyReachable(g: seq<seq<int>>, start: int)
    requires WellFormed(g) && 0 <= start < |g|
    ensures Distinct(DfsRun(g, [start], {}, []))
    ensures |DfsRun(g, [start], {}, [])| <= |g|
    ensures |DfsRun(g, [start], {}, [])| >= 1 && DfsRun(g, [start], {}, [])[0] == start
    ensures forall v :: v in DfsRun(g, [start], {}, []) <==> Reachable(g, start, v)
  {
    DfsInvInit(g, start);
    DfsRunCorrect(g, start, [start], {}, []);
    var r := DfsRun(g, [start], {}, []);
    forall i | 0 <= i < |r| ensures 0 <= r[i] < |g| {
      assert r[i] in r;
      var p :| IsPath(g, p) && p[0] == start && p[|p| - 1] == r[i];
    }
    DistinctVerticesBound(r, |g|);
  }

  /** Pushing the neighbours one by one, in list order. */
  method PushAll(stack: seq<int>, nbrs: seq<int>) returns (pushed: seq<int>)
    ensures pushed == stack + nbrs
  {
    pushed := stack;
    for k := 0 to |nbrs|
      invariant pushed == stack + nbrs[..k]
    {
      pushed := pushed + [nbrs[k]];
      assert nbrs[..k + 1] == nbrs[..k] + [nbrs[k]];
    }
    assert nbrs[..|nbrs|] == nbrs;
  }

  /**
   * iterative_dfs: the vertices reachable from start, each once, in the
   * order the stack-based search first pops them.
   */
  method IterativeDfs(g: seq<seq<int>>, start: int) returns (result: seq<int>)
    requires WellFormed(g) && 0 <= start < |g|
    ensures result == DfsRun(g, [start], {}, [])
    ensures |result| >= 1 && result[0] == start
    ensures Distinct(result) && |result| <= |g|
    ensures forall v :: v in result <==> Reachable(g, start, v)
  {
    var stack := [start];
    var visited: set<int> := {};
    result := [];
    while stack != []
      invariant StackInRange(g, stack)
      invariant DfsRun(g, stack, visited, result) == DfsRun(g, [start], {}, [])
      decreases |Range(|g|) - visited|, |stack|
    {
      var curr := stack[|stack| - 1];
      ghost var before := stack;
      stack := stack[..|stack| - 1];
      if curr !in visited {
        DfsRunVisit(g, before, visited, result);
        visited := visited + {curr};
        result := result + [curr];
        stack := PushAll(stack, g[curr]);
      } else {
        DfsRunSkip(g, before, visited, result);
      }
    }
    DfsVisitsExactlyReachable(g, start);
  }

  /** The first four pops: 0, 2 and 5 are visited, then 2 is skipped. */
  lemma DemoFirstPops()
    ensures WellFormed(DemoAdjacency())
    ensures DfsRun(DemoAdjacency(), [0], {}, [])
         == DfsRun(DemoAdjacency(), [1, 0, 1], {0, 2, 5}, [0, 2, 5])
  {
    DemoPop1();
    DemoPop2();
    DemoPop3();
    DemoPop4();
  }

  /** The next four pops: 1, 4 and 3 are visited, with 1 skipped once. */
  lemma DemoLastPops()
    ensures WellFormed(DemoAdjacency())
    ensures DfsRun(DemoAdjacency(), [1, 0, 1], {0, 2, 5}, [0, 2, 5])
         == DfsRun(DemoAdjacency(), [1, 0, 0, 2, 1], {0, 1, 2, 3, 4, 5}, [0, 2, 5, 1, 4, 3])
  {
    DemoPop5();
    DemoPop6();
    DemoPop7();
    DemoPop8();
  }

  /** The pops of the demonstration search, one lemma each. */
  lemma DemoPop1()
    ensures WellFormed(DemoAdjacency())
    ensures DfsRun(DemoAdjacency(), [0], {}, [])
         == DfsRun(DemoAdjacency(), [1, 2], {0}, [0])
  {
    var g := DemoAdjacency();
    DemoWellFormed();
    assert [0][..0] == [] && [] + g[0] == [1, 2] && {} + {0} == {0} && [] + [0] == [0];
    DfsRunPop(g, [0], {}, []);
  }

  lemma DemoPop2()
    ensures WellFormed(DemoAdjacency())
    ensures DfsRun(DemoAdjacency(), [1, 2], {0}, [0])
         == DfsRun(DemoAdjacency(), [1, 0, 1, 5], {0, 2}, [0, 2])
  {
    var g := DemoAdjacency();
    DemoWellFormed();
    assert [1, 2][..1] == [1] && [1] + g[2] == [1, 0, 1, 5] && {0} + {2} == {0, 2} && [0] + [2] == [0, 2];
    DfsRunPop(g, [1, 2], {0}, [0]);
  }

  lemma DemoPop3()
    ensures WellFormed(DemoAdjacency())
    ensures DfsRun(DemoAdjacency(), [1, 0, 1, 5], {0, 2}, [0, 2])
         == DfsRun(DemoAdjacency(), [1, 0, 1, 2], {0, 2, 5}, [0, 2, 5])
  {
    var g := DemoAdjacency();
    DemoWellFormed();
    assert [1, 0, 1, 5][..3] == [1, 0, 1] && [1, 0, 1] + g[5] == [1, 0, 1, 2] && {0, 2} + {5} == {0, 2, 5} && [0, 2] + [5] == [0, 2, 5];
    DfsRunPop(g, [1, 0, 1, 5], {0, 2}, [0, 2]);
  }

  lemma DemoPop4()
    ensures WellFormed(DemoAdjacency())
    ensures DfsRun(DemoAdjacency(), [1, 0, 1, 2], {0, 2, 5}, [0, 2, 5])
         == DfsRun(DemoAdjacency(), [1, 0, 1], {0, 2, 5}, [0, 2, 5])
  {
    var g := DemoAdjacency();
    DemoWellFormed();
    assert [1, 0, 1, 2][..3] == [1, 0, 1];
    DfsRunPop(g, [1, 0, 1, 2], {0, 2, 5}, [0, 2, 5]);
  }

  lemma DemoPop5()
    ensures WellFormed(DemoAdjacency())
    ensures DfsRun(DemoAdjacency(), [1, 0, 1], {0, 2, 5}, [0, 2, 5])
         == DfsRun(DemoAdjacency(), [1, 0, 0, 2, 3, 4], {0, 1, 2, 5}, [0, 2, 5, 1])
  {
    var g := DemoAdjacency();
    DemoWellFormed();
    assert [1, 0, 1][..2] == [1, 0] && [1, 0] + g[1] == [1, 0, 0, 2, 3, 4] && {0, 2, 5} + {1} == {0, 1, 2, 5} && [0, 2, 5] + [1] == [0, 2, 5, 1];
    DfsRunPop(g, [1, 0, 1], {0, 2, 5}, [0, 2, 5]);
  }

  lemma DemoPop6()
    ensures WellFormed(DemoAdjacency())
    ensures DfsRun(DemoAdjacency(), [1, 0, 0, 2, 3, 4], {0, 1, 2, 5}, [0, 2, 5, 1])
         == DfsRun(DemoAdjacency(), [1, 0, 0, 2, 3, 1], {0, 1, 2, 4, 5}, [0, 2, 5, 1, 4])
  {
    var g := DemoAdjacency();
    DemoWellFormed();
    assert [1, 0, 0, 2, 3, 4][..5] == [1, 0, 0, 2, 3] && [1, 0, 0, 2, 3] + g[4] == [1, 0, 0, 2, 3, 1] && {0, 1, 2, 5} + {4} == {0, 1, 2, 4, 5} && [0, 2, 5, 1] + [4] == [0, 2, 5, 1, 4];
    DfsRunPop(g, [1, 0, 0, 2, 3, 4], {0, 1, 2, 5}, [0, 2, 5, 1]);
  }

  lemma DemoPop7()
    ensures WellFormed(DemoAdjacency())
    ensures DfsRun(DemoAdjacency(), [1, 0, 0, 2, 3, 1], {0, 1, 2, 4, 5}, [0, 2, 5, 1, 4])
         == DfsRun(DemoAdjacency(), [1, 0, 0, 2, 3], {0, 1, 2, 4, 5}, [0, 2, 5, 1, 4])
  {
    var g := DemoAdjacency();
    DemoWellFormed();
    assert [1, 0, 0, 2, 3, 1][..5] == [1, 0, 0, 2, 3];
    DfsRunPop(g, [1, 0, 0, 2, 3, 1], {0, 1, 2, 4, 5}, [0, 2, 5, 1, 4]);
  }

  lemma DemoPop8()
    ensures WellFormed(DemoAdjacency())
    ensures DfsRun(DemoAdjacency(), [1, 0, 0, 2, 3], {0, 1, 2, 4, 5}, [0, 2, 5, 1, 4])
         == DfsRun(DemoAdjacency(), [1, 0, 0, 2, 1], {0, 1, 2, 3, 4, 5}, [0, 2, 5, 1, 4, 3])
  {
    var g := DemoAdjacency();
    DemoWellFormed();
    assert [1, 0, 0, 2, 3][..4] == [1, 0, 0, 2] && [1, 0, 0, 2] + g[3] == [1, 0, 0, 2, 1] && {0, 1, 2, 4, 5} + {3} == {0, 1, 2, 3, 4, 5} && [0, 2, 5, 1, 4] + [3] == [0, 2, 5, 1, 4, 3];
    DfsRunPop(g, [1, 0, 0, 2, 3], {0, 1, 2, 4, 5}, [0, 2, 5, 1, 4]);
  }

  /** The search from vertex 0 of the demonstration adjacency list. */
  lemma DemoDfsRun()
    ensures WellFormed(DemoAdjacency())
    ensures DfsRun(DemoAdjacency(), [0], {}, []) == [0, 2, 5, 1, 4, 3]
  {
    DemoFirstPops();
    DemoLastPops();
    DemoDrain(DemoAdjacency(), [1, 0, 0, 2, 1], [0, 2, 5, 1, 4, 3]);
  }

  /** Once every vertex is visited, the rest of the stack is popped and skipped. */
  lemma {:induction false} DemoDrain(g: seq<seq<int>>, stack: seq<int>, order: seq<int>)
    requires g == DemoAdjacency() && StackInRange(g, stack)
    ensures WellFormed(g)
    ensures DfsRun(g, stack, {0, 1, 2, 3, 4, 5}, order) == order
    decreases |stack|
  {
    DemoWellFormed();
    if stack != [] {
      DemoDrain(g, stack[..|stack| - 1], order);
    }
  }

  /** The demonstration run: iterative_dfs from vertex 0 yields 0, 2, 5, 1, 4, 3. */
  method DemoDfs() returns (order: seq<int>)
    ensures order == [0, 2, 5, 1, 4, 3]
  {
    DemoDfsRun();
    order := IterativeDfs(DemoAdjacency(), 0);
  }
}
