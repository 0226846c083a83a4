/** Deadlock detection by depth-first search over the wait-for graph, and its resolution by removing victims. */
module DeadlockDetection {
  import opened WaitGraph
  import opened HashSets

  class DeadlockDetector {
    var waitGraph: Graph

    /** No transaction is kept with nothing to wait for. */
    ghost predicate Valid()
      reads this
    {
      forall a :: a in waitGraph ==> waitGraph[a] != {}
    }

    constructor ()
      ensures Valid() && waitGraph == map[]
    {
      waitGraph := map[];
    }

    method AddEdge(from: TxnId, to: TxnId)
      requires Valid()
      modifies this
      ensures Valid() && waitGraph == WithEdge(old(waitGraph), from, to)
      ensures forall a, b :: Edge(waitGraph, a, b) <==> Edge(old(waitGraph), a, b) || (a == from && b == to)
    {
      EdgesWithEdge(waitGraph, from, to);
      waitGraph := waitGraph[from := (if from in waitGraph then waitGraph[from] else {}) + {to}];
    }

    method RemoveEdge(from: TxnId, to: TxnId)
      requires Valid()
      modifies this
      ensures Valid()
      ensures forall a, b :: Edge(waitGraph, a, b) <==> Edge(old(waitGraph), a, b) && !(a == from && b == to)
    {
      if from in waitGraph {
        waitGraph := waitGraph[from := waitGraph[from] - {to}];
        if waitGraph[from] == {} {
          waitGraph := waitGraph - {from};
        }
        forall a, b ensures Edge(waitGraph, a, b) <==> Edge(old(waitGraph), a, b) && !(a == from && b == to) {
          if a == from {
            assert Edge(waitGraph, a, b) <==> b in old(waitGraph)[from] - {to};
          }
        }
      }
    }

    /** Leaves exactly the edges that do not touch the transaction, and no empty adjacency set. */
    method RemoveTxn(txn: TxnId)
      requires Valid()
      modifies this
      ensures Valid() && txn !in waitGraph && waitGraph.Keys <= old(waitGraph.Keys)
      ensures forall a, b :: Edge(waitGraph, a, b) <==> Edge(old(waitGraph), a, b) && a != txn && b != txn
    {
      waitGraph := waitGraph - {txn};
      ghost var g := waitGraph;
      var todo := waitGraph.Keys;
      while todo != {}
        invariant todo <= waitGraph.Keys == g.Keys
        invariant forall a :: a in g ==> waitGraph[a] == if a in todo then g[a] else g[a] - {txn}
        decreases todo
      {
        var a := AnyOf(todo);
        waitGraph := waitGraph[a := waitGraph[a] - {txn}];
        todo := todo - {a};
      }
      todo := waitGraph.Keys;
      while todo != {}
        invariant todo <= waitGraph.Keys <= g.Keys
        invariant forall a :: a in waitGraph ==> waitGraph[a] == g[a] - {txn}
        invariant forall a :: a in g && a !in waitGraph ==> g[a] - {txn} == {}
        invariant forall a :: a in waitGraph && a !in todo ==> waitGraph[a] != {}
        decreases todo
      {
        var a := AnyOf(todo);
        if waitGraph[a] == {} {
          waitGraph := waitGraph - {a};
        }
        todo := todo - {a};
      }
      forall a, b ensures Edge(waitGraph, a, b) <==> Edge(old(waitGraph), a, b) && a != txn && b != txn {
        if a in g {
          assert b in g[a] && b != txn <==> b in g[a] - {txn};
        }
      }
    }

    /** Where a search stands: the path is the recursion stack, and everything else visited is finished. */
    ghost predicate Searching(visited: set<TxnId>, recStack: set<TxnId>, path: seq<TxnId>, order: seq<TxnId>)
      reads this
    {
      && Distinct(path)
      && (path != [] ==> IsWalk(waitGraph, path))
      && (forall x :: x in path <==> x in recStack)
      && Finished(waitGraph, order)
      && (forall x :: x in order <==> x in visited && x !in recStack)
      && recStack <= visited
    }

    /** Cutting the current path where an edge leads back into it. */
    method CutCycle(path: seq<TxnId>, next: TxnId) returns (cycle: seq<TxnId>)
      requires path != [] && Distinct(path) && IsWalk(waitGraph, path)
      requires next in path && Edge(waitGraph, path[|path| - 1], next)
      ensures IsCycle(waitGraph, cycle)
    {
      cycle := [];
      var idx := 0;
      while idx < |path| && path[idx] != next
        invariant 0 <= idx <= |path| && next !in path[..idx]
      {
        idx := idx + 1;
      }
      assert idx < |path|;
      ghost var start := idx;
      while idx < |path|
        invariant start <= idx <= |path|
        invariant cycle == path[start..idx]
      {
        cycle := cycle + [path[idx]];
        idx := idx + 1;
      }
      SubWalk(waitGraph, path, start, |path|);
      JoinWalks(waitGraph, cycle, [next]);
      cycle := cycle + [next];
      assert cycle[..|cycle| - 1] == path[start..];
    }

    method DFSCycle(node: TxnId, visited: set<TxnId>, recStack: set<TxnId>, path: seq<TxnId>, ghost order: seq<TxnId>)
      returns (found: bool, visited': set<TxnId>, recStack': set<TxnId>, path': seq<TxnId>, cycle: seq<TxnId>,
               ghost order': seq<TxnId>)
      requires Searching(visited, recStack, path, order)
      requires node !in visited && node in Nodes(waitGraph)
      requires path != [] ==> Edge(waitGraph, path[|path| - 1], node)
      ensures found ==> IsCycle(waitGraph, cycle)
      ensures !found ==> recStack' == recStack && path' == path && visited + {node} <= visited'
      ensures !found ==> Searching(visited', recStack, path, order')
      decreases Nodes(waitGraph) - visited
    {
      visited' := visited + {node};
      recStack' := recStack + {node};
      path' := path + [node];
      order' := order;
      cycle := [];
      if path != [] {
        JoinWalks(waitGraph, path, [node]);
      }
      if node in waitGraph {
        var todo := waitGraph[node];
        while todo != {}
          invariant todo <= waitGraph[node] && visited + {node} <= visited'
          invariant recStack' == recStack + {node} && path' == path + [node]
          invariant Searching(visited', recStack', path', order')
          invariant forall b :: b in waitGraph[node] && b !in todo ==> b in order'
          decreases todo
        {
          var next := AnyOf(todo);
          assert Edge(waitGraph, node, next);
          if next !in visited' {
            var deeper;
            deeper, visited', recStack', path', cycle, order' :=
              DFSCycle(next, visited', recStack', path', order');
            if deeper {
              return true, visited', recStack', path', cycle, order';
            }
          } else if next in recStack' {
            cycle := CutCycle(path', next);
            return true, visited', recStack' - {node}, path'[..|path'| - 1], cycle, order';
          }
          todo := todo - {next};
        }
      }
      FinishedAppend(waitGraph, order', node);
      order' := order' + [node];
      recStack' := recStack' - {node};
      path' := path'[..|path'| - 1];
      found := false;
    }

    /** Answers whether there is a cycle at all, and hands one out if so, in whatever order the graph is walked. */
    method DetectCycle() returns (found: bool, cycle: seq<TxnId>)
      ensures found <==> Cyclic(waitGraph)
      ensures found ==> IsCycle(waitGraph, cycle)
    {
      var visited, recStack, path := {}, {}, [];
      ghost var order := [];
      cycle := [];
      var todo := waitGraph.Keys;
      while todo != {}
        invariant todo <= waitGraph.Keys && recStack == {} && path == []
        invariant Searching(visited, recStack, path, order)
        invariant forall a :: a in waitGraph && a !in todo ==> a in visited
        decreases todo
      {
        var start := AnyOf(todo);
        if start !in visited {
          found, visited, recStack, path, cycle, order := DFSCycle(start, visited, recStack, path, order);
          if found {
            return;
          }
        }
        todo := todo - {start};
      }
      FinishedIsAcyclic(waitGraph, order);
      found := false;
    }

    method HasDeadlock() returns (found: bool)
      ensures found <==> Cyclic(waitGraph)
    {
      var visited, recStack, path := {}, {}, [];
      ghost var order := [];
      var todo := waitGraph.Keys;
      while todo != {}
        invariant todo <= waitGraph.Keys && recStack == {} && path == []
        invariant Searching(visited, recStack, path, order)
        invariant forall a :: a in waitGraph && a !in todo ==> a in visited
        decreases todo
      {
        var start := AnyOf(todo);
        if start !in visited {
          var cycle;
          found, visited, recStack, path, cycle, order := DFSCycle(start, visited, recStack, path, order);
          if found {
            return;
          }
        }
        todo := todo - {start};
      }
      FinishedIsAcyclic(waitGraph, order);
      found := false;
    }

    /** The victim is the youngest transaction, the one with the largest id, of a cycle that is really there. */
    method GetVictim() returns (found: bool, victim: TxnId)
      ensures found <==> Cyclic(waitGraph)
      ensures found ==> exists c :: IsCycle(waitGraph, c) && victim in c && forall x :: x in c ==> x <= victim
    {
      victim := 0;
      var cycle;
      found, cycle := DetectCycle();
      if !found || cycle == [] {
        return false, victim;
      }
      victim := cycle[0];
      for i := 0 to |cycle|
        invariant victim in cycle && forall j :: 0 <= j < i ==> cycle[j] <= victim
      {
        if cycle[i] > victim {
          victim := cycle[i];
        }
      }
      assert IsCycle(waitGraph, cycle) && victim in cycle && forall x :: x in cycle ==> x <= victim;
    }

    /** A caller's loop: removing victims until none is found terminates and leaves an acyclic part of the graph. */
    method ResolveDeadlocks() returns (victims: seq<TxnId>)
      requires Valid()
      modifies this
      ensures Valid() && !Cyclic(waitGraph)
      ensures forall a, b :: Edge(waitGraph, a, b) <==> Edge(old(waitGraph), a, b) && a !in victims && b !in victims
      ensures Distinct(victims) && forall v :: v in victims ==> v in old(waitGraph)
    {
      victims := [];
      var found, victim := NextVictim();
      while found
        invariant Valid() && waitGraph.Keys <= old(waitGraph.Keys)
        invariant found <==> Cyclic(waitGraph)
        invariant found ==> victim in waitGraph
        invariant forall a, b :: Edge(waitGraph, a, b) <==> Edge(old(waitGraph), a, b) && a !in victims && b !in victims
        invariant Distinct(victims) && forall v :: v in victims ==> v in old(waitGraph) && v !in waitGraph
        decreases waitGraph.Keys
      {
        RemoveTxn(victim);
        victims := victims + [victim];
        found, victim := NextVictim();
      }
    }

    method NextVictim() returns (found: bool, victim: TxnId)
      ensures found <==> Cyclic(waitGraph)
      ensures found ==> victim in waitGraph
    {
      found, victim := GetVictim();
      if found {
        ghost var c :| IsCycle(waitGraph, c) && victim in c;
        CycleNodesWait(waitGraph, c);
      }
    }
  }
}
