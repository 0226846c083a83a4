/** Wait-for graphs as values: walks, cycles, and the orders in which a depth-first search finishes nodes. */
module WaitGraph {

  type TxnId = int
  type Graph = map<TxnId, set<TxnId>>

  predicate Edge(g: Graph, a: TxnId, b: TxnId) {
    a in g && b in g[a]
  }

  ghost predicate IsWalk(g: Graph, w: seq<TxnId>) {
    && w != []
    && forall i :: 0 <= i < |w| - 1 ==> Edge(g, w[i], w[i + 1])
  }

  ghost predicate ClosedWalk(g: Graph, w: seq<TxnId>) {
    IsWalk(g, w) && |w| >= 2 && w[0] == w[|w| - 1]
  }

  ghost predicate Distinct(s: seq<TxnId>) {
    forall i, j :: 0 <= i < j < |s| ==> s[i] != s[j]
  }

  /** A closed walk that repeats nothing but its end. */
  ghost predicate IsCycle(g: Graph, c: seq<TxnId>) {
    ClosedWalk(g, c) && Distinct(c[..|c| - 1])
  }

  ghost predicate Cyclic(g: Graph) {
    exists w :: ClosedWalk(g, w)
  }

  ghost predicate Reaches(g: Graph, a: TxnId, b: TxnId) {
    exists w :: IsWalk(g, w) && w[0] == a && w[|w| - 1] == b
  }

  ghost function Successors(g: Graph, a: TxnId): set<TxnId> {
    if a in g then g[a] else {}
  }

  ghost function Nodes(g: Graph): set<TxnId> {
    g.Keys + set a, b | a in g && b in g[a] :: b
  }

  /** Every node waits only for nodes that come before it. */
  ghost predicate Finished(g: Graph, order: seq<TxnId>) {
    forall i, b {:trigger Edge(g, order[i], b)} :: 0 <= i < |order| && Edge(g, order[i], b) ==> b in order[..i]
  }

  lemma JoinWalks(g: Graph, v: seq<TxnId>, w: seq<TxnId>)
    requires IsWalk(g, v) && IsWalk(g, w) && Edge(g, v[|v| - 1], w[0])
    ensures IsWalk(g, v + w)
  {
    var u := v + w;
    forall i | 0 <= i < |u| - 1 ensures Edge(g, u[i], u[i + 1]) {
      if i < |v| - 1 {
        assert Edge(g, v[i], v[i + 1]);
      } else if i >= |v| {
        assert Edge(g, w[i - |v|], w[i - |v| + 1]);
      }
    }
  }

  lemma SubWalk(g: Graph, w: seq<TxnId>, i: nat, j: nat)
    requires IsWalk(g, w) && i < j <= |w|
    ensures IsWalk(g, w[i..j])
  {
    var u := w[i..j];
    forall k | 0 <= k < |u| - 1 ensures Edge(g, u[k], u[k + 1]) {
      assert Edge(g, w[i + k], w[i + k + 1]);
    }
  }

  lemma FinishedAppend(g: Graph, order: seq<TxnId>, node: TxnId)
    requires Finished(g, order) && forall b :: b in Successors(g, node) ==> b in order
    ensures Finished(g, order + [node])
  {
    var longer := order + [node];
    forall i, b | 0 <= i < |longer| && Edge(g, longer[i], b) ensures b in longer[..i] {
      if i < |order| {
        assert longer[..i] == order[..i] && Edge(g, order[i], b);
      } else {
        assert longer[..i] == order;
      }
    }
  }

  /** Walks out of a finished node end strictly earlier in the finishing order. */
  lemma {:induction false} WalkDescends(g: Graph, order: seq<TxnId>, w: seq<TxnId>, p: nat)
    requires Finished(g, order) && IsWalk(g, w) && |w| >= 2
    requires p < |order| && order[p] == w[0]
    ensures w[|w| - 1] in order[..p]
    decreases |w|
  {
    assert Edge(g, w[0], w[1]);
    var q :| 0 <= q < p && order[q] == w[1];
    if |w| > 2 {
      var rest := w[1..];
      SubWalk(g, w, 1, |w|);
      assert w[1..|w|] == rest;
      WalkDescends(g, order, rest, q);
      assert order[..q] <= order[..p];
    }
  }

  lemma FirstIndex(order: seq<TxnId>, x: TxnId) returns (p: nat)
    requires x in order
    ensures p < |order| && order[p] == x && x !in order[..p]
  {
    p := 0;
    while order[p] != x
      invariant p < |order| && x !in order[..p] && x in order[p..]
      decreases |order| - p
    {
      p := p + 1;
    }
  }

  /** A finishing order of all waiting nodes rules out every cycle. */
  lemma FinishedIsAcyclic(g: Graph, order: seq<TxnId>)
    requires Finished(g, order) && forall a :: a in g ==> a in order
    ensures !Cyclic(g)
  {
    if w :| ClosedWalk(g, w) {
      assert Edge(g, w[0], w[1]);
      var p := FirstIndex(order, w[0]);
      WalkDescends(g, order, w, p);
      assert false;
    }
  }

  ghost function WithEdge(g: Graph, a: TxnId, b: TxnId): Graph {
    g[a := Successors(g, a) + {b}]
  }

  /** A new edge joins the old ones. */
  lemma EdgesWithEdge(g: Graph, a: TxnId, b: TxnId)
    ensures forall x, y :: Edge(WithEdge(g, a, b), x, y) <==> Edge(g, x, y) || (x == a && y == b)
  {
  }

  /** A walk that ends where a new edge starts does not need the new edge. */
  lemma AvoidNewEdge(g: Graph, a: TxnId, b: TxnId, w: seq<TxnId>)
    requires IsWalk(WithEdge(g, a, b), w) && w[|w| - 1] == a
    ensures Reaches(g, w[0], a)
  {
    var i := 0;
    while i < |w| - 1 && Edge(g, w[i], w[i + 1])
      invariant i < |w| && IsWalk(g, w[..i + 1])
    {
      JoinWalks(g, w[..i + 1], [w[i + 1]]);
      assert w[..i + 1] + [w[i + 1]] == w[..i + 2];
      i := i + 1;
    }
    if i < |w| - 1 {
      assert Edge(WithEdge(g, a, b), w[i], w[i + 1]);
    }
    assert w[..i + 1][0] == w[0] && w[..i + 1][|w[..i + 1]| - 1] == a;
  }

  lemma NewCycleUsesNewEdge(g: Graph, a: TxnId, b: TxnId, w: seq<TxnId>)
    requires !Cyclic(g) && ClosedWalk(WithEdge(g, a, b), w)
    ensures Reaches(g, b, a)
  {
    var h := WithEdge(g, a, b);
    assert !ClosedWalk(g, w);
    var i :| 0 <= i < |w| - 1 && !Edge(g, w[i], w[i + 1]);
    assert Edge(h, w[i], w[i + 1]);
    var back := w[i + 1..];
    SubWalk(h, w, i + 1, |w|);
    assert w[i + 1..|w|] == back;
    if i > 0 {
      SubWalk(h, w, 1, i + 1);
      assert Edge(h, w[0], w[1]);
      JoinWalks(h, back, w[1..i + 1]);
      back := back + w[1..i + 1];
    }
    AvoidNewEdge(g, a, b, back);
  }

  /** Letting `a` wait for `b` keeps the graph free of cycles exactly when `b` does not already lead to `a`. */
  lemma AddEdgeAcyclic(g: Graph, a: TxnId, b: TxnId)
    requires !Cyclic(g)
    ensures Cyclic(WithEdge(g, a, b)) <==> Reaches(g, b, a)
  {
    var h := WithEdge(g, a, b);
    if Reaches(g, b, a) {
      var w :| IsWalk(g, w) && w[0] == b && w[|w| - 1] == a;
      assert IsWalk(h, w) by {
        forall i | 0 <= i < |w| - 1 ensures Edge(h, w[i], w[i + 1]) {
          assert Edge(g, w[i], w[i + 1]);
        }
      }
      JoinWalks(h, [a], w);
      assert ClosedWalk(h, [a] + w);
    }
    if w :| ClosedWalk(h, w) {
      NewCycleUsesNewEdge(g, a, b, w);
    }
  }

  /** A cycle cannot pass through a node nothing leaves. */
  lemma CycleNodesWait(g: Graph, c: seq<TxnId>)
    requires ClosedWalk(g, c)
    ensures forall x :: x in c ==> x in g
  {
    forall i | 0 <= i < |c| ensures c[i] in g {
      if i < |c| - 1 {
        assert Edge(g, c[i], c[i + 1]);
      } else {
        assert Edge(g, c[0], c[1]);
      }
    }
  }
}
