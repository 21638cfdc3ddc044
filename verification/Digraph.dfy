/**
Directed graphs as finite edge sets. This is the one definition of "acyclic" that both graph
checks of the domain crate (the depth-first one and Kahn's) are proved against.
*/
module Digraph {
  import opened Collections

  type Edges<!T(==)> = set<(T, T)>

  /** `p` follows edges of `e` from each element to the next. */
  ghost predicate Walk<T>(e: Edges<T>, p: seq<T>) {
    |p| >= 1 && forall i :: 0 <= i < |p| - 1 ==> (p[i], p[i + 1]) in e
  }

  ghost predicate ClosedWalk<T>(e: Edges<T>, p: seq<T>) {
    |p| >= 2 && Walk(e, p) && p[0] == p[|p| - 1]
  }

  ghost predicate Cyclic<T(!new)>(e: Edges<T>) {
    exists p: seq<T> :: ClosedWalk(e, p)
  }

  ghost predicate Within<T(!new)>(e: Edges<T>, nodes: set<T>) {
    forall a, b :: (a, b) in e ==> a in nodes && b in nodes
  }

  /** `order` lists every node once, and every edge points forward in it. */
  ghost predicate TopologicalOrder<T>(nodes: set<T>, e: Edges<T>, order: seq<T>) {
    && NoDuplicates(order)
    && Elements(order) == nodes
    && forall i, j :: 0 <= i < |order| && 0 <= j < |order| && (order[i], order[j]) in e ==> i < j
  }

  lemma {:induction false} WalkStaysWithin<T(!new)>(nodes: set<T>, e: Edges<T>, p: seq<T>, k: nat)
    requires Within(e, nodes) && Walk(e, p) && |p| >= 2 && k < |p|
    ensures p[k] in nodes
  {
    if k == 0 {
      assert (p[0], p[1]) in e;
    } else {
      assert (p[k - 1], p[k - 1 + 1]) in e;
    }
  }

  /** A walk of at least one edge moves forward in a topological order. */
  lemma {:induction false} WalkMovesForward<T(!new)>(nodes: set<T>, e: Edges<T>, order: seq<T>, p: seq<T>, i: nat, j: nat)
    requires TopologicalOrder(nodes, e, order) && Within(e, nodes)
    requires Walk(e, p) && |p| >= 2
    requires i < |order| && j < |order| && order[i] == p[0] && order[j] == p[|p| - 1]
    ensures i < j
    decreases |p|
  {
    assert (p[0], p[1]) in e;
    if |p| == 2 {
    } else {
      assert p[1] in Elements(order);
      var k :| 0 <= k < |order| && order[k] == p[1];
      var tail := p[1..];
      assert Walk(e, tail) by {
        forall n | 0 <= n < |tail| - 1 ensures (tail[n], tail[n + 1]) in e {
          assert (p[n + 1], p[n + 1 + 1]) in e;
        }
      }
      WalkMovesForward(nodes, e, order, tail, k, j);
    }
  }

  lemma {:induction false} OrderedIsAcyclic<T(!new)>(nodes: set<T>, e: Edges<T>, order: seq<T>)
    requires TopologicalOrder(nodes, e, order) && Within(e, nodes)
    ensures !Cyclic(e)
  {
    forall p: seq<T> ensures !ClosedWalk(e, p) {
      if ClosedWalk(e, p) {
        WalkStaysWithin(nodes, e, p, 0);
        assert p[0] in Elements(order);
        var i :| 0 <= i < |order| && order[i] == p[0];
        WalkMovesForward(nodes, e, order, p, i, i);
      }
    }
  }

  ghost predicate HasPredecessor<T(!new)>(e: Edges<T>, nodes: set<T>, b: T) {
    exists a :: a in nodes && (a, b) in e
  }

  ghost predicate EveryNodeHasPredecessor<T(!new)>(e: Edges<T>, nodes: set<T>) {
    forall b :: b in nodes ==> HasPredecessor(e, nodes, b)
  }

  /** Walk backwards `n` times inside a set whose members all have a predecessor in the set. */
  lemma {:induction false} BackwardWalk<T(!new)>(e: Edges<T>, nodes: set<T>, start: T, n: nat) returns (p: seq<T>)
    requires start in nodes
    requires EveryNodeHasPredecessor(e, nodes)
    ensures |p| == n + 1 && Walk(e, p) && Elements(p) <= nodes
  {
    if n == 0 {
      p := [start];
    } else {
      var q := BackwardWalk(e, nodes, start, n - 1);
      assert q[0] in Elements(q);
      assert HasPredecessor(e, nodes, q[0]);
      var a :| a in nodes && (a, q[0]) in e;
      p := [a] + q;
      forall k | 0 <= k < |p| - 1 ensures (p[k], p[k + 1]) in e {
        if k > 0 { assert (q[k - 1], q[k - 1 + 1]) in e; }
      }
      assert Elements(p) == {a} + Elements(q);
    }
  }

  lemma SubWalk<T>(e: Edges<T>, p: seq<T>, i: nat, j: nat)
    requires Walk(e, p) && i < j < |p| && p[i] == p[j]
    ensures ClosedWalk(e, p[i..j + 1])
  {
    var q := p[i..j + 1];
    forall k | 0 <= k < |q| - 1 ensures (q[k], q[k + 1]) in e {
      assert (p[i + k], p[i + k + 1]) in e;
    }
  }

  /** A non-empty set in which everybody has a predecessor contains a cycle. */
  lemma {:induction false} NoSourceIsCyclic<T(!new)>(e: Edges<T>, nodes: set<T>)
    requires nodes != {}
    requires EveryNodeHasPredecessor(e, nodes)
    ensures Cyclic(e)
  {
    var start :| start in nodes;
    var p := BackwardWalk(e, nodes, start, |nodes|);
    var i, j := Pigeonhole(p, nodes);
    SubWalk(e, p, i, j);
  }

  /** A node without predecessors can be listed first. */
  lemma {:induction false} SourceFirst<T(!new)>(nodes: set<T>, e: Edges<T>, order: seq<T>, first: T) returns (moved: seq<T>)
    requires TopologicalOrder(nodes, e, order) && first in nodes
    requires forall a :: (a, first) !in e
    ensures TopologicalOrder(nodes, e, moved) && |moved| >= 1 && moved[0] == first
  {
    assert first in Elements(order);
    var k :| 0 <= k < |order| && order[k] == first;
    moved := [first] + order[..k] + order[k + 1..];
    assert forall i :: 0 <= i < |moved| ==>
      moved[i] == order[if i == 0 then k else if i <= k then i - 1 else i];
    assert Elements(moved) == Elements(order) by {
      forall x | x in order ensures x in moved {
        var i :| 0 <= i < |order| && order[i] == x;
        assert moved[if i == k then 0 else if i < k then i + 1 else i] == x;
      }
    }
  }
}
