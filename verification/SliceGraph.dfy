/**
The slice-candidate graph check: a recursive depth-first search that keeps the ids on the current
path in `visiting` and the finished ids in `visited`.
*/
module SliceGraph {
  import opened Wrappers
  import opened Uuids
  import opened Collections
  import opened Digraph

  datatype Node = Node(id: Uuid, revision: int, dependencies: seq<Uuid>)

  /** One edge from every node to each of its dependencies. */
  ghost function DependencyEdges(nodes: seq<Node>): Edges<Uuid> {
    set i, d | 0 <= i < |nodes| && d in nodes[i].dependencies :: (nodes[i].id, d)
  }

  ghost function Ids(nodes: seq<Node>): set<Uuid> {
    set i | 0 <= i < |nodes| :: nodes[i].id
  }

  ghost predicate DistinctIds(nodes: seq<Node>) {
    forall i, j :: 0 <= i < j < |nodes| ==> nodes[i].id != nodes[j].id
  }

  ghost predicate WellIdentified(nodes: seq<Node>) {
    forall i :: 0 <= i < |nodes| ==> !IsNil(nodes[i].id) && nodes[i].revision >= 1
  }

  ghost predicate DependenciesPresent(nodes: seq<Node>) {
    forall i, d :: 0 <= i < |nodes| && d in nodes[i].dependencies ==> d in Ids(nodes)
  }

  /** What the check is for, said without the algorithm. */
  ghost predicate Acceptable(nodes: seq<Node>) {
    DistinctIds(nodes) && WellIdentified(nodes) && DependenciesPresent(nodes) && !Cyclic(DependencyEdges(nodes))
  }

  // -- the index by id ------------------------------------------------------------------------

  function ById(nodes: seq<Node>): map<Uuid, Node> {
    if nodes == [] then map[] else
      var last := nodes[|nodes| - 1];
      ById(nodes[..|nodes| - 1])[last.id := last]
  }

  lemma {:induction false} ByIdKeys(nodes: seq<Node>)
    ensures ById(nodes).Keys == Ids(nodes)
    ensures forall id :: id in ById(nodes) ==> ById(nodes)[id].id == id && ById(nodes)[id] in nodes
  {
    if nodes == [] {
    } else {
      var init, last := nodes[..|nodes| - 1], nodes[|nodes| - 1];
      ByIdKeys(init);
      assert Ids(nodes) == Ids(init) + {last.id};
    }
  }

  lemma DistinctIdsLast(nodes: seq<Node>)
    requires nodes != []
    ensures DistinctIds(nodes) <==>
            DistinctIds(nodes[..|nodes| - 1]) && nodes[|nodes| - 1].id !in Ids(nodes[..|nodes| - 1])
  {
    var init, last := nodes[..|nodes| - 1], nodes[|nodes| - 1];
    if DistinctIds(init) && last.id !in Ids(init) {
      forall i, j | 0 <= i < j < |nodes| ensures nodes[i].id != nodes[j].id {
        assert init[i].id in Ids(init);
        if j < |init| { assert init[i].id != init[j].id; }
      }
    }
    if DistinctIds(nodes) {
      forall i, j | 0 <= i < j < |init| ensures init[i].id != init[j].id {
        assert nodes[i].id != nodes[j].id;
      }
    }
  }

  lemma {:induction false} ByIdSize(nodes: seq<Node>)
    ensures |ById(nodes)| <= |nodes|
    ensures |ById(nodes)| == |nodes| <==> DistinctIds(nodes)
  {
    if nodes == [] {
    } else {
      var init, last := nodes[..|nodes| - 1], nodes[|nodes| - 1];
      ByIdSize(init);
      ByIdKeys(init);
      DistinctIdsLast(nodes);
      assert ById(nodes).Keys == ById(init).Keys + {last.id};
      assert |ById(nodes)| == |ById(nodes).Keys| && |ById(init)| == |ById(init).Keys|;
    }
  }

  lemma ByIdLookup(nodes: seq<Node>, i: nat)
    requires DistinctIds(nodes) && i < |nodes|
    ensures nodes[i].id in ById(nodes) && ById(nodes)[nodes[i].id] == nodes[i]
  {
    ByIdKeys(nodes);
    assert nodes[i].id in Ids(nodes);
    var n := ById(nodes)[nodes[i].id];
    var j :| 0 <= j < |nodes| && nodes[j] == n;
    assert nodes[j].id == nodes[i].id;
  }

  // -- the depth-first search -----------------------------------------------------------------

  ghost function IndexEdges(index: map<Uuid, Node>): Edges<Uuid> {
    set n, d | n in index && d in index[n].dependencies :: (n, d)
  }

  ghost predicate MissingDependency(index: map<Uuid, Node>) {
    exists n, d :: n in index && d in index[n].dependencies && d !in index
  }

  /** Stepping from the end of a path back onto the path closes a cycle. */
  lemma PathReentered(e: Edges<Uuid>, path: seq<Uuid>, id: Uuid)
    requires path != [] && Walk(e, path) && (path[|path| - 1], id) in e && id in path
    ensures Cyclic(e)
  {
    var i :| 0 <= i < |path| && path[i] == id;
    var p := path + [id];
    assert Walk(e, p) by {
      forall k | 0 <= k < |p| - 1 ensures (p[k], p[k + 1]) in e {
        if k < |path| - 1 { assert (path[k], path[k + 1]) in e; }
      }
    }
    SubWalk(e, p, i, |path|);
  }

  class Traversal {
    const index: map<Uuid, Node>
    var visiting: set<Uuid>
    var visited: set<Uuid>
    /** The ids of `visiting` in the order in which they were entered. */
    ghost var path: seq<Uuid>
    /** The ids of `visited`, latest first: every dependency comes after its dependents. */
    ghost var finished: seq<Uuid>

    ghost predicate OnPath()
      reads this
    {
      && visiting == Elements(path)
      && visiting <= index.Keys
      && (path != [] ==> Walk(IndexEdges(index), path))
    }

    ghost predicate Finished()
      reads this
    {
      && visited == Elements(finished)
      && visited <= index.Keys
      && visiting !! visited
      && NoDuplicates(finished)
      && forall i, d :: 0 <= i < |finished| && d in index[finished[i]].dependencies ==> d in finished[i + 1..]
    }

    constructor (index: map<Uuid, Node>)
      ensures this.index == index && visiting == {} && visited == {} && path == []
      ensures OnPath() && Finished()
    {
      this.index := index;
      visiting, visited, path, finished := {}, {}, [], [];
    }

    method Visit(id: Uuid) returns (ok: bool)
      requires OnPath() && Finished()
      requires path != [] ==> (path[|path| - 1], id) in IndexEdges(index)
      modifies this
      ensures ok ==> OnPath() && Finished() && path == old(path) && visiting == old(visiting)
      ensures ok ==> old(visited) <= visited && id in visited
      ensures !ok ==> id !in index || MissingDependency(index) || Cyclic(IndexEdges(index))
      decreases index.Keys - visiting
    {
      if id in visited {
        return true;
      }
      if id in visiting {
        PathReentered(IndexEdges(index), path, id);
        return false;
      }
      visiting := visiting + {id};
      if id !in index {
        return false;
      }
      ghost var caller := path;
      path := path + [id];
      assert Walk(IndexEdges(index), path) by {
        forall k | 0 <= k < |path| - 1 ensures (path[k], path[k + 1]) in IndexEdges(index) {
          if k < |caller| - 1 { assert (caller[k], caller[k + 1]) in IndexEdges(index); }
        }
      }
      var deps := index[id].dependencies;
      for i := 0 to |deps|
        invariant OnPath() && Finished()
        invariant path == caller + [id] && visiting == old(visiting) + {id}
        invariant old(visited) <= visited
        invariant forall k :: 0 <= k < i ==> deps[k] in visited
      {
        var dep := deps[i];
        if dep !in index {
          return false;
        }
        assert (id, dep) in IndexEdges(index);
        ok := Visit(dep);
        if !ok {
          return false;
        }
      }
      visiting := visiting - {id};
      Finish(id);
      path := caller;
      return true;
    }

    /** The bookkeeping at the end of a visit. */
    method Finish(id: Uuid)
      requires Finished'(id) && id in index
      requires forall d :: d in index[id].dependencies ==> d in visited
      modifies `visited, `finished
      ensures Finished() && visited == old(visited) + {id}
    {
      assert forall i :: 0 <= i < |finished| ==> finished[i] != id;
      visited := visited + {id};
      finished := [id] + finished;
      assert forall i :: 0 <= i < |finished| ==> finished[i + 1..] == if i == 0 then old(finished) else old(finished)[i..];
    }

    /** `Finished` holds and `id` is neither on the path nor finished. */
    ghost predicate Finished'(id: Uuid)
      reads this
    {
      Finished() && id !in visiting && id !in visited
    }
  }

  /** A finished search that covers every id is a topological order of the nodes. */
  lemma FinishedIsOrder(nodes: seq<Node>, finished: seq<Uuid>)
    requires DistinctIds(nodes)
    requires NoDuplicates(finished) && Elements(finished) == ById(nodes).Keys
    requires forall i, d :: 0 <= i < |finished| && d in ById(nodes)[finished[i]].dependencies ==> d in finished[i + 1..]
    ensures DependenciesPresent(nodes)
    ensures TopologicalOrder(Ids(nodes), DependencyEdges(nodes), finished)
  {
    ByIdKeys(nodes);
    EdgesAgree(nodes);
    forall i, d | 0 <= i < |nodes| && d in nodes[i].dependencies ensures d in Ids(nodes) {
      ByIdLookup(nodes, i);
      var k :| 0 <= k < |finished| && finished[k] == nodes[i].id;
      assert d in finished[k + 1..];
      assert d in Elements(finished);
    }
    forall i, j | 0 <= i < |finished| && 0 <= j < |finished| && (finished[i], finished[j]) in DependencyEdges(nodes)
      ensures i < j
    {
      assert finished[j] in finished[i + 1..];
      var k :| i + 1 <= k < |finished| && finished[k] == finished[j];
    }
  }

  lemma EdgesAgree(nodes: seq<Node>)
    requires DistinctIds(nodes)
    ensures IndexEdges(ById(nodes)) == DependencyEdges(nodes)
    ensures MissingDependency(ById(nodes)) <==> !DependenciesPresent(nodes)
  {
    ByIdKeys(nodes);
    var index := ById(nodes);
    forall n, d | n in index && d in index[n].dependencies
      ensures (n, d) in DependencyEdges(nodes) && (d !in index ==> !DependenciesPresent(nodes))
    {
      var i :| 0 <= i < |nodes| && nodes[i] == index[n];
      assert nodes[i].id == n;
    }
    forall i, d | 0 <= i < |nodes| && d in nodes[i].dependencies
      ensures (nodes[i].id, d) in IndexEdges(index) && (d !in Ids(nodes) ==> MissingDependency(index))
    {
      ByIdLookup(nodes, i);
    }
  }

  method ValidateSliceGraph(nodes: seq<Node>) returns (r: Result<()>)
    ensures r.Ok? <==> Acceptable(nodes)
    ensures r.Err? ==> r.error == InvalidArguments
    ensures r.Ok? ==> exists order :: TopologicalOrder(Ids(nodes), DependencyEdges(nodes), order)
  {
    var byId := ById(nodes);
    ByIdSize(nodes);
    if |byId| != |nodes| || exists i :: 0 <= i < |nodes| && (IsNil(nodes[i].id) || nodes[i].revision < 1) {
      return Err(InvalidArguments);
    }
    ByIdKeys(nodes);
    EdgesAgree(nodes);
    var search := new Traversal(byId);
    var remaining := byId.Keys;
    while remaining != {}
      invariant remaining <= byId.Keys
      invariant search.index == byId && search.OnPath() && search.Finished()
      invariant search.path == [] && byId.Keys - remaining <= search.visited
    {
      var id :| id in remaining;
      var ok := search.Visit(id);
      if !ok {
        return Err(InvalidArguments);
      }
      remaining := remaining - {id};
    }
    FinishedIsOrder(nodes, search.finished);
    assert Within(DependencyEdges(nodes), Ids(nodes));
    OrderedIsAcyclic(Ids(nodes), DependencyEdges(nodes), search.finished);
    return Ok(());
  }
}
