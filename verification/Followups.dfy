/**
Follow-up proposals: the cycle test by Kahn's algorithm over an edge list that may repeat endpoint
pairs, the dependency check that feeds it, and the acceptance of a whole proposal.
*/
module Followups {
  import opened Wrappers
  import opened Text
  import opened Collections
  import opened Digraph

  const MAX_FOLLOWUP_NODES: nat := 16
  const MAX_FOLLOWUP_DEPENDENCIES: nat := 32
  const MAX_FOLLOWUP_TEXT_BYTES: nat := 4096

  datatype PipelineKind =
    | LightweightTddDevelopment | FullDesignToExecution | DebugRootCause | OperationalPreparation
    | OperationalExecution | Research | DeepBrainstorming | ResearchToDurableKnowledge
    | CustomProcedureCapture | PromoteToDurableKnowledge

  datatype Status = FutureCandidate | SatisfiedByCurrentRun

  datatype ConsumedOutput = ConsumedOutput(phaseId: string, outputRevision: int, digest: string)

  datatype Node = Node(localId: string, pipeline: PipelineKind, status: Status,
                       target: string, trigger: string, sourceOutputs: seq<ConsumedOutput>)

  datatype Dependency =
    | Ordered(predecessor: string, successor: string, condition: string)
    | Unresolved(nodeIds: seq<string>, condition: string, owner: string)

  datatype Proposal = Proposal(nodes: seq<Node>, dependencies: seq<Dependency>)

  datatype CurrentRun = CurrentRun(kind: PipelineKind, evidencePhaseIds: seq<string>)

  datatype Contract = Contract(allowedKinds: seq<PipelineKind>, requiredKindGroups: seq<seq<PipelineKind>>,
                               minimumNodes: nat, minimumDependencies: nat, currentRun: Option<CurrentRun>)

  predicate ValidText(value: string) {
    value != "" && Trim(value) == value && Utf8Length(value) <= MAX_FOLLOWUP_TEXT_BYTES
  }

  /** Not empty, no white space at either end, at most 4096 bytes of UTF-8. */
  ghost predicate PlainText(value: string) {
    && value != "" && !IsWhitespace(value[0]) && !IsWhitespace(value[|value| - 1])
    && |Utf8(value)| <= 4096
  }

  lemma ValidTextMeaning(value: string)
    ensures ValidText(value) <==> PlainText(value)
  {
    TrimExactly(value);
    Utf8LengthExactly(value);
  }

  // -- counting unreleased edges --------------------------------------------------------------

  type EdgeList = seq<(string, string)>

  ghost function EdgeSet(edges: EdgeList): Edges<string> {
    set k | 0 <= k < |edges| :: edges[k]
  }

  /** How many listed edges lead to `n` from a node outside `done`; repeats count. */
  ghost function Pending(edges: EdgeList, n: string, done: set<string>): nat {
    if edges == [] then 0 else
      Pending(edges[..|edges| - 1], n, done) + Blocks(edges[|edges| - 1], n, done)
  }

  ghost function Blocks(edge: (string, string), n: string, done: set<string>): nat {
    if edge.1 == n && edge.0 !in done then 1 else 0
  }

  lemma {:induction false} PendingSplit(a: EdgeList, b: EdgeList, n: string, done: set<string>)
    ensures Pending(a + b, n, done) == Pending(a, n, done) + Pending(b, n, done)
  {
    if b == [] {
      assert a + b == a;
    } else {
      PendingSplit(a, b[..|b| - 1], n, done);
      assert (a + b)[..|a + b| - 1] == a + b[..|b| - 1];
    }
  }

  /** Zero pending edges means that every predecessor is done. */
  lemma {:induction false} PendingZero(edges: EdgeList, n: string, done: set<string>)
    ensures Pending(edges, n, done) == 0 <==> forall a :: (a, n) in EdgeSet(edges) ==> a in done
  {
    if edges == [] {
    } else {
      var init, last := edges[..|edges| - 1], edges[|edges| - 1];
      PendingZero(init, n, done);
      assert EdgeSet(edges) == EdgeSet(init) + {last};
    }
  }

  /** What the inner loop sees after its first `j` edges: those already count `id` as done. */
  ghost function PendingMidway(edges: EdgeList, j: nat, n: string, done: set<string>, id: string): nat
    requires j <= |edges|
  {
    Pending(edges[..j], n, done + {id}) + Pending(edges[j..], n, done)
  }

  lemma PendingMidwayStep(edges: EdgeList, j: nat, n: string, done: set<string>, id: string)
    requires j < |edges|
    ensures PendingMidway(edges, j, n, done, id) ==
            PendingMidway(edges, j + 1, n, done, id) + Blocks(edges[j], n, done) - Blocks(edges[j], n, done + {id})
  {
    assert edges[..j + 1] == edges[..j] + [edges[j]];
    assert edges[j..] == [edges[j]] + edges[j + 1..];
    PendingSplit(edges[..j], [edges[j]], n, done + {id});
    PendingSplit([edges[j]], edges[j + 1..], n, done);
    assert Pending([edges[j]], n, done) == Pending([], n, done) + Blocks(edges[j], n, done) by {
      assert [edges[j]][..0] == [];
    }
    assert Pending([edges[j]], n, done + {id}) == Pending([], n, done + {id}) + Blocks(edges[j], n, done + {id}) by {
      assert [edges[j]][..0] == [];
    }
  }

  // -- Kahn's algorithm -----------------------------------------------------------------------

  /** The counters hold the pending edges, and exactly the zero ones are ready or already done. */
  ghost predicate Counted(nodes: set<string>, edges: EdgeList, incoming: map<string, nat>, ready: seq<string>, done: set<string>) {
    && incoming.Keys == nodes
    && NoDuplicates(ready)
    && Elements(ready) !! done
    && Elements(ready) <= nodes && done <= nodes
    && (forall n :: n in nodes ==> incoming[n] == Pending(edges, n, done))
    && (forall n :: n in nodes ==> (n in ready || n in done <==> incoming[n] == 0))
  }

  /** Popped nodes come after all their predecessors. */
  ghost predicate PredecessorsFirst(edges: EdgeList, order: seq<string>) {
    forall j, a :: 0 <= j < |order| && (a, order[j]) in EdgeSet(edges) ==> a in order[..j]
  }

  method CountIncoming(nodeIds: set<string>, edges: EdgeList) returns (incoming: map<string, nat>)
    ensures incoming.Keys == nodeIds
    ensures forall n :: n in nodeIds ==> incoming[n] == Pending(edges, n, {})
  {
    incoming := map id | id in nodeIds :: 0;
    for k := 0 to |edges|
      invariant incoming.Keys == nodeIds
      invariant forall n :: n in nodeIds ==> incoming[n] == Pending(edges[..k], n, {})
    {
      assert edges[..k + 1][..k] == edges[..k];
      var successor := edges[k].1;
      if successor in incoming {
        incoming := incoming[successor := incoming[successor] + 1];
      }
    }
    assert edges[..|edges|] == edges;
  }

  method InitiallyReady(incoming: map<string, nat>) returns (ready: seq<string>)
    ensures NoDuplicates(ready)
    ensures forall n :: n in ready <==> n in incoming && incoming[n] == 0
  {
    ready := [];
    var rest := incoming.Keys;
    while rest != {}
      invariant rest <= incoming.Keys
      invariant NoDuplicates(ready)
      invariant forall n :: n in ready <==> n in incoming && n !in rest && incoming[n] == 0
    {
      var id :| id in rest;
      rest := rest - {id};
      if incoming[id] == 0 {
        ready := ready + [id];
      }
    }
  }

  /** `Counted` inside the inner loop, after its first `j` edges. */
  ghost predicate CountedMidway(nodes: set<string>, edges: EdgeList, j: nat, incoming: map<string, nat>,
                                ready: seq<string>, done: set<string>, id: string)
    requires j <= |edges|
  {
    && incoming.Keys == nodes
    && NoDuplicates(ready)
    && Elements(ready) !! done + {id}
    && Elements(ready) <= nodes
    && (forall n :: n in nodes ==> incoming[n] == PendingMidway(edges, j, n, done, id))
    && (forall n :: n in nodes ==> (n in ready || n in done + {id} <==> incoming[n] == 0))
  }

  /** An edge of another node changes no counter. */
  lemma SkipEdge(nodes: set<string>, edges: EdgeList, j: nat, incoming: map<string, nat>,
                 ready: seq<string>, done: set<string>, id: string)
    requires j < |edges| && CountedMidway(nodes, edges, j, incoming, ready, done, id)
    requires edges[j].0 != id
    ensures CountedMidway(nodes, edges, j + 1, incoming, ready, done, id)
  {
    forall n | n in nodes ensures incoming[n] == PendingMidway(edges, j + 1, n, done, id) {
      PendingMidwayStep(edges, j, n, done, id);
    }
  }

  /** An edge of `id` still counts when it is reached, so its counter can be lowered by one. */
  method ReleaseEdge(edges: EdgeList, j: nat, counts: map<string, nat>, stack: seq<string>, id: string,
                     ghost nodes: set<string>, ghost done: set<string>)
    returns (incoming: map<string, nat>, ready: seq<string>)
    requires Within(EdgeSet(edges), nodes) && id !in done
    requires j < |edges| && CountedMidway(nodes, edges, j, counts, stack, done, id)
    requires edges[j].0 == id
    ensures CountedMidway(nodes, edges, j + 1, incoming, ready, done, id)
  {
    var successor := edges[j].1;
    assert edges[j] in EdgeSet(edges);
    PendingMidwayStep(edges, j, successor, done, id);
    incoming, ready := counts[successor := counts[successor] - 1], stack;
    if incoming[successor] == 0 {
      ready := ready + [successor];
      assert Elements(ready) == Elements(stack) + {successor};
    }
    LowerCounter(nodes, edges, j, counts, done, id);
  }

  lemma LowerCounter(nodes: set<string>, edges: EdgeList, j: nat, counts: map<string, nat>, done: set<string>, id: string)
    requires j < |edges| && edges[j].0 == id && id !in done && edges[j].1 in nodes
    requires counts.Keys == nodes
    requires forall n :: n in nodes ==> counts[n] == PendingMidway(edges, j, n, done, id)
    ensures forall n :: n in nodes ==>
      counts[n] == PendingMidway(edges, j + 1, n, done, id) + if n == edges[j].1 then 1 else 0
  {
    forall n | n in nodes
      ensures counts[n] == PendingMidway(edges, j + 1, n, done, id) + if n == edges[j].1 then 1 else 0
    {
      PendingMidwayStep(edges, j, n, done, id);
    }
  }

  /** The inner loop: release the outgoing edges of the popped node, one listed edge at a time. */
  method Release(edges: EdgeList, id: string, counts: map<string, nat>, stack: seq<string>,
                 ghost nodes: set<string>, ghost done: set<string>)
    returns (incoming: map<string, nat>, ready: seq<string>)
    requires Within(EdgeSet(edges), nodes) && id in nodes && id !in done && done <= nodes
    requires CountedMidway(nodes, edges, 0, counts, stack, done, id)
    ensures Counted(nodes, edges, incoming, ready, done + {id})
  {
    incoming, ready := counts, stack;
    for j := 0 to |edges|
      invariant CountedMidway(nodes, edges, j, incoming, ready, done, id)
    {
      if edges[j].0 == id {
        incoming, ready := ReleaseEdge(edges, j, incoming, ready, id, nodes, done);
      } else {
        SkipEdge(nodes, edges, j, incoming, ready, done, id);
      }
    }
    assert edges[..|edges|] == edges && edges[|edges|..] == [];
  }

  /** Popping the top of the stack is the start of the inner loop. */
  lemma PopReady(nodes: set<string>, edges: EdgeList, incoming: map<string, nat>, ready: seq<string>, done: set<string>)
    requires Counted(nodes, edges, incoming, ready, done) && ready != []
    ensures var id := ready[|ready| - 1];
            && id in nodes && id !in done && incoming[id] == 0
            && CountedMidway(nodes, edges, 0, incoming, ready[..|ready| - 1], done, id)
  {
    var id, stack := ready[|ready| - 1], ready[..|ready| - 1];
    assert ready == stack + [id];
    assert Elements(ready) == Elements(stack) + {id};
    assert edges[..0] == [] && edges[0..] == edges;
  }

  lemma AppendPopped(edges: EdgeList, order: seq<string>, id: string)
    requires PredecessorsFirst(edges, order)
    requires Pending(edges, id, Elements(order)) == 0
    ensures PredecessorsFirst(edges, order + [id])
  {
    PendingZero(edges, id, Elements(order));
    forall j, a | 0 <= j < |order| + 1 && (a, (order + [id])[j]) in EdgeSet(edges)
      ensures a in (order + [id])[..j]
    {
      assert (order + [id])[..j] == order[..j];
      if j == |order| { assert a in Elements(order); assert order[..j] == order; }
    }
  }

  /** All nodes popped: the popping order is topological. */
  lemma AllPopped(nodes: set<string>, edges: EdgeList, order: seq<string>)
    requires Within(EdgeSet(edges), nodes) && NoDuplicates(order) && PredecessorsFirst(edges, order)
    requires Elements(order) <= nodes && |order| == |nodes|
    ensures TopologicalOrder(nodes, EdgeSet(edges), order)
  {
    NoDuplicatesSize(order);
    SubsetSize(Elements(order), nodes);
    forall i, j | 0 <= i < |order| && 0 <= j < |order| && (order[i], order[j]) in EdgeSet(edges) ensures i < j {
      assert order[i] in order[..j];
      var k :| 0 <= k < j && order[k] == order[i];
    }
  }

  /** Some node never became ready: the rest of the graph has no source, hence a cycle. */
  lemma SomeBlocked(nodes: set<string>, edges: EdgeList, incoming: map<string, nat>, order: seq<string>)
    requires Within(EdgeSet(edges), nodes) && NoDuplicates(order)
    requires Counted(nodes, edges, incoming, [], Elements(order))
    requires |order| != |nodes|
    ensures Cyclic(EdgeSet(edges))
  {
    NoDuplicatesSize(order);
    SubsetSize(Elements(order), nodes);
    var rest := nodes - Elements(order);
    assert nodes == rest + Elements(order);
    forall b | b in rest ensures HasPredecessor(EdgeSet(edges), rest, b) {
      PendingZero(edges, b, Elements(order));
      assert incoming[b] != 0;
      var a :| (a, b) in EdgeSet(edges) && a !in Elements(order);
    }
    NoSourceIsCyclic(EdgeSet(edges), rest);
  }

  method HasCycle(nodeIds: set<string>, edges: EdgeList) returns (cyclic: bool)
    requires Within(EdgeSet(edges), nodeIds)
    ensures cyclic <==> Cyclic(EdgeSet(edges))
    ensures !cyclic ==> exists order :: TopologicalOrder(nodeIds, EdgeSet(edges), order)
  {
    var incoming := CountIncoming(nodeIds, edges);
    var ready := InitiallyReady(incoming);
    var visited := 0;
    ghost var order: seq<string> := [];
    assert Elements(order) == {};
    while ready != []
      invariant Counted(nodeIds, edges, incoming, ready, Elements(order))
      invariant NoDuplicates(order) && PredecessorsFirst(edges, order) && visited == |order|
      decreases nodeIds - Elements(order)
    {
      var id := ready[|ready| - 1];
      ghost var popped := Elements(order);
      PopReady(nodeIds, edges, incoming, ready, popped);
      AppendPopped(edges, order, id);
      ready := ready[..|ready| - 1];
      visited := visited + 1;
      order := order + [id];
      assert Elements(order) == popped + {id};
      incoming, ready := Release(edges, id, incoming, ready, nodeIds, popped);
    }
    if visited == |nodeIds| {
      AllPopped(nodeIds, edges, order);
      OrderedIsAcyclic(nodeIds, EdgeSet(edges), order);
    } else {
      SomeBlocked(nodeIds, edges, incoming, order);
    }
    return visited != |nodeIds|;
  }

  // -- dependencies ---------------------------------------------------------------------------

  /** The ordered pairs of a dependency list, in list order and with repeats. */
  ghost function OrderedPairs(dependencies: seq<Dependency>): EdgeList {
    if dependencies == [] then [] else
      var last := dependencies[|dependencies| - 1];
      OrderedPairs(dependencies[..|dependencies| - 1]) + if last.Ordered? then [(last.predecessor, last.successor)] else []
  }

  ghost predicate Orders(d: Dependency, a: string, b: string) {
    d.Ordered? && d.predecessor == a && d.successor == b
  }

  lemma {:induction false} OrderedPairsMember(dependencies: seq<Dependency>, a: string, b: string)
    ensures (a, b) in EdgeSet(OrderedPairs(dependencies)) <==>
            exists i :: 0 <= i < |dependencies| && Orders(dependencies[i], a, b)
  {
    if dependencies == [] {
    } else {
      var init, last := dependencies[..|dependencies| - 1], dependencies[|dependencies| - 1];
      OrderedPairsMember(init, a, b);
      var pairs := if last.Ordered? then [(last.predecessor, last.successor)] else [];
      EdgeSetSplit(OrderedPairs(init), pairs);
      assert (a, b) in EdgeSet(pairs) <==> Orders(last, a, b) by {
        if Orders(last, a, b) { assert pairs[0] == (a, b); }
      }
      assert forall i :: 0 <= i < |init| ==> dependencies[i] == init[i];
    }
  }

  lemma EdgeSetSplit(a: EdgeList, b: EdgeList)
    ensures EdgeSet(a + b) == EdgeSet(a) + EdgeSet(b)
  {
    forall e | e in EdgeSet(b) ensures e in EdgeSet(a + b) {
      var k :| 0 <= k < |b| && b[k] == e;
      assert (a + b)[|a| + k] == e;
    }
    forall e | e in EdgeSet(a) ensures e in EdgeSet(a + b) {
      var k :| 0 <= k < |a| && a[k] == e;
      assert (a + b)[k] == e;
    }
  }

  /** The checks on one dependency, as the code words them. */
  predicate DependencyFits(d: Dependency, nodeIds: set<string>, current: Option<string>) {
    match d
    case Ordered(predecessor, successor, condition) =>
      !(predecessor == successor
        || predecessor !in nodeIds
        || successor !in nodeIds
        || !ValidText(condition)
        || current == Some(successor))
    case Unresolved(ids, condition, owner) =>
      !(|ids| < 2
        || |set id | id in ids| != |ids|
        || (exists i :: 0 <= i < |ids| && ids[i] !in nodeIds)
        || !ValidText(condition)
        || !ValidText(owner)
        || (current.Some? && current.value in ids))
  }

  // What an accepted dependency list is, one property at a time.

  ghost predicate Mentions(d: Dependency, id: string) {
    match d
    case Ordered(predecessor, successor, _) => id == predecessor || id == successor
    case Unresolved(ids, _, _) => id in ids
  }

  /** Every id that a dependency of either form mentions is a node. */
  ghost predicate OnlyNodes(d: Dependency, nodeIds: set<string>) {
    forall id :: Mentions(d, id) ==> id in nodeIds
  }

  /** Neither form puts the current run behind another node. */
  ghost predicate CurrentRunFree(d: Dependency, current: Option<string>) {
    current.Some? ==>
      match d
      case Ordered(_, successor, _) => successor != current.value
      case Unresolved(ids, _, _) => forall i :: 0 <= i < |ids| ==> ids[i] != current.value
  }

  /** An order has two different ends; an unresolved group has at least two ids, all different. */
  ghost predicate RealRelation(d: Dependency) {
    match d
    case Ordered(predecessor, successor, _) => predecessor != successor
    case Unresolved(ids, _, _) => |ids| >= 2 && forall i, j :: 0 <= i < j < |ids| ==> ids[i] != ids[j]
  }

  ghost predicate PlainlyWorded(d: Dependency) {
    PlainText(d.condition) && (d.Unresolved? ==> PlainText(d.owner))
  }

  ghost predicate Sensible(d: Dependency, nodeIds: set<string>, current: Option<string>) {
    OnlyNodes(d, nodeIds) && CurrentRunFree(d, current) && RealRelation(d) && PlainlyWorded(d)
  }

  ghost predicate AllSensible(dependencies: seq<Dependency>, nodeIds: set<string>, current: Option<string>) {
    forall i {:trigger Sensible(dependencies[i], nodeIds, current)} ::
      0 <= i < |dependencies| ==> Sensible(dependencies[i], nodeIds, current)
  }

  lemma DependencyFitsMeaning(d: Dependency, nodeIds: set<string>, current: Option<string>)
    ensures DependencyFits(d, nodeIds, current) <==> Sensible(d, nodeIds, current)
  {
    ValidTextMeaning(d.condition);
    match d
    case Ordered(predecessor, successor, _) =>
      assert Mentions(d, predecessor) && Mentions(d, successor);
    case Unresolved(ids, _, owner) =>
      ValidTextMeaning(owner);
      DuplicatesBySize(ids);
      assert (set id | id in ids) == Elements(ids);
      assert forall i :: 0 <= i < |ids| ==> Mentions(d, ids[i]);
  }

  ghost predicate DependenciesFit(dependencies: seq<Dependency>, nodeIds: set<string>, current: Option<string>) {
    && AllSensible(dependencies, nodeIds, current)
    && !Cyclic(EdgeSet(OrderedPairs(dependencies)))
  }

  /** An order of the nodes that respects every ordered dependency and starts with the current run. */
  ghost predicate Schedule(dependencies: seq<Dependency>, nodeIds: set<string>, current: Option<string>, order: seq<string>) {
    && TopologicalOrder(nodeIds, EdgeSet(OrderedPairs(dependencies)), order)
    && (current.Some? ==> order != [] && order[0] == current.value)
  }

  method CheckDependency(d: Dependency, nodeIds: set<string>, current: Option<string>) returns (fits: bool)
    ensures fits <==> Sensible(d, nodeIds, current)
  {
    DependencyFitsMeaning(d, nodeIds, current);
    return DependencyFits(d, nodeIds, current);
  }

  /** The loop over the dependencies: check each, and list the ordered pairs. */
  method CollectEdges(dependencies: seq<Dependency>, nodeIds: set<string>, current: Option<string>) returns (r: Result<EdgeList>)
    ensures r.Ok? <==> AllSensible(dependencies, nodeIds, current)
    ensures r.Ok? ==> r.value == OrderedPairs(dependencies)
  {
    var edges: EdgeList := [];
    for k := 0 to |dependencies|
      invariant forall i {:trigger Sensible(dependencies[i], nodeIds, current)} :: 0 <= i < k ==> Sensible(dependencies[i], nodeIds, current)
      invariant edges == OrderedPairs(dependencies[..k])
    {
      var fits := CheckDependency(dependencies[k], nodeIds, current);
      if !fits {
        return Err(InvalidArguments);
      }
      assert dependencies[..k + 1][..k] == dependencies[..k];
      if dependencies[k].Ordered? {
        edges := edges + [(dependencies[k].predecessor, dependencies[k].successor)];
      }
    }
    assert dependencies[..|dependencies|] == dependencies;
    return Ok(edges);
  }

  /** The ordered pairs join nodes, and none leads to the current run. */
  lemma EdgesStayInside(dependencies: seq<Dependency>, nodeIds: set<string>, current: Option<string>)
    requires AllSensible(dependencies, nodeIds, current)
    ensures forall a, b :: (a, b) in EdgeSet(OrderedPairs(dependencies)) ==> a in nodeIds && b in nodeIds && current != Some(b)
  {
    forall a, b | (a, b) in EdgeSet(OrderedPairs(dependencies))
      ensures a in nodeIds && b in nodeIds && current != Some(b)
    {
      OrderedPairsMember(dependencies, a, b);
      var i :| 0 <= i < |dependencies| && Orders(dependencies[i], a, b);
      assert Sensible(dependencies[i], nodeIds, current);
      assert Mentions(dependencies[i], a) && Mentions(dependencies[i], b);
    }
  }

  method ValidateDependencies(dependencies: seq<Dependency>, nodeIds: set<string>, current: Option<string>) returns (r: Result<()>)
    requires current.Some? ==> current.value in nodeIds
    ensures r.Ok? <==> DependenciesFit(dependencies, nodeIds, current)
    ensures r.Err? ==> r.error == InvalidArguments
    ensures r.Ok? ==> exists order :: Schedule(dependencies, nodeIds, current, order)
  {
    var collected := CollectEdges(dependencies, nodeIds, current);
    if collected.Err? {
      return Err(InvalidArguments);
    }
    var edges := collected.value;
    EdgesStayInside(dependencies, nodeIds, current);
    var cyclic := HasCycle(nodeIds, edges);
    if cyclic {
      return Err(InvalidArguments);
    }
    ghost var order :| TopologicalOrder(nodeIds, EdgeSet(edges), order);
    if current.Some? {
      ghost var moved := SourceFirst(nodeIds, EdgeSet(edges), order, current.value);
      assert Schedule(dependencies, nodeIds, current, moved);
    } else {
      assert Schedule(dependencies, nodeIds, current, order);
    }
    return Ok(());
  }

  // -- whole proposals ------------------------------------------------------------------------

  function FirstFrom(phaseId: string, outputs: seq<ConsumedOutput>): (r: Option<ConsumedOutput>)
    ensures r.Some? <==> exists i :: 0 <= i < |outputs| && outputs[i].phaseId == phaseId
    ensures r.Some? ==> exists i :: 0 <= i < |outputs| && outputs[i] == r.value && r.value.phaseId == phaseId &&
                                    forall j :: 0 <= j < i ==> outputs[j].phaseId != phaseId
  {
    if outputs == [] then None
    else if outputs[0].phaseId == phaseId then Some(outputs[0])
    else
      var r := FirstFrom(phaseId, outputs[1..]);
      assert r.Some? ==> exists i :: 0 <= i < |outputs[1..]| && outputs[1..][i] == r.value;
      assert forall i :: 0 < i < |outputs| ==> outputs[i] == outputs[1..][i - 1];
      r
  }

  /** `filter_map` of the first consumed output for every evidence phase. */
  function Evidence(phaseIds: seq<string>, outputs: seq<ConsumedOutput>): seq<ConsumedOutput> {
    if phaseIds == [] then [] else
      var init := Evidence(phaseIds[..|phaseIds| - 1], outputs);
      match FirstFrom(phaseIds[|phaseIds| - 1], outputs)
      case Some(output) => init + [output]
      case None => init
  }

  /** The current-run node names, in order, the first consumed output of every evidence phase. */
  ghost predicate ExactEvidence(phaseIds: seq<string>, outputs: seq<ConsumedOutput>, named: seq<ConsumedOutput>) {
    && |named| == |phaseIds|
    && forall i :: 0 <= i < |named| ==> FirstFrom(phaseIds[i], outputs) == Some(named[i])
  }

  lemma {:induction false} EvidenceSize(phaseIds: seq<string>, outputs: seq<ConsumedOutput>)
    ensures |Evidence(phaseIds, outputs)| <= |phaseIds|
    ensures |Evidence(phaseIds, outputs)| == |phaseIds| ==> ExactEvidence(phaseIds, outputs, Evidence(phaseIds, outputs))
  {
    if phaseIds == [] {
    } else {
      var init := phaseIds[..|phaseIds| - 1];
      EvidenceSize(init, outputs);
      assert forall i :: 0 <= i < |init| ==> phaseIds[i] == init[i];
    }
  }

  lemma {:induction false} EvidenceComplete(phaseIds: seq<string>, outputs: seq<ConsumedOutput>, named: seq<ConsumedOutput>)
    requires ExactEvidence(phaseIds, outputs, named)
    ensures Evidence(phaseIds, outputs) == named
  {
    if phaseIds == [] {
    } else {
      var last := |phaseIds| - 1;
      EvidenceComplete(phaseIds[..last], outputs, named[..last]);
      assert named == named[..last] + [named[last]];
    }
  }

  lemma EvidenceExact(phaseIds: seq<string>, outputs: seq<ConsumedOutput>, named: seq<ConsumedOutput>)
    ensures |Evidence(phaseIds, outputs)| == |phaseIds| && named == Evidence(phaseIds, outputs)
            <==> ExactEvidence(phaseIds, outputs, named)
  {
    EvidenceSize(phaseIds, outputs);
    if ExactEvidence(phaseIds, outputs, named) {
      EvidenceComplete(phaseIds, outputs, named);
    }
  }

  /** The checks on one node, as the code words them. */
  predicate NodeFits(node: Node, allowed: seq<PipelineKind>, consumed: seq<ConsumedOutput>) {
    !(!ValidText(node.localId)
      || !ValidText(node.target)
      || !ValidText(node.trigger)
      || node.pipeline !in allowed
      || |set output | output in node.sourceOutputs| != |node.sourceOutputs|
      || exists i :: 0 <= i < |node.sourceOutputs| && node.sourceOutputs[i] !in consumed)
  }

  predicate SizesFit(contract: Contract, proposal: Proposal) {
    !(|proposal.nodes| < contract.minimumNodes
      || |proposal.nodes| > MAX_FOLLOWUP_NODES
      || |proposal.dependencies| < contract.minimumDependencies
      || |proposal.dependencies| > MAX_FOLLOWUP_DEPENDENCIES)
  }

  predicate GroupsCovered(groups: seq<seq<PipelineKind>>, nodes: seq<Node>) {
    !exists g :: 0 <= g < |groups| && !AnyOfKind(groups[g], nodes)
  }

  predicate AnyOfKind(group: seq<PipelineKind>, nodes: seq<Node>) {
    exists i :: 0 <= i < |nodes| && nodes[i].pipeline in group
  }

  /** Plainly worded, of an allowed kind, and resting on different outputs that were consumed. */
  ghost predicate SoundNode(node: Node, allowed: seq<PipelineKind>, consumed: seq<ConsumedOutput>) {
    && PlainText(node.localId) && PlainText(node.target) && PlainText(node.trigger)
    && (exists k :: 0 <= k < |allowed| && allowed[k] == node.pipeline)
    && (forall i, j :: 0 <= i < j < |node.sourceOutputs| ==> node.sourceOutputs[i] != node.sourceOutputs[j])
    && (forall i :: 0 <= i < |node.sourceOutputs| ==> exists k :: 0 <= k < |consumed| && consumed[k] == node.sourceOutputs[i])
  }

  lemma NodeFitsMeaning(node: Node, allowed: seq<PipelineKind>, consumed: seq<ConsumedOutput>)
    ensures NodeFits(node, allowed, consumed) <==> SoundNode(node, allowed, consumed)
  {
    ValidTextMeaning(node.localId);
    ValidTextMeaning(node.target);
    ValidTextMeaning(node.trigger);
    DuplicatesBySize(node.sourceOutputs);
    assert (set output | output in node.sourceOutputs) == Elements(node.sourceOutputs);
  }

  /** At least what the contract asks for, at most 16 nodes and 32 dependencies. */
  ghost predicate Sized(contract: Contract, proposal: Proposal) {
    contract.minimumNodes <= |proposal.nodes| <= 16 && contract.minimumDependencies <= |proposal.dependencies| <= 32
  }

  /** Some node is of a kind of the group. */
  ghost predicate Covered(group: seq<PipelineKind>, nodes: seq<Node>) {
    exists i, k :: 0 <= i < |nodes| && 0 <= k < |group| && nodes[i].pipeline == group[k]
  }

  function LocalIds(nodes: seq<Node>): seq<string> {
    seq(|nodes|, i requires 0 <= i < |nodes| => nodes[i].localId)
  }

  /** The positions of the nodes that the current run already satisfies. */
  ghost function CurrentPositions(nodes: seq<Node>): set<nat> {
    set i: nat | i < |nodes| && nodes[i].status == SatisfiedByCurrentRun
  }

  /** Exactly the nodes the contract lets the current run satisfy: none, or one with exact evidence. */
  ghost predicate CurrentRunFits(kind: PipelineKind, contract: Contract, nodes: seq<Node>, consumed: seq<ConsumedOutput>) {
    match contract.currentRun
    case None => CurrentPositions(nodes) == {}
    case Some(run) =>
      exists i: nat :: i < |nodes| && CurrentPositions(nodes) == {i} &&
        nodes[i].pipeline == kind == run.kind && ExactEvidence(run.evidencePhaseIds, consumed, nodes[i].sourceOutputs)
  }

  ghost function CurrentId(nodes: seq<Node>): Option<string> {
    if CurrentPositions(nodes) == {} then None else
      var i :| i in CurrentPositions(nodes); Some(nodes[i].localId)
  }

  ghost predicate ShapeFits(contract: Contract, proposal: Proposal, consumed: seq<ConsumedOutput>) {
    && Sized(contract, proposal)
    && (forall i, j :: 0 <= i < j < |proposal.nodes| ==> proposal.nodes[i].localId != proposal.nodes[j].localId)
    && (forall i, j :: 0 <= i < j < |proposal.dependencies| ==> proposal.dependencies[i] != proposal.dependencies[j])
    && (forall i :: 0 <= i < |proposal.nodes| ==> SoundNode(proposal.nodes[i], contract.allowedKinds, consumed))
    && (forall g :: 0 <= g < |contract.requiredKindGroups| ==> Covered(contract.requiredKindGroups[g], proposal.nodes))
  }

  ghost predicate ProposalFits(kind: PipelineKind, contract: Contract, proposal: Proposal, consumed: seq<ConsumedOutput>) {
    && ShapeFits(contract, proposal, consumed)
    && CurrentRunFits(kind, contract, proposal.nodes, consumed)
    && DependenciesFit(proposal.dependencies, Elements(LocalIds(proposal.nodes)), CurrentId(proposal.nodes))
  }

  function CurrentNodes(nodes: seq<Node>): seq<Node> {
    if nodes == [] then [] else
      var last := nodes[|nodes| - 1];
      CurrentNodes(nodes[..|nodes| - 1]) + if last.status == SatisfiedByCurrentRun then [last] else []
  }

  lemma {:induction false} CurrentNodesCount(nodes: seq<Node>)
    ensures |CurrentNodes(nodes)| == |CurrentPositions(nodes)|
  {
    if nodes == [] {
      assert CurrentPositions(nodes) == {};
    } else {
      var init, position: nat := nodes[..|nodes| - 1], |nodes| - 1;
      CurrentNodesCount(init);
      assert CurrentPositions(nodes) ==
        CurrentPositions(init) + if nodes[position].status == SatisfiedByCurrentRun then {position} else {};
    }
  }

  lemma {:induction false} CurrentNodesMember(nodes: seq<Node>, i: nat)
    requires i in CurrentPositions(nodes)
    ensures nodes[i] in CurrentNodes(nodes)
  {
    var init := nodes[..|nodes| - 1];
    if i < |init| {
      CurrentNodesMember(init, i);
    }
  }

  /** One node in the filtered list is one position, and it is the node at that position. */
  lemma SingleCurrent(nodes: seq<Node>) returns (i: nat)
    requires |CurrentNodes(nodes)| == 1
    ensures i < |nodes| && CurrentPositions(nodes) == {i} && CurrentNodes(nodes)[0] == nodes[i]
    ensures CurrentId(nodes) == Some(nodes[i].localId)
  {
    CurrentNodesCount(nodes);
    i :| i in CurrentPositions(nodes);
    CurrentNodesMember(nodes, i);
    assert |CurrentPositions(nodes) - {i}| == 0;
    assert CurrentPositions(nodes) == {i};
    assert nodes[i] in CurrentNodes(nodes);
  }

  predicate CurrentRunChecks(kind: PipelineKind, contract: Contract, current: seq<Node>, consumed: seq<ConsumedOutput>) {
    match contract.currentRun
    case Some(run) =>
      && |current| == 1
      && current[0].pipeline == kind && current[0].pipeline == run.kind
      && (var expected := Evidence(run.evidencePhaseIds, consumed);
          |expected| == |run.evidencePhaseIds| && current[0].sourceOutputs == expected)
    case None => current == []
  }

  lemma CurrentRunChecksMeaning(kind: PipelineKind, contract: Contract, nodes: seq<Node>, consumed: seq<ConsumedOutput>)
    ensures CurrentRunChecks(kind, contract, CurrentNodes(nodes), consumed) <==> CurrentRunFits(kind, contract, nodes, consumed)
  {
    CurrentNodesCount(nodes);
    if contract.currentRun.Some? {
      var run := contract.currentRun.value;
      if |CurrentNodes(nodes)| == 1 {
        var i := SingleCurrent(nodes);
        EvidenceExact(run.evidencePhaseIds, consumed, nodes[i].sourceOutputs);
      } else {
        assert forall i: nat :: CurrentPositions(nodes) == {i} ==> |CurrentPositions(nodes)| == 1;
      }
    } else if CurrentNodes(nodes) == [] {
      assert |CurrentPositions(nodes)| == 0;
    }
  }

  method ValidateProposal(kind: PipelineKind, contract: Contract, proposal: Proposal, consumed: seq<ConsumedOutput>) returns (r: Result<()>)
    ensures r.Ok? <==> ProposalFits(kind, contract, proposal, consumed)
    ensures r.Err? ==> r.error == InvalidArguments
    ensures r.Ok? ==> exists order ::
      Schedule(proposal.dependencies, Elements(LocalIds(proposal.nodes)), CurrentId(proposal.nodes), order)
  {
    if !ShapeChecks(contract, proposal, consumed) {
      ShapeChecksMeaning(contract, proposal, consumed);
      return Err(InvalidArguments);
    }
    ShapeChecksMeaning(contract, proposal, consumed);
    var current := CurrentNodes(proposal.nodes);
    CurrentRunChecksMeaning(kind, contract, proposal.nodes, consumed);
    if !CurrentRunChecks(kind, contract, current, consumed) {
      return Err(InvalidArguments);
    }
    CurrentIdFirst(proposal.nodes);
    var nodeIds := set id | id in LocalIds(proposal.nodes);
    r := ValidateDependencies(proposal.dependencies, nodeIds, if current == [] then None else Some(current[0].localId));
  }

  /** The checks that need no graph, as the code words them: by comparing set and list sizes. */
  predicate ShapeChecks(contract: Contract, proposal: Proposal, consumed: seq<ConsumedOutput>) {
    && SizesFit(contract, proposal)
    && |set id | id in LocalIds(proposal.nodes)| == |proposal.nodes|
    && |set d | d in proposal.dependencies| == |proposal.dependencies|
    && (forall i :: 0 <= i < |proposal.nodes| ==> NodeFits(proposal.nodes[i], contract.allowedKinds, consumed))
    && GroupsCovered(contract.requiredKindGroups, proposal.nodes)
  }

  lemma ShapeChecksMeaning(contract: Contract, proposal: Proposal, consumed: seq<ConsumedOutput>)
    ensures ShapeChecks(contract, proposal, consumed) <==> ShapeFits(contract, proposal, consumed)
  {
    DuplicatesBySize(LocalIds(proposal.nodes));
    DuplicatesBySize(proposal.dependencies);
    assert (set id | id in LocalIds(proposal.nodes)) == Elements(LocalIds(proposal.nodes));
    assert (set d | d in proposal.dependencies) == Elements(proposal.dependencies);
    DistinctLocalIds(proposal.nodes);
    GroupsCoveredMeaning(contract.requiredKindGroups, proposal.nodes);
    forall i | 0 <= i < |proposal.nodes|
      ensures NodeFits(proposal.nodes[i], contract.allowedKinds, consumed) <==> SoundNode(proposal.nodes[i], contract.allowedKinds, consumed)
    {
      NodeFitsMeaning(proposal.nodes[i], contract.allowedKinds, consumed);
    }
  }

  lemma GroupsCoveredMeaning(groups: seq<seq<PipelineKind>>, nodes: seq<Node>)
    ensures GroupsCovered(groups, nodes) <==> forall g :: 0 <= g < |groups| ==> Covered(groups[g], nodes)
  {
    forall g | 0 <= g < |groups|
      ensures Covered(groups[g], nodes) <==> AnyOfKind(groups[g], nodes)
    {
      if i :| 0 <= i < |nodes| && nodes[i].pipeline in groups[g] {
        var k :| 0 <= k < |groups[g]| && groups[g][k] == nodes[i].pipeline;
      }
    }
  }

  lemma DistinctLocalIds(nodes: seq<Node>)
    ensures NoDuplicates(LocalIds(nodes)) <==> forall i, j :: 0 <= i < j < |nodes| ==> nodes[i].localId != nodes[j].localId
  {
    var ids := LocalIds(nodes);
    assert forall i :: 0 <= i < |nodes| ==> ids[i] == nodes[i].localId;
    if NoDuplicates(ids) {
      forall i, j | 0 <= i < j < |nodes| ensures nodes[i].localId != nodes[j].localId {
        assert ids[i] != ids[j];
      }
    }
  }

  /** With at most one current node, the first filtered node is the current one. */
  lemma CurrentIdFirst(nodes: seq<Node>)
    requires |CurrentNodes(nodes)| <= 1
    ensures CurrentId(nodes) == if CurrentNodes(nodes) == [] then None else Some(CurrentNodes(nodes)[0].localId)
    ensures CurrentId(nodes).Some? ==> CurrentId(nodes).value in LocalIds(nodes)
  {
    CurrentNodesCount(nodes);
    if CurrentNodes(nodes) == [] {
      assert |CurrentPositions(nodes)| == 0;
    } else {
      var i := SingleCurrent(nodes);
      assert LocalIds(nodes)[i] == nodes[i].localId;
    }
  }
}
