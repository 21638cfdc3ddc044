/**
Knowledge changesets before and after their slice-phase bindings are pinned to definitions: the
validation of both forms, and the resolution loop between them.
*/
module BindingPins {
  import opened Wrappers
  import opened Text
  import opened Uuids
  import opened Collections
  import opened Followups

  const MAX_OPERATIONS: nat := 16
  const MAX_SOURCE_BYTES: nat := 256 * 1024

  predicate BoundedText(value: string, max: nat) {
    !Blank(value) && Utf8Length(value) <= max && !HasNul(value)
  }

  datatype Target =
    | Workspace
    | Program(programId: Uuid)
    | Scope(scopeId: Uuid)
    | Slice(scopeId: Uuid, sliceId: Uuid)
    | SlicePhase(scopeId: Uuid, sliceId: Uuid, phaseId: string)

  datatype Binding = Binding(target: Target, purpose: string, pinnedRevision: Option<int>)

  predicate BindingValid(b: Binding) {
    && (match b.target
        case Workspace => true
        case Program(id) => !IsNil(id)
        case Scope(id) => !IsNil(id)
        case Slice(scopeId, sliceId) => !IsNil(scopeId) && !IsNil(sliceId)
        case SlicePhase(scopeId, sliceId, phaseId) => !IsNil(scopeId) && !IsNil(sliceId) && BoundedText(phaseId, 256))
    && (b.pinnedRevision.Some? ==> b.pinnedRevision.value >= 1)
  }

  predicate BindingsValid(bindings: seq<Binding>) {
    forall i :: 0 <= i < |bindings| ==> BindingValid(bindings[i])
  }

  /** A document draft: its bindings, and whether its other fields pass their own checks. */
  datatype Document = Document(bindings: seq<Binding>, otherwiseValid: bool)

  predicate DocumentValid(d: Document) {
    d.otherwiseValid && d.bindings != [] && BindingsValid(d.bindings)
  }

  datatype LifecycleOperation = Create | Revise | Revalidate | Supersede | Retract | Erase

  datatype Successor = Successor(unitId: Option<Uuid>, operationId: Option<Uuid>)

  datatype Pin = Pin(bindingIndex: nat, kind: PipelineKind, version: string, digest: string, phaseId: string)

  /** `revalidation` says whether a revalidation draft is present and, if so, whether it is valid. */
  datatype Operation = Operation(
    operationId: Uuid, unitId: Uuid, clientLabel: string, operation: LifecycleOperation,
    expectedRevision: Option<int>, hasExpectedLifecycle: bool, document: Option<Document>, revalidation: Option<bool>,
    successor: Option<Successor>, replacementBindings: seq<Binding>, reason: string, authorityBasis: string,
    dependencyIds: seq<Uuid>, pins: seq<Pin>)
  {
    function Bindings(): seq<Binding> {
      if document.Some? then document.value.bindings else replacementBindings
    }
  }

  datatype Changeset = Changeset(revision: int, operations: seq<Operation>, semanticDiff: string, evidenceDigest: string, digest: string)

  /** The bindings of an operation are those of its document if it has one, else the replacements. */
  lemma BindingsOf(op: Operation)
    ensures forall d :: op.document == Some(d) ==> op.Bindings() == d.bindings
    ensures op.document.None? ==> op.Bindings() == op.replacementBindings
  {
  }

  /** The positions of the slice-phase bindings, in order. */
  function SlicePhases(bindings: seq<Binding>): (positions: seq<nat>)
    ensures forall k :: 0 <= k < |positions| ==> positions[k] < |bindings| && bindings[positions[k]].target.SlicePhase?
    ensures forall i :: 0 <= i < |bindings| && bindings[i].target.SlicePhase? ==> i in positions
    ensures forall j, k :: 0 <= j < k < |positions| ==> positions[j] < positions[k]
  {
    if bindings == [] then [] else
      var last := |bindings| - 1;
      SlicePhases(bindings[..last]) + if bindings[last].target.SlicePhase? then [last] else []
  }

  function PinIndexes(pins: seq<Pin>): seq<nat> {
    seq(|pins|, k requires 0 <= k < |pins| => pins[k].bindingIndex)
  }

  // -- validation, as the code words it -------------------------------------------------------

  predicate PinFits(pin: Pin, bindings: seq<Binding>) {
    && !Blank(pin.version) && !Blank(pin.digest) && !Blank(pin.phaseId)
    && pin.bindingIndex < |bindings|
    && bindings[pin.bindingIndex].target.SlicePhase? && bindings[pin.bindingIndex].target.phaseId == pin.phaseId
  }

  predicate PinsValid(op: Operation, resolved: bool) {
    && (forall k :: 0 <= k < |op.pins| - 1 ==> op.pins[k].bindingIndex < op.pins[k + 1].bindingIndex)
    && (if resolved then PinIndexes(op.pins) == SlicePhases(op.Bindings()) else op.pins == [])
    && (forall k :: 0 <= k < |op.pins| ==> PinFits(op.pins[k], op.Bindings()))
  }

  predicate ShapeValid(op: Operation) {
    var existing := op.expectedRevision.Some? && op.expectedRevision.value >= 1 && op.hasExpectedLifecycle;
    match op.operation
    case Create => op.expectedRevision.None? && !op.hasExpectedLifecycle && op.document.Some? && op.revalidation.None? && op.successor.None?
    case Revise => existing && op.document.Some? && op.revalidation.None? && op.successor.None?
    case Revalidate => existing && op.document.None? && op.revalidation.Some? && op.successor.None?
    case Supersede => existing && op.successor.Some? && op.revalidation.None? && op.replacementBindings != []
    case Retract => existing && op.document.None? && op.revalidation.None? && op.successor.None?
    case Erase => existing && op.document.None? && op.revalidation.None? && op.successor.None?
  }

  predicate SuccessorValid(op: Operation) {
    op.successor.Some? ==>
      match (op.successor.value.unitId, op.successor.value.operationId)
      case (Some(unitId), None) => !IsNil(unitId) && unitId != op.unitId
      case (None, Some(operationId)) => !IsNil(operationId) && operationId != op.operationId
      case _ => false
  }

  /** Everything about an operation that does not look at its pins. */
  predicate BodyValid(op: Operation) {
    && !IsNil(op.operationId) && !IsNil(op.unitId)
    && BoundedText(op.clientLabel, 128) && BoundedText(op.reason, 4096) && BoundedText(op.authorityBasis, 4096)
    && (forall i :: 0 <= i < |op.dependencyIds| ==> !IsNil(op.dependencyIds[i]))
    && NoDuplicates(op.dependencyIds) && op.operationId !in op.dependencyIds
    && ShapeValid(op)
    && (op.document.Some? ==> DocumentValid(op.document.value))
    && (op.revalidation.Some? ==> op.revalidation.value)
    && SuccessorValid(op)
    && BindingsValid(op.replacementBindings)
  }

  predicate OperationValid(op: Operation, resolved: bool) {
    BodyValid(op) && PinsValid(op, resolved)
  }

  predicate HeaderValid(cs: Changeset) {
    && cs.revision >= 1 && 1 <= |cs.operations| <= MAX_OPERATIONS
    && BoundedText(cs.semanticDiff, MAX_SOURCE_BYTES) && BoundedText(cs.evidenceDigest, 256)
    && (cs.digest != "" ==> BoundedText(cs.digest, 256))
  }

  predicate ReferencesKnown(op: Operation, ids: set<Uuid>) {
    && (forall i :: 0 <= i < |op.dependencyIds| ==> op.dependencyIds[i] in ids)
    && (op.successor.Some? && op.successor.value.operationId.Some? ==> op.successor.value.operationId.value in ids)
  }

  ghost function OperationIds(ops: seq<Operation>): set<Uuid> {
    set i | 0 <= i < |ops| :: ops[i].operationId
  }

  ghost predicate DistinctOperations(ops: seq<Operation>) {
    forall i, j :: 0 <= i < j < |ops| ==> ops[i].operationId != ops[j].operationId && ops[i].clientLabel != ops[j].clientLabel
  }

  /** The checks of the code, before (`false`) and after (`true`) resolution. */
  ghost predicate ChangesetChecks(cs: Changeset, resolved: bool) {
    && HeaderValid(cs)
    && AllValid(cs.operations, resolved)
    && DistinctOperations(cs.operations)
    && (forall i :: 0 <= i < |cs.operations| ==> ReferencesKnown(cs.operations[i], OperationIds(cs.operations)))
  }

  ghost predicate AllValid(ops: seq<Operation>, resolved: bool) {
    forall i {:trigger OperationValid(ops[i], resolved)} :: 0 <= i < |ops| ==> OperationValid(ops[i], resolved)
  }

  // -- what an accepted changeset is ----------------------------------------------------------

  /** Not blank, no NUL, at most so many bytes of UTF-8. */
  ghost predicate Wording(value: string, max: nat) {
    Trim(value) != "" && '\0' !in value && |Utf8(value)| <= max
  }

  lemma BoundedTextMeaning(value: string, max: nat)
    ensures BoundedText(value, max) <==> Wording(value, max)
  {
    TrimExactly(value);
    Utf8LengthExactly(value);
  }

  /** A binding names its target by ids that are not nil, and a phase by up to 256 bytes. */
  ghost predicate Pointing(b: Binding) {
    && (b.target.Program? ==> b.target.programId != NIL)
    && (b.target.Scope? || b.target.Slice? || b.target.SlicePhase? ==> b.target.scopeId != NIL)
    && (b.target.Slice? || b.target.SlicePhase? ==> b.target.sliceId != NIL)
    && (b.target.SlicePhase? ==> Wording(b.target.phaseId, 256))
    && (b.pinnedRevision.Some? ==> b.pinnedRevision.value > 0)
  }

  lemma BindingMeaning(b: Binding)
    ensures BindingValid(b) <==> Pointing(b)
  {
    match b.target
    case Workspace =>
    case Program(id) => NilExactly(id);
    case Scope(id) => NilExactly(id);
    case Slice(scopeId, sliceId) =>
      NilExactly(scopeId);
      NilExactly(sliceId);
    case SlicePhase(scopeId, sliceId, phaseId) =>
      NilExactly(scopeId);
      NilExactly(sliceId);
      BoundedTextMeaning(phaseId, 256);
  }

  ghost predicate AllPointing(bindings: seq<Binding>) {
    forall i {:trigger Pointing(bindings[i])} :: 0 <= i < |bindings| ==> Pointing(bindings[i])
  }

  lemma BindingsMeaning(bindings: seq<Binding>)
    ensures BindingsValid(bindings) <==> AllPointing(bindings)
  {
    forall i | 0 <= i < |bindings| ensures BindingValid(bindings[i]) <==> Pointing(bindings[i]) {
      BindingMeaning(bindings[i]);
    }
  }

  /** Which parts each kind of operation has, part by part. */
  ghost predicate RightParts(op: Operation) {
    && (op.operation.Create? ==> op.expectedRevision.None? && !op.hasExpectedLifecycle)
    && (!op.operation.Create? ==> op.expectedRevision.Some? && op.expectedRevision.value > 0 && op.hasExpectedLifecycle)
    && (op.operation.Create? || op.operation.Revise? ==> op.document.Some?)
    && (op.operation.Revalidate? || op.operation.Retract? || op.operation.Erase? ==> op.document.None?)
    && (op.revalidation.Some? <==> op.operation.Revalidate?)
    && (op.successor.Some? <==> op.operation.Supersede?)
    && (op.operation.Supersede? ==> |op.replacementBindings| > 0)
  }

  /** A successor is one unit or one operation, and not the one it succeeds. */
  ghost predicate RightSuccessor(op: Operation) {
    op.successor.Some? ==>
      && var to := op.successor.value;
         && (to.unitId.Some? <==> to.operationId.None?)
         && (to.unitId.Some? ==> to.unitId.value != NIL && to.unitId.value != op.unitId)
         && (to.operationId.Some? ==> to.operationId.value != NIL && to.operationId.value != op.operationId)
  }

  lemma SuccessorMeaning(op: Operation)
    ensures SuccessorValid(op) <==> RightSuccessor(op)
  {
    if op.successor.Some? {
      var to := op.successor.value;
      if to.unitId.Some? { NilExactly(to.unitId.value); }
      if to.operationId.Some? { NilExactly(to.operationId.value); }
    }
  }

  /** Different operations other than this one. */
  ghost predicate RightDependencies(op: Operation) {
    && (forall i :: 0 <= i < |op.dependencyIds| ==> op.dependencyIds[i] != NIL && op.dependencyIds[i] != op.operationId)
    && (forall i, j :: 0 <= i < j < |op.dependencyIds| ==> op.dependencyIds[i] != op.dependencyIds[j])
  }

  lemma DependenciesMeaning(op: Operation)
    ensures RightDependencies(op) <==>
      && (forall i :: 0 <= i < |op.dependencyIds| ==> !IsNil(op.dependencyIds[i]))
      && NoDuplicates(op.dependencyIds) && op.operationId !in op.dependencyIds
  {
    forall i | 0 <= i < |op.dependencyIds| ensures IsNil(op.dependencyIds[i]) <==> op.dependencyIds[i] == NIL {
      NilExactly(op.dependencyIds[i]);
    }
  }

  ghost predicate RightBody(op: Operation) {
    && op.operationId != NIL && op.unitId != NIL
    && Wording(op.clientLabel, 128) && Wording(op.reason, 4096) && Wording(op.authorityBasis, 4096)
    && RightDependencies(op) && RightParts(op) && RightSuccessor(op)
    && (op.document.Some? ==>
          op.document.value.otherwiseValid && |op.document.value.bindings| > 0 && AllPointing(op.document.value.bindings))
    && op.revalidation != Some(false)
    && AllPointing(op.replacementBindings)
  }

  lemma PartsMeaning(op: Operation)
    ensures ShapeValid(op) <==> RightParts(op)
  {
  }

  lemma NamesMeaning(op: Operation)
    ensures !IsNil(op.operationId) <==> op.operationId != NIL
    ensures !IsNil(op.unitId) <==> op.unitId != NIL
    ensures BoundedText(op.clientLabel, 128) <==> Wording(op.clientLabel, 128)
    ensures BoundedText(op.reason, 4096) <==> Wording(op.reason, 4096)
    ensures BoundedText(op.authorityBasis, 4096) <==> Wording(op.authorityBasis, 4096)
  {
    NilExactly(op.operationId);
    NilExactly(op.unitId);
    BoundedTextMeaning(op.clientLabel, 128);
    BoundedTextMeaning(op.reason, 4096);
    BoundedTextMeaning(op.authorityBasis, 4096);
  }

  lemma DocumentMeaning(d: Document)
    ensures DocumentValid(d) <==> d.otherwiseValid && |d.bindings| > 0 && AllPointing(d.bindings)
  {
    BindingsMeaning(d.bindings);
  }

  lemma BodyMeaning(op: Operation)
    ensures BodyValid(op) <==> RightBody(op)
  {
    NamesMeaning(op);
    DependenciesMeaning(op);
    PartsMeaning(op);
    SuccessorMeaning(op);
    BindingsMeaning(op.replacementBindings);
    if op.document.Some? { DocumentMeaning(op.document.value); }
  }

  ghost predicate PinsAt(pins: seq<Pin>, index: nat) {
    exists k :: 0 <= k < |pins| && pins[k].bindingIndex == index
  }

  /** The pin speaks of the phase of its binding and names a definition. */
  ghost predicate RightPin(pin: Pin, bindings: seq<Binding>) {
    && Trim(pin.version) != "" && Trim(pin.digest) != "" && Trim(pin.phaseId) != ""
    && pin.bindingIndex < |bindings|
    && var t := bindings[pin.bindingIndex].target; t.SlicePhase? && t.phaseId == pin.phaseId
  }

  /** Before resolution there are no pins; after it, one for each slice-phase binding and no other, in order. */
  ghost predicate RightPins(op: Operation, resolved: bool) {
    if !resolved then op.pins == []
    else
      Increasing(op.pins) && EachPinned(op.pins, op.Bindings()) && EachRight(op.pins, op.Bindings())
  }

  ghost predicate Increasing(pins: seq<Pin>) {
    forall i, j :: 0 <= i < j < |pins| ==> pins[i].bindingIndex < pins[j].bindingIndex
  }

  ghost predicate EachPinned(pins: seq<Pin>, bindings: seq<Binding>) {
    forall i: nat :: i < |bindings| && bindings[i].target.SlicePhase? ==> PinsAt(pins, i)
  }

  ghost predicate EachRight(pins: seq<Pin>, bindings: seq<Binding>) {
    forall k {:trigger RightPin(pins[k], bindings)} :: 0 <= k < |pins| ==> RightPin(pins[k], bindings)
  }

  lemma PinMeaning(pin: Pin, bindings: seq<Binding>)
    ensures PinFits(pin, bindings) <==> RightPin(pin, bindings)
  {
    TrimExactly(pin.version);
    TrimExactly(pin.digest);
    TrimExactly(pin.phaseId);
  }

  lemma {:induction false} NeighboursOrder(pins: seq<Pin>, i: nat, j: nat)
    requires forall k :: 0 <= k < |pins| - 1 ==> pins[k].bindingIndex < pins[k + 1].bindingIndex
    requires i < j < |pins|
    ensures pins[i].bindingIndex < pins[j].bindingIndex
    decreases j
  {
    assert pins[j - 1].bindingIndex < pins[j - 1 + 1].bindingIndex;
    if i == j - 1 {
    } else {
      NeighboursOrder(pins, i, j - 1);
    }
  }

  lemma IncreasingMeaning(pins: seq<Pin>)
    ensures Increasing(pins) <==> forall k :: 0 <= k < |pins| - 1 ==> pins[k].bindingIndex < pins[k + 1].bindingIndex
  {
    if forall k :: 0 <= k < |pins| - 1 ==> pins[k].bindingIndex < pins[k + 1].bindingIndex {
      forall i, j | 0 <= i < j < |pins| ensures pins[i].bindingIndex < pins[j].bindingIndex {
        NeighboursOrder(pins, i, j);
      }
    }
  }

  lemma EachRightMeaning(pins: seq<Pin>, bindings: seq<Binding>)
    ensures EachRight(pins, bindings) <==> forall k :: 0 <= k < |pins| ==> PinFits(pins[k], bindings)
  {
    forall k | 0 <= k < |pins| ensures PinFits(pins[k], bindings) <==> RightPin(pins[k], bindings) {
      PinMeaning(pins[k], bindings);
    }
  }

  lemma SomeMember(s: seq<nat>)
    requires s != []
    ensures exists n :: n in s
  {
    assert s[0] in s;
  }

  /** Two increasing lists with the same members are the same list. */
  lemma {:induction false} IncreasingUnique(a: seq<nat>, b: seq<nat>)
    requires forall i, j :: 0 <= i < j < |a| ==> a[i] < a[j]
    requires forall i, j :: 0 <= i < j < |b| ==> b[i] < b[j]
    requires forall n :: n in a <==> n in b
    ensures a == b
  {
    if a == [] || b == [] {
      if a != [] { SomeMember(a); }
      if b != [] { SomeMember(b); }
    } else {
      var m, n := |a| - 1, |b| - 1;
      assert a[m] in b && b[n] in a;
      assert a[m] == b[n];
      assert a == a[..m] + [a[m]] && b == b[..n] + [b[n]];
      forall x ensures x in a[..m] <==> x in b[..n] {
        assert x in a[..m] ==> x in a && x < a[m];
        assert x in b[..n] ==> x in b && x < b[n];
      }
      IncreasingUnique(a[..m], b[..n]);
    }
  }

  lemma IndexesMeaning(pins: seq<Pin>, bindings: seq<Binding>)
    requires Increasing(pins) && EachRight(pins, bindings)
    ensures PinIndexes(pins) == SlicePhases(bindings) <==> EachPinned(pins, bindings)
  {
    var indexes, positions := PinIndexes(pins), SlicePhases(bindings);
    if indexes == positions {
      forall i: nat | i < |bindings| && bindings[i].target.SlicePhase? ensures PinsAt(pins, i) {
        var k :| 0 <= k < |positions| && positions[k] == i;
        assert pins[k].bindingIndex == indexes[k];
      }
    }
    if EachPinned(pins, bindings) {
      forall n ensures n in indexes <==> n in positions {
        if n in indexes {
          var k :| 0 <= k < |indexes| && indexes[k] == n;
          assert RightPin(pins[k], bindings);
        }
        if n in positions {
          assert PinsAt(pins, n);
          var k :| 0 <= k < |pins| && pins[k].bindingIndex == n;
          assert indexes[k] == n;
        }
      }
      IncreasingUnique(indexes, positions);
    }
  }

  lemma PinsMeaning(op: Operation, resolved: bool)
    ensures PinsValid(op, resolved) <==> RightPins(op, resolved)
  {
    IncreasingMeaning(op.pins);
    EachRightMeaning(op.pins, op.Bindings());
    if Increasing(op.pins) && EachRight(op.pins, op.Bindings()) {
      IndexesMeaning(op.pins, op.Bindings());
    }
  }

  ghost predicate RightOperation(op: Operation, resolved: bool) {
    RightBody(op) && RightPins(op, resolved)
  }

  ghost predicate RightHeader(cs: Changeset) {
    && cs.revision > 0 && 0 < |cs.operations| <= 16
    && Wording(cs.semanticDiff, 262_144) && Wording(cs.evidenceDigest, 256)
    && (cs.digest == "" || Wording(cs.digest, 256))
  }

  ghost predicate Present(ops: seq<Operation>, id: Uuid) {
    exists j :: 0 <= j < |ops| && ops[j].operationId == id
  }

  /** Whatever an operation refers to by operation id is in the changeset. */
  ghost predicate RightReferences(op: Operation, ops: seq<Operation>) {
    && (forall i :: 0 <= i < |op.dependencyIds| ==> Present(ops, op.dependencyIds[i]))
    && (op.successor.Some? && op.successor.value.operationId.Some? ==> Present(ops, op.successor.value.operationId.value))
  }

  /** What an accepted changeset is, before (`false`) and after (`true`) resolution. */
  ghost predicate ChangesetValid(cs: Changeset, resolved: bool) {
    && RightHeader(cs)
    && (forall i {:trigger RightOperation(cs.operations[i], resolved)} ::
          0 <= i < |cs.operations| ==> RightOperation(cs.operations[i], resolved))
    && DistinctOperations(cs.operations)
    && (forall i :: 0 <= i < |cs.operations| ==> RightReferences(cs.operations[i], cs.operations))
  }

  lemma HeaderMeaning(cs: Changeset)
    ensures HeaderValid(cs) <==> RightHeader(cs)
  {
    BoundedTextMeaning(cs.semanticDiff, 262_144);
    BoundedTextMeaning(cs.evidenceDigest, 256);
    BoundedTextMeaning(cs.digest, 256);
  }

  lemma ReferencesMeaning(op: Operation, ops: seq<Operation>)
    ensures ReferencesKnown(op, OperationIds(ops)) <==> RightReferences(op, ops)
  {
    assert forall id :: id in OperationIds(ops) <==> Present(ops, id);
  }

  /** The checks accept exactly these changesets. */
  lemma ChangesetMeaning(cs: Changeset, resolved: bool)
    ensures ChangesetChecks(cs, resolved) <==> ChangesetValid(cs, resolved)
  {
    HeaderMeaning(cs);
    forall i | 0 <= i < |cs.operations|
      ensures OperationValid(cs.operations[i], resolved) <==> RightOperation(cs.operations[i], resolved)
      ensures ReferencesKnown(cs.operations[i], OperationIds(cs.operations)) <==> RightReferences(cs.operations[i], cs.operations)
    {
      BodyMeaning(cs.operations[i]);
      PinsMeaning(cs.operations[i], resolved);
      ReferencesMeaning(cs.operations[i], cs.operations);
    }
  }

  /** The validation loop: every operation by itself, and no id or label twice. */
  method ScanOperations(ops: seq<Operation>, accepts: Operation -> bool) returns (ids: Option<set<Uuid>>)
    ensures ids.Some? <==> (forall i :: 0 <= i < |ops| ==> accepts(ops[i])) && DistinctOperations(ops)
    ensures ids.Some? ==> ids.value == OperationIds(ops)
  {
    var seen: set<Uuid>, labels: set<string> := {}, {};
    for i := 0 to |ops|
      invariant forall k :: 0 <= k < i ==> accepts(ops[k])
      invariant DistinctOperations(ops[..i])
      invariant seen == OperationIds(ops[..i])
      invariant labels == set k | 0 <= k < i :: ops[k].clientLabel
    {
      if !accepts(ops[i]) {
        return None;
      }
      if ops[i].operationId in seen || ops[i].clientLabel in labels {
        Repeated(ops, i, seen, labels);
        return None;
      }
      OneMore(ops, i);
      seen := seen + {ops[i].operationId};
      labels := labels + {ops[i].clientLabel};
    }
    assert ops[..|ops|] == ops;
    return Some(seen);
  }

  method ValidateChangeset(cs: Changeset, resolved: bool) returns (r: Result<()>)
    ensures r.Ok? <==> ChangesetValid(cs, resolved)
    ensures r.Err? ==> r.error == InvalidArguments
  {
    ChangesetMeaning(cs, resolved);
    if !HeaderValid(cs) {
      return Err(InvalidArguments);
    }
    var ids := ScanOperations(cs.operations, (op: Operation) => OperationValid(op, resolved));
    if ids.None? || exists i :: 0 <= i < |cs.operations| && !ReferencesKnown(cs.operations[i], ids.value) {
      return Err(InvalidArguments);
    }
    return Ok(());
  }

  lemma Repeated(ops: seq<Operation>, i: nat, ids: set<Uuid>, labels: set<string>)
    requires i < |ops| && ids == OperationIds(ops[..i]) && labels == set k | 0 <= k < i :: ops[k].clientLabel
    requires ops[i].operationId in ids || ops[i].clientLabel in labels
    ensures !DistinctOperations(ops)
  {
    if ops[i].operationId in ids {
      var k :| 0 <= k < i && ops[..i][k].operationId == ops[i].operationId;
      assert ops[k].operationId == ops[i].operationId;
    } else {
      var k :| 0 <= k < i && ops[k].clientLabel == ops[i].clientLabel;
    }
  }

  lemma OneMore(ops: seq<Operation>, i: nat)
    requires i < |ops| && DistinctOperations(ops[..i])
    requires ops[i].operationId !in OperationIds(ops[..i])
    requires forall k :: 0 <= k < i ==> ops[k].clientLabel != ops[i].clientLabel
    ensures DistinctOperations(ops[..i + 1])
    ensures OperationIds(ops[..i + 1]) == OperationIds(ops[..i]) + {ops[i].operationId}
  {
    var before, after := ops[..i], ops[..i + 1];
    assert forall k :: 0 <= k < i ==> after[k] == before[k] && before[k].operationId in OperationIds(before);
    assert after[i] == ops[i];
  }

  // -- resolution -----------------------------------------------------------------------------

  datatype Definition = Definition(kind: PipelineKind, version: string, digest: string, phaseIds: seq<string>)

  datatype SliceRow = SliceRow(scopeId: Uuid, pipeline: PipelineKind, knowledgeChangeId: Option<Uuid>, runId: Option<Uuid>)

  /** What the transaction and the definition provider answer. */
  datatype Catalog = Catalog(
    slices: map<Uuid, SliceRow>,
    lifecycle: Result<Definition>,
    runs: map<Uuid, Definition>,
    definitions: PipelineKind -> Result<Definition>)

  function DefinitionOf(catalog: Catalog, changeId: Uuid, slice: SliceRow): Result<Definition> {
    if slice.pipeline == PromoteToDurableKnowledge then
      if slice.knowledgeChangeId != Some(changeId) then Err(InputConflict)
      else
        match catalog.lifecycle
        case Ok(d) => Ok(d.(kind := slice.pipeline))
        case Err(e) => Err(e)
    else
      match slice.runId
      case Some(run) => if run in catalog.runs then Ok(catalog.runs[run]) else Err(NotFound)
      case None => catalog.definitions(slice.pipeline)
  }

  function ResolvePin(catalog: Catalog, changeId: Uuid, index: nat, t: Target): Result<Pin>
    requires t.SlicePhase?
  {
    if t.sliceId !in catalog.slices then Err(NotFound)
    else if catalog.slices[t.sliceId].scopeId != t.scopeId then Err(Forbidden)
    else
      match DefinitionOf(catalog, changeId, catalog.slices[t.sliceId])
      case Err(e) => Err(e)
      case Ok(d) =>
        if t.phaseId !in d.phaseIds then Err(InvalidArguments)
        else Ok(Pin(index, d.kind, d.version, d.digest, t.phaseId))
  }

  // What a pin carries, read off the catalog.

  /** The definition that governs a slice: for a promotion of this change the lifecycle's, else the run's, else the provider's. */
  ghost predicate Governs(catalog: Catalog, changeId: Uuid, slice: SliceRow, d: Definition) {
    if slice.pipeline == PromoteToDurableKnowledge then
      && slice.knowledgeChangeId == Some(changeId) && catalog.lifecycle.Ok?
      && d.kind == PromoteToDurableKnowledge && d.version == catalog.lifecycle.value.version
      && d.digest == catalog.lifecycle.value.digest && d.phaseIds == catalog.lifecycle.value.phaseIds
    else if slice.runId.Some? then slice.runId.value in catalog.runs && d == catalog.runs[slice.runId.value]
    else catalog.definitions(slice.pipeline) == Ok(d)
  }

  /** The slice is known and lies in the scope that the binding names. */
  ghost predicate SliceFound(catalog: Catalog, t: Target)
    requires t.SlicePhase?
  {
    t.sliceId in catalog.slices && catalog.slices[t.sliceId].scopeId == t.scopeId
  }

  /** The pin has the index and the phase of its binding, and kind, version and digest of a governing definition with that phase. */
  ghost predicate Pinned(catalog: Catalog, changeId: Uuid, index: nat, t: Target, pin: Pin)
    requires t.SlicePhase?
  {
    && SliceFound(catalog, t)
    && pin.bindingIndex == index && pin.phaseId == t.phaseId
    && exists d :: Governs(catalog, changeId, catalog.slices[t.sliceId], d) && t.phaseId in d.phaseIds &&
         pin.kind == d.kind && pin.version == d.version && pin.digest == d.digest
  }

  ghost predicate Pinnable(catalog: Catalog, changeId: Uuid, t: Target)
    requires t.SlicePhase?
  {
    SliceFound(catalog, t) && exists d :: Governs(catalog, changeId, catalog.slices[t.sliceId], d) && t.phaseId in d.phaseIds
  }

  /** Why a binding cannot be pinned, and with which error that ends the resolution. */
  ghost predicate Unpinned(catalog: Catalog, changeId: Uuid, t: Target, e: Error)
    requires t.SlicePhase?
  {
    || (t.sliceId !in catalog.slices && e == NotFound)
    || (t.sliceId in catalog.slices && catalog.slices[t.sliceId].scopeId != t.scopeId && e == Forbidden)
    || (&& SliceFound(catalog, t)
        && var slice := catalog.slices[t.sliceId];
           || (slice.pipeline == PromoteToDurableKnowledge && slice.knowledgeChangeId != Some(changeId) && e == InputConflict)
           || (slice.pipeline == PromoteToDurableKnowledge && slice.knowledgeChangeId == Some(changeId) && catalog.lifecycle == Err(e))
           || (slice.pipeline != PromoteToDurableKnowledge && slice.runId.Some? && slice.runId.value !in catalog.runs && e == NotFound)
           || (slice.pipeline != PromoteToDurableKnowledge && slice.runId.None? && catalog.definitions(slice.pipeline) == Err(e))
           || (e == InvalidArguments && exists d :: Governs(catalog, changeId, slice, d) && t.phaseId !in d.phaseIds))
  }

  lemma GovernsExactly(catalog: Catalog, changeId: Uuid, slice: SliceRow, d: Definition)
    ensures Governs(catalog, changeId, slice, d) <==> DefinitionOf(catalog, changeId, slice) == Ok(d)
  {
  }

  lemma ResolvePinExactly(catalog: Catalog, changeId: Uuid, index: nat, t: Target)
    requires t.SlicePhase?
    ensures forall pin :: ResolvePin(catalog, changeId, index, t) == Ok(pin) <==> Pinned(catalog, changeId, index, t, pin)
    ensures ResolvePin(catalog, changeId, index, t).Ok? <==> Pinnable(catalog, changeId, t)
    ensures ResolvePin(catalog, changeId, index, t).Err? ==> Unpinned(catalog, changeId, t, ResolvePin(catalog, changeId, index, t).error)
  {
    if SliceFound(catalog, t) {
      var slice := catalog.slices[t.sliceId];
      forall d ensures Governs(catalog, changeId, slice, d) <==> DefinitionOf(catalog, changeId, slice) == Ok(d) {
        GovernsExactly(catalog, changeId, slice, d);
      }
      if DefinitionOf(catalog, changeId, slice).Ok? {
        var d := DefinitionOf(catalog, changeId, slice).value;
        assert Governs(catalog, changeId, slice, d);
      }
    }
  }

  /** One pin for each slice-phase binding, in order. */
  ghost predicate PinnedBy(catalog: Catalog, changeId: Uuid, bindings: seq<Binding>, positions: seq<nat>, pins: seq<Pin>)
    requires forall k :: 0 <= k < |positions| ==> positions[k] < |bindings| && bindings[positions[k]].target.SlicePhase?
  {
    && |pins| == |positions|
    && forall k :: 0 <= k < |pins| ==> Pinned(catalog, changeId, positions[k], bindings[positions[k]].target, pins[k])
  }

  ghost predicate ResolvedTo(catalog: Catalog, changeId: Uuid, op: Operation, after: Operation) {
    && op.pins == []
    && after == op.(pins := after.pins)
    && PinnedBy(catalog, changeId, op.Bindings(), SlicePhases(op.Bindings()), after.pins)
  }

  ghost predicate Resolvable(catalog: Catalog, changeId: Uuid, bindings: seq<Binding>) {
    forall i :: 0 <= i < |bindings| && bindings[i].target.SlicePhase? ==> Pinnable(catalog, changeId, bindings[i].target)
  }

  /** The first binding that cannot be pinned, with its error. */
  ghost predicate StopsAt(catalog: Catalog, changeId: Uuid, bindings: seq<Binding>, i: nat, e: Error) {
    && i < |bindings| && bindings[i].target.SlicePhase?
    && !Pinnable(catalog, changeId, bindings[i].target) && Unpinned(catalog, changeId, bindings[i].target, e)
    && forall j :: 0 <= j < i && bindings[j].target.SlicePhase? ==> Pinnable(catalog, changeId, bindings[j].target)
  }

  ghost predicate OperationStops(catalog: Catalog, changeId: Uuid, op: Operation, e: Error) {
    if op.pins != [] then e == InvalidArguments
    else exists i :: StopsAt(catalog, changeId, op.Bindings(), i, e)
  }

  lemma PinAnother(catalog: Catalog, changeId: Uuid, bindings: seq<Binding>, positions: seq<nat>, k: nat, pins: seq<Pin>, pin: Pin)
    requires forall j :: 0 <= j < |positions| ==> positions[j] < |bindings| && bindings[positions[j]].target.SlicePhase?
    requires k < |positions| && PinnedBy(catalog, changeId, bindings, positions[..k], pins)
    requires Pinned(catalog, changeId, positions[k], bindings[positions[k]].target, pin)
    ensures PinnedBy(catalog, changeId, bindings, positions[..k + 1], pins + [pin])
  {
  }

  /** Earlier slice-phase bindings are those at earlier positions. */
  lemma EarlierPositions(bindings: seq<Binding>, k: nat, j: nat)
    requires k < |SlicePhases(bindings)| && j < SlicePhases(bindings)[k] && bindings[j].target.SlicePhase?
    ensures exists m :: 0 <= m < k && SlicePhases(bindings)[m] == j
  {
    var positions := SlicePhases(bindings);
    var m :| 0 <= m < |positions| && positions[m] == j;
    assert forall i, l :: 0 <= i < l < |positions| ==> positions[i] < positions[l];
  }

  /** The first `k` slice-phase bindings can be pinned. */
  ghost predicate PinnableThrough(catalog: Catalog, changeId: Uuid, bindings: seq<Binding>, k: nat) {
    forall m {:trigger SlicePhases(bindings)[m]} :: 0 <= m < k && m < |SlicePhases(bindings)| ==>
      Pinnable(catalog, changeId, bindings[SlicePhases(bindings)[m]].target)
  }

  lemma StopsThere(catalog: Catalog, changeId: Uuid, bindings: seq<Binding>, k: nat, e: Error)
    requires k < |SlicePhases(bindings)| && PinnableThrough(catalog, changeId, bindings, k)
    requires var t := bindings[SlicePhases(bindings)[k]].target; !Pinnable(catalog, changeId, t) && Unpinned(catalog, changeId, t, e)
    ensures StopsAt(catalog, changeId, bindings, SlicePhases(bindings)[k], e)
  {
    forall j | 0 <= j < SlicePhases(bindings)[k] && bindings[j].target.SlicePhase?
      ensures Pinnable(catalog, changeId, bindings[j].target)
    {
      EarlierPositions(bindings, k, j);
    }
  }

  lemma AllPinned(catalog: Catalog, changeId: Uuid, bindings: seq<Binding>)
    requires PinnableThrough(catalog, changeId, bindings, |SlicePhases(bindings)|)
    ensures Resolvable(catalog, changeId, bindings)
  {
    forall i | 0 <= i < |bindings| && bindings[i].target.SlicePhase?
      ensures Pinnable(catalog, changeId, bindings[i].target)
    {
      var k :| 0 <= k < |SlicePhases(bindings)| && SlicePhases(bindings)[k] == i;
    }
  }

  method ResolveOperation(catalog: Catalog, changeId: Uuid, op: Operation) returns (r: Result<Operation>)
    ensures r.Ok? ==> ResolvedTo(catalog, changeId, op, r.value)
    ensures r.Ok? <==> op.pins == [] && Resolvable(catalog, changeId, op.Bindings())
    ensures r.Err? ==> OperationStops(catalog, changeId, op, r.error)
  {
    if op.pins != [] {
      return Err(InvalidArguments);
    }
    var bindings := op.Bindings();
    var positions := SlicePhases(bindings);
    var pins: seq<Pin> := [];
    for k := 0 to |positions|
      invariant PinnedBy(catalog, changeId, bindings, positions[..k], pins)
      invariant PinnableThrough(catalog, changeId, bindings, k)
    {
      ResolvePinExactly(catalog, changeId, positions[k], bindings[positions[k]].target);
      var pin := ResolvePin(catalog, changeId, positions[k], bindings[positions[k]].target);
      if pin.Err? {
        StopsThere(catalog, changeId, bindings, k, pin.error);
        return Err(pin.error);
      }
      PinAnother(catalog, changeId, bindings, positions, k, pins, pin.value);
      pins := pins + [pin.value];
    }
    assert positions[..|positions|] == positions;
    AllPinned(catalog, changeId, bindings);
    return Ok(op.(pins := pins));
  }

  /** The first operation that cannot be resolved, with its error. */
  ghost predicate ChangesetStops(catalog: Catalog, changeId: Uuid, cs: Changeset, i: nat, e: Error) {
    && i < |cs.operations| && OperationStops(catalog, changeId, cs.operations[i], e)
    && forall k :: 0 <= k < i ==> Resolvable(catalog, changeId, cs.operations[k].Bindings())
  }

  method ResolveChangeset(catalog: Catalog, changeId: Uuid, cs: Changeset) returns (r: Result<Changeset>)
    ensures r.Ok? ==> ResolvedChangeset(catalog, changeId, cs, r.value)
    ensures r.Ok? <==> forall i :: 0 <= i < |cs.operations| ==>
      cs.operations[i].pins == [] && Resolvable(catalog, changeId, cs.operations[i].Bindings())
    ensures r.Err? ==> exists i: nat :: ChangesetStops(catalog, changeId, cs, i, r.error)
  {
    var operations: seq<Operation> := [];
    for i := 0 to |cs.operations|
      invariant |operations| == i
      invariant forall k :: 0 <= k < i ==> ResolvedTo(catalog, changeId, cs.operations[k], operations[k])
      invariant forall k :: 0 <= k < i ==> Resolvable(catalog, changeId, cs.operations[k].Bindings())
    {
      var resolved := ResolveOperation(catalog, changeId, cs.operations[i]);
      if resolved.Err? {
        assert ChangesetStops(catalog, changeId, cs, i, resolved.error);
        return Err(resolved.error);
      }
      operations := operations + [resolved.value];
    }
    return Ok(cs.(operations := operations));
  }

  ghost predicate ResolvedChangeset(catalog: Catalog, changeId: Uuid, cs: Changeset, after: Changeset) {
    && after == cs.(operations := after.operations)
    && |after.operations| == |cs.operations|
    && forall i :: 0 <= i < |cs.operations| ==> ResolvedTo(catalog, changeId, cs.operations[i], after.operations[i])
  }

  // -- the final check ------------------------------------------------------------------------

  ghost predicate DefinitionsNamed(cs: Changeset) {
    forall i :: 0 <= i < |cs.operations| ==> PinsNamed(cs.operations[i])
  }

  ghost predicate PinsNamed(op: Operation) {
    forall k :: 0 <= k < |op.pins| ==> !Blank(op.pins[k].version) && !Blank(op.pins[k].digest)
  }

  lemma BindingsChecked(op: Operation)
    requires BodyValid(op)
    ensures BindingsValid(op.Bindings())
  {
  }

  /** A resolved pin points at its own binding, so only its definition can be at fault. */
  lemma ResolvedPinFits(catalog: Catalog, changeId: Uuid, bindings: seq<Binding>, i: nat, pin: Pin)
    requires i < |bindings| && bindings[i].target.SlicePhase? && BindingValid(bindings[i])
    requires Pinned(catalog, changeId, i, bindings[i].target, pin)
    ensures pin.bindingIndex == i
    ensures PinFits(pin, bindings) <==> !Blank(pin.version) && !Blank(pin.digest)
  {
  }

  /** After resolution, only a definition without version or digest can make the pin checks fail. */
  lemma ResolvedPinsValid(catalog: Catalog, changeId: Uuid, op: Operation, after: Operation)
    requires BindingsValid(op.Bindings()) && ResolvedTo(catalog, changeId, op, after)
    ensures PinsValid(after, true) <==> PinsNamed(after)
  {
    var bindings, pins := op.Bindings(), after.pins;
    var positions := SlicePhases(bindings);
    forall k | 0 <= k < |pins|
      ensures pins[k].bindingIndex == positions[k]
      ensures PinFits(pins[k], bindings) <==> !Blank(pins[k].version) && !Blank(pins[k].digest)
    {
      ResolvedPinFits(catalog, changeId, bindings, positions[k], pins[k]);
    }
    assert PinIndexes(pins) == positions;
    assert after.Bindings() == bindings;
  }

  lemma SameBody(op: Operation, pins: seq<Pin>)
    ensures BodyValid(op.(pins := pins)) == BodyValid(op)
  {
  }

  lemma OperationExactly(catalog: Catalog, changeId: Uuid, op: Operation, after: Operation)
    requires OperationValid(op, false) && ResolvedTo(catalog, changeId, op, after)
    ensures OperationValid(after, true) <==> PinsNamed(after)
  {
    SameBody(op, after.pins);
    BindingsChecked(op);
    ResolvedPinsValid(catalog, changeId, op, after);
  }

  /** Ids, labels and references are as they were. */
  lemma RestUnchanged(catalog: Catalog, changeId: Uuid, cs: Changeset, after: Changeset)
    requires ResolvedChangeset(catalog, changeId, cs, after)
    ensures HeaderValid(after) == HeaderValid(cs)
    ensures DistinctOperations(after.operations) == DistinctOperations(cs.operations)
    ensures OperationIds(after.operations) == OperationIds(cs.operations)
    ensures forall i, ids :: 0 <= i < |cs.operations| ==>
      ReferencesKnown(after.operations[i], ids) == ReferencesKnown(cs.operations[i], ids)
  {
    var ops, resolved := cs.operations, after.operations;
    forall i | 0 <= i < |ops|
      ensures ops[i].operationId == resolved[i].operationId && ops[i].clientLabel == resolved[i].clientLabel
      ensures ops[i].dependencyIds == resolved[i].dependencyIds && ops[i].successor == resolved[i].successor
    {
      assert ResolvedTo(catalog, changeId, ops[i], resolved[i]);
    }
  }

  /**
  A changeset accepted before resolution is accepted after it exactly when every pinned definition
  has a version and a digest.
  */
  lemma FinalCheckExactly(catalog: Catalog, changeId: Uuid, cs: Changeset, after: Changeset)
    requires ChangesetValid(cs, false) && ResolvedChangeset(catalog, changeId, cs, after)
    ensures ChangesetValid(after, true) <==> DefinitionsNamed(after)
  {
    ChangesetMeaning(cs, false);
    ChangesetMeaning(after, true);
    RestUnchanged(catalog, changeId, cs, after);
    forall i | 0 <= i < |cs.operations|
      ensures OperationValid(after.operations[i], true) <==> PinsNamed(after.operations[i])
    {
      assert ResolvedTo(catalog, changeId, cs.operations[i], after.operations[i]);
      assert OperationValid(cs.operations[i], false);
      OperationExactly(catalog, changeId, cs.operations[i], after.operations[i]);
    }
  }
}
