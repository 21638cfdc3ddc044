/**
The program store and every interleaving of the calls on it. A call runs in one transaction under
the row lock, so it is one step: either all of its writes happen or none.
*/
module ProgramRuns {
  import opened Wrappers
  import opened Uuids
  import opened Originals
  import opened Programs

  datatype Port = Port(inputBytes: string -> Result<int>, check: Program -> Option<Error>)

  /**
  The caller's workspace and what the surroundings decide: a refusal before the program is read
  (authorization, knowledge freshness) or after it was computed (knowledge capture, commit).
  */
  datatype Caller = Caller(workspace: Uuid, denied: Option<Error>, lateFailure: Option<Error>)

  datatype Receipt = Receipt(request: RefreshKnowledge, result: Program)

  datatype Store = Store(
    rows: map<Uuid, Record>,
    /** Which program a first message created: unique per workspace and request. */
    origins: map<(Uuid, Uuid), Uuid>,
    /** Refresh receipts by program and request. */
    receipts: map<(Uuid, Uuid), Receipt>)

  const EMPTY: Store := Store(map[], map[], map[])

  // -- calls ----------------------------------------------------------------------------------

  function Row(s: Store, c: Caller, id: Uuid): Result<Record> {
    if c.denied.Some? then Err(c.denied.value)
    else if id !in s.rows || s.rows[id].program.workspaceId != c.workspace then Err(NotFound)
    else Ok(s.rows[id])
  }

  /** The guard and everything after it can still refuse; then nothing is written. */
  function Admit(port: Port, c: Caller, after: Store, before: Store, p: Program): (Store, Result<Program>) {
    if port.check(p).Some? then (before, Err(port.check(p).value))
    else if c.lateFailure.Some? then (before, Err(c.lateFailure.value))
    else (after, Ok(p))
  }

  function BeginCall(port: Port, s: Store, c: Caller, requestId: Uuid, input: string, id: Uuid): (Store, Result<Program>) {
    if c.denied.Some? then (s, Err(c.denied.value))
    else if ValidateInput(requestId, input).Err? then (s, Err(InvalidArguments))
    else
      match port.inputBytes(input)
      case Err(e) => (s, Err(e))
      case Ok(bytes) =>
        if bytes < 0 then (s, Err(InvalidArguments))
        else if (c.workspace, requestId) in s.origins then
          var existing := s.origins[(c.workspace, requestId)];
          if existing !in s.rows || s.rows[existing].originals == [] then (s, Err(StorageUnavailable))
          else if s.rows[existing].originals[0].input != input then (s, Err(InputConflict))
          else Admit(port, c, s, s, s.rows[existing].program)
        else if id in s.rows || IsNil(id) then (s, Err(StorageUnavailable))
        else
          var p := NewDraft(id, c.workspace, bytes);
          Admit(port, c,
                s.(rows := s.rows[id := Record(p, [Original(1, requestId, input, bytes)])],
                   origins := s.origins[(c.workspace, requestId) := id]),
                s, p)
  }

  function SaveCall(port: Port, s: Store, c: Caller, change: SaveProgram): (Store, Result<Program>) {
    match Row(s, c, change.programId)
    case Err(e) => (s, Err(if c.denied.None? && ValidateSave(change).Err? then InvalidArguments else e))
    case Ok(r) =>
      match Saved(r.program, change)
      case Err(e) => (s, Err(e))
      case Ok(next) => Admit(port, c, s.(rows := s.rows[change.programId := r.(program := next)]), s, next)
  }

  /** The record after a message: itself for a repeated one, one message longer for a new one. */
  function InputRow(port: Port, r: Record, requestId: Uuid, input: string): Result<Record> {
    match Lookup(r.originals, requestId)
    case Some(original) => if original.input != input then Err(InputConflict) else Ok(r)
    case None =>
      match port.inputBytes(input)
      case Err(e) => Err(e)
      case Ok(bytes) =>
        match WithNewInput(r.program, bytes)
        case Err(e) => Err(e)
        case Ok(next) => Ok(Record(next, r.originals + [Original(next.latestInput, requestId, input, bytes)]))
  }

  function InputCall(port: Port, s: Store, c: Caller, id: Uuid, requestId: Uuid, input: string): (Store, Result<Program>) {
    if ValidateInput(requestId, input).Err? || IsNil(id) then (s, Err(if c.denied.Some? then c.denied.value else InvalidArguments))
    else
      match Row(s, c, id)
      case Err(e) => (s, Err(e))
      case Ok(r) =>
        match InputRow(port, r, requestId, input)
        case Err(e) => (s, Err(e))
        case Ok(after) => Admit(port, c, s.(rows := s.rows[id := after]), s, after.program)
  }

  function RefreshCall(port: Port, s: Store, c: Caller, request: RefreshKnowledge): (Store, Result<Program>) {
    var key := (request.programId, request.requestId);
    if ValidateRefresh(request).Err? then (s, Err(InvalidArguments))
    else
      match Row(s, c, request.programId)
      case Err(e) => (s, Err(e))
      case Ok(r) =>
        if key in s.receipts then
          if s.receipts[key].request != request then (s, Err(InputConflict))
          else Admit(port, c, s, s, s.receipts[key].result)
        else
          match Refreshed(r.program, request)
          case Err(e) => (s, Err(e))
          case Ok(next) =>
            Admit(port, c,
                  s.(rows := s.rows[request.programId := r.(program := next)],
                     receipts := s.receipts[key := Receipt(request, next)]),
                  s, next)
  }

  // -- runs -----------------------------------------------------------------------------------

  datatype Action =
    | Begin(caller: Caller, requestId: Uuid, input: string, newId: Uuid)
    | Save(caller: Caller, change: SaveProgram)
    | Input(caller: Caller, id: Uuid, requestId: Uuid, input: string)
    | Refresh(caller: Caller, request: RefreshKnowledge)

  function Call(port: Port, s: Store, a: Action): (Store, Result<Program>) {
    match a
    case Begin(c, requestId, input, newId) => BeginCall(port, s, c, requestId, input, newId)
    case Save(c, change) => SaveCall(port, s, c, change)
    case Input(c, id, requestId, input) => InputCall(port, s, c, id, requestId, input)
    case Refresh(c, request) => RefreshCall(port, s, c, request)
  }

  function Run(port: Port, actions: seq<Action>): Store {
    if actions == [] then EMPTY else Call(port, Run(port, actions[..|actions| - 1]), actions[|actions| - 1]).0
  }

  // -- the invariant --------------------------------------------------------------------------

  ghost predicate OriginSound(s: Store, key: (Uuid, Uuid))
    requires key in s.origins
  {
    var id := s.origins[key];
    && id in s.rows && s.rows[id].program.workspaceId == key.0
    && s.rows[id].originals != [] && s.rows[id].originals[0].requestId == key.1
  }

  ghost predicate RowSound(s: Store, id: Uuid)
    requires id in s.rows
  {
    s.rows[id].program.id == id && RecordSound(s.rows[id])
  }

  ghost predicate Inv(s: Store) {
    && (forall id {:trigger RowSound(s, id)} :: id in s.rows ==> RowSound(s, id))
    && (forall key {:trigger OriginSound(s, key)} :: key in s.origins ==> OriginSound(s, key))
  }

  /** One call changes a record not at all, or raises its revision by exactly one. */
  ghost predicate Successor(r: Record, after: Record) {
    && RecordSound(after)
    && after.program.id == r.program.id && after.program.workspaceId == r.program.workspaceId
    && (r.program.status == Open ==> after.program.status == Open)
    && r.originals <= after.originals
    && (after == r || after.program.revision == r.program.revision + 1)
  }

  /** A row that was there is there, itself or its successor. */
  ghost predicate RowKept(s: Store, after: Store, id: Uuid) {
    id in s.rows ==> id in after.rows && Successor(s.rows[id], after.rows[id])
  }

  ghost predicate RowNew(s: Store, after: Store, id: Uuid) {
    id in after.rows && id !in s.rows ==> RowSound(after, id)
  }

  ghost predicate OriginKept(s: Store, after: Store, key: (Uuid, Uuid)) {
    key in after.origins ==> if key in s.origins then after.origins[key] == s.origins[key] else OriginSound(after, key)
  }

  /** The state after any call: no row lost, every row itself or its successor, new rows and origins sound. */
  ghost predicate StepSound(s: Store, after: Store) {
    && (forall id :: RowKept(s, after, id))
    && (forall id :: RowNew(s, after, id))
    && (forall key :: OriginKept(s, after, key))
  }

  lemma SameRecord(r: Record)
    requires RecordSound(r)
    ensures Successor(r, r)
  {
  }

  lemma Unchanged(s: Store)
    requires Inv(s)
    ensures StepSound(s, s)
  {
    forall id ensures RowKept(s, s, id) {
      if id in s.rows {
        assert RowSound(s, id);
        SameRecord(s.rows[id]);
      }
    }
  }

  lemma StepSoundKeeps(s: Store, after: Store)
    requires Inv(s) && StepSound(s, after)
    ensures Inv(after)
  {
    forall id | id in after.rows ensures RowSound(after, id) {
      assert RowKept(s, after, id) && RowNew(s, after, id);
      if id in s.rows { assert RowSound(s, id); }
    }
    forall key | key in after.origins ensures OriginSound(after, key) {
      assert OriginKept(s, after, key);
      if key in s.origins {
        assert OriginSound(s, key);
        assert RowKept(s, after, s.origins[key]);
      }
    }
  }

  lemma ReplaceRow(s: Store, id: Uuid, r: Record, receipts: map<(Uuid, Uuid), Receipt>)
    requires Inv(s) && id in s.rows && Successor(s.rows[id], r)
    ensures StepSound(s, Store(s.rows[id := r], s.origins, receipts))
  {
    var after := Store(s.rows[id := r], s.origins, receipts);
    forall i ensures RowKept(s, after, i) {
      if i in s.rows && i != id {
        assert RowSound(s, i);
        SameRecord(s.rows[i]);
      }
    }
  }

  lemma InsertRow(s: Store, id: Uuid, r: Record, key: (Uuid, Uuid))
    requires Inv(s) && id !in s.rows && key !in s.origins
    requires RecordSound(r) && r.program.id == id && r.program.workspaceId == key.0
    requires r.originals != [] && r.originals[0].requestId == key.1
    ensures StepSound(s, s.(rows := s.rows[id := r], origins := s.origins[key := id]))
  {
    var after := s.(rows := s.rows[id := r], origins := s.origins[key := id]);
    forall i ensures RowKept(s, after, i) {
      if i in s.rows {
        assert RowSound(s, i);
        SameRecord(s.rows[i]);
      }
    }
  }

  lemma BeginStep(port: Port, s: Store, c: Caller, requestId: Uuid, input: string, id: Uuid)
    requires Inv(s)
    ensures StepSound(s, BeginCall(port, s, c, requestId, input, id).0)
  {
    Unchanged(s);
    var key := (c.workspace, requestId);
    if port.inputBytes(input).Ok? && ValidateInput(requestId, input).Ok? && key !in s.origins && id !in s.rows {
      var bytes := port.inputBytes(input).value;
      if bytes >= 0 {
        var first := Original(1, requestId, input, bytes);
        DraftSound(id, c.workspace, first);
        InsertRow(s, id, Record(NewDraft(id, c.workspace, bytes), [first]), key);
      }
    }
  }

  lemma SavedSucceeds(r: Record, change: SaveProgram)
    requires RecordSound(r) && Saved(r.program, change).Ok?
    ensures Successor(r, r.(program := Saved(r.program, change).value))
  {
    SavedSound(r, change);
  }

  lemma SaveStep(port: Port, s: Store, c: Caller, change: SaveProgram)
    requires Inv(s)
    ensures StepSound(s, SaveCall(port, s, c, change).0)
  {
    Unchanged(s);
    var row := Row(s, c, change.programId);
    if row.Ok? && Saved(row.value.program, change).Ok? {
      assert RowSound(s, change.programId);
      SavedSucceeds(row.value, change);
      ReplaceRow(s, change.programId, row.value.(program := Saved(row.value.program, change).value), s.receipts);
    }
  }

  lemma InputRowSucceeds(port: Port, r: Record, requestId: Uuid, input: string)
    requires RecordSound(r) && ValidateInput(requestId, input).Ok?
    ensures InputRow(port, r, requestId, input).Ok? ==> Successor(r, InputRow(port, r, requestId, input).value)
  {
    if Lookup(r.originals, requestId).None? && port.inputBytes(input).Ok? {
      var bytes := port.inputBytes(input).value;
      if WithNewInput(r.program, bytes).Ok? {
        var next := WithNewInput(r.program, bytes).value;
        NewInputSound(r, Original(next.latestInput, requestId, input, bytes));
      }
    }
  }

  lemma InputStep(port: Port, s: Store, c: Caller, id: Uuid, requestId: Uuid, input: string)
    requires Inv(s)
    ensures StepSound(s, InputCall(port, s, c, id, requestId, input).0)
  {
    Unchanged(s);
    var row := Row(s, c, id);
    if row.Ok? && ValidateInput(requestId, input).Ok? {
      assert RowSound(s, id);
      InputRowSucceeds(port, row.value, requestId, input);
      var after := InputRow(port, row.value, requestId, input);
      if after.Ok? {
        ReplaceRow(s, id, after.value, s.receipts);
      }
    }
  }

  lemma RefreshedSucceeds(r: Record, request: RefreshKnowledge)
    requires RecordSound(r) && Refreshed(r.program, request).Ok?
    ensures Successor(r, r.(program := Refreshed(r.program, request).value))
  {
    RefreshedSound(r, request);
  }

  lemma RefreshStep(port: Port, s: Store, c: Caller, request: RefreshKnowledge)
    requires Inv(s)
    ensures StepSound(s, RefreshCall(port, s, c, request).0)
  {
    Unchanged(s);
    var row := Row(s, c, request.programId);
    if row.Ok? && Refreshed(row.value.program, request).Ok? {
      var next := Refreshed(row.value.program, request).value;
      assert RowSound(s, request.programId);
      RefreshedSucceeds(row.value, request);
      ReplaceRow(s, request.programId, row.value.(program := next),
                 s.receipts[(request.programId, request.requestId) := Receipt(request, next)]);
    }
  }

  lemma CallStep(port: Port, s: Store, a: Action)
    requires Inv(s)
    ensures StepSound(s, Call(port, s, a).0)
  {
    match a
    case Begin(c, requestId, input, newId) => BeginStep(port, s, c, requestId, input, newId);
    case Save(c, change) => SaveStep(port, s, c, change);
    case Input(c, id, requestId, input) => InputStep(port, s, c, id, requestId, input);
    case Refresh(c, request) => RefreshStep(port, s, c, request);
  }

  /** Every reachable program is sound: see `RecordSound`. */
  lemma {:induction false} RunSound(port: Port, actions: seq<Action>)
    ensures Inv(Run(port, actions))
  {
    if actions == [] {
    } else {
      var before := Run(port, actions[..|actions| - 1]);
      RunSound(port, actions[..|actions| - 1]);
      CallStep(port, before, actions[|actions| - 1]);
      StepSoundKeeps(before, Run(port, actions));
    }
  }

  // -- rows over time -------------------------------------------------------------------------

  /** Messages are only appended to, the revision never falls, an open program stays open. */
  ghost predicate Evolves(r: Record, after: Record) {
    && r.originals <= after.originals
    && r.program.revision <= after.program.revision
    && (r.program.status == Open ==> after.program.status == Open)
  }

  lemma EvolvesOn(r: Record, s: Record, t: Record)
    requires Evolves(r, s) && Successor(s, t)
    ensures Evolves(r, t)
  {
  }

  lemma RunStep(port: Port, actions: seq<Action>, j: nat)
    requires 0 < j <= |actions|
    ensures Run(port, actions[..j]) == Call(port, Run(port, actions[..j - 1]), actions[j - 1]).0
  {
    assert actions[..j][..j - 1] == actions[..j - 1];
  }

  lemma {:induction false} RowsEvolve(port: Port, actions: seq<Action>, i: nat, j: nat, id: Uuid)
    requires i <= j <= |actions| && id in Run(port, actions[..i]).rows
    ensures id in Run(port, actions[..j]).rows && Evolves(Run(port, actions[..i]).rows[id], Run(port, actions[..j]).rows[id])
    decreases j - i
  {
    if i == j {
    } else {
      RowsEvolve(port, actions, i, j - 1, id);
      RunSound(port, actions[..j - 1]);
      RunStep(port, actions, j);
      var before := Run(port, actions[..j - 1]);
      CallStep(port, before, actions[j - 1]);
      assert RowKept(before, Run(port, actions[..j]), id);
      EvolvesOn(Run(port, actions[..i]).rows[id], before.rows[id], Run(port, actions[..j]).rows[id]);
    }
  }

  // -- optimistic concurrency -----------------------------------------------------------------

  /** The call is a save or a first-time refresh of program `id` based on `revision`, and succeeds. */
  ghost predicate Wins(port: Port, s: Store, a: Action, id: Uuid, revision: int) {
    && Call(port, s, a).1.Ok?
    && ((a.Save? && a.change.programId == id && a.change.revision == revision) ||
        (a.Refresh? && a.request.programId == id && a.request.revision == revision && (id, a.request.requestId) !in s.receipts))
  }

  lemma WinnerMovesRevision(port: Port, s: Store, a: Action, id: Uuid, revision: int)
    requires Wins(port, s, a, id, revision)
    ensures id in s.rows && s.rows[id].program.revision == revision
    ensures id in Call(port, s, a).0.rows && Call(port, s, a).0.rows[id].program.revision == revision + 1
  {
  }

  /** Of all saves and refreshes based on one revision, at most one succeeds in any run. */
  lemma OneWinnerPerRevision(port: Port, actions: seq<Action>, i: nat, j: nat, id: Uuid, revision: int)
    requires i < |actions| && j < |actions|
    requires Wins(port, Run(port, actions[..i]), actions[i], id, revision)
    requires Wins(port, Run(port, actions[..j]), actions[j], id, revision)
    ensures i == j
  {
    if i < j {
      LaterLoses(port, actions, i, j, id, revision);
    } else if j < i {
      LaterLoses(port, actions, j, i, id, revision);
    }
  }

  lemma LaterLoses(port: Port, actions: seq<Action>, i: nat, j: nat, id: Uuid, revision: int)
    requires i < j < |actions|
    requires Wins(port, Run(port, actions[..i]), actions[i], id, revision)
    ensures !Wins(port, Run(port, actions[..j]), actions[j], id, revision)
  {
    WinnerMovesRevision(port, Run(port, actions[..i]), actions[i], id, revision);
    RunStep(port, actions, i + 1);
    RowsEvolve(port, actions, i + 1, j, id);
    if Wins(port, Run(port, actions[..j]), actions[j], id, revision) {
      WinnerMovesRevision(port, Run(port, actions[..j]), actions[j], id, revision);
    }
  }

  // -- replays --------------------------------------------------------------------------------

  /** A message already recorded is never recorded again: the store stays, and another text is refused. */
  lemma InputReplay(port: Port, s: Store, c: Caller, id: Uuid, requestId: Uuid, input: string, k: nat)
    requires id in s.rows && Recorded(s.rows[id].originals) && k < |s.rows[id].originals|
    requires s.rows[id].originals[k].requestId == requestId
    ensures InputCall(port, s, c, id, requestId, input).0 == s
    ensures s.rows[id].originals[k].input != input ==> InputCall(port, s, c, id, requestId, input).1.Err?
  {
    LookupFinds(s.rows[id].originals, k);
    assert s.rows[id := s.rows[id]] == s.rows;
  }

  /** Beginning again with the same request neither creates nor changes a program. */
  lemma BeginReplay(port: Port, s: Store, c: Caller, requestId: Uuid, input: string, newId: Uuid)
    requires (c.workspace, requestId) in s.origins && OriginSound(s, (c.workspace, requestId))
    ensures var (after, r) := BeginCall(port, s, c, requestId, input, newId);
            var existing := s.origins[(c.workspace, requestId)];
            && after == s
            && (r.Ok? ==> r.value == s.rows[existing].program && s.rows[existing].originals[0].input == input)
  {
  }

  /** A refresh already receipted returns the receipted program and leaves the store alone. */
  lemma RefreshReplay(port: Port, s: Store, c: Caller, request: RefreshKnowledge)
    requires (request.programId, request.requestId) in s.receipts
    ensures var (after, r) := RefreshCall(port, s, c, request);
            var receipt := s.receipts[(request.programId, request.requestId)];
            after == s && (r.Ok? ==> r.value == receipt.result && receipt.request == request)
  {
  }
}
