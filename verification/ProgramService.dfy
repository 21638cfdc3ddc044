/**
The application service over programs. A call computes on copies and writes rows, origins and
receipts only after the last check, as one transaction does. The state of a service is always that
of the run it has made, so every theorem about runs holds of it; each method adds what its own
answer means.
*/
module ProgramService {
  import opened Wrappers
  import opened Uuids
  import opened Originals
  import opened Programs
  import opened ProgramRuns
  import opened ProgramCalls

  lemma RunExtends(port: Port, history: seq<Action>, a: Action, s: Store, after: Store)
    requires s == Run(port, history) && after == Call(port, s, a).0
    ensures after == Run(port, history + [a])
  {
    assert (history + [a])[..|history|] == history;
  }

  class WorkspaceService {
    const port: Port
    var rows: map<Uuid, Record>
    var origins: map<(Uuid, Uuid), Uuid>
    var receipts: map<(Uuid, Uuid), Receipt>
    ghost var history: seq<Action>

    ghost function State(): Store
      reads this
    {
      Store(rows, origins, receipts)
    }

    ghost predicate Valid()
      reads this
    {
      State() == Run(port, history)
    }

    constructor (port: Port)
      ensures this.port == port && State() == EMPTY && history == [] && Valid()
    {
      this.port := port;
      rows, origins, receipts, history := map[], map[], map[], [];
    }

    /** A reachable state is a sound one. */
    lemma Sound()
      requires Valid()
      ensures Inv(State())
    {
      RunSound(port, history);
    }

    /** The output guard, then whatever may still fail before the commit. */
    method Admitted(c: Caller, p: Program) returns (refusal: Option<Error>)
      ensures refusal == if port.check(p).Some? then port.check(p) else c.lateFailure
    {
      refusal := port.check(p);
      if refusal.None? {
        refusal := c.lateFailure;
      }
    }

    method Load(c: Caller, id: Uuid) returns (r: Result<Record>)
      ensures r == Row(State(), c, id)
      ensures r.Ok? ==> id in rows && rows[id] == r.value
    {
      if c.denied.Some? {
        return Err(c.denied.value);
      }
      if id !in rows || rows[id].program.workspaceId != c.workspace {
        return Err(NotFound);
      }
      return Ok(rows[id]);
    }

    method BeginChecked(c: Caller, requestId: Uuid, input: string, id: Uuid) returns (r: Result<Program>)
      modifies this`rows, this`origins
      ensures (State(), r) == BeginCall(port, old(State()), c, requestId, input, id)
    {
      if c.denied.Some? {
        return Err(c.denied.value);
      }
      if ValidateInput(requestId, input).Err? {
        return Err(InvalidArguments);
      }
      var measured := port.inputBytes(input);
      if measured.Err? {
        return Err(measured.error);
      }
      if measured.value < 0 {
        return Err(InvalidArguments);
      }
      var key := (c.workspace, requestId);
      if key in origins {
        var existing := origins[key];
        if existing !in rows || rows[existing].originals == [] {
          return Err(StorageUnavailable);
        }
        if rows[existing].originals[0].input != input {
          return Err(InputConflict);
        }
        var refusal := Admitted(c, rows[existing].program);
        return if refusal.Some? then Err(refusal.value) else Ok(rows[existing].program);
      }
      if id in rows || IsNil(id) {
        return Err(StorageUnavailable);
      }
      var program := NewDraft(id, c.workspace, measured.value);
      var refusal := Admitted(c, program);
      if refusal.Some? {
        return Err(refusal.value);
      }
      rows := rows[id := Record(program, [Original(1, requestId, input, measured.value)])];
      origins := origins[key := id];
      return Ok(program);
    }

    /** A new draft, or the program that the same request began with the same message; otherwise nothing changes. */
    method Begin(c: Caller, requestId: Uuid, input: string, id: Uuid) returns (r: Result<Program>)
      requires Valid()
      modifies this`rows, this`origins, this`history
      ensures Valid() && history == old(history) + [Action.Begin(c, requestId, input, id)]
      ensures r.Err? ==> State() == old(State())
      ensures r.Ok? ==>
        if (c.workspace, requestId) in old(origins) then BeganBefore(old(State()), State(), c, requestId, input, r.value)
        else Began(old(State()), State(), c, requestId, input, id, r.value)
      ensures r.Ok? <==> BeginGoesThrough(port, old(State()), c, requestId, input, id)
      ensures r == BeginCall(port, old(State()), c, requestId, input, id).1
    {
      ghost var before := State();
      Sound();
      r := BeginChecked(c, requestId, input, id);
      BeginMeans(port, before, c, requestId, input, id);
      BeginExactly(port, before, c, requestId, input, id);
      RunExtends(port, history, Action.Begin(c, requestId, input, id), before, State());
      history := history + [Action.Begin(c, requestId, input, id)];
    }

    method SaveChecked(c: Caller, change: SaveProgram) returns (r: Result<Program>)
      modifies this`rows
      ensures (State(), r) == SaveCall(port, old(State()), c, change)
    {
      var loaded := Load(c, change.programId);
      if loaded.Err? {
        return Err(if c.denied.None? && ValidateSave(change).Err? then InvalidArguments else loaded.error);
      }
      var saved := Saved(loaded.value.program, change);
      if saved.Err? {
        return Err(saved.error);
      }
      var refusal := Admitted(c, saved.value);
      if refusal.Some? {
        return Err(refusal.value);
      }
      rows := rows[change.programId := loaded.value.(program := saved.value)];
      return Ok(saved.value);
    }

    /**
    A successful save was based on the current revision and rewrites its program as patched, one
    revision up, and nothing else; a refusal changes nothing.
    */
    method Save(c: Caller, change: SaveProgram) returns (r: Result<Program>)
      requires Valid()
      modifies this`rows, this`history
      ensures Valid() && history == old(history) + [Action.Save(c, change)]
      ensures r.Err? ==> State() == old(State())
      ensures r.Ok? ==> SavedOver(old(State()), State(), change, r.value) && RecordSound(rows[change.programId])
      ensures r.Ok? <==> SaveGoesThrough(port, old(State()), c, change)
      ensures r == SaveCall(port, old(State()), c, change).1
    {
      ghost var before := State();
      r := SaveChecked(c, change);
      SaveMeans(port, before, c, change);
      SaveExactly(port, before, c, change);
      RunExtends(port, history, Action.Save(c, change), before, State());
      history := history + [Action.Save(c, change)];
      Sound();
      if r.Ok? {
        SoundRow(State(), change.programId);
      }
    }

    method InputChecked(c: Caller, id: Uuid, requestId: Uuid, input: string) returns (r: Result<Program>)
      modifies this`rows
      ensures (State(), r) == InputCall(port, old(State()), c, id, requestId, input)
    {
      if ValidateInput(requestId, input).Err? || IsNil(id) {
        return Err(if c.denied.Some? then c.denied.value else InvalidArguments);
      }
      var loaded := Load(c, id);
      if loaded.Err? {
        return Err(loaded.error);
      }
      var current := loaded.value;
      var recorded := Lookup(current.originals, requestId);
      if recorded.Some? {
        assert rows[id := current] == rows;
        if recorded.value.input != input {
          return Err(InputConflict);
        }
        var refusal := Admitted(c, current.program);
        return if refusal.Some? then Err(refusal.value) else Ok(current.program);
      }
      var measured := port.inputBytes(input);
      if measured.Err? {
        return Err(measured.error);
      }
      var next := WithNewInput(current.program, measured.value);
      if next.Err? {
        return Err(next.error);
      }
      var refusal := Admitted(c, next.value);
      if refusal.Some? {
        return Err(refusal.value);
      }
      var original := Original(next.value.latestInput, requestId, input, measured.value);
      rows := rows[id := Record(next.value, current.originals + [original])];
      return Ok(next.value);
    }

    /**
    After success the message is on record: it was before and nothing changed, or its program grew by
    it, one revision up. So repeating a successful call never changes anything.
    */
    method RecordInput(c: Caller, id: Uuid, requestId: Uuid, input: string) returns (r: Result<Program>)
      requires Valid()
      modifies this`rows, this`history
      ensures Valid() && history == old(history) + [Action.Input(c, id, requestId, input)]
      ensures r.Err? ==> State() == old(State())
      ensures r.Ok? ==>
        && id in old(rows) && id in rows && rows[id].program == r.value
        && RecordSound(rows[id]) && Heard(rows[id], requestId, input)
        && if Lookup(old(rows)[id].originals, requestId).Some? then State() == old(State())
           else Appended(old(State()), State(), id, requestId, input, r.value)
      ensures r.Ok? <==> InputGoesThrough(port, old(State()), c, id, requestId, input)
      ensures r == InputCall(port, old(State()), c, id, requestId, input).1
    {
      ghost var before := State();
      Sound();
      r := InputChecked(c, id, requestId, input);
      InputMeans(port, before, c, id, requestId, input);
      InputCallExactly(port, before, c, id, requestId, input);
      RunExtends(port, history, Action.Input(c, id, requestId, input), before, State());
      history := history + [Action.Input(c, id, requestId, input)];
      Sound();
      if r.Ok? {
        SoundRow(State(), id);
      }
    }

    method RefreshChecked(c: Caller, request: RefreshKnowledge) returns (r: Result<Program>)
      modifies this`rows, this`receipts
      ensures (State(), r) == RefreshCall(port, old(State()), c, request)
    {
      if ValidateRefresh(request).Err? {
        return Err(InvalidArguments);
      }
      var loaded := Load(c, request.programId);
      if loaded.Err? {
        return Err(loaded.error);
      }
      var key := (request.programId, request.requestId);
      if key in receipts {
        if receipts[key].request != request {
          return Err(InputConflict);
        }
        var refusal := Admitted(c, receipts[key].result);
        return if refusal.Some? then Err(refusal.value) else Ok(receipts[key].result);
      }
      var next := Refreshed(loaded.value.program, request);
      if next.Err? {
        return Err(next.error);
      }
      var refusal := Admitted(c, next.value);
      if refusal.Some? {
        return Err(refusal.value);
      }
      rows := rows[request.programId := loaded.value.(program := next.value)];
      receipts := receipts[key := Receipt(request, next.value)];
      return Ok(next.value);
    }

    /**
    After success the request has a receipt for exactly this answer: it had before and nothing
    changed, or the program moved up one revision and is otherwise as it was.
    */
    method Refresh(c: Caller, request: RefreshKnowledge) returns (r: Result<Program>)
      requires Valid()
      modifies this`rows, this`receipts, this`history
      ensures Valid() && history == old(history) + [Action.Refresh(c, request)]
      ensures r.Err? ==> State() == old(State())
      ensures r.Ok? ==>
        var key := (request.programId, request.requestId);
        && key in receipts && receipts[key] == Receipt(request, r.value)
        && if key in old(receipts) then State() == old(State())
           else RefreshedOver(old(State()), State(), request, r.value)
      ensures r.Ok? <==> RefreshGoesThrough(port, old(State()), c, request)
      ensures r == RefreshCall(port, old(State()), c, request).1
    {
      ghost var before := State();
      Sound();
      r := RefreshChecked(c, request);
      RefreshMeans(port, before, c, request);
      RefreshExactly(port, before, c, request);
      RunExtends(port, history, Action.Refresh(c, request), before, State());
      history := history + [Action.Refresh(c, request)];
    }
  }
}
