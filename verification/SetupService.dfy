/**
The application service over setups, in the order its code works: look the row up under the caller's
binding, compute on a copy, and write back only at the end. The state of a service is always that of
the run it has made, so every theorem about runs holds of it; each method adds what its own answer
means.
*/
module SetupService {
  import opened Wrappers
  import opened Bytes
  import opened Uuids
  import opened Originals
  import opened Setups
  import opened SetupProtocol
  import opened SetupRuns
  import opened SetupRetry
  import opened SetupCalls

  lemma RunExtends(port: Port, history: seq<Action>, a: Action, w: World, v: World)
    requires w == Run(port, history) && v == Next(port, w, a)
    ensures v == Run(port, history + [a])
  {
    assert (history + [a])[..|history|] == history;
  }

  class WorkspaceService {
    const port: Port
    var rows: map<Uuid, Record>
    var places: map<Place, Uuid>
    var files: map<Directory, seq<Byte>>
    var inFlight: map<Uuid, Setup>
    ghost var witnessed: set<(Directory, seq<Byte>)>
    ghost var history: seq<Action>

    ghost function State(): World
      reads this
    {
      World(rows, places, files, inFlight, witnessed)
    }

    ghost predicate Valid()
      reads this
    {
      State() == Run(port, history)
    }

    constructor (port: Port)
      ensures this.port == port && State() == EMPTY && history == [] && Valid()
    {
      this.port := port;
      rows, places, files, inFlight, witnessed, history := map[], map[], map[], map[], {}, [];
    }

    /** A reachable state is a sound one. */
    lemma Reachable()
      requires Valid()
      ensures Inv(port, State())
    {
      RunSound(port, history);
    }

    method BoundSetup(c: Caller, id: Uuid) returns (r: Result<Record>)
      ensures r.Ok? <==>
        && c.denied.None? && !IsNil(id) && id in rows
        && rows[id].setup.workspaceId == c.workspace && rows[id].setup.hostId == c.host && rows[id].setup.directory == c.binding
      ensures r.Ok? ==> r.value == rows[id]
      ensures r.Err? && c.denied.None? ==> r.error == if IsNil(id) then InvalidArguments else NotFound
      ensures r == BoundRow(State(), c, id)
    {
      if c.denied.Some? {
        return Err(c.denied.value);
      }
      if IsNil(id) {
        return Err(InvalidArguments);
      }
      if id !in rows || rows[id].setup.workspaceId != c.workspace || rows[id].setup.hostId != c.host {
        return Err(NotFound);
      }
      if rows[id].setup.directory != c.binding {
        return Err(NotFound);
      }
      return Ok(rows[id]);
    }

    method BeginNew(c: Caller, requestId: Uuid, input: string, id: Uuid, inspectFails: bool) returns (r: Result<Setup>)
      requires ValidateInput(requestId, input).Ok? && c.denied.None?
      requires Place(c.workspace, c.host, c.binding.path) !in places
      modifies this`rows, this`places
      ensures State() == BeginSetup(port, old(State()), c, requestId, input, id, inspectFails).0
      ensures r == BeginSetup(port, old(State()), c, requestId, input, id, inspectFails).1
    {
      if inspectFails {
        return Err(SetupUnavailable);
      }
      if c.binding in files {
        return Err(SetupFileConflict);
      }
      var measured := port.inputBytes(input);
      if measured.Err? {
        return Err(measured.error);
      }
      var setup := NewDraft(id, c.workspace, c.host, c.binding, measured.value);
      if port.check(setup).Some? {
        return Err(port.check(setup).value);
      }
      if measured.value < 0 {
        return Err(InvalidArguments);
      }
      if id in rows || IsNil(id) {
        return Err(StorageUnavailable);
      }
      rows := rows[id := Record(setup, [Original(1, requestId, input, measured.value)])];
      places := places[Place(c.workspace, c.host, c.binding.path) := id];
      return Ok(setup);
    }

    method BeginChecked(c: Caller, requestId: Uuid, input: string, id: Uuid, inspectFails: bool) returns (r: Result<Setup>)
      requires Inv(port, State())
      modifies this`rows, this`places
      ensures (State(), r) == BeginSetup(port, old(State()), c, requestId, input, id, inspectFails)
    {
      if c.denied.Some? {
        return Err(c.denied.value);
      }
      if ValidateInput(requestId, input).Err? {
        return Err(InvalidArguments);
      }
      var place := Place(c.workspace, c.host, c.binding.path);
      if place !in places {
        r := BeginNew(c, requestId, input, id, inspectFails);
        return;
      }
      assert PlaceSound(State(), place);
      var current := rows[places[place]];
      if current.setup.directory != c.binding {
        return Err(TaskDirectoryMismatch);
      }
      match Lookup(current.originals, requestId) {
        case None =>
          return Err(SetupExists);
        case Some(original) =>
          if original.sequence == 1 && original.input == input {
            if port.check(current.setup).Some? {
              return Err(port.check(current.setup).value);
            }
            return Ok(current.setup);
          }
          return Err(InputConflict);
      }
    }

    /**
    A new draft for a directory with neither row nor file, or the answer to a retry of the message
    that created the row; otherwise nothing changes.
    */
    method Begin(c: Caller, requestId: Uuid, input: string, id: Uuid, inspectFails: bool) returns (r: Result<Setup>)
      requires Valid() && !Blocked(State(), Action.Begin(c, requestId, input, id, inspectFails))
      modifies this`rows, this`places, this`history
      ensures Valid() && history == old(history) + [Action.Begin(c, requestId, input, id, inspectFails)]
      ensures r.Err? ==> State() == old(State())
      ensures r.Ok? ==>
        if Place(c.workspace, c.host, c.binding.path) in old(places)
        then BeganBefore(old(State()), State(), c, requestId, input, r.value)
        else Began(old(State()), State(), c, requestId, input, id, r.value)
      ensures r.Ok? <==> BeginGoesThrough(port, old(State()), c, requestId, input, id, inspectFails)
      ensures r == BeginSetup(port, old(State()), c, requestId, input, id, inspectFails).1
    {
      ghost var before := State();
      Reachable();
      r := BeginChecked(c, requestId, input, id, inspectFails);
      BeginMeans(port, before, c, requestId, input, id, inspectFails);
      BeginExactly(port, before, c, requestId, input, id, inspectFails);
      RunExtends(port, history, Action.Begin(c, requestId, input, id, inspectFails), before, State());
      history := history + [Action.Begin(c, requestId, input, id, inspectFails)];
    }

    method SaveChecked(c: Caller, change: SaveSetup) returns (r: Result<Setup>)
      modifies this`rows
      ensures (State(), r) == SaveCall(port, old(State()), c, change)
    {
      if ValidateSave(change).Err? && c.denied.None? {
        return Err(InvalidArguments);
      }
      var bound := BoundSetup(c, change.setupId);
      if bound.Err? {
        return Err(bound.error);
      }
      var saved := Saved(bound.value.setup, change);
      if saved.Err? {
        return Err(saved.error);
      }
      if port.check(saved.value).Some? {
        return Err(port.check(saved.value).value);
      }
      rows := rows[change.setupId := bound.value.(setup := saved.value)];
      return Ok(saved.value);
    }

    /**
    A successful save rewrites its row as patched, one revision up, and nothing else; an applied row
    or a stale revision is refused, and a refusal changes nothing.
    */
    method Save(c: Caller, change: SaveSetup) returns (r: Result<Setup>)
      requires Valid() && !Blocked(State(), Action.Save(c, change))
      modifies this`rows, this`history
      ensures Valid() && history == old(history) + [Action.Save(c, change)]
      ensures r.Err? ==> State() == old(State())
      ensures r.Ok? ==> SavedOver(old(State()), State(), change, r.value) && RecordSound(rows[change.setupId])
      ensures r.Ok? <==> SaveGoesThrough(port, old(State()), c, change)
      ensures r == SaveCall(port, old(State()), c, change).1
    {
      ghost var before := State();
      Reachable();
      r := SaveChecked(c, change);
      SaveMeans(port, before, c, change);
      SaveExactly(port, before, c, change);
      RunExtends(port, history, Action.Save(c, change), before, State());
      history := history + [Action.Save(c, change)];
      Reachable();
      if r.Ok? {
        SoundParts(port, State(), change.setupId);
      }
    }

    method InputChecked(c: Caller, id: Uuid, revision: int, requestId: Uuid, input: string) returns (r: Result<Setup>)
      modifies this`rows
      ensures (State(), r) == InputCall(port, old(State()), c, id, revision, requestId, input)
    {
      if c.denied.Some? {
        return Err(c.denied.value);
      }
      if ValidateInput(requestId, input).Err? || revision < 1 {
        return Err(InvalidArguments);
      }
      var bound := BoundSetup(c, id);
      if bound.Err? {
        return Err(bound.error);
      }
      var current := bound.value;
      var recorded := Lookup(current.originals, requestId);
      if recorded.Some? {
        assert rows[id := current] == rows;
        if recorded.value.input != input {
          return Err(InputConflict);
        }
        if port.check(current.setup).Some? {
          return Err(port.check(current.setup).value);
        }
        return Ok(current.setup);
      }
      var measured := port.inputBytes(input);
      if measured.Err? {
        return Err(measured.error);
      }
      var next := WithNewInput(current.setup, revision, measured.value);
      if next.Err? {
        return Err(next.error);
      }
      if port.check(next.value).Some? {
        return Err(port.check(next.value).value);
      }
      rows := rows[id := Record(next.value, current.originals + [Original(next.value.latestInput, requestId, input, measured.value)])];
      return Ok(next.value);
    }

    /**
    After success the message is on record: it was before and nothing changed, or its row grew by it,
    one revision up. So repeating a successful call never changes anything.
    */
    method RecordInput(c: Caller, id: Uuid, revision: int, requestId: Uuid, input: string) returns (r: Result<Setup>)
      requires Valid() && !Blocked(State(), Action.Input(c, id, revision, requestId, input))
      modifies this`rows, this`history
      ensures Valid() && history == old(history) + [Action.Input(c, id, revision, requestId, input)]
      ensures r.Err? ==> State() == old(State())
      ensures r.Ok? ==>
        && id in old(rows) && id in rows && rows[id].setup == r.value
        && RecordSound(rows[id]) && Heard(rows[id], requestId, input)
        && if Lookup(old(rows)[id].originals, requestId).Some? then State() == old(State())
           else Appended(old(State()), State(), id, revision, requestId, input, r.value)
      ensures r.Ok? <==> InputGoesThrough(port, old(State()), c, id, revision, requestId, input)
      ensures r == InputCall(port, old(State()), c, id, revision, requestId, input).1
    {
      ghost var before := State();
      Reachable();
      r := InputChecked(c, id, revision, requestId, input);
      InputMeans(port, before, c, id, revision, requestId, input);
      InputCallExactly(port, before, c, id, revision, requestId, input);
      RunExtends(port, history, Action.Input(c, id, revision, requestId, input), before, State());
      history := history + [Action.Input(c, id, revision, requestId, input)];
      Reachable();
      if r.Ok? {
        SoundParts(port, State(), id);
      }
    }

    /** Publication under the row lock; on success the row update is staged in `inFlight`. */
    method PublishDraft(id: Uuid, s: Setup, revision: int, fault: Fault) returns (outcome: ApplyOutcome)
      requires s.content.Some?
      modifies this`files, this`inFlight, this`witnessed
      ensures var bytes := port.utf8(s.content.value);
              (State(), outcome) == PublishRow(port, old(State()), id, s, revision, bytes, fault)
    {
      var bytes := port.utf8(s.content.value);
      var (after, published) := PublishFile(port, files, s.directory, bytes, fault);
      files := after;
      if published.Err? {
        return Answered(Err(published.error));
      }
      witnessed := witnessed + if s.directory in files then {(s.directory, files[s.directory])} else {};
      var next := MarkApplied(s, revision, port.sha256(bytes));
      if next.Err? {
        return Answered(Err(next.error));
      }
      inFlight := inFlight[id := next.value];
      return Pending(published.value);
    }

    /** Up to and including publication. A row that is applied already is only observed. */
    method StartApply(c: Caller, id: Uuid, revision: int, fault: Fault) returns (outcome: ApplyOutcome)
      requires Valid() && !Blocked(State(), Action.Publish(c, id, revision, fault))
      modifies this`files, this`inFlight, this`witnessed, this`history
      ensures Valid() && history == old(history) + [Action.Publish(c, id, revision, fault)]
      ensures (State(), outcome) == ApplyStart(port, old(State()), c, id, revision, fault)
      ensures FilesKept(old(State()), State())
    {
      ghost var before := State();
      ServiceNeverAlters(port, before, Action.Publish(c, id, revision, fault));
      outcome := StartChecked(c, id, revision, fault);
      RunExtends(port, history, Action.Publish(c, id, revision, fault), before, State());
      history := history + [Action.Publish(c, id, revision, fault)];
    }

    method StartChecked(c: Caller, id: Uuid, revision: int, fault: Fault) returns (outcome: ApplyOutcome)
      modifies this`files, this`inFlight, this`witnessed
      ensures (State(), outcome) == ApplyStart(port, old(State()), c, id, revision, fault)
    {
      var bound := BoundSetup(c, id);
      if bound.Err? {
        return Answered(Err(bound.error));
      }
      var current := bound.value.setup;
      if ValidateApply(current, revision).Err? {
        return Answered(Err(ValidateApply(current, revision).error));
      }
      if port.check(current).Some? {
        return Answered(Err(port.check(current).value));
      }
      if current.content.None? {
        return Answered(Err(SetupIncomplete));
      }
      if current.status == Applied {
        return Answered(ObserveFile(current, fault));
      }
      outcome := PublishDraft(id, current, revision, fault);
    }

    /** The database takes the pending update. */
    method CommitApply(id: Uuid)
      requires Valid()
      modifies this`rows, this`inFlight, this`history
      ensures Valid() && history == old(history) + [Action.Commit(id)]
      ensures State() == ApplyCommit(old(State()), id)
    {
      ghost var before := State();
      if id in inFlight && id in rows {
        rows, inFlight := rows[id := rows[id].(setup := inFlight[id])], inFlight - {id};
      }
      RunExtends(port, history, Action.Commit(id), before, State());
      history := history + [Action.Commit(id)];
    }

    /** The transaction is dropped; a published file stays. */
    method AbandonApply(id: Uuid)
      requires Valid()
      modifies this`inFlight, this`history
      ensures Valid() && history == old(history) + [Action.Abandon(id)]
      ensures State() == ApplyAbandon(old(State()), id)
    {
      ghost var before := State();
      inFlight := inFlight - {id};
      RunExtends(port, history, Action.Abandon(id), before, State());
      history := history + [Action.Abandon(id)];
    }

    /** Someone else writes or removes the file of a directory. */
    method OutsideEdit(d: Directory, bytes: Option<seq<Byte>>)
      requires Valid()
      modifies this`files, this`history
      ensures Valid()
      ensures files == if bytes.Some? then old(files)[d := bytes.value] else old(files) - {d}
    {
      ghost var before := State();
      ghost var edit := if bytes.Some? then Action.OutsideWrite(d, bytes.value) else Action.OutsideDelete(d);
      files := if bytes.Some? then files[d := bytes.value] else files - {d};
      RunExtends(port, history, edit, before, State());
      history := history + [edit];
    }

    /**
    The whole application call. `commits` tells whether the database takes the update; if not, the
    published file stays and the row remains ready. Success means that the row is applied from this
    revision and that the file with its content is in place; files that existed are never altered,
    other rows never touched, and an applied row stays what it is.
    */
    method Apply(c: Caller, id: Uuid, revision: int, fault: Fault, commits: bool) returns (r: Result<Setup>)
      requires Valid() && id !in inFlight
      modifies this
      ensures Valid() && old(history) < history
      ensures ApplyFrame(old(State()), State(), id)
      ensures r.Err? ==> rows == old(rows)
      ensures r.Ok? ==> AppliedNow(port, old(State()), State(), id, revision, r.value)
      ensures fault == NoFault && commits && PrintsSha256(port) ==>
        (r.Ok? <==> Bound(old(State()), c, id) && Appliable(port, old(State()), old(rows)[id].setup, revision))
      ensures (State(), r) == ApplyCall(port, old(State()), c, id, revision, fault, commits)
    {
      ghost var before := State();
      Reachable();
      ApplyMeans(port, before, c, id, revision, fault, commits);
      if PrintsSha256(port) {
        ApplyExactly(port, before, c, id, revision);
      }
      r := ApplyInSteps(c, id, revision, fault, commits);
    }

    /** Publication, then commit or abandonment, each a step of the run. */
    method ApplyInSteps(c: Caller, id: Uuid, revision: int, fault: Fault, commits: bool) returns (r: Result<Setup>)
      requires Valid() && id !in inFlight
      modifies this
      ensures Valid() && old(history) < history
      ensures (State(), r) == ApplyCall(port, old(State()), c, id, revision, fault, commits)
    {
      var outcome := StartApply(c, id, revision, fault);
      if outcome.Answered? {
        return outcome.result;
      }
      if commits && id in inFlight {
        r := Ok(inFlight[id]);
        CommitApply(id);
      } else {
        AbandonApply(id);
        r := Err(StorageUnavailable);
      }
    }

    function ObserveFile(s: Setup, fault: Fault): (r: Result<Setup>)
      requires s.content.Some?
      reads this
      ensures r == ObserveApplied(port, State(), s, port.utf8(s.content.value), fault)
    {
      var bytes := port.utf8(s.content.value);
      if fault == NoFault && s.directory in files && |files[s.directory]| == |bytes| &&
         s.appliedSha256 == Some(port.sha256(files[s.directory]))
      then Ok(s) else Err(SetupFileConflict)
    }
  }
}
