/** What each service call on programs means for its caller, over every reachable store. */
module ProgramCalls {
  import opened Wrappers
  import opened Text
  import opened Uuids
  import opened Originals
  import opened Programs
  import opened ProgramRuns

  lemma SoundRow(s: Store, id: Uuid)
    requires Inv(s) && id in s.rows
    ensures s.rows[id].program.id == id && RecordSound(s.rows[id])
  {
    assert RowSound(s, id);
  }

  /** The caller may act and the program is one of its workspace's. */
  ghost predicate Reachable(s: Store, c: Caller, id: Uuid) {
    c.denied.None? && id in s.rows && s.rows[id].program.workspaceId == c.workspace
  }

  lemma RowExactly(s: Store, c: Caller, id: Uuid)
    ensures Row(s, c, id).Ok? <==> Reachable(s, c, id)
    ensures Reachable(s, c, id) ==> Row(s, c, id).value == s.rows[id]
    ensures c.denied.None? && !Reachable(s, c, id) ==> Row(s, c, id) == Err(NotFound)
  {
  }

  /** Neither the guard nor anything after it refuses this answer. */
  ghost predicate LetOut(port: Port, c: Caller, p: Program) {
    port.check(p).None? && c.lateFailure.None?
  }

  ghost predicate Utterable(requestId: Uuid, input: string) {
    requestId != NIL && Trim(input) != "" && '\0' !in input
  }

  ghost predicate Measurable(port: Port, input: string) {
    port.inputBytes(input).Ok? && port.inputBytes(input).value >= 0
  }

  // -- beginning ------------------------------------------------------------------------------

  /** Revision 1 of a program: empty, with one message not yet consumed. */
  ghost predicate FirstDraft(p: Program, c: Caller, id: Uuid, encodedBytes: int) {
    && p.id == id && p.workspaceId == c.workspace && p.status == Draft && p.revision == 1 && p.step == Compose
    && p.fields.name.None? && p.fields.intent.None? && p.fields.basis.None?
    && p.fields.boundaries.None? && p.fields.constraints.None? && p.fields.success.None?
    && p.workingNotes.None? && p.pendingQuestion.None?
    && p.inputCursor == 0 && p.latestInput == 1 && p.maxInputBytes == encodedBytes
  }

  /** A draft that begins with this message, remembered under the workspace and the request. */
  ghost predicate Began(s: Store, after: Store, c: Caller, requestId: Uuid, input: string, id: Uuid, p: Program) {
    && id !in s.rows && id in after.rows && after.rows == s.rows[id := after.rows[id]]
    && after.origins == s.origins[(c.workspace, requestId) := id] && after.receipts == s.receipts
    && after.rows[id].program == p
    && |after.rows[id].originals| == 1 && FirstDraft(p, c, id, after.rows[id].originals[0].encodedBytes)
    && after.rows[id].originals[0].requestId == requestId && after.rows[id].originals[0].input == input
  }

  /** The request created a program before, with the same message. */
  ghost predicate BeganBefore(s: Store, after: Store, c: Caller, requestId: Uuid, input: string, p: Program) {
    && after == s && (c.workspace, requestId) in s.origins
    && var id := s.origins[(c.workspace, requestId)];
       && id in s.rows && p == s.rows[id].program
       && s.rows[id].originals != []
       && s.rows[id].originals[0].requestId == requestId && s.rows[id].originals[0].input == input
  }

  lemma BeginMeans(port: Port, s: Store, c: Caller, requestId: Uuid, input: string, id: Uuid)
    requires Inv(s)
    ensures var (after, r) := BeginCall(port, s, c, requestId, input, id);
            if r.Err? then after == s
            else if (c.workspace, requestId) in s.origins then BeganBefore(s, after, c, requestId, input, r.value)
            else Began(s, after, c, requestId, input, id, r.value)
  {
    if (c.workspace, requestId) in s.origins {
      assert OriginSound(s, (c.workspace, requestId));
      BeginReplay(port, s, c, requestId, input, id);
    }
  }

  ghost predicate BeginGoesThrough(port: Port, s: Store, c: Caller, requestId: Uuid, input: string, id: Uuid) {
    && c.denied.None? && Utterable(requestId, input) && Measurable(port, input)
    && var key := (c.workspace, requestId);
       if key in s.origins then
         && s.origins[key] in s.rows
         && var r := s.rows[s.origins[key]];
            r.originals != [] && r.originals[0].input == input && LetOut(port, c, r.program)
       else
         && id != NIL && id !in s.rows
         && exists p :: FirstDraft(p, c, id, port.inputBytes(input).value) && LetOut(port, c, p)
  }

  /** A begin succeeds exactly as a retry of the first message, or with a fresh id for a new program. */
  lemma BeginExactly(port: Port, s: Store, c: Caller, requestId: Uuid, input: string, id: Uuid)
    ensures BeginCall(port, s, c, requestId, input, id).1.Ok? <==> BeginGoesThrough(port, s, c, requestId, input, id)
  {
    InputExactly(requestId, input);
    NilExactly(id);
    if Measurable(port, input) {
      var bytes := port.inputBytes(input).value;
      assert FirstDraft(NewDraft(id, c.workspace, bytes), c, id, bytes);
    }
  }

  // -- saving ---------------------------------------------------------------------------------

  ghost predicate SavedOver(s: Store, after: Store, change: SaveProgram, next: Program) {
    var id := change.programId;
    && id in s.rows && after == s.(rows := s.rows[id := s.rows[id].(program := next)])
    && Rewritten(s.rows[id].program, change, next)
  }

  lemma SaveMeans(port: Port, s: Store, c: Caller, change: SaveProgram)
    ensures var (after, r) := SaveCall(port, s, c, change);
            if r.Err? then after == s else SavedOver(s, after, change, r.value)
  {
    var row := Row(s, c, change.programId);
    if row.Ok? && Saved(row.value.program, change).Ok? {
      SavedWrites(row.value.program, change);
    }
  }

  ghost predicate SaveGoesThrough(port: Port, s: Store, c: Caller, change: SaveProgram) {
    && Reachable(s, c, change.programId) && Savable(s.rows[change.programId].program, change)
    && exists next :: Rewritten(s.rows[change.programId].program, change, next) && LetOut(port, c, next)
  }

  /** A save succeeds exactly when the program is reachable and savable and the result is let out. */
  lemma SaveExactly(port: Port, s: Store, c: Caller, change: SaveProgram)
    ensures SaveCall(port, s, c, change).1.Ok? <==> SaveGoesThrough(port, s, c, change)
  {
    RowExactly(s, c, change.programId);
    if Reachable(s, c, change.programId) {
      var p := s.rows[change.programId].program;
      SavedExactly(p, change);
      if Saved(p, change).Ok? {
        SavedWrites(p, change);
        forall next | Rewritten(p, change, next) ensures next == Saved(p, change).value {
          RewrittenFixed(p, change, next, Saved(p, change).value);
        }
      }
    }
  }

  // -- messages -------------------------------------------------------------------------------

  /** The message is on record under its request. */
  ghost predicate Heard(r: Record, requestId: Uuid, input: string) {
    var found := Lookup(r.originals, requestId);
    found.Some? && found.value.input == input
  }

  /** One program has one message more and is open for composition again; nothing else changed. */
  ghost predicate Appended(s: Store, after: Store, id: Uuid, requestId: Uuid, input: string, next: Program) {
    && id in s.rows && Lookup(s.rows[id].originals, requestId).None?
    && id in after.rows && after == s.(rows := s.rows[id := after.rows[id]])
    && after.rows[id].program == next
    && var n := |s.rows[id].originals|;
       && |after.rows[id].originals| == n + 1 && after.rows[id].originals[..n] == s.rows[id].originals
       && var last := after.rows[id].originals[n];
          last == Original(n + 1, requestId, input, last.encodedBytes) && Reopened(s.rows[id].program, next, last.encodedBytes)
  }

  lemma InputMeans(port: Port, s: Store, c: Caller, id: Uuid, requestId: Uuid, input: string)
    requires Inv(s)
    ensures var (after, r) := InputCall(port, s, c, id, requestId, input);
            if r.Err? then after == s
            else
              && id in s.rows && id in after.rows && after.rows[id].program == r.value && Heard(after.rows[id], requestId, input)
              && if Lookup(s.rows[id].originals, requestId).Some? then after == s
                 else Appended(s, after, id, requestId, input, r.value)
  {
    var row := Row(s, c, id);
    if row.Ok? && InputCall(port, s, c, id, requestId, input).1.Ok? {
      SoundRow(s, id);
      if Lookup(row.value.originals, requestId).Some? {
        assert s.rows[id := row.value] == s.rows;
      } else {
        NewInputWrites(row.value.program, port.inputBytes(input).value);
      }
    }
  }

  ghost predicate InputGoesThrough(port: Port, s: Store, c: Caller, id: Uuid, requestId: Uuid, input: string) {
    && Utterable(requestId, input) && id != NIL && Reachable(s, c, id)
    && var r := s.rows[id];
       if Lookup(r.originals, requestId).Some? then Heard(r, requestId, input) && LetOut(port, c, r.program)
       else
         && Measurable(port, input)
         && r.program.revision != 9_223_372_036_854_775_807 && r.program.latestInput != 9_223_372_036_854_775_807
         && exists next :: Reopened(r.program, next, port.inputBytes(input).value) && LetOut(port, c, next)
  }

  /** A message succeeds exactly as a repetition of a recorded one, or as a new one that can be taken. */
  lemma InputCallExactly(port: Port, s: Store, c: Caller, id: Uuid, requestId: Uuid, input: string)
    ensures InputCall(port, s, c, id, requestId, input).1.Ok? <==> InputGoesThrough(port, s, c, id, requestId, input)
  {
    InputExactly(requestId, input);
    NilExactly(id);
    RowExactly(s, c, id);
    if Reachable(s, c, id) && port.inputBytes(input).Ok? {
      var p, bytes := s.rows[id].program, port.inputBytes(input).value;
      NewInputExactly(p, bytes);
      if WithNewInput(p, bytes).Ok? {
        NewInputWrites(p, bytes);
        assert forall next :: Reopened(p, next, bytes) ==> next == WithNewInput(p, bytes).value;
      }
    }
  }

  // -- refreshing -----------------------------------------------------------------------------

  /** The program is one revision up and otherwise as it was, and the request has its receipt. */
  ghost predicate RefreshedOver(s: Store, after: Store, request: RefreshKnowledge, next: Program) {
    var id := request.programId;
    && id in s.rows && s.rows[id].program.revision == request.revision && s.rows[id].program.inputCursor == request.inputCursor
    && next == s.rows[id].program.(revision := request.revision + 1)
    && after == Store(s.rows[id := s.rows[id].(program := next)], s.origins,
                      s.receipts[(id, request.requestId) := Receipt(request, next)])
  }

  /** After a successful refresh its receipt answers every repetition. */
  lemma RefreshMeans(port: Port, s: Store, c: Caller, request: RefreshKnowledge)
    requires Inv(s)
    ensures var (after, r) := RefreshCall(port, s, c, request);
            var key := (request.programId, request.requestId);
            if r.Err? then after == s
            else
              && key in after.receipts && after.receipts[key] == Receipt(request, r.value)
              && if key in s.receipts then after == s else RefreshedOver(s, after, request, r.value)
  {
    var row := Row(s, c, request.programId);
    if row.Ok? && Refreshed(row.value.program, request).Ok? {
      SoundRow(s, request.programId);
      RefreshedSound(row.value, request);
    }
  }

  ghost predicate RefreshGoesThrough(port: Port, s: Store, c: Caller, request: RefreshKnowledge) {
    && request.programId != NIL && request.requestId != NIL && request.revision >= 1 && request.inputCursor >= 0
    && Reachable(s, c, request.programId)
    && var key := (request.programId, request.requestId);
       if key in s.receipts then s.receipts[key].request == request && LetOut(port, c, s.receipts[key].result)
       else
         && Refreshable(s.rows[request.programId].program, request)
         && LetOut(port, c, s.rows[request.programId].program.(revision := request.revision + 1))
  }

  /** A refresh succeeds exactly as a repetition of a receipted one, or from the current revision and cursor. */
  lemma RefreshExactly(port: Port, s: Store, c: Caller, request: RefreshKnowledge)
    requires Inv(s)
    ensures RefreshCall(port, s, c, request).1.Ok? <==> RefreshGoesThrough(port, s, c, request)
  {
    NilExactly(request.programId);
    NilExactly(request.requestId);
    RowExactly(s, c, request.programId);
    if Reachable(s, c, request.programId) {
      RefreshedExactly(s.rows[request.programId].program, request);
      SoundRow(s, request.programId);
    }
  }
}
