/** The program record and its transitions, as the domain crate defines them on values. */
module Programs {
  import opened Wrappers
  import opened Text
  import opened Uuids
  import opened Originals

  datatype Status = Draft | Open
  datatype Step = Compose | WaitingInput | Ready

  /** The six fields that an open program must fill. */
  datatype Fields = Fields(name: Option<string>, intent: Option<string>, basis: Option<string>,
                           boundaries: Option<string>, constraints: Option<string>, success: Option<string>)
  {
    predicate Filled() {
      && !BlankOrAbsent(name) && !BlankOrAbsent(intent) && !BlankOrAbsent(basis)
      && !BlankOrAbsent(boundaries) && !BlankOrAbsent(constraints) && !BlankOrAbsent(success)
    }

    predicate AnyNul() {
      CarriesNul(name) || CarriesNul(intent) || CarriesNul(basis) ||
      CarriesNul(boundaries) || CarriesNul(constraints) || CarriesNul(success)
    }
  }

  datatype FieldPatches = FieldPatches(name: TextPatch, intent: TextPatch, basis: TextPatch,
                                       boundaries: TextPatch, constraints: TextPatch, success: TextPatch)
  {
    function Apply(f: Fields): Fields {
      Fields(name.Apply(f.name), intent.Apply(f.intent), basis.Apply(f.basis),
             boundaries.Apply(f.boundaries), constraints.Apply(f.constraints), success.Apply(f.success))
    }
  }

  datatype Program = Program(
    id: Uuid, workspaceId: Uuid, status: Status, revision: int, fields: Fields,
    workingNotes: Option<string>, pendingQuestion: Option<string>, step: Step,
    inputCursor: int, latestInput: int, maxInputBytes: int)

  datatype SaveProgram = SaveProgram(
    programId: Uuid, revision: int, inputCursor: int, fields: FieldPatches,
    workingNotes: TextPatch, pendingQuestion: TextPatch, complete: bool)

  datatype RefreshKnowledge = RefreshKnowledge(programId: Uuid, revision: int, inputCursor: int, requestId: Uuid, taskContext: string)

  function NewDraft(id: Uuid, workspaceId: Uuid, maxInputBytes: int): Program {
    Program(id, workspaceId, Draft, 1, Fields(None, None, None, None, None, None), None, None, Compose, 0, 1, maxInputBytes)
  }

  function ValidateSave(change: SaveProgram): (r: Result<()>)
    ensures r.Err? ==> r.error == InvalidArguments
  {
    if IsNil(change.programId) || change.revision < 1 || change.inputCursor < 0 then Err(InvalidArguments) else Ok(())
  }

  function ValidateRefresh(request: RefreshKnowledge): (r: Result<()>)
    ensures r.Err? ==> r.error == InvalidArguments
  {
    if IsNil(request.programId) || IsNil(request.requestId) || request.revision < 1 || request.inputCursor < 0
    then Err(InvalidArguments) else Ok(())
  }

  function Patched(p: Program, change: SaveProgram): Program {
    p.(fields := change.fields.Apply(p.fields),
       workingNotes := change.workingNotes.Apply(p.workingNotes),
       pendingQuestion := NormalizeQuestion(change.pendingQuestion.Apply(p.pendingQuestion)))
  }

  function Saved(p: Program, change: SaveProgram): Result<Program> {
    if ValidateSave(change).Err? then Err(InvalidArguments)
    else if change.programId != p.id then Err(NotFound)
    else if change.revision != p.revision then Err(StaleRevision)
    else if change.inputCursor < p.inputCursor || change.inputCursor > p.latestInput ||
            (change.complete && change.inputCursor != p.latestInput) then Err(InputPending)
    else
      var next := Patched(p, change);
      if next.fields.AnyNul() || CarriesNul(next.workingNotes) || CarriesNul(next.pendingQuestion) then Err(InvalidArguments)
      else if ((change.complete || p.status == Open) && !next.fields.Filled()) || (change.complete && next.pendingQuestion.Some?)
      then Err(ProgramIncomplete)
      else
        match Increment(p.revision)
        case Err(e) => Err(e)
        case Ok(revision) =>
          Ok(next.(inputCursor := change.inputCursor, revision := revision,
                   status := if change.complete then Open else p.status,
                   step := if change.complete then Ready
                           else if next.pendingQuestion.Some? then WaitingInput
                           else Compose))
  }

  function WithNewInput(p: Program, encodedBytes: int): Result<Program> {
    if encodedBytes < 0 then Err(InvalidArguments)
    else
      match (Increment(p.revision), Increment(p.latestInput))
      case (Ok(next), Ok(latest)) =>
        Ok(p.(revision := next, latestInput := latest, step := Compose,
              maxInputBytes := if p.maxInputBytes < encodedBytes then encodedBytes else p.maxInputBytes))
      case _ => Err(StorageUnavailable)
  }

  function Refreshed(p: Program, request: RefreshKnowledge): Result<Program> {
    if ValidateRefresh(request).Err? then Err(InvalidArguments)
    else if request.programId != p.id then Err(NotFound)
    else if request.revision != p.revision then Err(StaleRevision)
    else if request.inputCursor != p.inputCursor then Err(StaleContext)
    else
      match Increment(p.revision)
      case Err(e) => Err(e)
      case Ok(revision) => Ok(p.(revision := revision))
  }

  // -- what every reachable program keeps -----------------------------------------------------

  datatype Record = Record(program: Program, originals: seq<Original>)

  ghost predicate StepsSound(p: Program) {
    && (p.status == Open ==> p.fields.Filled())
    && (p.step == Ready ==> p.status == Open && p.inputCursor == p.latestInput && p.pendingQuestion.None?)
    && (p.step == WaitingInput ==> p.pendingQuestion.Some?)
    && (p.pendingQuestion.Some? ==> !Blank(p.pendingQuestion.value))
  }

  ghost predicate NoNul(p: Program) {
    !p.fields.AnyNul() && !CarriesNul(p.workingNotes) && !CarriesNul(p.pendingQuestion)
  }

  ghost predicate RecordSound(r: Record) {
    && 1 <= r.program.revision <= I64_MAX
    && 0 <= r.program.inputCursor <= r.program.latestInput
    && Recorded(r.originals) && |r.originals| == r.program.latestInput
    && r.program.maxInputBytes == Largest(r.originals)
    && NoNul(r.program) && StepsSound(r.program)
  }

  lemma DraftSound(id: Uuid, workspaceId: Uuid, first: Original)
    requires first.sequence == 1 && first.encodedBytes >= 0 && ValidateInput(first.requestId, first.input).Ok?
    ensures RecordSound(Record(NewDraft(id, workspaceId, first.encodedBytes), [first]))
  {
    assert Largest([first]) == first.encodedBytes by {
      assert [first][..0] == [];
      assert Largest([]) == 0;
    }
  }

  lemma SavedSound(r: Record, change: SaveProgram)
    requires RecordSound(r) && Saved(r.program, change).Ok?
    ensures RecordSound(r.(program := Saved(r.program, change).value))
    ensures Saved(r.program, change).value.revision == r.program.revision + 1 == change.revision + 1
    ensures Saved(r.program, change).value.step == Ready <==> change.complete
    ensures r.program.status == Open ==> Saved(r.program, change).value.status == Open
  {
  }

  lemma NewInputSound(r: Record, another: Original)
    requires RecordSound(r) && WithNewInput(r.program, another.encodedBytes).Ok?
    requires Lookup(r.originals, another.requestId).None? && another.sequence == r.program.latestInput + 1
    requires ValidateInput(another.requestId, another.input).Ok?
    ensures RecordSound(Record(WithNewInput(r.program, another.encodedBytes).value, r.originals + [another]))
  {
    RecordAnother(r.originals, another);
  }

  lemma RefreshedSound(r: Record, request: RefreshKnowledge)
    requires RecordSound(r) && Refreshed(r.program, request).Ok?
    ensures RecordSound(r.(program := Refreshed(r.program, request).value))
    ensures Refreshed(r.program, request).value == r.program.(revision := request.revision + 1)
  {
  }

  // -- what the transitions change ------------------------------------------------------------

  /** The patched texts, the consumed cursor, the next revision and possibly the opening, and nothing else. */
  ghost predicate Rewritten(p: Program, change: SaveProgram, next: Program) {
    && next.id == p.id && next.workspaceId == p.workspaceId
    && PatchedField(p.fields.name, change.fields.name, next.fields.name)
    && PatchedField(p.fields.intent, change.fields.intent, next.fields.intent)
    && PatchedField(p.fields.basis, change.fields.basis, next.fields.basis)
    && PatchedField(p.fields.boundaries, change.fields.boundaries, next.fields.boundaries)
    && PatchedField(p.fields.constraints, change.fields.constraints, next.fields.constraints)
    && PatchedField(p.fields.success, change.fields.success, next.fields.success)
    && PatchedField(p.workingNotes, change.workingNotes, next.workingNotes)
    && PatchedQuestion(p.pendingQuestion, change.pendingQuestion, next.pendingQuestion)
    && p.inputCursor <= next.inputCursor == change.inputCursor <= next.latestInput == p.latestInput
    && next.maxInputBytes == p.maxInputBytes
    && p.revision == change.revision && next.revision == change.revision + 1
    && (next.status == Open <==> p.status == Open || change.complete)
    && (change.complete ==> next.step == Ready)
    && (!change.complete ==> next.step == if next.pendingQuestion.Some? then WaitingInput else Compose)
  }

  /** The saved program is fixed by the old one and the change. */
  lemma RewrittenFixed(p: Program, change: SaveProgram, a: Program, b: Program)
    requires Rewritten(p, change, a) && Rewritten(p, change, b)
    ensures a == b
  {
    QuestionFixed(p.pendingQuestion, change.pendingQuestion, a.pendingQuestion);
    QuestionFixed(p.pendingQuestion, change.pendingQuestion, b.pendingQuestion);
  }

  lemma SavedWrites(p: Program, change: SaveProgram)
    requires Saved(p, change).Ok?
    ensures Rewritten(p, change, Saved(p, change).value)
  {
    QuestionPatched(p.pendingQuestion, change.pendingQuestion);
  }

  /** Composition reopened by a message of this size: every text is kept, and an open program stays open. */
  ghost predicate Reopened(p: Program, next: Program, encodedBytes: int) {
    && next.id == p.id && next.workspaceId == p.workspaceId && next.status == p.status && next.step == Compose
    && next.fields == p.fields && next.workingNotes == p.workingNotes && next.pendingQuestion == p.pendingQuestion
    && next.inputCursor == p.inputCursor && next.latestInput == p.latestInput + 1 && next.revision == p.revision + 1
    && next.maxInputBytes >= p.maxInputBytes && next.maxInputBytes >= encodedBytes
    && (next.maxInputBytes == p.maxInputBytes || next.maxInputBytes == encodedBytes)
  }

  lemma NewInputWrites(p: Program, encodedBytes: int)
    requires WithNewInput(p, encodedBytes).Ok?
    ensures Reopened(p, WithNewInput(p, encodedBytes).value, encodedBytes)
  {
  }

  // -- exactly when they go through -----------------------------------------------------------

  ghost predicate WellFormed(change: SaveProgram) {
    change.programId != NIL && change.revision >= 1 && change.inputCursor >= 0
  }

  ghost predicate Consumes(p: Program, change: SaveProgram) {
    p.inputCursor <= change.inputCursor <= p.latestInput && (change.complete ==> change.inputCursor == p.latestInput)
  }

  /** What the six fields would be. */
  ghost function AskedFields(p: Program, change: SaveProgram): seq<Option<string>> {
    [Asked(p.fields.name, change.fields.name), Asked(p.fields.intent, change.fields.intent),
     Asked(p.fields.basis, change.fields.basis), Asked(p.fields.boundaries, change.fields.boundaries),
     Asked(p.fields.constraints, change.fields.constraints), Asked(p.fields.success, change.fields.success)]
  }

  ghost predicate PlainAfter(p: Program, change: SaveProgram) {
    && (forall i :: 0 <= i < 6 ==> NulFree(AskedFields(p, change)[i]))
    && NulFree(Asked(p.workingNotes, change.workingNotes))
    && NulFree(Asked(p.pendingQuestion, change.pendingQuestion))
  }

  /** An open program keeps its six fields filled; a complete one has them filled and asks nothing. */
  ghost predicate FilledAfter(p: Program, change: SaveProgram) {
    && (change.complete || p.status == Open ==> forall i :: 0 <= i < 6 ==> !Empty(AskedFields(p, change)[i]))
    && (change.complete ==> Empty(Asked(p.pendingQuestion, change.pendingQuestion)))
  }

  ghost predicate Savable(p: Program, change: SaveProgram) {
    && WellFormed(change) && change.programId == p.id && change.revision == p.revision
    && Consumes(p, change) && PlainAfter(p, change) && FilledAfter(p, change)
    && p.revision != 9_223_372_036_854_775_807
  }

  lemma PlainAfterMeaning(p: Program, change: SaveProgram)
    ensures PlainAfter(p, change) <==>
      var next := Patched(p, change);
      !next.fields.AnyNul() && !CarriesNul(next.workingNotes) && !CarriesNul(next.pendingQuestion)
  {
    var asked := AskedFields(p, change);
    assert (forall i :: 0 <= i < 6 ==> NulFree(asked[i])) <==>
      NulFree(asked[0]) && NulFree(asked[1]) && NulFree(asked[2]) && NulFree(asked[3]) && NulFree(asked[4]) && NulFree(asked[5]);
    QuestionNul(change.pendingQuestion.Apply(p.pendingQuestion));
  }

  lemma FilledAfterMeaning(p: Program, change: SaveProgram)
    ensures FilledAfter(p, change) <==>
      var next := Patched(p, change);
      !(((change.complete || p.status == Open) && !next.fields.Filled()) || (change.complete && next.pendingQuestion.Some?))
  {
    var asked := AskedFields(p, change);
    assert (forall i :: 0 <= i < 6 ==> !Empty(asked[i])) <==>
      !Empty(asked[0]) && !Empty(asked[1]) && !Empty(asked[2]) && !Empty(asked[3]) && !Empty(asked[4]) && !Empty(asked[5]);
    QuestionNul(change.pendingQuestion.Apply(p.pendingQuestion));
  }

  /** A save goes through exactly when it is savable; what is wrong first decides the error. */
  lemma SavedExactly(p: Program, change: SaveProgram)
    ensures Saved(p, change).Ok? <==> Savable(p, change)
    ensures Saved(p, change) == Err(NotFound) <==> WellFormed(change) && change.programId != p.id
    ensures var known := WellFormed(change) && change.programId == p.id;
      && (Saved(p, change) == Err(StaleRevision) <==> known && change.revision != p.revision)
      && (Saved(p, change) == Err(InputPending) <==> known && change.revision == p.revision && !Consumes(p, change))
      && (Saved(p, change) == Err(ProgramIncomplete) <==>
            known && change.revision == p.revision && Consumes(p, change) && PlainAfter(p, change) && !FilledAfter(p, change))
      && (Saved(p, change) == Err(InvalidArguments) <==>
            !WellFormed(change) || (known && change.revision == p.revision && Consumes(p, change) && !PlainAfter(p, change)))
  {
    NilExactly(change.programId);
    PlainAfterMeaning(p, change);
    FilledAfterMeaning(p, change);
  }

  lemma NewInputExactly(p: Program, encodedBytes: int)
    ensures WithNewInput(p, encodedBytes).Ok? <==>
      encodedBytes >= 0 && p.revision != 9_223_372_036_854_775_807 && p.latestInput != 9_223_372_036_854_775_807
    ensures WithNewInput(p, encodedBytes).Err? ==>
      WithNewInput(p, encodedBytes).error == if encodedBytes < 0 then InvalidArguments else StorageUnavailable
  {
  }

  ghost predicate Refreshable(p: Program, request: RefreshKnowledge) {
    && request.requestId != NIL && request.programId != NIL && request.programId == p.id
    && 1 <= request.revision == p.revision && 0 <= request.inputCursor == p.inputCursor
    && p.revision != 9_223_372_036_854_775_807
  }

  lemma RefreshedExactly(p: Program, request: RefreshKnowledge)
    ensures Refreshed(p, request).Ok? <==> Refreshable(p, request)
    ensures Refreshed(p, request) == Err(InvalidArguments) <==>
      request.programId == NIL || request.requestId == NIL || request.revision < 1 || request.inputCursor < 0
    ensures ValidateRefresh(request).Ok? ==> (Refreshed(p, request) == Err(NotFound) <==> request.programId != p.id)
    ensures ValidateRefresh(request).Ok? && request.programId == p.id ==>
      && (Refreshed(p, request) == Err(StaleRevision) <==> request.revision != p.revision)
      && (Refreshed(p, request) == Err(StaleContext) <==> request.revision == p.revision && request.inputCursor != p.inputCursor)
  {
    NilExactly(request.programId);
    NilExactly(request.requestId);
  }
}
