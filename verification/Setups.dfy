/** The setup record and its transitions, as the domain crate defines them on values. */
module Setups {
  import opened Wrappers
  import opened Text
  import opened Uuids
  import opened Originals

  datatype Status = Draft | Applied
  datatype Step = Compose | WaitingInput | ReadyToApply | Complete

  datatype Directory = Directory(path: string, device: int, inode: int)

  datatype Setup = Setup(
    id: Uuid, workspaceId: Uuid, hostId: Uuid, directory: Directory,
    status: Status, revision: int,
    content: Option<string>, workingNotes: Option<string>, pendingQuestion: Option<string>,
    step: Step, inputCursor: int, latestInput: int, maxInputBytes: int,
    appliedFrom: Option<int>, appliedSha256: Option<string>)

  datatype SaveSetup = SaveSetup(
    setupId: Uuid, revision: int, inputCursor: int, ready: bool,
    content: TextPatch, workingNotes: TextPatch, pendingQuestion: TextPatch)

  function NewDraft(id: Uuid, workspaceId: Uuid, hostId: Uuid, directory: Directory, maxInputBytes: int): Setup {
    Setup(id, workspaceId, hostId, directory, Draft, 1, None, None, None, Compose, 0, 1, maxInputBytes, None, None)
  }

  function ValidateSave(change: SaveSetup): (r: Result<()>)
    ensures r.Err? ==> r.error == InvalidArguments
  {
    if IsNil(change.setupId) || change.revision < 1 || change.inputCursor < 0 then Err(InvalidArguments) else Ok(())
  }

  function EditableRevision(s: Setup, revision: int): Result<()> {
    if s.status == Applied then Err(SetupAlreadyApplied)
    else if revision != s.revision then Err(StaleRevision)
    else Ok(())
  }

  function Patched(s: Setup, change: SaveSetup): Setup {
    s.(content := change.content.Apply(s.content),
       workingNotes := change.workingNotes.Apply(s.workingNotes),
       pendingQuestion := NormalizeQuestion(change.pendingQuestion.Apply(s.pendingQuestion)))
  }

  function Saved(s: Setup, change: SaveSetup): Result<Setup> {
    if ValidateSave(change).Err? then Err(InvalidArguments)
    else if change.setupId != s.id then Err(NotFound)
    else if EditableRevision(s, change.revision).Err? then Err(EditableRevision(s, change.revision).error)
    else if change.inputCursor < s.inputCursor || change.inputCursor > s.latestInput ||
            (change.ready && change.inputCursor != s.latestInput) then Err(InputPending)
    else
      var next := Patched(s, change);
      if CarriesNul(next.content) || CarriesNul(next.workingNotes) || CarriesNul(next.pendingQuestion)
      then Err(InvalidArguments)
      else if change.ready && (BlankOrAbsent(next.content) || next.pendingQuestion.Some?) then Err(SetupIncomplete)
      else
        match Increment(s.revision)
        case Err(e) => Err(e)
        case Ok(revision) =>
          Ok(next.(inputCursor := change.inputCursor, revision := revision,
                   step := if change.ready then ReadyToApply
                           else if next.pendingQuestion.Some? then WaitingInput
                           else Compose))
  }

  function WithNewInput(s: Setup, revision: int, encodedBytes: int): Result<Setup> {
    if revision < 1 || encodedBytes < 0 then Err(InvalidArguments)
    else if EditableRevision(s, revision).Err? then Err(EditableRevision(s, revision).error)
    else
      match (Increment(s.revision), Increment(s.latestInput))
      case (Ok(next), Ok(latest)) =>
        Ok(s.(revision := next, latestInput := latest, step := Compose,
              maxInputBytes := if s.maxInputBytes < encodedBytes then encodedBytes else s.maxInputBytes))
      case _ => Err(StorageUnavailable)
  }

  function ValidateApply(s: Setup, revision: int): Result<()> {
    if revision < 1 then Err(InvalidArguments)
    else if s.status == Applied then
      if s.appliedFrom == Some(revision) then Ok(()) else Err(StaleRevision)
    else if EditableRevision(s, revision).Err? then Err(EditableRevision(s, revision).error)
    else if s.inputCursor != s.latestInput then Err(InputPending)
    else if s.step != ReadyToApply || s.pendingQuestion.Some? || BlankOrAbsent(s.content) then Err(SetupIncomplete)
    else Ok(())
  }

  predicate IsSha256Text(text: string) {
    |text| == 64 && forall i :: 0 <= i < 64 ==> '0' <= text[i] <= '9' || 'a' <= text[i] <= 'f'
  }

  function MarkApplied(s: Setup, revision: int, sha256: string): Result<Setup> {
    if ValidateApply(s, revision).Err? then Err(ValidateApply(s, revision).error)
    else if s.status == Applied then Err(SetupAlreadyApplied)
    else if !IsSha256Text(sha256) then Err(InvalidArguments)
    else
      match Increment(s.revision)
      case Err(e) => Err(e)
      case Ok(next) =>
        Ok(s.(status := Applied, step := Complete, appliedFrom := Some(revision),
              appliedSha256 := Some(sha256), revision := next))
  }

  // -- what every reachable setup keeps -------------------------------------------------------

  ghost predicate TextsSound(s: Setup) {
    && !CarriesNul(s.content) && !CarriesNul(s.workingNotes) && !CarriesNul(s.pendingQuestion)
    && (s.pendingQuestion.Some? ==> !Blank(s.pendingQuestion.value))
  }

  /** All input consumed, content to write, nothing left to ask. */
  ghost predicate ReadyShape(s: Setup) {
    s.inputCursor == s.latestInput && !BlankOrAbsent(s.content) && s.pendingQuestion.None?
  }

  ghost predicate StepsSound(s: Setup) {
    && (s.step == WaitingInput ==> s.pendingQuestion.Some?)
    && (s.step == ReadyToApply || s.step == Complete ==> ReadyShape(s))
    && (s.status == Applied <==> s.step == Complete)
    && (s.status == Applied <==> s.appliedFrom.Some?)
    && (s.status == Applied <==> s.appliedSha256.Some?)
    && (s.status == Applied <==> s.appliedFrom.Some? && s.revision == s.appliedFrom.value + 1)
    && (s.appliedSha256.Some? ==> IsSha256Text(s.appliedSha256.value))
  }

  /** The setup row together with its stored messages. */
  datatype Record = Record(setup: Setup, originals: seq<Original>)

  ghost predicate RecordSound(r: Record) {
    && 1 <= r.setup.revision <= I64_MAX
    && 0 <= r.setup.inputCursor <= r.setup.latestInput
    && Recorded(r.originals) && |r.originals| == r.setup.latestInput
    && r.setup.maxInputBytes == Largest(r.originals)
    && TextsSound(r.setup) && StepsSound(r.setup)
  }

  lemma DraftSound(id: Uuid, workspaceId: Uuid, hostId: Uuid, directory: Directory, first: Original)
    requires first.sequence == 1 && first.encodedBytes >= 0 && ValidateInput(first.requestId, first.input).Ok?
    ensures RecordSound(Record(NewDraft(id, workspaceId, hostId, directory, first.encodedBytes), [first]))
    ensures Recorded([first])
  {
    assert Largest([first]) == first.encodedBytes by {
      assert [first][..0] == [];
      assert Largest([]) == 0;
    }
  }

  lemma SavedSound(r: Record, change: SaveSetup)
    requires RecordSound(r) && Saved(r.setup, change).Ok?
    ensures RecordSound(r.(setup := Saved(r.setup, change).value))
    ensures Saved(r.setup, change).value.revision == r.setup.revision + 1 == change.revision + 1
    ensures Saved(r.setup, change).value.step == ReadyToApply <==> change.ready
  {
  }

  lemma NewInputSound(r: Record, revision: int, another: Original)
    requires RecordSound(r) && WithNewInput(r.setup, revision, another.encodedBytes).Ok?
    requires Lookup(r.originals, another.requestId).None? && another.sequence == r.setup.latestInput + 1
    requires ValidateInput(another.requestId, another.input).Ok?
    ensures RecordSound(Record(WithNewInput(r.setup, revision, another.encodedBytes).value, r.originals + [another]))
    ensures WithNewInput(r.setup, revision, another.encodedBytes).value.revision == r.setup.revision + 1
  {
    RecordAnother(r.originals, another);
  }

  lemma AppliedSound(r: Record, revision: int, sha256: string)
    requires RecordSound(r) && MarkApplied(r.setup, revision, sha256).Ok?
    ensures RecordSound(r.(setup := MarkApplied(r.setup, revision, sha256).value))
    ensures r.setup.status == Draft && r.setup.step == ReadyToApply && r.setup.revision == revision
    ensures MarkApplied(r.setup, revision, sha256).value.content == r.setup.content
  {
  }

  // -- what the transitions change ------------------------------------------------------------

  /** Who a setup belongs to and what it has received never changes in a save. */
  ghost predicate SameIdentity(a: Setup, b: Setup) {
    a.id == b.id && a.workspaceId == b.workspaceId && a.hostId == b.hostId && a.directory == b.directory
  }

  /** The patched texts, the consumed cursor and the next revision, and nothing else. */
  ghost predicate Rewritten(s: Setup, change: SaveSetup, next: Setup) {
    && SameIdentity(next, s)
    && PatchedField(s.content, change.content, next.content)
    && PatchedField(s.workingNotes, change.workingNotes, next.workingNotes)
    && PatchedQuestion(s.pendingQuestion, change.pendingQuestion, next.pendingQuestion)
    && s.inputCursor <= next.inputCursor == change.inputCursor <= next.latestInput == s.latestInput
    && next.maxInputBytes == s.maxInputBytes
    && next.status == s.status == Draft && next.appliedFrom == s.appliedFrom && next.appliedSha256 == s.appliedSha256
    && s.revision == change.revision && next.revision == change.revision + 1
    && (change.ready ==> next.step == ReadyToApply)
    && (!change.ready ==> next.step == if next.pendingQuestion.Some? then WaitingInput else Compose)
  }

  /** The saved setup is fixed by the old one and the change. */
  lemma RewrittenFixed(s: Setup, change: SaveSetup, a: Setup, b: Setup)
    requires Rewritten(s, change, a) && Rewritten(s, change, b)
    ensures a == b
  {
    QuestionFixed(s.pendingQuestion, change.pendingQuestion, a.pendingQuestion);
    QuestionFixed(s.pendingQuestion, change.pendingQuestion, b.pendingQuestion);
  }

  lemma SavedWrites(s: Setup, change: SaveSetup)
    requires Saved(s, change).Ok?
    ensures Rewritten(s, change, Saved(s, change).value)
  {
    QuestionPatched(s.pendingQuestion, change.pendingQuestion);
  }

  /** Composition reopened by a message of this size: every text is kept, including an unanswered question. */
  ghost predicate Reopened(s: Setup, next: Setup, encodedBytes: int) {
    && SameIdentity(next, s) && next.status == s.status == Draft && next.step == Compose
    && next.content == s.content && next.workingNotes == s.workingNotes && next.pendingQuestion == s.pendingQuestion
    && next.inputCursor == s.inputCursor && next.latestInput == s.latestInput + 1 && next.revision == s.revision + 1
    && next.maxInputBytes >= s.maxInputBytes && next.maxInputBytes >= encodedBytes
    && (next.maxInputBytes == s.maxInputBytes || next.maxInputBytes == encodedBytes)
    && next.appliedFrom == s.appliedFrom && next.appliedSha256 == s.appliedSha256
  }

  lemma NewInputWrites(s: Setup, revision: int, encodedBytes: int)
    requires WithNewInput(s, revision, encodedBytes).Ok?
    ensures s.revision == revision && Reopened(s, WithNewInput(s, revision, encodedBytes).value, encodedBytes)
  {
  }

  // -- exactly when they go through -----------------------------------------------------------

  ghost predicate WellFormed(change: SaveSetup) {
    change.setupId != NIL && change.revision >= 1 && change.inputCursor >= 0
  }

  /** The cursor moves within the messages, over all of them if the setup is to be ready. */
  ghost predicate Consumes(s: Setup, change: SaveSetup) {
    s.inputCursor <= change.inputCursor <= s.latestInput && (change.ready ==> change.inputCursor == s.latestInput)
  }

  ghost predicate PlainAfter(s: Setup, change: SaveSetup) {
    && NulFree(Asked(s.content, change.content))
    && NulFree(Asked(s.workingNotes, change.workingNotes))
    && NulFree(Asked(s.pendingQuestion, change.pendingQuestion))
  }

  /** There would be content and no question. */
  ghost predicate FinishedAfter(s: Setup, change: SaveSetup) {
    !Empty(Asked(s.content, change.content)) && Empty(Asked(s.pendingQuestion, change.pendingQuestion))
  }

  ghost predicate Savable(s: Setup, change: SaveSetup) {
    && WellFormed(change) && change.setupId == s.id && s.status == Draft && change.revision == s.revision
    && Consumes(s, change) && PlainAfter(s, change) && (change.ready ==> FinishedAfter(s, change))
    && s.revision != 9_223_372_036_854_775_807
  }

  /** A save goes through exactly when it is savable; what is wrong first decides the error. */
  lemma SavedExactly(s: Setup, change: SaveSetup)
    ensures Saved(s, change).Ok? <==> Savable(s, change)
    ensures Saved(s, change) == Err(NotFound) <==> WellFormed(change) && change.setupId != s.id
    ensures Saved(s, change) == Err(SetupAlreadyApplied) <==> WellFormed(change) && change.setupId == s.id && s.status == Applied
    ensures var current := WellFormed(change) && change.setupId == s.id && s.status == Draft;
      && (Saved(s, change) == Err(StaleRevision) <==> current && change.revision != s.revision)
      && (Saved(s, change) == Err(InputPending) <==> current && change.revision == s.revision && !Consumes(s, change))
      && (Saved(s, change) == Err(SetupIncomplete) <==>
            current && change.revision == s.revision && Consumes(s, change) && PlainAfter(s, change) &&
            change.ready && !FinishedAfter(s, change))
      && (Saved(s, change) == Err(InvalidArguments) <==>
            !WellFormed(change) || (current && change.revision == s.revision && Consumes(s, change) && !PlainAfter(s, change)))
  {
    NilExactly(change.setupId);
    QuestionNul(change.pendingQuestion.Apply(s.pendingQuestion));
  }

  lemma NewInputExactly(s: Setup, revision: int, encodedBytes: int)
    ensures WithNewInput(s, revision, encodedBytes).Ok? <==>
      && revision >= 1 && encodedBytes >= 0 && s.status == Draft && revision == s.revision
      && s.revision != 9_223_372_036_854_775_807 && s.latestInput != 9_223_372_036_854_775_807
    ensures revision >= 1 && encodedBytes >= 0 ==>
      && (WithNewInput(s, revision, encodedBytes) == Err(SetupAlreadyApplied) <==> s.status == Applied)
      && (WithNewInput(s, revision, encodedBytes) == Err(StaleRevision) <==> s.status == Draft && revision != s.revision)
    ensures WithNewInput(s, revision, encodedBytes) == Err(InvalidArguments) <==> revision < 1 || encodedBytes < 0
    ensures revision >= 1 && encodedBytes >= 0 && s.status == Draft && revision == s.revision && WithNewInput(s, revision, encodedBytes).Err? ==>
      WithNewInput(s, revision, encodedBytes).error == StorageUnavailable
  {
  }

  /**
  Exactly the ready revision can be applied; an applied setup answers only for the revision it was
  applied from. Otherwise the error says what is missing.
  */
  lemma ApplyAdmits(r: Record, revision: int)
    requires RecordSound(r)
    ensures ValidateApply(r.setup, revision).Ok? <==>
      (if r.setup.status == Applied then revision == r.setup.revision - 1 && revision >= 1
       else revision == r.setup.revision && r.setup.step == ReadyToApply)
    ensures ValidateApply(r.setup, revision) == Err(InvalidArguments) <==> revision < 1
    ensures ValidateApply(r.setup, revision) == Err(StaleRevision) <==>
      revision >= 1 && revision != if r.setup.status == Applied then r.setup.revision - 1 else r.setup.revision
    ensures r.setup.status == Draft && revision == r.setup.revision ==>
      && (ValidateApply(r.setup, revision) == Err(InputPending) <==> r.setup.inputCursor != r.setup.latestInput)
      && (ValidateApply(r.setup, revision) == Err(SetupIncomplete) <==>
            r.setup.inputCursor == r.setup.latestInput && r.setup.step != ReadyToApply)
  {
  }

  /** A digest text is 64 lower-case hexadecimal digits. */
  lemma Sha256TextExactly(text: string)
    ensures IsSha256Text(text) <==> |text| == 64 && forall i :: 0 <= i < |text| ==> text[i] in "0123456789abcdef"
  {
    assert forall c: char :: c in "0123456789abcdef" <==> '0' <= c <= '9' || 'a' <= c <= 'f';
  }

  /** Applying goes through exactly from the ready revision with a digest, and writes five fields only. */
  lemma AppliedExactly(r: Record, revision: int, sha256: string)
    requires RecordSound(r)
    ensures MarkApplied(r.setup, revision, sha256).Ok? <==>
      && r.setup.status == Draft && r.setup.step == ReadyToApply && revision == r.setup.revision
      && IsSha256Text(sha256) && r.setup.revision != 9_223_372_036_854_775_807
    ensures ValidateApply(r.setup, revision).Ok? && MarkApplied(r.setup, revision, sha256).Err? ==>
      MarkApplied(r.setup, revision, sha256).error ==
        if r.setup.status == Applied then SetupAlreadyApplied else if !IsSha256Text(sha256) then InvalidArguments else StorageUnavailable
    ensures MarkApplied(r.setup, revision, sha256).Ok? ==>
      var next := MarkApplied(r.setup, revision, sha256).value;
      && next.status == Applied && next.step == Complete && next.appliedFrom == Some(revision)
      && next.appliedSha256 == Some(sha256) && next.revision == revision + 1
      && r.setup == next.(status := Draft, step := ReadyToApply, appliedFrom := None, appliedSha256 := None, revision := revision)
  {
  }
}
