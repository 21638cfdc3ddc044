/** What each service call on setups means for its caller, over every reachable world. */
module SetupCalls {
  import opened Wrappers
  import opened Bytes
  import opened Text
  import opened Uuids
  import opened Originals
  import opened Setups
  import opened SetupProtocol
  import opened SetupRuns
  import opened SetupRetry

  /** The caller may act, and is bound to the directory of this row. */
  ghost predicate Bound(w: World, c: Caller, id: Uuid) {
    && c.denied.None? && id != NIL && id in w.rows
    && w.rows[id].setup.workspaceId == c.workspace && w.rows[id].setup.hostId == c.host && w.rows[id].setup.directory == c.binding
  }

  lemma BoundExactly(w: World, c: Caller, id: Uuid)
    ensures BoundRow(w, c, id).Ok? <==> Bound(w, c, id)
    ensures Bound(w, c, id) ==> BoundRow(w, c, id).value == w.rows[id]
    ensures c.denied.None? && !Bound(w, c, id) ==> BoundRow(w, c, id) == Err(if id == NIL then InvalidArguments else NotFound)
  {
    NilExactly(id);
  }

  ghost predicate Utterable(requestId: Uuid, input: string) {
    requestId != NIL && Trim(input) != "" && '\0' !in input
  }

  // -- beginning ------------------------------------------------------------------------------

  /** Revision 1 of a setup: empty, for the caller's place, with one message not yet consumed. */
  ghost predicate FirstDraft(s: Setup, c: Caller, id: Uuid, encodedBytes: int) {
    && s.id == id && s.workspaceId == c.workspace && s.hostId == c.host && s.directory == c.binding
    && s.status == Draft && s.revision == 1 && s.step == Compose
    && s.content.None? && s.workingNotes.None? && s.pendingQuestion.None?
    && s.inputCursor == 0 && s.latestInput == 1 && s.maxInputBytes == encodedBytes
    && s.appliedFrom.None? && s.appliedSha256.None?
  }

  /** The directory had no row and no file; now it has a draft that begins with this message. */
  ghost predicate Began(w: World, v: World, c: Caller, requestId: Uuid, input: string, id: Uuid, setup: Setup) {
    && id !in w.rows && c.binding !in w.files
    && id in v.rows && v.rows == w.rows[id := v.rows[id]]
    && v.places == w.places[Place(c.workspace, c.host, c.binding.path) := id]
    && v.files == w.files && v.inFlight == w.inFlight
    && v.rows[id].setup == setup
    && |v.rows[id].originals| == 1 && FirstDraft(setup, c, id, v.rows[id].originals[0].encodedBytes)
    && v.rows[id].originals[0].requestId == requestId && v.rows[id].originals[0].input == input
  }

  /** The directory has a row already, and this was its first message. */
  ghost predicate BeganBefore(w: World, v: World, c: Caller, requestId: Uuid, input: string, setup: Setup) {
    && v == w
    && var place := Place(c.workspace, c.host, c.binding.path);
       && place in w.places && w.places[place] in w.rows
       && var r := w.rows[w.places[place]];
          && setup == r.setup && setup.directory == c.binding
          && r.originals != [] && r.originals[0].requestId == requestId && r.originals[0].input == input
  }

  /** A begin that succeeds created a draft or repeated the first message; one that fails changed nothing. */
  lemma BeginMeans(port: Port, w: World, c: Caller, requestId: Uuid, input: string, id: Uuid, inspectFails: bool)
    requires Inv(port, w)
    ensures var (v, r) := BeginSetup(port, w, c, requestId, input, id, inspectFails);
            if r.Err? then v == w
            else if Place(c.workspace, c.host, c.binding.path) in w.places then BeganBefore(w, v, c, requestId, input, r.value)
            else Began(w, v, c, requestId, input, id, r.value)
  {
    var place := Place(c.workspace, c.host, c.binding.path);
    if place in w.places {
      assert PlaceSound(w, place);
      assert RowSound(port, w, w.places[place]);
      BeginReplay(port, w, c, requestId, input, id, inspectFails);
    }
  }

  /** This message, under this request, created the row, and the guard lets the answer out. */
  ghost predicate ExactRetry(port: Port, r: Record, c: Caller, requestId: Uuid, input: string) {
    && r.setup.directory == c.binding
    && r.originals != [] && r.originals[0].requestId == requestId && r.originals[0].input == input
    && port.check(r.setup).None?
  }

  /** Nothing is in the way of a new row. */
  ghost predicate Beginnable(port: Port, w: World, c: Caller, input: string, id: Uuid, inspectFails: bool) {
    && !inspectFails && c.binding !in w.files && id != NIL && id !in w.rows
    && port.inputBytes(input).Ok? && port.inputBytes(input).value >= 0
    && exists s :: FirstDraft(s, c, id, port.inputBytes(input).value) && port.check(s).None?
  }

  lemma FirstRequest(originals: seq<Original>, requestId: Uuid)
    requires Recorded(originals)
    ensures var found := Lookup(originals, requestId);
            found.Some? && found.value.sequence == 1 <==> originals != [] && originals[0].requestId == requestId
    ensures originals != [] && originals[0].requestId == requestId ==> Lookup(originals, requestId) == Some(originals[0])
  {
    if originals != [] && originals[0].requestId == requestId {
      LookupFinds(originals, 0);
    }
    var found := Lookup(originals, requestId);
    if found.Some? {
      var j :| 0 <= j < |originals| && originals[j] == found.value;
    }
  }

  lemma BeginAgainExactly(port: Port, r: Record, c: Caller, requestId: Uuid, input: string)
    requires RecordSound(r)
    ensures BeginAgain(port, r, c, requestId, input).Ok? <==> ExactRetry(port, r, c, requestId, input)
    ensures r.setup.directory != c.binding ==> BeginAgain(port, r, c, requestId, input) == Err(TaskDirectoryMismatch)
    ensures r.setup.directory == c.binding && (forall i :: 0 <= i < |r.originals| ==> r.originals[i].requestId != requestId) ==>
      BeginAgain(port, r, c, requestId, input) == Err(SetupExists)
    ensures forall i :: 0 < i < |r.originals| && r.originals[i].requestId == requestId && r.setup.directory == c.binding ==>
      BeginAgain(port, r, c, requestId, input) == Err(InputConflict)
  {
    FirstRequest(r.originals, requestId);
    forall i | 0 < i < |r.originals| && r.originals[i].requestId == requestId
      ensures Lookup(r.originals, requestId) == Some(r.originals[i]) && r.originals[i].sequence != 1
    {
      LookupFinds(r.originals, i);
    }
  }

  ghost predicate BeginGoesThrough(port: Port, w: World, c: Caller, requestId: Uuid, input: string, id: Uuid, inspectFails: bool) {
    && c.denied.None? && Utterable(requestId, input)
    && var place := Place(c.workspace, c.host, c.binding.path);
       if place in w.places then w.places[place] in w.rows && ExactRetry(port, w.rows[w.places[place]], c, requestId, input)
       else Beginnable(port, w, c, input, id, inspectFails)
  }

  /** A begin succeeds exactly as a retry of the first message, or with nothing in the way of a new row. */
  lemma BeginExactly(port: Port, w: World, c: Caller, requestId: Uuid, input: string, id: Uuid, inspectFails: bool)
    requires Inv(port, w)
    ensures var place, r := Place(c.workspace, c.host, c.binding.path), BeginSetup(port, w, c, requestId, input, id, inspectFails).1;
            && (r.Ok? <==> BeginGoesThrough(port, w, c, requestId, input, id, inspectFails))
            && (place !in w.places && c.denied.None? && Utterable(requestId, input) && !inspectFails && c.binding in w.files ==>
                  r == Err(SetupFileConflict))
  {
    var place := Place(c.workspace, c.host, c.binding.path);
    InputExactly(requestId, input);
    NilExactly(id);
    if place in w.places {
      assert PlaceSound(w, place);
      SoundParts(port, w, w.places[place]);
      BeginAgainExactly(port, w.rows[w.places[place]], c, requestId, input);
    } else if port.inputBytes(input).Ok? {
      assert FirstDraft(NewDraft(id, c.workspace, c.host, c.binding, port.inputBytes(input).value), c, id, port.inputBytes(input).value);
    }
  }

  // -- saving ---------------------------------------------------------------------------------

  /** One row has the rewritten setup and its old messages; nothing else changed. */
  ghost predicate SavedOver(w: World, v: World, change: SaveSetup, next: Setup) {
    var id := change.setupId;
    && id in w.rows && v == w.(rows := w.rows[id := w.rows[id].(setup := next)])
    && Rewritten(w.rows[id].setup, change, next)
  }

  lemma SaveMeans(port: Port, w: World, c: Caller, change: SaveSetup)
    ensures var (v, r) := SaveCall(port, w, c, change);
            if r.Err? then v == w else SavedOver(w, v, change, r.value)
  {
    var row := BoundRow(w, c, change.setupId);
    if row.Ok? && Saved(row.value.setup, change).Ok? {
      SavedWrites(row.value.setup, change);
    }
  }

  /** A save succeeds exactly when the caller is bound, the row is savable and the guard lets the result out. */
  ghost predicate SaveGoesThrough(port: Port, w: World, c: Caller, change: SaveSetup) {
    && Bound(w, c, change.setupId) && Savable(w.rows[change.setupId].setup, change)
    && exists next :: Rewritten(w.rows[change.setupId].setup, change, next) && port.check(next).None?
  }

  lemma SaveExactly(port: Port, w: World, c: Caller, change: SaveSetup)
    ensures SaveCall(port, w, c, change).1.Ok? <==> SaveGoesThrough(port, w, c, change)
  {
    BoundExactly(w, c, change.setupId);
    if Bound(w, c, change.setupId) {
      var s := w.rows[change.setupId].setup;
      SavedExactly(s, change);
      if Saved(s, change).Ok? {
        SavedWrites(s, change);
        forall next | Rewritten(s, change, next) ensures next == Saved(s, change).value {
          RewrittenFixed(s, change, next, Saved(s, change).value);
        }
      }
    }
  }

  // -- messages -------------------------------------------------------------------------------

  /** The message is on record under its request. */
  ghost predicate Heard(r: Record, requestId: Uuid, input: string) {
    var found := Lookup(r.originals, requestId);
    found.Some? && found.value.input == input
  }

  /** One row has one message more and is open for composition again; nothing else changed. */
  ghost predicate Appended(w: World, v: World, id: Uuid, revision: int, requestId: Uuid, input: string, next: Setup) {
    && id in w.rows && Lookup(w.rows[id].originals, requestId).None?
    && id in v.rows && v == w.(rows := w.rows[id := v.rows[id]])
    && v.rows[id].setup == next
    && var n := |w.rows[id].originals|;
       && |v.rows[id].originals| == n + 1 && v.rows[id].originals[..n] == w.rows[id].originals
       && var last := v.rows[id].originals[n];
          && last == Original(n + 1, requestId, input, last.encodedBytes)
          && w.rows[id].setup.revision == revision && Reopened(w.rows[id].setup, next, last.encodedBytes)
  }

  /** A message that succeeds is on record afterwards: it was already, or the row grew by it. */
  lemma InputMeans(port: Port, w: World, c: Caller, id: Uuid, revision: int, requestId: Uuid, input: string)
    requires Inv(port, w)
    ensures var (v, r) := InputCall(port, w, c, id, revision, requestId, input);
            if r.Err? then v == w
            else
              && id in w.rows && id in v.rows && v.rows[id].setup == r.value && Heard(v.rows[id], requestId, input)
              && if Lookup(w.rows[id].originals, requestId).Some? then v == w
                 else Appended(w, v, id, revision, requestId, input, r.value)
  {
    var row := BoundRow(w, c, id);
    if row.Ok? && InputCall(port, w, c, id, revision, requestId, input).1.Ok? {
      SoundParts(port, w, id);
      if Lookup(row.value.originals, requestId).Some? {
        assert w.rows[id := row.value] == w.rows;
      } else {
        NewInputWrites(row.value.setup, revision, port.inputBytes(input).value);
      }
    }
  }

  /** A new message can be taken at this revision, and the guard lets the result out. */
  ghost predicate Recordable(port: Port, s: Setup, revision: int, input: string) {
    && port.inputBytes(input).Ok? && port.inputBytes(input).value >= 0
    && s.status == Draft && 1 <= revision == s.revision
    && s.revision != 9_223_372_036_854_775_807 && s.latestInput != 9_223_372_036_854_775_807
    && exists next :: Reopened(s, next, port.inputBytes(input).value) && port.check(next).None?
  }

  /** A message succeeds exactly as a repetition of a recorded one, or as a new one that can be taken. */
  ghost predicate InputGoesThrough(port: Port, w: World, c: Caller, id: Uuid, revision: int, requestId: Uuid, input: string) {
    && Utterable(requestId, input) && revision >= 1 && Bound(w, c, id)
    && var r := w.rows[id];
       if Lookup(r.originals, requestId).Some? then Heard(r, requestId, input) && port.check(r.setup).None?
       else Recordable(port, r.setup, revision, input)
  }

  lemma InputCallExactly(port: Port, w: World, c: Caller, id: Uuid, revision: int, requestId: Uuid, input: string)
    ensures InputCall(port, w, c, id, revision, requestId, input).1.Ok? <==>
      InputGoesThrough(port, w, c, id, revision, requestId, input)
  {
    InputExactly(requestId, input);
    BoundExactly(w, c, id);
    if Bound(w, c, id) && port.inputBytes(input).Ok? {
      var s, bytes := w.rows[id].setup, port.inputBytes(input).value;
      NewInputExactly(s, revision, bytes);
      if WithNewInput(s, revision, bytes).Ok? {
        NewInputWrites(s, revision, bytes);
        assert forall next :: Reopened(s, next, bytes) ==> next == WithNewInput(s, revision, bytes).value;
      }
    }
  }

  // -- applying -------------------------------------------------------------------------------

  /** The whole call: publication, then commit if the database takes the update, abandonment if not. */
  function ApplyCall(port: Port, w: World, c: Caller, id: Uuid, revision: int, fault: Fault, commits: bool): (World, Result<Setup>) {
    match ApplyStart(port, w, c, id, revision, fault)
    case (v, Answered(r)) => (v, r)
    case (v, Pending(_)) =>
      if commits && id in v.inFlight then (ApplyCommit(v, id), Ok(v.inFlight[id]))
      else (ApplyAbandon(v, id), Err(StorageUnavailable))
  }

  /** The row is applied from this revision, with its own content, and the file with that content is in place. */
  ghost predicate AppliedNow(port: Port, w: World, v: World, id: Uuid, revision: int, next: Setup) {
    && id in w.rows && v.rows == w.rows[id := w.rows[id].(setup := next)]
    && next.status == Applied && next.appliedFrom == Some(revision) && next.revision == revision + 1
    && next.content == w.rows[id].setup.content && next.directory == w.rows[id].setup.directory
    && InPlace(port, v, next)
  }

  /** Whatever happens, files that were there stay as they were, and other rows too. */
  ghost predicate ApplyFrame(w: World, v: World, id: Uuid) {
    && FilesKept(w, v) && v.places == w.places && v.inFlight == w.inFlight
    && (id in w.rows && w.rows[id].setup.status == Applied ==> v == w)
  }

  lemma AppliedReplay(port: Port, w: World, c: Caller, id: Uuid, revision: int, fault: Fault)
    requires Inv(port, w) && id in w.rows && w.rows[id].setup.status == Applied
    ensures var (v, outcome) := ApplyStart(port, w, c, id, revision, fault);
            && v == w && outcome.Answered?
            && (outcome.result.Ok? ==> AppliedNow(port, w, v, id, revision, outcome.result.value))
  {
    AppliedNeverRecreates(port, w, c, id, revision, fault);
    assert RowSound(port, w, id);
    assert w.rows[id := w.rows[id]] == w.rows;
  }

  /** Publication of a draft: nothing but a missing file is written, and a pending update is its application. */
  lemma PublicationMeans(port: Port, w: World, id: Uuid, s: Setup, revision: int, fault: Fault)
    requires id !in w.inFlight && s.content.Some? && s.status == Draft
    ensures var (v, outcome) := PublishRow(port, w, id, s, revision, port.utf8(s.content.value), fault);
            && FilesKept(w, v) && v.places == w.places && v.rows == w.rows
            && (outcome.Answered? ==> outcome.result.Err? && v.inFlight == w.inFlight)
            && (outcome.Pending? ==>
                  && id in v.inFlight && v.inFlight - {id} == w.inFlight && InPlace(port, v, s)
                  && MarkApplied(s, revision, port.sha256(port.utf8(s.content.value))) == Ok(v.inFlight[id]))
  {
    PublishFileKeeps(port, w.files, s.directory, port.utf8(s.content.value), fault);
  }

  /** A draft is refused with nothing changed, or goes to publication. */
  lemma DraftStarts(port: Port, w: World, c: Caller, id: Uuid, revision: int, fault: Fault)
    requires id in w.rows ==> w.rows[id].setup.status == Draft
    ensures var (v, outcome) := ApplyStart(port, w, c, id, revision, fault);
            || (v == w && outcome.Answered? && outcome.result.Err?)
            || (&& id in w.rows && w.rows[id].setup.content.Some?
                && (v, outcome) == PublishRow(port, w, id, w.rows[id].setup, revision, port.utf8(w.rows[id].setup.content.value), fault))
  {
  }

  /** Settling a pending application. */
  lemma SettlementMeans(port: Port, w: World, v: World, id: Uuid, revision: int, sha256: string)
    requires FilesKept(w, v) && v.places == w.places && v.rows == w.rows && id in w.rows && w.rows[id].setup.status == Draft
    requires id in v.inFlight && v.inFlight - {id} == w.inFlight && InPlace(port, v, w.rows[id].setup)
    requires MarkApplied(w.rows[id].setup, revision, sha256) == Ok(v.inFlight[id])
    ensures ApplyFrame(w, ApplyCommit(v, id), id) && AppliedNow(port, w, ApplyCommit(v, id), id, revision, v.inFlight[id])
    ensures ApplyFrame(w, ApplyAbandon(v, id), id) && ApplyAbandon(v, id).rows == w.rows
  {
  }

  lemma DraftMeans(port: Port, w: World, c: Caller, id: Uuid, revision: int, fault: Fault, commits: bool)
    requires id !in w.inFlight && id in w.rows && w.rows[id].setup.status == Draft
    ensures var (v, r) := ApplyCall(port, w, c, id, revision, fault, commits);
            && ApplyFrame(w, v, id)
            && if r.Err? then v.rows == w.rows else AppliedNow(port, w, v, id, revision, r.value)
  {
    DraftStarts(port, w, c, id, revision, fault);
    var s := w.rows[id].setup;
    var (v, outcome) := ApplyStart(port, w, c, id, revision, fault);
    if s.content.Some? {
      PublicationMeans(port, w, id, s, revision, fault);
      if outcome.Pending? {
        SettlementMeans(port, w, v, id, revision, port.sha256(port.utf8(s.content.value)));
      }
    }
  }

  /** A successful application is complete and on disk; a failed one leaves every row and every existing file alone. */
  lemma ApplyMeans(port: Port, w: World, c: Caller, id: Uuid, revision: int, fault: Fault, commits: bool)
    requires Inv(port, w) && id !in w.inFlight
    ensures var (v, r) := ApplyCall(port, w, c, id, revision, fault, commits);
            && ApplyFrame(w, v, id)
            && if r.Err? then v.rows == w.rows else AppliedNow(port, w, v, id, revision, r.value)
  {
    if id !in w.rows {
      DraftStarts(port, w, c, id, revision, fault);
    } else if w.rows[id].setup.status == Applied {
      AppliedReplay(port, w, c, id, revision, fault);
    } else {
      DraftMeans(port, w, c, id, revision, fault, commits);
    }
  }

  /** Without faults, an application goes through exactly in these cases. */
  ghost predicate Appliable(port: Port, w: World, s: Setup, revision: int) {
    && port.check(s).None? && revision >= 1
    && if s.status == Applied then revision == s.revision - 1 && InPlace(port, w, s)
       else
         && s.step == ReadyToApply && revision == s.revision && s.revision != 9_223_372_036_854_775_807
         && (s.directory !in w.files || InPlace(port, w, s))
  }

  lemma AppliedReplayExactly(port: Port, w: World, c: Caller, id: Uuid, revision: int)
    requires Inv(port, w) && Bound(w, c, id) && w.rows[id].setup.status == Applied
    ensures ApplyCall(port, w, c, id, revision, NoFault, true).1.Ok? <==> Appliable(port, w, w.rows[id].setup, revision)
  {
    BoundExactly(w, c, id);
    assert RowSound(port, w, id);
    ApplyAdmits(w.rows[id], revision);
  }

  lemma DraftApplyExactly(port: Port, w: World, c: Caller, id: Uuid, revision: int)
    requires Inv(port, w) && Bound(w, c, id) && id !in w.inFlight && w.rows[id].setup.status == Draft && PrintsSha256(port)
    ensures ApplyCall(port, w, c, id, revision, NoFault, true).1.Ok? <==> Appliable(port, w, w.rows[id].setup, revision)
    ensures Applicable(port, w, c, id, revision) && w.rows[id].setup.directory in w.files && !InPlace(port, w, w.rows[id].setup) ==>
      ApplyCall(port, w, c, id, revision, NoFault, true).1 == Err(SetupFileConflict)
  {
    BoundExactly(w, c, id);
    SoundParts(port, w, id);
    ApplyAdmits(w.rows[id], revision);
    if Applicable(port, w, c, id, revision) {
      ApplyDecides(port, w, c, id, revision);
    }
  }

  /** An undisturbed application succeeds exactly when it is appliable; a replay needs the file in place. */
  lemma ApplyExactly(port: Port, w: World, c: Caller, id: Uuid, revision: int)
    requires Inv(port, w) && id !in w.inFlight && PrintsSha256(port)
    ensures ApplyCall(port, w, c, id, revision, NoFault, true).1.Ok? <==>
      Bound(w, c, id) && Appliable(port, w, w.rows[id].setup, revision)
  {
    BoundExactly(w, c, id);
    if Bound(w, c, id) {
      if w.rows[id].setup.status == Applied {
        AppliedReplayExactly(port, w, c, id, revision);
      } else {
        DraftApplyExactly(port, w, c, id, revision);
      }
    }
  }
}
