/** What every run of the setup world keeps, and what that says about files and applied rows. */
module SetupRuns {
  import opened Wrappers
  import opened Bytes
  import opened Uuids
  import opened Originals
  import opened Setups
  import opened SetupProtocol

  // -- every step keeps the invariant ---------------------------------------------------------

  /** A vouched content stays vouched while the history only grows. */
  lemma VouchedGrows(port: Port, w: World, v: World, s: Setup)
    requires Vouched(port, w, s) && w.witnessed <= v.witnessed
    ensures Vouched(port, v, s)
  {
    var bytes :| (s.directory, bytes) in w.witnessed && SameBytes(port, bytes, port.utf8(s.content.value));
    assert (s.directory, bytes) in v.witnessed;
  }

  lemma RowFrame(port: Port, w: World, v: World, id: Uuid)
    requires id in w.rows && RowSound(port, w, id) && id in v.rows && v.rows[id] == w.rows[id]
    requires w.witnessed <= v.witnessed
    requires forall place :: place in w.places && w.places[place] == id ==> place in v.places && v.places[place] == id
    ensures RowSound(port, v, id)
  {
    if w.rows[id].setup.status == Applied { VouchedGrows(port, w, v, w.rows[id].setup); }
  }

  lemma FlightFrame(port: Port, w: World, v: World, id: Uuid)
    requires id in w.inFlight && FlightSound(port, w, id) && id in v.inFlight && v.inFlight[id] == w.inFlight[id]
    requires id in v.rows && v.rows[id].setup == w.rows[id].setup && w.witnessed <= v.witnessed
    ensures FlightSound(port, v, id)
  {
    VouchedGrows(port, w, v, w.rows[id].setup);
  }

  /** What a step on row `id` leaves alone. */
  ghost predicate Untouched(w: World, v: World, id: Uuid) {
    && w.witnessed <= v.witnessed
    && (forall i :: i in v.rows && i != id ==> i in w.rows && v.rows[i] == w.rows[i])
    && (forall i :: i in w.rows ==> i in v.rows)
    && (forall i :: i in v.inFlight && i != id ==> i in w.inFlight && v.inFlight[i] == w.inFlight[i])
    && (forall place :: place in w.places ==> place in v.places && v.places[place] == w.places[place])
  }

  lemma OtherRows(port: Port, w: World, v: World, id: Uuid, i: Uuid)
    requires Inv(port, w) && Untouched(w, v, id) && i in v.rows && i != id
    ensures RowSound(port, v, i)
  {
    assert RowSound(port, w, i);
    RowFrame(port, w, v, i);
  }

  lemma OtherFlights(port: Port, w: World, v: World, id: Uuid, i: Uuid)
    requires Inv(port, w) && Untouched(w, v, id) && i in v.inFlight && i != id
    ensures FlightSound(port, v, i)
  {
    assert FlightSound(port, w, i);
    FlightFrame(port, w, v, i);
  }

  lemma OtherPlaces(port: Port, w: World, v: World, id: Uuid, place: Place)
    requires Inv(port, w) && Untouched(w, v, id) && place in w.places
    requires id in w.rows && id in v.rows ==> PlaceOf(v.rows[id].setup) == PlaceOf(w.rows[id].setup)
    ensures PlaceSound(v, place)
  {
    assert PlaceSound(w, place);
  }

  /** All but one row, place and flight are untouched, and the exceptional ones are sound. */
  lemma Frame(port: Port, w: World, v: World, id: Uuid)
    requires Inv(port, w) && Untouched(w, v, id)
    requires id in v.rows && RowSound(port, v, id)
    requires id in v.inFlight ==> FlightSound(port, v, id)
    requires forall place :: place in v.places && place !in w.places ==> place == PlaceOf(v.rows[id].setup)
    requires id in w.rows ==> PlaceOf(v.rows[id].setup) == PlaceOf(w.rows[id].setup)
    ensures Inv(port, v)
  {
    forall i | i in v.rows ensures RowSound(port, v, i) {
      if i != id { OtherRows(port, w, v, id, i); }
    }
    forall place | place in v.places ensures PlaceSound(v, place) {
      if place in w.places { OtherPlaces(port, w, v, id, place); }
    }
    forall i | i in v.inFlight ensures FlightSound(port, v, i) {
      if i != id { OtherFlights(port, w, v, id, i); }
    }
  }

  lemma ReplaceRow(port: Port, w: World, id: Uuid, r: Record)
    requires Inv(port, w) && id in w.rows && id !in w.inFlight
    requires RecordSound(r) && r.setup.id == id && PlaceOf(r.setup) == PlaceOf(w.rows[id].setup)
    requires r.setup.status == Applied ==>
      Vouched(port, w, r.setup) && r.setup.appliedSha256 == Some(port.sha256(port.utf8(r.setup.content.value)))
    ensures Inv(port, w.(rows := w.rows[id := r]))
  {
    var v := w.(rows := w.rows[id := r]);
    assert RowSound(port, w, id);
    if r.setup.status == Applied { VouchedGrows(port, w, v, r.setup); }
    assert RowSound(port, v, id);
    Frame(port, w, v, id);
  }

  /** Files, history and finished flights do not bear on the soundness of rows. */
  lemma OtherParts(port: Port, w: World, v: World)
    requires Inv(port, w) && v.rows == w.rows && v.places == w.places && w.witnessed <= v.witnessed
    requires forall id :: id in v.inFlight ==> id in w.inFlight && v.inFlight[id] == w.inFlight[id]
    ensures Inv(port, v)
  {
    forall id | id in v.rows ensures RowSound(port, v, id) {
      assert RowSound(port, w, id);
      RowFrame(port, w, v, id);
    }
    forall place | place in v.places ensures PlaceSound(v, place) {
      assert PlaceSound(w, place);
    }
    forall id | id in v.inFlight ensures FlightSound(port, v, id) {
      assert FlightSound(port, w, id);
      FlightFrame(port, w, v, id);
    }
  }

  /** A stored record keeps identity, place and directory, and an applied one is left as it was. */
  ghost predicate Successor(r: Record, after: Record) {
    && RecordSound(after)
    && after.setup.id == r.setup.id && after.setup.directory == r.setup.directory
    && after.setup.workspaceId == r.setup.workspaceId && after.setup.hostId == r.setup.hostId
    && (r.setup.status == Applied ==> after == r)
    && (r.setup.status == Draft ==> after.setup.status == Draft)
    && r.originals <= after.originals
    && r.setup.revision <= after.setup.revision
    && (after != r ==> after.setup.revision == r.setup.revision + 1)
  }

  lemma StoredKeeps(port: Port, w: World, id: Uuid, after: Result<Record>)
    requires Inv(port, w) && id in w.rows && id !in w.inFlight
    requires after.Ok? ==> Successor(w.rows[id], after.value)
    ensures Inv(port, Stored(w, id, after).0)
  {
    if after.Ok? {
      assert RowSound(port, w, id);
      ReplaceRow(port, w, id, after.value);
    }
  }

  lemma SaveRowSucceeds(port: Port, r: Record, change: SaveSetup)
    requires RecordSound(r) && SaveRow(port, r, change).Ok?
    ensures Successor(r, SaveRow(port, r, change).value)
    ensures change.revision == r.setup.revision && SaveRow(port, r, change).value.setup.revision == r.setup.revision + 1
  {
    SavedSound(r, change);
  }

  lemma SaveKeeps(port: Port, w: World, c: Caller, change: SaveSetup)
    requires Inv(port, w) && change.setupId !in w.inFlight
    ensures Inv(port, SaveCall(port, w, c, change).0)
  {
    var row := BoundRow(w, c, change.setupId);
    if row.Ok? {
      assert RowSound(port, w, change.setupId);
      if SaveRow(port, row.value, change).Ok? { SaveRowSucceeds(port, row.value, change); }
      StoredKeeps(port, w, change.setupId, SaveRow(port, row.value, change));
    }
  }

  lemma InputKeeps(port: Port, w: World, c: Caller, id: Uuid, revision: int, requestId: Uuid, input: string)
    requires Inv(port, w) && id !in w.inFlight
    ensures Inv(port, InputCall(port, w, c, id, revision, requestId, input).0)
  {
    var row := BoundRow(w, c, id);
    if row.Ok? && ValidateInput(requestId, input).Ok? {
      assert RowSound(port, w, id);
      InputRowSucceeds(port, row.value, revision, requestId, input);
      StoredKeeps(port, w, id, InputRow(port, row.value, revision, requestId, input));
    }
  }

  /** An input call returns the record unchanged, or a draft with one message more. */
  lemma InputRowSucceeds(port: Port, r: Record, revision: int, requestId: Uuid, input: string)
    requires RecordSound(r) && ValidateInput(requestId, input).Ok?
    ensures var after := InputRow(port, r, revision, requestId, input);
            after.Ok? ==> Successor(r, after.value) && (after.value == r || |after.value.originals| == |r.originals| + 1)
  {
    if Lookup(r.originals, requestId).None? && port.inputBytes(input).Ok? {
      var bytes := port.inputBytes(input).value;
      if WithNewInput(r.setup, revision, bytes).Ok? {
        var next := WithNewInput(r.setup, revision, bytes).value;
        NewInputSound(r, revision, Original(next.latestInput, requestId, input, bytes));
      }
    }
  }

  lemma BeginKeeps(port: Port, w: World, c: Caller, requestId: Uuid, input: string, id: Uuid, inspectFails: bool)
    requires Inv(port, w)
    ensures Inv(port, BeginSetup(port, w, c, requestId, input, id, inspectFails).0)
  {
    var place := Place(c.workspace, c.host, c.binding.path);
    if place in w.places { assert PlaceSound(w, place); }
    var created := BeginFresh(port, w, c, requestId, input, id, inspectFails);
    if c.denied.None? && ValidateInput(requestId, input).Ok? && place !in w.places && created.Ok? {
      DraftSound(id, c.workspace, c.host, c.binding, created.value.originals[0]);
      FlightsHaveRows(port, w, id);
      InsertKeeps(port, w, place, id, created.value);
    }
  }

  lemma FlightsHaveRows(port: Port, w: World, id: Uuid)
    requires Inv(port, w) && id !in w.rows
    ensures id !in w.inFlight
  {
    assert id in w.inFlight ==> FlightSound(port, w, id);
  }

  lemma InsertKeeps(port: Port, w: World, place: Place, id: Uuid, r: Record)
    requires Inv(port, w) && place !in w.places && id !in w.rows && id !in w.inFlight
    requires RecordSound(r) && r.setup.id == id && r.setup.status == Draft && PlaceOf(r.setup) == place
    ensures Inv(port, w.(rows := w.rows[id := r], places := w.places[place := id]))
  {
    var v := w.(rows := w.rows[id := r], places := w.places[place := id]);
    assert RowSound(port, v, id);
    assert Untouched(w, v, id);
    Frame(port, w, v, id);
  }

  /** What a publication leaves behind when it returns, row by row. */
  lemma PublishKeeps(port: Port, w: World, c: Caller, id: Uuid, revision: int, fault: Fault)
    requires Inv(port, w) && id !in w.inFlight
    ensures Inv(port, ApplyStart(port, w, c, id, revision, fault).0)
  {
    var row := BoundRow(w, c, id);
    if row.Ok? && ValidateApply(row.value.setup, revision).Ok? && row.value.setup.status == Draft {
      PublishRowKeeps(port, w, id, revision, fault);
    }
  }

  /** The world after a publication: rows and places as before, and bytes vouched for if an update is pending. */
  lemma PublishRowFacts(port: Port, w: World, id: Uuid, s: Setup, revision: int, bytes: seq<Byte>, fault: Fault)
    requires id !in w.inFlight
    ensures var v := PublishRow(port, w, id, s, revision, bytes, fault).0;
      && v.rows == w.rows && v.places == w.places && w.witnessed <= v.witnessed
      && (id !in v.inFlight ==> v.inFlight == w.inFlight)
      && (id in v.inFlight ==>
            && v.inFlight == w.inFlight[id := v.inFlight[id]]
            && MarkApplied(s, revision, port.sha256(bytes)) == Ok(v.inFlight[id])
            && exists b :: (s.directory, b) in v.witnessed && SameBytes(port, b, bytes))
  {
    var v := PublishRow(port, w, id, s, revision, bytes, fault).0;
    if id in v.inFlight {
      assert s.directory in v.files && (s.directory, v.files[s.directory]) in v.witnessed;
    }
  }

  lemma PublishRowKeeps(port: Port, w: World, id: Uuid, revision: int, fault: Fault)
    requires Inv(port, w) && id in w.rows && id !in w.inFlight
    requires var s := w.rows[id].setup; s.status == Draft && ValidateApply(s, revision).Ok?
    ensures var s := w.rows[id].setup; Inv(port, PublishRow(port, w, id, s, revision, port.utf8(s.content.value), fault).0)
  {
    var s := w.rows[id].setup;
    var v := PublishRow(port, w, id, s, revision, port.utf8(s.content.value), fault).0;
    PublishRowFacts(port, w, id, s, revision, port.utf8(s.content.value), fault);
    if id in v.inFlight {
      FlightKeeps(port, w, v, id);
    } else {
      OtherParts(port, w, v);
    }
  }

  lemma FlightKeeps(port: Port, w: World, v: World, id: Uuid)
    requires Inv(port, w) && id in w.rows && v.rows == w.rows && v.places == w.places && w.witnessed <= v.witnessed
    requires id in v.inFlight && v.inFlight == w.inFlight[id := v.inFlight[id]] && FlightSound(port, v, id)
    ensures Inv(port, v)
  {
    var u := v.(inFlight := w.inFlight);
    OtherParts(port, w, u);
    forall i | i in v.rows ensures RowSound(port, v, i) {
      assert RowSound(port, u, i);
      RowFrame(port, u, v, i);
    }
    forall place | place in v.places ensures PlaceSound(v, place) {
      assert PlaceSound(u, place);
    }
    forall i | i in v.inFlight && i != id ensures FlightSound(port, v, i) {
      assert FlightSound(port, u, i);
      FlightFrame(port, u, v, i);
    }
  }

  /** The committed row: applied, with the digest of the vouched content. */
  lemma CommittedRow(port: Port, w: World, id: Uuid)
    requires id in w.inFlight && FlightSound(port, w, id) && RecordSound(w.rows[id])
    ensures var r := w.rows[id].(setup := w.inFlight[id]);
      && RecordSound(r) && r.setup.id == w.rows[id].setup.id && PlaceOf(r.setup) == PlaceOf(w.rows[id].setup)
      && r.setup.status == Applied && r.setup.appliedSha256 == Some(port.sha256(port.utf8(r.setup.content.value)))
      && Vouched(port, w.(inFlight := w.inFlight - {id}), r.setup)
  {
    var s := w.rows[id].setup;
    AppliedSound(w.rows[id], s.revision, port.sha256(port.utf8(s.content.value)));
    VouchedGrows(port, w, w.(inFlight := w.inFlight - {id}), s);
  }

  lemma CommitKeeps(port: Port, w: World, id: Uuid)
    requires Inv(port, w)
    ensures Inv(port, ApplyCommit(w, id))
  {
    if id in w.inFlight {
      assert FlightSound(port, w, id);
      SoundParts(port, w, id);
      CommittedRow(port, w, id);
      var unlocked := w.(inFlight := w.inFlight - {id});
      OtherParts(port, w, unlocked);
      ReplaceRow(port, unlocked, id, w.rows[id].(setup := w.inFlight[id]));
    }
  }

  lemma CallKeeps(port: Port, w: World, a: Action)
    requires Inv(port, w) && !Blocked(w, a) && (a.Begin? || a.Save? || a.Input?)
    ensures Inv(port, Next(port, w, a))
  {
    match a
    case Begin(c, requestId, input, newId, inspectFails) => BeginKeeps(port, w, c, requestId, input, newId, inspectFails);
    case Save(c, change) => SaveKeeps(port, w, c, change);
    case Input(c, id, revision, requestId, input) => InputKeeps(port, w, c, id, revision, requestId, input);
  }

  lemma OutsideKeeps(port: Port, w: World, a: Action)
    requires Inv(port, w) && a.Outside()
    ensures Inv(port, Next(port, w, a))
  {
    OtherParts(port, w, Next(port, w, a));
  }

  lemma StepKeeps(port: Port, w: World, a: Action)
    requires Inv(port, w)
    ensures Inv(port, Next(port, w, a))
  {
    if !Blocked(w, a) {
      match a
      case Publish(c, id, revision, fault) => PublishKeeps(port, w, c, id, revision, fault);
      case Commit(id) => CommitKeeps(port, w, id);
      case Abandon(id) => OtherParts(port, w, ApplyAbandon(w, id));
      case OutsideWrite(_, _) => OutsideKeeps(port, w, a);
      case OutsideDelete(_) => OutsideKeeps(port, w, a);
      case _ => CallKeeps(port, w, a);
    }
  }

  /** Every reachable world is sound: see `RecordSound` for rows and `Vouched` for applied ones. */
  lemma {:induction false} RunSound(port: Port, actions: seq<Action>)
    ensures Inv(port, Run(port, actions))
  {
    if actions == [] {
    } else {
      RunSound(port, actions[..|actions| - 1]);
      StepKeeps(port, Run(port, actions[..|actions| - 1]), actions[|actions| - 1]);
    }
  }

  // -- files ----------------------------------------------------------------------------------

  ghost predicate FilesKept(w: World, v: World) {
    forall d :: d in w.files ==> d in v.files && v.files[d] == w.files[d]
  }

  lemma PublishFileKeeps(port: Port, files: map<Directory, seq<Byte>>, d: Directory, bytes: seq<Byte>, fault: Fault)
    ensures var (after, r) := PublishFile(port, files, d, bytes, fault);
      && (forall e :: e in files ==> e in after && after[e] == files[e])
      && (forall e :: e in after && e !in files ==> e == d && after[e] == bytes)
      && (r.Ok? ==> d in after && SameBytes(port, after[d], bytes))
      && (r == Ok(AlreadyMatches) ==> after == files)
  {
  }

  /** No service step alters or removes a file; a new one holds the content of a ready draft. */
  lemma ServiceNeverAlters(port: Port, w: World, a: Action)
    requires !a.Outside()
    ensures FilesKept(w, Next(port, w, a))
    ensures forall d :: d in Next(port, w, a).files && d !in w.files ==>
      && a.Publish? && a.id in w.rows
      && var s := w.rows[a.id].setup;
         s.directory == d && s.status == Draft && s.content.Some? && ValidateApply(s, a.revision).Ok?
         && Next(port, w, a).files[d] == port.utf8(s.content.value)
  {
    if a.Publish? && a.id in w.rows && w.rows[a.id].setup.content.Some? {
      var s := w.rows[a.id].setup;
      PublishFileKeeps(port, w.files, s.directory, port.utf8(s.content.value), a.fault);
    }
  }

  /** Asking again to apply an applied row changes nothing, whatever became of the file. */
  lemma AppliedNeverRecreates(port: Port, w: World, c: Caller, id: Uuid, revision: int, fault: Fault)
    requires id in w.rows && w.rows[id].setup.status == Applied
    ensures ApplyStart(port, w, c, id, revision, fault).0 == w
    ensures ApplyStart(port, w, c, id, revision, fault).1.Answered?
    ensures ApplyStart(port, w, c, id, revision, fault).1.result.Ok? ==>
      && var s := w.rows[id].setup;
         s.directory in w.files && s.appliedSha256 == Some(port.sha256(w.files[s.directory]))
  {
  }

  // -- rows over time -------------------------------------------------------------------------

  /** One step takes a record to itself, to a successor, or to its application. */
  ghost predicate RecordStep(r: Record, after: Record) {
    || Successor(r, after)
    || (&& r.setup.status == Draft && after.setup.status == Applied
        && after.originals == r.originals && after.setup.content == r.setup.content
        && after.setup.revision == r.setup.revision + 1)
  }

  lemma SameRecord(r: Record)
    requires RecordSound(r)
    ensures RecordStep(r, r)
  {
    assert r.originals <= r.originals;
    assert Successor(r, r);
  }

  lemma StoredStep(w: World, target: Uuid, after: Result<Record>, id: Uuid)
    requires id in w.rows && target in w.rows && RecordSound(w.rows[id])
    requires after.Ok? && target == id ==> Successor(w.rows[id], after.value)
    ensures id in Stored(w, target, after).0.rows && RecordStep(w.rows[id], Stored(w, target, after).0.rows[id])
  {
    SameRecord(w.rows[id]);
  }

  lemma SaveStep(port: Port, w: World, c: Caller, change: SaveSetup, id: Uuid)
    requires id in w.rows && RecordSound(w.rows[id])
    ensures var v := SaveCall(port, w, c, change).0; id in v.rows && RecordStep(w.rows[id], v.rows[id])
  {
    SameRecord(w.rows[id]);
    var row := BoundRow(w, c, change.setupId);
    if row.Ok? {
      var after := SaveRow(port, row.value, change);
      if change.setupId == id && after.Ok? { SaveRowSucceeds(port, row.value, change); }
      StoredStep(w, change.setupId, after, id);
    }
  }

  lemma InputStep(port: Port, w: World, c: Caller, target: Uuid, revision: int, requestId: Uuid, input: string, id: Uuid)
    requires id in w.rows && RecordSound(w.rows[id])
    ensures var v := InputCall(port, w, c, target, revision, requestId, input).0; id in v.rows && RecordStep(w.rows[id], v.rows[id])
  {
    SameRecord(w.rows[id]);
    var row := BoundRow(w, c, target);
    if row.Ok? && ValidateInput(requestId, input).Ok? {
      if target == id { InputRowSucceeds(port, row.value, revision, requestId, input); }
      StoredStep(w, target, InputRow(port, row.value, revision, requestId, input), id);
    }
  }

  lemma AppliedStep(port: Port, w: World, id: Uuid)
    requires id in w.inFlight && FlightSound(port, w, id)
    ensures RecordStep(w.rows[id], w.rows[id].(setup := w.inFlight[id]))
  {
  }

  lemma CommitStep(port: Port, w: World, target: Uuid, id: Uuid)
    requires id in w.rows && RecordSound(w.rows[id])
    requires id in w.inFlight ==> FlightSound(port, w, id)
    ensures var v := ApplyCommit(w, target); id in v.rows && RecordStep(w.rows[id], v.rows[id])
  {
    if target == id && target in w.inFlight {
      AppliedStep(port, w, id);
    } else {
      SameRecord(w.rows[id]);
    }
  }

  /** Beginning, publishing, abandoning and outside edits leave existing rows alone. */
  lemma OtherSteps(port: Port, w: World, a: Action, id: Uuid)
    requires id in w.rows && !a.Save? && !a.Input? && !a.Commit?
    ensures id in Next(port, w, a).rows && Next(port, w, a).rows[id] == w.rows[id]
  {
  }

  lemma SoundParts(port: Port, w: World, id: Uuid)
    requires Inv(port, w) && id in w.rows
    ensures w.rows[id].setup.id == id && RecordSound(w.rows[id])
    ensures id in w.inFlight ==> FlightSound(port, w, id)
  {
    assert RowSound(port, w, id);
  }

  lemma RowStep(port: Port, w: World, a: Action, id: Uuid)
    requires Inv(port, w) && id in w.rows
    ensures id in Next(port, w, a).rows && RecordStep(w.rows[id], Next(port, w, a).rows[id])
  {
    SoundParts(port, w, id);
    SameRecord(w.rows[id]);
    if !Blocked(w, a) {
      match a
      case Save(c, change) => SaveStep(port, w, c, change, id);
      case Input(c, target, revision, requestId, input) => InputStep(port, w, c, target, revision, requestId, input, id);
      case Commit(target) => CommitStep(port, w, target, id);
      case _ => OtherSteps(port, w, a, id);
    }
  }

  /** A row never disappears; its messages are only appended to; its revision never falls; once applied it is frozen. */
  ghost predicate Evolves(r: Record, after: Record) {
    && r.originals <= after.originals
    && r.setup.revision <= after.setup.revision
    && (r.setup.status == Applied ==> after == r)
  }

  lemma EvolvesOn(r: Record, s: Record, t: Record)
    requires Evolves(r, s) && RecordStep(s, t)
    ensures Evolves(r, t)
  {
  }

  lemma RunRowStep(port: Port, actions: seq<Action>, j: nat, id: Uuid)
    requires 0 < j <= |actions| && id in Run(port, actions[..j - 1]).rows
    ensures id in Run(port, actions[..j]).rows
    ensures RecordStep(Run(port, actions[..j - 1]).rows[id], Run(port, actions[..j]).rows[id])
  {
    RunSound(port, actions[..j - 1]);
    assert actions[..j][..j - 1] == actions[..j - 1];
    RowStep(port, Run(port, actions[..j - 1]), actions[j - 1], id);
  }

  lemma {:induction false} RowsEvolve(port: Port, actions: seq<Action>, i: nat, j: nat, id: Uuid)
    requires i <= j <= |actions| && id in Run(port, actions[..i]).rows
    ensures id in Run(port, actions[..j]).rows && Evolves(Run(port, actions[..i]).rows[id], Run(port, actions[..j]).rows[id])
    decreases j - i
  {
    if i == j {
    } else {
      RowsEvolve(port, actions, i, j - 1, id);
      RunRowStep(port, actions, j, id);
      EvolvesOn(Run(port, actions[..i]).rows[id], Run(port, actions[..j - 1]).rows[id], Run(port, actions[..j]).rows[id]);
    }
  }

  // -- publication precedes application -------------------------------------------------------

  /** At some moment of the run, the file of directory `d` was exactly `bytes`. */
  ghost predicate WasOnDisk(port: Port, actions: seq<Action>, d: Directory, bytes: seq<Byte>) {
    exists k :: 0 <= k <= |actions| && OnDisk(Run(port, actions[..k]), d, bytes)
  }

  ghost predicate OnDisk(w: World, d: Directory, bytes: seq<Byte>) {
    d in w.files && w.files[d] == bytes
  }

  lemma NewWitness(port: Port, w: World, a: Action, d: Directory, bytes: seq<Byte>)
    requires (d, bytes) in Next(port, w, a).witnessed && (d, bytes) !in w.witnessed
    ensures OnDisk(Next(port, w, a), d, bytes)
  {
  }

  lemma {:induction false} WitnessWasOnDisk(port: Port, actions: seq<Action>, d: Directory, bytes: seq<Byte>)
    requires (d, bytes) in Run(port, actions).witnessed
    ensures WasOnDisk(port, actions, d, bytes)
  {
    var init := actions[..|actions| - 1];
    assert actions[..|actions|] == actions;
    if (d, bytes) in Run(port, init).witnessed {
      WitnessWasOnDisk(port, init, d, bytes);
      var k :| 0 <= k <= |init| && OnDisk(Run(port, init[..k]), d, bytes);
      assert actions[..k] == init[..k];
    } else {
      NewWitness(port, Run(port, init), actions[|actions| - 1], d, bytes);
    }
  }

  /**
  In every run, a row that is applied carries the digest of its content, and its directory held, at
  some moment of the run, a file of the content's size and digest: the content itself unless the
  digest collides.
  */
  lemma AppliedOnlyAfterPublication(port: Port, actions: seq<Action>, id: Uuid) returns (bytes: seq<Byte>)
    requires id in Run(port, actions).rows && Run(port, actions).rows[id].setup.status == Applied
    ensures var s := Run(port, actions).rows[id].setup;
      && s.content.Some? && s.appliedSha256 == Some(port.sha256(port.utf8(s.content.value)))
      && SameBytes(port, bytes, port.utf8(s.content.value))
      && WasOnDisk(port, actions, s.directory, bytes)
  {
    RunSound(port, actions);
    var w := Run(port, actions);
    assert RowSound(port, w, id);
    var s := w.rows[id].setup;
    bytes :| (s.directory, bytes) in w.witnessed && SameBytes(port, bytes, port.utf8(s.content.value));
    WitnessWasOnDisk(port, actions, s.directory, bytes);
  }

  // -- optimistic concurrency -----------------------------------------------------------------

  /** The action goes through and writes row `id` on the strength of `revision`. */
  ghost predicate Wins(port: Port, w: World, a: Action, id: Uuid, revision: int) {
    && !Blocked(w, a)
    && match a
       case Save(c, change) => change.setupId == id && change.revision == revision && SaveCall(port, w, c, change).1.Ok?
       case Input(c, target, based, requestId, input) =>
         && target == id && based == revision && InputCall(port, w, c, target, based, requestId, input).1.Ok?
         && id in w.rows && Lookup(w.rows[id].originals, requestId).None?
       case Commit(target) => target == id && id in w.inFlight && w.inFlight[id].appliedFrom == Some(revision)
       case _ => false
  }

  lemma WinnerMovesRevision(port: Port, w: World, a: Action, id: Uuid, revision: int)
    requires Inv(port, w) && Wins(port, w, a, id, revision)
    ensures id in w.rows && w.rows[id].setup.revision == revision
    ensures id in Next(port, w, a).rows && Next(port, w, a).rows[id].setup.revision == revision + 1
  {
    if a.Commit? {
      assert FlightSound(port, w, id);
    }
  }

  lemma RunStep(port: Port, actions: seq<Action>, j: nat)
    requires 0 < j <= |actions|
    ensures Run(port, actions[..j]) == Next(port, Run(port, actions[..j - 1]), actions[j - 1])
  {
    assert actions[..j][..j - 1] == actions[..j - 1];
  }

  lemma LaterLoses(port: Port, actions: seq<Action>, i: nat, j: nat, id: Uuid, revision: int)
    requires i < j < |actions| && Wins(port, Run(port, actions[..i]), actions[i], id, revision)
    ensures !Wins(port, Run(port, actions[..j]), actions[j], id, revision)
  {
    RunSound(port, actions[..i]);
    WinnerMovesRevision(port, Run(port, actions[..i]), actions[i], id, revision);
    RunStep(port, actions, i + 1);
    RowsEvolve(port, actions, i + 1, j, id);
    if Wins(port, Run(port, actions[..j]), actions[j], id, revision) {
      RunSound(port, actions[..j]);
      WinnerMovesRevision(port, Run(port, actions[..j]), actions[j], id, revision);
    }
  }

  /** Of all saves, new messages and applications based on one revision, at most one takes effect in any run. */
  lemma OneWinnerPerRevision(port: Port, actions: seq<Action>, i: nat, j: nat, id: Uuid, revision: int)
    requires i < |actions| && j < |actions|
    requires Wins(port, Run(port, actions[..i]), actions[i], id, revision)
    requires Wins(port, Run(port, actions[..j]), actions[j], id, revision)
    ensures i == j
  {
    if i < j {
      LaterLoses(port, actions, i, j, id, revision);
    } else if j < i {
      LaterLoses(port, actions, j, i, id, revision);
    }
  }

  /** And nothing else writes a row: a step that changes it wins at the row's revision. */
  lemma OnlyWinnersWrite(port: Port, w: World, a: Action, id: Uuid)
    requires Inv(port, w) && id in w.rows && id in Next(port, w, a).rows && Next(port, w, a).rows[id] != w.rows[id]
    ensures Wins(port, w, a, id, w.rows[id].setup.revision)
  {
    SoundParts(port, w, id);
    if !a.Save? && !a.Input? && !a.Commit? {
      OtherSteps(port, w, a, id);
    }
  }

  // -- replays --------------------------------------------------------------------------------

  /** Repeating a recorded message changes nothing; changing its text under the same request is refused. */
  lemma InputReplay(port: Port, w: World, c: Caller, id: Uuid, revision: int, requestId: Uuid, input: string, k: nat)
    requires id in w.rows && Recorded(w.rows[id].originals) && k < |w.rows[id].originals|
    requires w.rows[id].originals[k].requestId == requestId
    ensures InputCall(port, w, c, id, revision, requestId, input).0 == w
    ensures w.rows[id].originals[k].input != input ==> InputCall(port, w, c, id, revision, requestId, input).1.Err?
  {
    var r := w.rows[id];
    LookupFinds(r.originals, k);
    assert w.rows[id := r] == w.rows;
  }

  /** Beginning again in a directory that has a row never changes anything; it succeeds only as an exact retry. */
  lemma BeginReplay(port: Port, w: World, c: Caller, requestId: Uuid, input: string, newId: Uuid, inspectFails: bool)
    requires Place(c.workspace, c.host, c.binding.path) in w.places
    requires var id := w.places[Place(c.workspace, c.host, c.binding.path)]; id in w.rows && Recorded(w.rows[id].originals)
    ensures var (v, r) := BeginSetup(port, w, c, requestId, input, newId, inspectFails);
            && v == w
            && (r.Ok? ==>
                  var id := w.places[Place(c.workspace, c.host, c.binding.path)];
                  && id in w.rows && r.value == w.rows[id].setup
                  && |w.rows[id].originals| >= 1
                  && w.rows[id].originals[0].requestId == requestId && w.rows[id].originals[0].input == input)
  {
    var originals := w.rows[w.places[Place(c.workspace, c.host, c.binding.path)]].originals;
    var found := Lookup(originals, requestId);
    if found.Some? && found.value.sequence == 1 {
      var j :| 0 <= j < |originals| && originals[j] == found.value;
    }
  }
}
