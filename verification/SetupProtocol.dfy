/**
Setup rows, their stored messages, and the file each setup publishes, as one world that service
calls, failures and outside edits step through. Applying a setup spans two resources without a
shared transaction, so it is split where it can stop: publication, then commit or abandonment, with
anything else in between that the row lock does not exclude.
*/
module SetupProtocol {
  import opened Wrappers
  import opened Bytes
  import opened Uuids
  import opened Originals
  import opened Setups

  /** Pure parts of the ports: text encoding, digest, and the two questions put to the output guard. */
  datatype Port = Port(
    utf8: string -> seq<Byte>,
    sha256: seq<Byte> -> string,
    inputBytes: string -> Result<int>,
    check: Setup -> Option<Error>)

  /** Who calls, the directory bound to the session, and a refusal by authorization or re-validation. */
  datatype Caller = Caller(workspace: Uuid, host: Uuid, binding: Directory, denied: Option<Error>)

  /** The unique key of a row besides its id. */
  datatype Place = Place(workspace: Uuid, host: Uuid, path: string)

  function PlaceOf(s: Setup): Place {
    Place(s.workspaceId, s.hostId, s.directory.path)
  }

  datatype World = World(
    rows: map<Uuid, Record>,
    places: map<Place, Uuid>,
    files: map<Directory, seq<Byte>>,
    /** Applications between publication and commit: the row is locked and this update is pending. */
    inFlight: map<Uuid, Setup>,
    /** History: file contents that a successful publication vouched for. */
    witnessed: set<(Directory, seq<Byte>)>)

  const EMPTY: World := World(map[], map[], map[], map[], {})

  // -- calls on rows --------------------------------------------------------------------------

  function BoundRow(w: World, c: Caller, id: Uuid): Result<Record> {
    if c.denied.Some? then Err(c.denied.value)
    else if IsNil(id) then Err(InvalidArguments)
    else if id !in w.rows || w.rows[id].setup.workspaceId != c.workspace || w.rows[id].setup.hostId != c.host then Err(NotFound)
    else if w.rows[id].setup.directory != c.binding then Err(NotFound)
    else Ok(w.rows[id])
  }

  /** A retry of the call that created the row, or a conflict with it. */
  function BeginAgain(port: Port, r: Record, c: Caller, requestId: Uuid, input: string): Result<Setup> {
    if r.setup.directory != c.binding then Err(TaskDirectoryMismatch)
    else
      match Lookup(r.originals, requestId)
      case None => Err(SetupExists)
      case Some(original) =>
        if original.sequence == 1 && original.input == input then
          if port.check(r.setup).Some? then Err(port.check(r.setup).value) else Ok(r.setup)
        else Err(InputConflict)
  }

  /** A new row for a directory that has neither a row nor a file. */
  function BeginFresh(port: Port, w: World, c: Caller, requestId: Uuid, input: string, id: Uuid, inspectFails: bool): Result<Record> {
    if inspectFails then Err(SetupUnavailable)
    else if c.binding in w.files then Err(SetupFileConflict)
    else
      match port.inputBytes(input)
      case Err(e) => Err(e)
      case Ok(bytes) =>
        var setup := NewDraft(id, c.workspace, c.host, c.binding, bytes);
        if port.check(setup).Some? then Err(port.check(setup).value)
        else if bytes < 0 then Err(InvalidArguments)
        else if id in w.rows || IsNil(id) then Err(StorageUnavailable)
        else Ok(Record(setup, [Original(1, requestId, input, bytes)]))
  }

  function BeginSetup(port: Port, w: World, c: Caller, requestId: Uuid, input: string, id: Uuid, inspectFails: bool): (World, Result<Setup>) {
    var place := Place(c.workspace, c.host, c.binding.path);
    if c.denied.Some? then (w, Err(c.denied.value))
    else if ValidateInput(requestId, input).Err? then (w, Err(InvalidArguments))
    else if place in w.places && w.places[place] in w.rows then
      (w, BeginAgain(port, w.rows[w.places[place]], c, requestId, input))
    else
      match BeginFresh(port, w, c, requestId, input, id, inspectFails)
      case Err(e) => (w, Err(e))
      case Ok(r) => (w.(rows := w.rows[id := r], places := w.places[place := id]), Ok(r.setup))
  }

  function SaveRow(port: Port, r: Record, change: SaveSetup): Result<Record> {
    match Saved(r.setup, change)
    case Err(e) => Err(e)
    case Ok(next) => if port.check(next).Some? then Err(port.check(next).value) else Ok(r.(setup := next))
  }

  function InputRow(port: Port, r: Record, revision: int, requestId: Uuid, input: string): Result<Record> {
    match Lookup(r.originals, requestId)
    case Some(original) =>
      if original.input != input then Err(InputConflict)
      else if port.check(r.setup).Some? then Err(port.check(r.setup).value)
      else Ok(r)
    case None =>
      match port.inputBytes(input)
      case Err(e) => Err(e)
      case Ok(bytes) =>
        match WithNewInput(r.setup, revision, bytes)
        case Err(e) => Err(e)
        case Ok(next) =>
          if port.check(next).Some? then Err(port.check(next).value)
          else Ok(Record(next, r.originals + [Original(next.latestInput, requestId, input, bytes)]))
  }

  /** Put an updated record back, or leave the world as it was: a dropped transaction rolls back. */
  function Stored(w: World, id: Uuid, r: Result<Record>): (World, Result<Setup>) {
    match r
    case Err(e) => (w, Err(e))
    case Ok(record) => (w.(rows := w.rows[id := record]), Ok(record.setup))
  }

  function SaveCall(port: Port, w: World, c: Caller, change: SaveSetup): (World, Result<Setup>) {
    if ValidateSave(change).Err? && c.denied.None? then (w, Err(InvalidArguments))
    else
      match BoundRow(w, c, change.setupId)
      case Err(e) => (w, Err(e))
      case Ok(r) => Stored(w, change.setupId, SaveRow(port, r, change))
  }

  function InputCall(port: Port, w: World, c: Caller, id: Uuid, revision: int, requestId: Uuid, input: string): (World, Result<Setup>) {
    if c.denied.Some? then (w, Err(c.denied.value))
    else if ValidateInput(requestId, input).Err? || revision < 1 then (w, Err(InvalidArguments))
    else
      match BoundRow(w, c, id)
      case Err(e) => (w, Err(e))
      case Ok(r) => Stored(w, id, InputRow(port, r, revision, requestId, input))
  }

  // -- publication ----------------------------------------------------------------------------

  /** Where the file adapter may fail: before the exclusive link or after it. */
  datatype Fault = NoFault | BeforeLink | AfterLink

  datatype Publication = Created | AlreadyMatches

  predicate SameBytes(port: Port, a: seq<Byte>, b: seq<Byte>) {
    |a| == |b| && port.sha256(a) == port.sha256(b)
  }

  /** The no-clobber port: create a missing file, adopt a matching one, never touch another. */
  function PublishFile(port: Port, files: map<Directory, seq<Byte>>, d: Directory, bytes: seq<Byte>, fault: Fault)
    : (map<Directory, seq<Byte>>, Result<Publication>)
  {
    if d in files then
      if fault == NoFault && SameBytes(port, files[d], bytes) then (files, Ok(AlreadyMatches)) else (files, Err(SetupFileConflict))
    else
      match fault
      case BeforeLink => (files, Err(StorageUnavailable))
      case AfterLink => (files[d := bytes], Err(StorageUnavailable))
      case NoFault => (files[d := bytes], Ok(Created))
  }

  /** Either the call is answered, or the file is vouched for and the row update is pending. */
  datatype ApplyOutcome = Answered(result: Result<Setup>) | Pending(publication: Publication)

  /** A replay on an applied row only observes the file. */
  function ObserveApplied(port: Port, w: World, s: Setup, bytes: seq<Byte>, fault: Fault): Result<Setup> {
    if fault == NoFault && s.directory in w.files && |w.files[s.directory]| == |bytes| &&
       s.appliedSha256 == Some(port.sha256(w.files[s.directory]))
    then Ok(s) else Err(SetupFileConflict)
  }

  function PublishRow(port: Port, w: World, id: Uuid, s: Setup, revision: int, bytes: seq<Byte>, fault: Fault): (World, ApplyOutcome) {
    var (files, published) := PublishFile(port, w.files, s.directory, bytes, fault);
    var after := w.(files := files);
    match published
    case Err(e) => (after, Answered(Err(e)))
    case Ok(publication) =>
      var seen := if s.directory in files then {(s.directory, files[s.directory])} else {};
      var vouched := after.(witnessed := w.witnessed + seen);
      match MarkApplied(s, revision, port.sha256(bytes))
      case Err(e) => (vouched, Answered(Err(e)))
      case Ok(next) => (vouched.(inFlight := w.inFlight[id := next]), Pending(publication))
  }

  function ApplyStart(port: Port, w: World, c: Caller, id: Uuid, revision: int, fault: Fault): (World, ApplyOutcome) {
    match BoundRow(w, c, id)
    case Err(e) => (w, Answered(Err(e)))
    case Ok(r) =>
      if ValidateApply(r.setup, revision).Err? then (w, Answered(Err(ValidateApply(r.setup, revision).error)))
      else if port.check(r.setup).Some? then (w, Answered(Err(port.check(r.setup).value)))
      else if r.setup.content.None? then (w, Answered(Err(SetupIncomplete)))
      else
        var bytes := port.utf8(r.setup.content.value);
        if r.setup.status == Applied then (w, Answered(ObserveApplied(port, w, r.setup, bytes, fault)))
        else PublishRow(port, w, id, r.setup, revision, bytes, fault)
  }

  function ApplyCommit(w: World, id: Uuid): World {
    if id in w.inFlight && id in w.rows
    then w.(rows := w.rows[id := w.rows[id].(setup := w.inFlight[id])], inFlight := w.inFlight - {id})
    else w
  }

  function ApplyAbandon(w: World, id: Uuid): World {
    w.(inFlight := w.inFlight - {id})
  }

  // -- steps and runs -------------------------------------------------------------------------

  datatype Action =
    | Begin(caller: Caller, requestId: Uuid, input: string, newId: Uuid, inspectFails: bool)
    | Save(caller: Caller, change: SaveSetup)
    | Input(caller: Caller, id: Uuid, revision: int, requestId: Uuid, input: string)
    | Publish(caller: Caller, id: Uuid, revision: int, fault: Fault)
    | Commit(id: Uuid)
    | Abandon(id: Uuid)
    | OutsideWrite(directory: Directory, bytes: seq<Byte>)
    | OutsideDelete(directory: Directory)
  {
    predicate Outside() {
      OutsideWrite? || OutsideDelete?
    }
  }

  /** A call waits while another call holds the lock of its row. */
  predicate Blocked(w: World, a: Action) {
    match a
    case Begin(c, _, _, _, _) =>
      var place := Place(c.workspace, c.host, c.binding.path);
      place in w.places && w.places[place] in w.inFlight
    case Save(_, change) => change.setupId in w.inFlight
    case Input(_, id, _, _, _) => id in w.inFlight
    case Publish(_, id, _, _) => id in w.inFlight
    case _ => false
  }

  function Next(port: Port, w: World, a: Action): World {
    if Blocked(w, a) then w else
      match a
      case Begin(c, requestId, input, newId, inspectFails) => BeginSetup(port, w, c, requestId, input, newId, inspectFails).0
      case Save(c, change) => SaveCall(port, w, c, change).0
      case Input(c, id, revision, requestId, input) => InputCall(port, w, c, id, revision, requestId, input).0
      case Publish(c, id, revision, fault) => ApplyStart(port, w, c, id, revision, fault).0
      case Commit(id) => ApplyCommit(w, id)
      case Abandon(id) => ApplyAbandon(w, id)
      case OutsideWrite(d, bytes) => w.(files := w.files[d := bytes])
      case OutsideDelete(d) => w.(files := w.files - {d})
  }

  function Run(port: Port, actions: seq<Action>): World {
    if actions == [] then EMPTY else Next(port, Run(port, actions[..|actions| - 1]), actions[|actions| - 1])
  }

  // -- the invariant --------------------------------------------------------------------------

  /** The digest prints as 64 lower-case hexadecimal digits. */
  ghost predicate PrintsSha256(port: Port) {
    forall b: seq<Byte> :: IsSha256Text(port.sha256(b))
  }

  /** Some publication vouched for a file in this directory with the size and digest of the content. */
  ghost predicate Vouched(port: Port, w: World, s: Setup) {
    s.content.Some? && exists bytes :: (s.directory, bytes) in w.witnessed && SameBytes(port, bytes, port.utf8(s.content.value))
  }

  ghost predicate RowSound(port: Port, w: World, id: Uuid)
    requires id in w.rows
  {
    var r := w.rows[id];
    && r.setup.id == id && RecordSound(r)
    && PlaceOf(r.setup) in w.places && w.places[PlaceOf(r.setup)] == id
    && (r.setup.status == Applied ==>
          Vouched(port, w, r.setup) && r.setup.appliedSha256 == Some(port.sha256(port.utf8(r.setup.content.value))))
  }

  /** A pending update is the application of the locked row, whose bytes are already on record. */
  ghost predicate FlightSound(port: Port, w: World, id: Uuid)
    requires id in w.inFlight
  {
    && id in w.rows
    && var s := w.rows[id].setup;
       Vouched(port, w, s) && MarkApplied(s, s.revision, port.sha256(port.utf8(s.content.value))) == Ok(w.inFlight[id])
  }

  ghost predicate PlaceSound(w: World, place: Place)
    requires place in w.places
  {
    w.places[place] in w.rows && PlaceOf(w.rows[w.places[place]].setup) == place
  }

  ghost predicate Inv(port: Port, w: World) {
    && (forall id {:trigger RowSound(port, w, id)} :: id in w.rows ==> RowSound(port, w, id))
    && (forall place {:trigger PlaceSound(w, place)} :: place in w.places ==> PlaceSound(w, place))
    && (forall id {:trigger FlightSound(port, w, id)} :: id in w.inFlight ==> FlightSound(port, w, id))
  }
}
