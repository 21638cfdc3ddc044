/**
The publish-then-commit protocol over whole runs: while an application is pending its row is locked,
an interrupted application leaves the bytes on disk and the row ready, and a retry at the same
revision adopts those bytes and completes.
*/
module SetupRetry {
  import opened Wrappers
  import opened Bytes
  import opened Uuids
  import opened Originals
  import opened Setups
  import opened SetupProtocol
  import opened SetupRuns

  /** A ready row whose caller, guard and counters let the call through. */
  ghost predicate Applicable(port: Port, w: World, c: Caller, id: Uuid, revision: int) {
    && id !in w.inFlight
    && BoundRow(w, c, id).Ok?
    && w.rows[id].setup.status == Draft && ValidateApply(w.rows[id].setup, revision).Ok?
    && port.check(w.rows[id].setup).None?
    && revision < I64_MAX
  }

  /** The directory of the row holds a file with the size and digest of its content. */
  ghost predicate InPlace(port: Port, w: World, s: Setup) {
    s.content.Some? && s.directory in w.files && SameBytes(port, w.files[s.directory], port.utf8(s.content.value))
  }

  /** The action is an application that reaches the link, or finds the bytes there; it may still stop after that. */
  ghost predicate Publishes(port: Port, w: World, a: Action, id: Uuid, revision: int) {
    && a.Publish? && a.id == id && a.revision == revision && Applicable(port, w, a.caller, id, revision)
    && if w.rows[id].setup.directory in w.files then a.fault == NoFault && InPlace(port, w, w.rows[id].setup)
       else a.fault != BeforeLink
  }

  /** No one outside the service edits the file of directory `d` in steps `i` up to `j`. */
  ghost predicate Undisturbed(actions: seq<Action>, i: nat, j: nat, d: Directory)
    requires j <= |actions|
  {
    forall k :: i <= k < j ==> actions[k].Outside() ==> actions[k].directory != d
  }

  /** Nothing ends the pending application of row `id` in steps `i` up to `j`. */
  ghost predicate Unsettled(actions: seq<Action>, i: nat, j: nat, id: Uuid)
    requires j <= |actions|
  {
    forall k :: i <= k < j ==> actions[k] != Commit(id) && actions[k] != Abandon(id)
  }

  // -- one step -------------------------------------------------------------------------------

  lemma FileStays(port: Port, w: World, a: Action, d: Directory)
    requires d in w.files && (a.Outside() ==> a.directory != d)
    ensures d in Next(port, w, a).files && Next(port, w, a).files[d] == w.files[d]
  {
    if !a.Outside() {
      ServiceNeverAlters(port, w, a);
    }
  }

  /** A publication leaves rows alone, the bytes in place, and the row locked unless it stopped after the link. */
  lemma PublicationLeaves(port: Port, w: World, a: Action, id: Uuid, revision: int)
    requires Publishes(port, w, a, id, revision) && PrintsSha256(port)
    ensures var s := w.rows[id].setup;
            var v := Next(port, w, a);
            && v.rows == w.rows && InPlace(port, v, s)
            && (a.fault == NoFault ==>
                  id in v.inFlight && MarkApplied(s, revision, port.sha256(port.utf8(s.content.value))) == Ok(v.inFlight[id]))
            && (a.fault == AfterLink ==> v.inFlight == w.inFlight)
  {
    var s := w.rows[id].setup;
    var bytes := port.utf8(s.content.value);
    assert MarkApplied(s, revision, port.sha256(bytes)).Ok?;
    assert Next(port, w, a) == PublishRow(port, w, id, s, revision, bytes, a.fault).0;
    PublishFileKeeps(port, w.files, s.directory, bytes, a.fault);
  }

  /** The lock: while an application is pending, no step changes the row or the pending update. */
  lemma LockedStep(port: Port, w: World, a: Action, id: Uuid)
    requires Inv(port, w) && id in w.inFlight && a != Commit(id) && a != Abandon(id)
    ensures id in w.rows && id in Next(port, w, a).rows && Next(port, w, a).rows[id] == w.rows[id]
    ensures id in Next(port, w, a).inFlight && Next(port, w, a).inFlight[id] == w.inFlight[id]
  {
    assert FlightSound(port, w, id);
  }

  /** A ready row is published exactly when nothing is in the way; only a missing file is written. */
  lemma ApplyDecides(port: Port, w: World, c: Caller, id: Uuid, revision: int)
    requires Applicable(port, w, c, id, revision) && PrintsSha256(port)
    ensures var (v, outcome) := ApplyStart(port, w, c, id, revision, NoFault);
            var s := w.rows[id].setup;
            && (outcome.Pending? <==> s.directory !in w.files || InPlace(port, w, s))
            && (outcome == Pending(AlreadyMatches) <==> InPlace(port, w, s))
            && (outcome.Answered? ==> outcome.result == Err(SetupFileConflict))
            && (s.directory in w.files ==> v.files == w.files)
  {
    var s := w.rows[id].setup;
    assert MarkApplied(s, revision, port.sha256(port.utf8(s.content.value))).Ok?;
  }

  /** The same unlocked row is applicable again by the same caller. */
  lemma ApplicableAgain(port: Port, w: World, v: World, c: Caller, id: Uuid, revision: int)
    requires Applicable(port, w, c, id, revision) && id in v.rows && v.rows[id] == w.rows[id] && id !in v.inFlight
    ensures Applicable(port, v, c, id, revision)
  {
  }

  lemma AbandonReleases(port: Port, w: World, id: Uuid)
    ensures Next(port, w, Abandon(id)).rows == w.rows && id !in Next(port, w, Abandon(id)).inFlight
  {
  }

  lemma CommitApplies(port: Port, w: World, id: Uuid, revision: int, sha256: string)
    requires id in w.rows && id in w.inFlight && MarkApplied(w.rows[id].setup, revision, sha256) == Ok(w.inFlight[id])
    ensures var v := Next(port, w, Commit(id));
            && id in v.rows && id !in v.inFlight && v.rows[id] == w.rows[id].(setup := w.inFlight[id])
            && AppliedFrom(w.rows[id].setup, v.rows[id].setup, revision, sha256)
  {
  }

  /** `s` applied at `revision`. */
  ghost predicate AppliedFrom(s: Setup, after: Setup, revision: int, sha256: string) {
    && after.status == Applied && after.appliedFrom == Some(revision) && after.revision == revision + 1
    && after.content == s.content && after.directory == s.directory && after.appliedSha256 == Some(sha256)
  }

  // -- runs -----------------------------------------------------------------------------------

  /** What is on disk stays there until someone outside edits it. */
  lemma {:induction false} FileStaysOverRun(port: Port, actions: seq<Action>, i: nat, j: nat, d: Directory)
    requires i <= j <= |actions| && d in Run(port, actions[..i]).files && Undisturbed(actions, i, j, d)
    ensures d in Run(port, actions[..j]).files && Run(port, actions[..j]).files[d] == Run(port, actions[..i]).files[d]
    decreases j - i
  {
    if i == j {
    } else {
      FileStaysOverRun(port, actions, i, j - 1, d);
      RunStep(port, actions, j);
      FileStays(port, Run(port, actions[..j - 1]), actions[j - 1], d);
    }
  }

  /** A row at the revision it had before is the row it was before. */
  lemma {:induction false} SameRevisionSameRecord(port: Port, actions: seq<Action>, i: nat, j: nat, id: Uuid)
    requires i <= j <= |actions| && id in Run(port, actions[..i]).rows && id in Run(port, actions[..j]).rows
    requires Run(port, actions[..j]).rows[id].setup.revision == Run(port, actions[..i]).rows[id].setup.revision
    ensures Run(port, actions[..j]).rows[id] == Run(port, actions[..i]).rows[id]
    decreases j - i
  {
    if i == j {
    } else {
      RowsEvolve(port, actions, i, j - 1, id);
      RunRowStep(port, actions, j, id);
      NoRise(Run(port, actions[..i]).rows[id], Run(port, actions[..j - 1]).rows[id], Run(port, actions[..j]).rows[id]);
      SameRevisionSameRecord(port, actions, i, j - 1, id);
    }
  }

  /** Revisions never fall and rise with every change, so a revision that came back never left. */
  lemma NoRise(r: Record, s: Record, t: Record)
    requires Evolves(r, s) && RecordStep(s, t) && t.setup.revision == r.setup.revision
    ensures s.setup.revision == r.setup.revision && t == s
  {
  }

  lemma {:induction false} LockedOverRun(port: Port, actions: seq<Action>, i: nat, j: nat, id: Uuid)
    requires i <= j <= |actions| && id in Run(port, actions[..i]).inFlight && Unsettled(actions, i, j, id)
    ensures var w, v := Run(port, actions[..i]), Run(port, actions[..j]);
            && id in w.rows && id in v.rows && v.rows[id] == w.rows[id]
            && id in v.inFlight && v.inFlight[id] == w.inFlight[id]
    decreases j - i
  {
    RunSound(port, actions[..i]);
    if i == j {
      assert FlightSound(port, Run(port, actions[..i]), id);
    } else {
      LockedOverRun(port, actions, i, j - 1, id);
      RunStep(port, actions, j);
      RunSound(port, actions[..j - 1]);
      LockedStep(port, Run(port, actions[..j - 1]), actions[j - 1], id);
    }
  }

  /** The application that published at step `i` stops at step `k`: after the link, or given up before its commit. */
  ghost predicate Interrupted(actions: seq<Action>, i: nat, k: nat, id: Uuid)
    requires i <= k < |actions| && actions[i].Publish?
  {
    if actions[i].fault == NoFault then i < k && actions[k] == Abandon(id) && Unsettled(actions, i + 1, k, id) else i == k
  }

  /** Published at step `i`, pending throughout, and about to be settled at step `k`. */
  lemma PendingUntilSettled(port: Port, actions: seq<Action>, i: nat, k: nat, id: Uuid, revision: int)
    requires i < k < |actions| && Publishes(port, Run(port, actions[..i]), actions[i], id, revision)
    requires actions[i].fault == NoFault && Unsettled(actions, i + 1, k, id) && PrintsSha256(port)
    ensures var w, v := Run(port, actions[..i]), Run(port, actions[..k]);
            var s := w.rows[id].setup;
            && id in v.rows && v.rows[id] == w.rows[id] && id in v.inFlight
            && MarkApplied(s, revision, port.sha256(port.utf8(s.content.value))) == Ok(v.inFlight[id])
  {
    PublicationLeaves(port, Run(port, actions[..i]), actions[i], id, revision);
    RunStep(port, actions, i + 1);
    LockedOverRun(port, actions, i + 1, k, id);
  }

  lemma AbandonedUnlocks(port: Port, actions: seq<Action>, i: nat, k: nat, id: Uuid, revision: int)
    requires i < k < |actions| && Publishes(port, Run(port, actions[..i]), actions[i], id, revision)
    requires actions[i].fault == NoFault && Unsettled(actions, i + 1, k, id) && actions[k] == Abandon(id) && PrintsSha256(port)
    ensures var w, v := Run(port, actions[..i]), Run(port, actions[..k + 1]);
            id in v.rows && v.rows[id] == w.rows[id] && id !in v.inFlight
  {
    PendingUntilSettled(port, actions, i, k, id, revision);
    AbandonedAt(port, actions, k, id);
  }

  lemma AbandonedAt(port: Port, actions: seq<Action>, k: nat, id: Uuid)
    requires k < |actions| && actions[k] == Abandon(id)
    ensures var w, v := Run(port, actions[..k]), Run(port, actions[..k + 1]);
            v.rows == w.rows && id !in v.inFlight
  {
    RunStep(port, actions, k + 1);
    AbandonReleases(port, Run(port, actions[..k]), id);
  }

  lemma StoppedAfterLink(port: Port, actions: seq<Action>, i: nat, id: Uuid, revision: int)
    requires i < |actions| && Publishes(port, Run(port, actions[..i]), actions[i], id, revision)
    requires actions[i].fault == AfterLink && PrintsSha256(port)
    ensures var w, v := Run(port, actions[..i]), Run(port, actions[..i + 1]);
            id in v.rows && v.rows[id] == w.rows[id] && id !in v.inFlight
  {
    RunStep(port, actions, i + 1);
    PublicationLeaves(port, Run(port, actions[..i]), actions[i], id, revision);
  }

  /**
  Whatever else happens between publication and interruption, the row is then as it was and can be
  applied by the same caller at the same revision.
  */
  lemma InterruptionLeavesReady(port: Port, actions: seq<Action>, i: nat, k: nat, id: Uuid, revision: int)
    requires i <= k < |actions| && Publishes(port, Run(port, actions[..i]), actions[i], id, revision)
    requires Interrupted(actions, i, k, id) && PrintsSha256(port)
    ensures var w, v := Run(port, actions[..i]), Run(port, actions[..k + 1]);
            id in v.rows && v.rows[id] == w.rows[id] && Applicable(port, v, actions[i].caller, id, revision)
  {
    if actions[i].fault == NoFault {
      AbandonedUnlocks(port, actions, i, k, id, revision);
    } else {
      StoppedAfterLink(port, actions, i, id, revision);
    }
    ApplicableAgain(port, Run(port, actions[..i]), Run(port, actions[..k + 1]), actions[i].caller, id, revision);
  }

  /** Published bytes stay in place until someone outside edits the file, whatever becomes of the application. */
  lemma PublishedStays(port: Port, actions: seq<Action>, i: nat, j: nat, id: Uuid, revision: int)
    requires i < j <= |actions| && Publishes(port, Run(port, actions[..i]), actions[i], id, revision)
    requires Undisturbed(actions, i + 1, j, Run(port, actions[..i]).rows[id].setup.directory) && PrintsSha256(port)
    ensures InPlace(port, Run(port, actions[..j]), Run(port, actions[..i]).rows[id].setup)
  {
    PublicationLeaves(port, Run(port, actions[..i]), actions[i], id, revision);
    RunStep(port, actions, i + 1);
    FileStaysOverRun(port, actions, i + 1, j, Run(port, actions[..i]).rows[id].setup.directory);
  }

  /**
  For every run: once an application of the row was published at a revision, and while no one outside
  edits the file, applying at that same revision finds the published bytes, writes nothing, and is
  pending with the content of the first attempt.
  */
  lemma RetryAdopts(port: Port, actions: seq<Action>, i: nat, j: nat, c: Caller, id: Uuid, revision: int)
    requires i < j <= |actions| && Publishes(port, Run(port, actions[..i]), actions[i], id, revision)
    requires Undisturbed(actions, i + 1, j, Run(port, actions[..i]).rows[id].setup.directory)
    requires Applicable(port, Run(port, actions[..j]), c, id, revision) && PrintsSha256(port)
    ensures var w, v := Run(port, actions[..i]), Run(port, actions[..j]);
            var (after, outcome) := ApplyStart(port, v, c, id, revision, NoFault);
            && v.rows[id] == w.rows[id] && InPlace(port, v, v.rows[id].setup)
            && outcome == Pending(AlreadyMatches) && after.files == v.files && after.rows == v.rows
  {
    var w, v := Run(port, actions[..i]), Run(port, actions[..j]);
    PublishedStays(port, actions, i, j, id, revision);
    SameRevisionSameRecord(port, actions, i, j, id);
    ApplyDecides(port, v, c, id, revision);
  }

  lemma RetryPublishes(port: Port, w: World, a: Action, id: Uuid, revision: int)
    requires a.Publish? && a.id == id && a.revision == revision && a.fault == NoFault
    requires Applicable(port, w, a.caller, id, revision) && InPlace(port, w, w.rows[id].setup) && PrintsSha256(port)
    ensures Publishes(port, w, a, id, revision) && Next(port, w, a).files == w.files
  {
    ApplyDecides(port, w, a.caller, id, revision);
  }

  /** Published at step `i` and committed at step `k`: the row is applied, whatever happened in between. */
  lemma CommitCompletes(port: Port, actions: seq<Action>, i: nat, k: nat, id: Uuid, revision: int)
    requires i < k < |actions| && Publishes(port, Run(port, actions[..i]), actions[i], id, revision)
    requires actions[i].fault == NoFault && Unsettled(actions, i + 1, k, id) && actions[k] == Commit(id)
    requires PrintsSha256(port)
    ensures var s, done := Run(port, actions[..i]).rows[id].setup, Run(port, actions[..k + 1]);
            && id in done.rows && id !in done.inFlight && s.content.Some?
            && AppliedFrom(s, done.rows[id].setup, revision, port.sha256(port.utf8(s.content.value)))
  {
    PendingUntilSettled(port, actions, i, k, id, revision);
    var s := Run(port, actions[..i]).rows[id].setup;
    CommittedAt(port, actions, k, id, revision, port.sha256(port.utf8(s.content.value)));
  }

  lemma CommittedAt(port: Port, actions: seq<Action>, k: nat, id: Uuid, revision: int, sha256: string)
    requires k < |actions| && actions[k] == Commit(id)
    requires var w := Run(port, actions[..k]);
             id in w.rows && id in w.inFlight && MarkApplied(w.rows[id].setup, revision, sha256) == Ok(w.inFlight[id])
    ensures var w, v := Run(port, actions[..k]), Run(port, actions[..k + 1]);
            && id in v.rows && id !in v.inFlight
            && AppliedFrom(w.rows[id].setup, v.rows[id].setup, revision, sha256)
  {
    RunStep(port, actions, k + 1);
    CommitApplies(port, Run(port, actions[..k]), id, revision, sha256);
  }

  /** And once the commit of such a retry comes, the row is applied with the content of the first attempt. */
  lemma RetryCompletes(port: Port, actions: seq<Action>, i: nat, j: nat, k: nat, id: Uuid, revision: int)
    requires i < j < k < |actions| && Publishes(port, Run(port, actions[..i]), actions[i], id, revision)
    requires Undisturbed(actions, i + 1, j, Run(port, actions[..i]).rows[id].setup.directory)
    requires actions[j].Publish? && actions[j].id == id && actions[j].revision == revision && actions[j].fault == NoFault
    requires Applicable(port, Run(port, actions[..j]), actions[j].caller, id, revision) && PrintsSha256(port)
    requires Unsettled(actions, j + 1, k, id) && actions[k] == Commit(id)
    ensures var first, done := Run(port, actions[..i]).rows[id].setup, Run(port, actions[..k + 1]);
            && Next(port, Run(port, actions[..j]), actions[j]).files == Run(port, actions[..j]).files
            && id in done.rows && id !in done.inFlight && first.content.Some?
            && AppliedFrom(first, done.rows[id].setup, revision, port.sha256(port.utf8(first.content.value)))
  {
    RetryAdopts(port, actions, i, j, actions[j].caller, id, revision);
    RetryPublishes(port, Run(port, actions[..j]), actions[j], id, revision);
    CommitCompletes(port, actions, j, k, id, revision);
  }
}
