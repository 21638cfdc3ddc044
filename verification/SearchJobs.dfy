/**
The embedding worker: claim a job, embed its title, hand the vector to the store, up to a limit.
Every answer of the store, the provider and the access checks is an input, one record per turn.
*/
module SearchJobs {
  import opened Wrappers
  import opened Uuids
  import opened CacheKey
  import opened QueryCache

  const MAX_JOBS: nat := 64

  datatype Access = Access(workspace: Uuid, principal: Uuid)

  datatype Claim = Claim(jobId: Uuid, leaseToken: Uuid, access: Access, title: string, inputDigest: string, model: Model)

  datatype Request = Request(text: string, inputDigest: string, model: Model)

  datatype Completion = Completion(jobId: Uuid, leaseToken: Uuid, inputDigest: string, model: Model, values: Vector)

  /** The answers of one turn; `answer` is whether the store kept the finish that was attempted. */
  datatype Turn = Turn(
    access: Result<Access>, owner: Result<bool>, model: Option<Model>,
    claim: Result<Option<Claim>>, claimCommit: Result<()>,
    embed: Request -> Result<Vector>,
    finish: Result<Access>, answer: Result<bool>, finishCommit: Result<()>)

  datatype Closing = Closing(model: Option<Model>, access: Result<Access>, pending: Result<nat>, commit: Result<()>)

  datatype Outcome = Outcome(claimed: nat, published: nat, obsolete: nat, failed: nat, pending: nat)

  /** A completion offered to the store, with the request whose embedding it carries. */
  datatype Offer = Offer(claim: Claim, request: Request, completion: Completion)

  /** Only a validated vector of exactly the claimed text, for the claimed digest and the pinned model. */
  ghost predicate Sound(sha256: string -> string, valid: Vector -> bool, turn: Turn, o: Offer) {
    && o.request == Request("passage: " + o.claim.title, o.claim.inputDigest, o.claim.model)
    && sha256(o.request.text) == o.claim.inputDigest
    && Validated(o.claim.model)
    && turn.claim == Ok(Some(o.claim))
    && turn.embed(o.request) == Ok(o.completion.values) && valid(o.completion.values)
    && o.completion == Completion(o.claim.jobId, o.claim.leaseToken, o.claim.inputDigest, o.claim.model, o.completion.values)
    && turn.finish == Ok(o.claim.access)
  }

  // -- what the answers of the ports make of a turn -------------------------------------------

  /** The caller may act as owner. */
  ghost predicate Owner(turn: Turn) {
    turn.access.Ok? && turn.owner == Ok(true)
  }

  ghost predicate NoModel(turn: Turn) {
    Owner(turn) && turn.model.None? && turn.claimCommit.Ok?
  }

  ghost predicate Served(turn: Turn) {
    Owner(turn) && turn.model.Some? && Validated(turn.model.value) && turn.claim.Ok? && turn.claimCommit.Ok?
  }

  /** There was nothing to claim. */
  ghost predicate Idle(turn: Turn) {
    Served(turn) && turn.claim.value.None?
  }

  ghost predicate Claims(turn: Turn) {
    Served(turn) && turn.claim.value.Some?
  }

  /** The second transaction belongs to the same workspace and principal as the claim, and commits. */
  ghost predicate Settled(turn: Turn, claim: Claim) {
    turn.finish == Ok(claim.access) && turn.answer.Ok? && turn.finishCommit.Ok?
  }

  ghost predicate Finishes(turn: Turn) {
    Claims(turn) && Settled(turn, turn.claim.value.value)
  }

  /** The error of the first port that fails a turn. */
  ghost function ClaimRefusal(turn: Turn): Error
    requires !NoModel(turn) && !Served(turn)
  {
    if turn.access.Err? then turn.access.error
    else if turn.owner.Err? then turn.owner.error
    else if !turn.owner.value then Forbidden
    else if turn.model.Some? && !Validated(turn.model.value) then InvalidConfiguration
    else if turn.model.Some? && turn.claim.Err? then turn.claim.error
    else if turn.claimCommit.Err? then turn.claimCommit.error
    else assert false; InternalInvariant
  }

  ghost function FinishRefusal(turn: Turn, claim: Claim): Error
    requires !Settled(turn, claim)
  {
    if turn.finish.Err? then turn.finish.error
    else if turn.finish.value != claim.access then ContextChanged
    else if turn.answer.Err? then turn.answer.error
    else if turn.finishCommit.Err? then turn.finishCommit.error
    else assert false; InternalInvariant
  }

  ghost predicate TurnFails(turn: Turn, e: Error) {
    || (!NoModel(turn) && !Served(turn) && e == ClaimRefusal(turn))
    || (Claims(turn) && !Settled(turn, turn.claim.value.value) && e == FinishRefusal(turn, turn.claim.value.value))
  }

  /** The second transaction of a turn: same workspace and principal as the claim, then the store's answer. */
  method Finish(turn: Turn, claim: Claim) returns (kept: Result<bool>)
    ensures kept.Ok? <==> Settled(turn, claim)
    ensures kept.Ok? ==> kept == turn.answer
    ensures kept.Err? ==> kept.error == FinishRefusal(turn, claim)
  {
    if turn.finish.Err? {
      return Err(turn.finish.error);
    }
    if turn.finish.value != claim.access {
      return Err(ContextChanged);
    }
    if turn.answer.Err? {
      return Err(turn.answer.error);
    }
    if turn.finishCommit.Err? {
      return Err(turn.finishCommit.error);
    }
    return turn.answer;
  }

  /** Claim one job; `None` when there is none or no model, with `stop` telling which. */
  method ClaimOne(turn: Turn) returns (claim: Result<Option<Claim>>, stop: bool)
    ensures stop <==> NoModel(turn)
    ensures stop ==> claim == Ok(None)
    ensures claim.Ok? && !stop <==> Served(turn)
    ensures claim.Ok? && !stop ==> claim == turn.claim
    ensures claim.Err? ==> !NoModel(turn) && !Served(turn) && claim.error == ClaimRefusal(turn)
  {
    stop := false;
    if turn.access.Err? {
      return Err(turn.access.error), false;
    }
    if turn.owner.Err? {
      return Err(turn.owner.error), false;
    }
    if !turn.owner.value {
      return Err(Forbidden), false;
    }
    if turn.model.None? {
      if turn.claimCommit.Err? {
        return Err(turn.claimCommit.error), false;
      }
      return Ok(None), true;
    }
    if !Validated(turn.model.value) {
      return Err(InvalidConfiguration), false;
    }
    if turn.claim.Err? {
      return Err(turn.claim.error), false;
    }
    if turn.claimCommit.Err? {
      return Err(turn.claimCommit.error), false;
    }
    return turn.claim, false;
  }

  /** How a claimed job ended. */
  datatype Fate = Published | WentObsolete | FailedAttempt

  /** The claim is for the digest of its own title and for the model in use, and its vector is usable. */
  predicate Embeddable(sha256: string -> string, valid: Vector -> bool, turn: Turn, claim: Claim) {
    && sha256("passage: " + claim.title) == claim.inputDigest
    && turn.model == Some(claim.model)
    && var embedded := turn.embed(Request("passage: " + claim.title, claim.inputDigest, claim.model));
       embedded.Ok? && valid(embedded.value)
  }

  /** Publication and failure count only if the store still held the lease; otherwise the job was obsolete. */
  function FateOf(sha256: string -> string, valid: Vector -> bool, turn: Turn): Option<Fate> {
    if turn.claim.Err? || turn.claim.value.None? || turn.answer.Err? then None
    else if !turn.answer.value then Some(WentObsolete)
    else if Embeddable(sha256, valid, turn, turn.claim.value.value) then Some(Published)
    else Some(FailedAttempt)
  }

  ghost function CountFate(sha256: string -> string, valid: Vector -> bool, turns: nat -> Turn, n: nat, fate: Fate): nat {
    if n == 0 then 0 else
      CountFate(sha256, valid, turns, n - 1, fate) + if FateOf(sha256, valid, turns(n - 1)) == Some(fate) then 1 else 0
  }

  function Credit(o: Outcome, fate: Fate): Outcome {
    match fate
    case Published => o.(published := o.published + 1)
    case WentObsolete => o.(obsolete := o.obsolete + 1)
    case FailedAttempt => o.(failed := o.failed + 1)
  }

  /** The offer of an embeddable claim: its job, lease, digest and model with the vector of its title. */
  ghost function OfferOf(turn: Turn, claim: Claim): Offer {
    var request := Request("passage: " + claim.title, claim.inputDigest, claim.model);
    var answer := turn.embed(request);
    var values := if answer.Ok? then answer.value else [];
    Offer(claim, request, Completion(claim.jobId, claim.leaseToken, claim.inputDigest, claim.model, values))
  }

  /** Work on a claimed job: one offer exactly when it is embeddable, and its fate is credited. */
  method Work(sha256: string -> string, valid: Vector -> bool, turn: Turn, claim: Claim, before: Outcome)
    returns (after: Result<Outcome>, offer: Option<Offer>)
    requires turn.claim == Ok(Some(claim)) && turn.model.Some? && Validated(turn.model.value)
    ensures after.Ok? <==> Settled(turn, claim)
    ensures after.Err? ==> after.error == FinishRefusal(turn, claim)
    ensures after.Ok? ==>
      && FateOf(sha256, valid, turn).Some? && after.value == Credit(before, FateOf(sha256, valid, turn).value)
      && offer == if Embeddable(sha256, valid, turn, claim) then Some(OfferOf(turn, claim)) else None
    ensures offer.Some? ==> Sound(sha256, valid, turn, offer.value)
  {
    var request := Request("passage: " + claim.title, claim.inputDigest, turn.model.value);
    var mismatch := sha256(request.text) != claim.inputDigest || claim.model != turn.model.value;
    var embedded := if mismatch then Err(KnowledgeUnavailable) else turn.embed(request);
    var kept := Finish(turn, claim);
    if embedded.Err? || !valid(embedded.value) {
      if kept.Err? {
        return Err(kept.error), None;
      }
      return Ok(before.(failed := before.failed + if kept.value then 1 else 0,
                        obsolete := before.obsolete + if kept.value then 0 else 1)), None;
    }
    var completion := Completion(claim.jobId, claim.leaseToken, claim.inputDigest, claim.model, embedded.value);
    if kept.Err? {
      return Err(kept.error), if turn.finish == Ok(claim.access) then Some(Offer(claim, request, completion)) else None;
    }
    return Ok(before.(published := before.published + if kept.value then 1 else 0,
                      obsolete := before.obsolete + if kept.value then 0 else 1)),
           Some(Offer(claim, request, completion));
  }

  // -- what the answers make of a run ---------------------------------------------------------

  /** The first `n` turns each claim a job and finish it. */
  ghost predicate Worked(turns: nat -> Turn, n: nat) {
    forall i: nat {:trigger Finishes(turns(i))} :: i < n ==> Finishes(turns(i))
  }

  /** A run of `n` claims: as many as allowed, or ended by a turn without a job or without a model. */
  ghost predicate Completes(turns: nat -> Turn, limit: nat, n: nat) {
    n <= limit && Worked(turns, n) && (n == limit || Idle(turns(n)) || NoModel(turns(n)))
  }

  /** The model went away during the run, which then ends without counting what is left. */
  ghost predicate CutShort(turns: nat -> Turn, limit: nat, n: nat) {
    n < limit && NoModel(turns(n))
  }

  /** What is left can be counted, by the owner who made the first claim. */
  ghost predicate Closes(closing: Closing, scope: Access) {
    closing.model.Some? ==>
      Validated(closing.model.value) && closing.access == Ok(scope) && closing.pending.Ok? && closing.commit.Ok?
  }

  ghost function Left(closing: Closing): nat
    requires closing.model.Some? ==> closing.pending.Ok?
  {
    if closing.model.Some? then closing.pending.value else 0
  }

  ghost predicate Succeeds(turns: nat -> Turn, limit: nat, closing: Closing, n: nat) {
    && Completes(turns, limit, n)
    && (CutShort(turns, limit, n) || (turns(0).access.Ok? && Closes(closing, turns(0).access.value)))
  }

  /** The offers of the embeddable ones among the first `n` claims, in order. */
  ghost function Offered(sha256: string -> string, valid: Vector -> bool, turns: nat -> Turn, n: nat): seq<Offer> {
    if n == 0 then [] else
      Offered(sha256, valid, turns, n - 1) + OffersIn(sha256, valid, turns(n - 1))
  }

  ghost function OffersIn(sha256: string -> string, valid: Vector -> bool, turn: Turn): seq<Offer> {
    if Claims(turn) && Embeddable(sha256, valid, turn, turn.claim.value.value) then [OfferOf(turn, turn.claim.value.value)] else []
  }

  /** A run ends without success at the first turn or at the closing. */
  ghost predicate RunFails(turns: nat -> Turn, limit: nat, closing: Closing, n: nat, e: Error) {
    && n <= limit && Worked(turns, n)
    && ((n < limit && TurnFails(turns(n), e)) ||
        (Completes(turns, limit, n) && !CutShort(turns, limit, n) && turns(0).access.Ok? && CloseFails(closing, turns(0).access.value, e)))
  }

  ghost predicate CloseFails(closing: Closing, scope: Access, e: Error) {
    && closing.model.Some?
    && if !Validated(closing.model.value) then e == InvalidConfiguration
       else if closing.access.Err? then e == closing.access.error
       else if closing.access.value != scope then e == ContextChanged
       else if closing.pending.Err? then e == closing.pending.error
       else closing.commit == Err(e)
  }

  /** The count of what is left, read once at the end by the same owner. */
  method Close(closing: Closing, scope: Access, before: Outcome) returns (r: Result<Outcome>)
    requires before.pending == 0
    ensures r.Ok? <==> Closes(closing, scope)
    ensures r.Ok? ==> r.value == before.(pending := Left(closing))
    ensures r.Err? ==> CloseFails(closing, scope, r.error)
  {
    if closing.model.None? {
      return Ok(before);
    }
    if !Validated(closing.model.value) {
      return Err(InvalidConfiguration);
    }
    if closing.access.Err? {
      return Err(closing.access.error);
    }
    if closing.access.value != scope {
      return Err(ContextChanged);
    }
    if closing.pending.Err? {
      return Err(closing.pending.error);
    }
    if closing.commit.Err? {
      return Err(closing.commit.error);
    }
    return Ok(before.(pending := closing.pending.value));
  }

  ghost predicate SoundlyOffered(sha256: string -> string, valid: Vector -> bool, turns: nat -> Turn, limit: nat, o: Offer) {
    exists k :: 0 <= k < limit && Sound(sha256, valid, turns(k), o)
  }

  /** The counters are the fates of the turns in which a job was claimed. */
  ghost predicate Tallied(sha256: string -> string, valid: Vector -> bool, turns: nat -> Turn, o: Outcome) {
    && o.published == CountFate(sha256, valid, turns, o.claimed, Published)
    && o.obsolete == CountFate(sha256, valid, turns, o.claimed, WentObsolete)
    && o.failed == CountFate(sha256, valid, turns, o.claimed, FailedAttempt)
  }

  lemma TallyStep(sha256: string -> string, valid: Vector -> bool, turns: nat -> Turn, o: Outcome, after: Outcome)
    requires Tallied(sha256, valid, turns, o) && FateOf(sha256, valid, turns(o.claimed)).Some?
    requires after == Credit(o.(claimed := o.claimed + 1), FateOf(sha256, valid, turns(o.claimed)).value)
    ensures Tallied(sha256, valid, turns, after)
  {
  }

  /** Every claim that is finished has one of the three fates. */
  lemma {:induction false} FatesAddUp(sha256: string -> string, valid: Vector -> bool, turns: nat -> Turn, n: nat)
    requires Worked(turns, n)
    ensures CountFate(sha256, valid, turns, n, Published) + CountFate(sha256, valid, turns, n, WentObsolete) +
            CountFate(sha256, valid, turns, n, FailedAttempt) == n
  {
    if n == 0 {
    } else {
      FatesAddUp(sha256, valid, turns, n - 1);
      assert Finishes(turns(n - 1));
    }
  }

  /** A turn that fails, or one after it, cannot be where a run completes. */
  lemma FailedRun(turns: nat -> Turn, limit: nat, n: nat, m: nat, e: Error)
    requires n < limit && Worked(turns, n) && TurnFails(turns(n), e)
    ensures !Completes(turns, limit, m)
  {
    assert m > n ==> (Completes(turns, limit, m) ==> Finishes(turns(n)));
    assert m < n ==> Finishes(turns(m));
  }

  /** The answers determine how many jobs a completing run claims. */
  lemma CompletesOnce(turns: nat -> Turn, limit: nat, m: nat, n: nat)
    requires Completes(turns, limit, m) && Completes(turns, limit, n)
    ensures m == n
  {
    assert m < n ==> Finishes(turns(m));
    assert n < m ==> Finishes(turns(n));
  }

  /** The first turn that is served fixes who the run belongs to. */
  function FirstScope(scope: Option<Access>, turn: Turn): Option<Access> {
    if scope.None? && turn.access.Ok? then Some(turn.access.value) else scope
  }

  datatype Progress = Failed(error: Error) | WithoutModel | WithoutJob | Done(outcome: Outcome)

  /** What the loop has done after `n` turns. */
  ghost predicate Progressed(sha256: string -> string, valid: Vector -> bool, turns: nat -> Turn, n: nat, o: Outcome, offers: seq<Offer>) {
    && o.claimed == n && o.pending == 0 && Worked(turns, n) && Tallied(sha256, valid, turns, o)
    && offers == Offered(sha256, valid, turns, n)
  }

  lemma ProgressStep(sha256: string -> string, valid: Vector -> bool, turns: nat -> Turn, n: nat, o: Outcome, offers: seq<Offer>, after: Outcome)
    requires Progressed(sha256, valid, turns, n, o, offers)
    requires Finishes(turns(n)) && FateOf(sha256, valid, turns(n)).Some?
    requires after == Credit(o.(claimed := o.claimed + 1), FateOf(sha256, valid, turns(n)).value)
    ensures Progressed(sha256, valid, turns, n + 1, after, offers + OffersIn(sha256, valid, turns(n)))
  {
    TallyStep(sha256, valid, turns, o, after);
  }

  lemma AnotherOffer(sha256: string -> string, valid: Vector -> bool, turns: nat -> Turn, limit: nat, n: nat, offers: seq<Offer>, offer: Option<Offer>)
    requires n < limit && forall o :: o in offers ==> SoundlyOffered(sha256, valid, turns, limit, o)
    requires offer.Some? ==> Sound(sha256, valid, turns(n), offer.value)
    ensures forall o :: o in offers + Single(offer) ==> SoundlyOffered(sha256, valid, turns, limit, o)
  {
  }

  function Single(offer: Option<Offer>): seq<Offer> {
    if offer.Some? then [offer.value] else []
  }

  /** One turn of the loop. */
  method TakeTurn(sha256: string -> string, valid: Vector -> bool, turns: nat -> Turn, n: nat, before: Outcome, ghost offers: seq<Offer>)
    returns (p: Progress, offer: Option<Offer>)
    requires Progressed(sha256, valid, turns, n, before, offers)
    ensures p.Failed? ==> TurnFails(turns(n), p.error)
    ensures p.WithoutModel? ==> NoModel(turns(n))
    ensures p.WithoutJob? ==> Idle(turns(n))
    ensures p.Done? ==> Progressed(sha256, valid, turns, n + 1, p.outcome, offers + Single(offer))
    ensures p.WithoutModel? || p.WithoutJob? ==> offer.None?
    ensures p.WithoutJob? || p.Done? ==> turns(n).access.Ok?
    ensures offer.Some? ==> Sound(sha256, valid, turns(n), offer.value)
  {
    var turn := turns(n);
    var claim, stop := ClaimOne(turn);
    if claim.Err? {
      return Failed(claim.error), None;
    }
    if stop {
      return WithoutModel, None;
    }
    if claim.value.None? {
      return WithoutJob, None;
    }
    var after;
    after, offer := Work(sha256, valid, turn, claim.value.value, before.(claimed := before.claimed + 1));
    if after.Err? {
      return Failed(after.error), offer;
    }
    ProgressStep(sha256, valid, turns, n, before, offers, after.value);
    return Done(after.value), offer;
  }

  /** The loop, up to the turn that ends it. */
  method RunTurns(sha256: string -> string, valid: Vector -> bool, limit: nat, turns: nat -> Turn)
    returns (r: Result<Outcome>, scope: Option<Access>, stopped: bool, offers: seq<Offer>, ghost n: nat)
    ensures forall o :: o in offers ==> SoundlyOffered(sha256, valid, turns, limit, o)
    ensures r.Err? ==> n < limit && Worked(turns, n) && TurnFails(turns(n), r.error)
    ensures r.Ok? ==> Completes(turns, limit, n) && Progressed(sha256, valid, turns, n, r.value, offers)
    ensures r.Ok? ==> stopped == CutShort(turns, limit, n)
    ensures r.Ok? && !stopped && limit > 0 ==> scope.Some? && turns(0).access == Ok(scope.value)
  {
    var outcome := Outcome(0, 0, 0, 0, 0);
    scope, stopped, offers, n := None, false, [], 0;
    var i := 0;
    while i < limit
      invariant 0 <= i <= limit && i == n
      invariant Progressed(sha256, valid, turns, n, outcome, offers)
      invariant if i == 0 then scope.None? else scope.Some? && turns(0).access == Ok(scope.value)
      invariant forall o :: o in offers ==> SoundlyOffered(sha256, valid, turns, limit, o)
    {
      var progress, offer := TakeTurn(sha256, valid, turns, i, outcome, offers);
      AnotherOffer(sha256, valid, turns, limit, n, offers, offer);
      match progress {
        case Failed(e) =>
          return Err(e), scope, false, offers + Single(offer), n;
        case WithoutModel =>
          return Ok(outcome), scope, true, offers, n;
        case WithoutJob =>
          return Ok(outcome), FirstScope(scope, turns(i)), false, offers, n;
        case Done(after) =>
          scope := FirstScope(scope, turns(i));
          outcome, offers := after, offers + Single(offer);
      }
      i, n := i + 1, n + 1;
    }
    return Ok(outcome), scope, false, offers, n;
  }

  /**
  The worker. A run succeeds exactly when the answers of the ports complete it and what is left can
  be counted; then it claimed as many jobs as allowed or until none was left, each counter is the
  number of claims with that fate, and the offers are those of the embeddable claims, in order.
  */
  method ProcessSearchJobs(sha256: string -> string, valid: Vector -> bool, limit: nat, turns: nat -> Turn, closing: Closing)
    returns (r: Result<Outcome>, offers: seq<Offer>)
    ensures r.Ok? <==> 1 <= limit <= 64 && exists n: nat :: Succeeds(turns, limit, closing, n)
    ensures r.Ok? ==>
      var n := r.value.claimed;
      && Succeeds(turns, limit, closing, n)
      && r.value.claimed == r.value.published + r.value.obsolete + r.value.failed <= limit
      && Tallied(sha256, valid, turns, r.value)
      && offers == Offered(sha256, valid, turns, n)
      && r.value.pending == if CutShort(turns, limit, n) then 0 else Left(closing)
    ensures limit == 0 || limit > 64 ==> r == Err(InvalidArguments)
    ensures 1 <= limit <= 64 && r.Err? ==> exists n: nat :: RunFails(turns, limit, closing, n, r.error)
    ensures forall o :: o in offers ==> SoundlyOffered(sha256, valid, turns, limit, o)
  {
    if limit == 0 || limit > MAX_JOBS {
      return Err(InvalidArguments), [];
    }
    var worked, scope, stopped;
    ghost var n;
    worked, scope, stopped, offers, n := RunTurns(sha256, valid, limit, turns);
    if worked.Err? {
      assert RunFails(turns, limit, closing, n, worked.error);
      forall m: nat ensures !Completes(turns, limit, m) {
        FailedRun(turns, limit, n, m, worked.error);
      }
      return worked, offers;
    }
    FatesAddUp(sha256, valid, turns, n);
    forall m: nat | Completes(turns, limit, m) ensures m == n {
      CompletesOnce(turns, limit, m, n);
    }
    if stopped {
      assert Succeeds(turns, limit, closing, n);
      return worked, offers;
    }
    r := Close(closing, scope.value, worked.value);
    if r.Ok? {
      assert Succeeds(turns, limit, closing, n);
    } else {
      assert RunFails(turns, limit, closing, n, r.error);
    }
  }
}
