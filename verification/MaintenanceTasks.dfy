/**
The maintenance worker: sweep, then claim and finish tasks one by one, up to a limit. Counters are
32-bit; only the addition of claim-reported exhaustions is checked for overflow.
*/
module MaintenanceTasks {
  import opened Wrappers

  const MAX_BATCH: nat := 64
  const U32: nat := 0x1_0000_0000

  datatype Prepared = NeedsReview | Obsolete | Exhausted
  datatype Failed = RetryScheduled | FailedNeedsReview | FailedExhausted

  /**
  The answers of one turn. `claim` carries the exhaustions the claim reported and whether a task was
  claimed; `failing` is asked only after a recoverable preparation error. Access checks that fail
  surface as the errors of the call they guard.
  */
  datatype Turn = Turn(claim: Result<(nat, bool)>, prepared: Result<Prepared>, failing: Result<Failed>, commit: Result<()>)

  datatype Outcome = Outcome(dueCreated: nat, claimed: nat, needsReview: nat, obsolete: nat, exhausted: nat, retryScheduled: nat, pending: nat)

  /** The preparation errors that are recorded as a failed attempt; any other error ends the run. */
  predicate Recoverable(e: Error) {
    e in {StorageUnavailable, TransportUnavailable, InvalidConfiguration, InternalInvariant, CapacityExceeded, NeedsContext, ContextChanged}
  }

  datatype Progress = Continue(outcome: Outcome) | Stop(outcome: Outcome) | Fail(error: Error)

  /** Unchecked `+= 1` on a 32-bit counter. */
  function Bump(n: nat): nat {
    (n + 1) % U32
  }

  function AfterPrepared(o: Outcome, p: Prepared): Outcome {
    match p
    case NeedsReview => o.(needsReview := Bump(o.needsReview))
    case Obsolete => o.(obsolete := Bump(o.obsolete))
    case Exhausted => o.(exhausted := Bump(o.exhausted))
  }

  function AfterFailed(o: Outcome, f: Failed): Outcome {
    match f
    case RetryScheduled => o.(retryScheduled := Bump(o.retryScheduled))
    case FailedNeedsReview => o.(needsReview := Bump(o.needsReview))
    case FailedExhausted => o.(exhausted := Bump(o.exhausted))
  }

  function TakeTurn(o: Outcome, t: Turn): Progress {
    match t.claim
    case Err(e) => Fail(e)
    case Ok((reported, claimed)) =>
      if o.exhausted + reported >= U32 then Fail(InternalInvariant)
      else
        var next := o.(exhausted := o.exhausted + reported);
        if !claimed then Stop(next)
        else
          var counted := next.(claimed := Bump(next.claimed));
          match t.prepared
          case Ok(p) => if t.commit.Err? then Fail(t.commit.error) else Continue(AfterPrepared(counted, p))
          case Err(e) =>
            if !Recoverable(e) then Fail(e)
            else
              match t.failing
              case Err(f) => Fail(f)
              case Ok(f) => if t.commit.Err? then Fail(t.commit.error) else Continue(AfterFailed(counted, f))
  }

  function Start(due: nat): Outcome {
    Outcome(due, 0, 0, 0, 0, 0, 0)
  }

  // -- what the answers of the ports add up to ------------------------------------------------

  /** What became of a claimed task. */
  datatype Fate = Reviewed | WentObsolete | Retried | RanOut

  /** A preparation that ends in one of these seven errors was an attempt; any other error ends the run. */
  predicate Attempted(e: Error) {
    || e == StorageUnavailable || e == TransportUnavailable || e == InvalidConfiguration || e == InternalInvariant
    || e == CapacityExceeded || e == NeedsContext || e == ContextChanged
  }

  /** The fate of what a turn claimed; `None` if none was claimed or an answer ends the run. */
  function FateOf(t: Turn): Option<Fate> {
    if t.claim.Err? || !t.claim.value.1 || t.commit.Err? then None
    else
      match t.prepared
      case Ok(NeedsReview) => Some(Reviewed)
      case Ok(Obsolete) => Some(WentObsolete)
      case Ok(Exhausted) => Some(RanOut)
      case Err(e) =>
        if !Attempted(e) then None
        else
          match t.failing
          case Ok(RetryScheduled) => Some(Retried)
          case Ok(FailedNeedsReview) => Some(Reviewed)
          case Ok(FailedExhausted) => Some(RanOut)
          case Err(_) => None
  }

  function One(t: Turn, fate: Fate): nat {
    if FateOf(t) == Some(fate) then 1 else 0
  }

  /** How many of the first `n` turns ended that way. */
  ghost function CountFate(turns: nat -> Turn, n: nat, fate: Fate): nat {
    if n == 0 then 0 else CountFate(turns, n - 1, fate) + One(turns(n - 1), fate)
  }

  function ReportedBy(t: Turn): nat {
    if t.claim.Ok? then t.claim.value.0 else 0
  }

  /** The exhaustions that the claims of the first `n` turns reported. */
  ghost function Reported(turns: nat -> Turn, n: nat): nat {
    if n == 0 then 0 else Reported(turns, n - 1) + ReportedBy(turns(n - 1))
  }

  /** All exhaustions of the first `n` turns, as an unbounded number. */
  ghost function Exhaustions(turns: nat -> Turn, n: nat): nat {
    Reported(turns, n) + CountFate(turns, n, RanOut)
  }

  /** The checked addition of a turn's reported exhaustions to a counter holding those before it. */
  ghost predicate Fits(turns: nat -> Turn, i: nat) {
    Exhaustions(turns, i) % 4_294_967_296 + ReportedBy(turns(i)) < 4_294_967_296
  }

  /** A turn that claims a task, keeps the checked counter in range and finishes what it claimed. */
  ghost predicate Finishes(turns: nat -> Turn, i: nat) {
    Fits(turns, i) && FateOf(turns(i)).Some?
  }

  ghost predicate Worked(turns: nat -> Turn, n: nat) {
    forall i: nat {:trigger Finishes(turns, i)} :: i < n ==> Finishes(turns, i)
  }

  /** The turn after `n` tasks finds nothing to claim. */
  ghost predicate Idle(turns: nat -> Turn, n: nat) {
    turns(n).claim.Ok? && !turns(n).claim.value.1 && Fits(turns, n)
  }

  /** A run of `n` claims: as many as allowed, or ended by a claim that finds nothing. */
  ghost predicate Completes(turns: nat -> Turn, limit: nat, n: nat) {
    n <= limit && Worked(turns, n) && (n == limit || Idle(turns, n))
  }

  /** The turns in which a claim was made: those with a task, and the idle one if there is one. */
  function TurnsTaken(limit: nat, n: nat): nat {
    if n < limit then n + 1 else n
  }

  /** The answers determine how many tasks a completing run claims. */
  lemma CompletesOnce(turns: nat -> Turn, limit: nat, m: nat, n: nat)
    requires Completes(turns, limit, m) && Completes(turns, limit, n)
    ensures m == n
  {
    assert m < n ==> Finishes(turns, m);
    assert n < m ==> Finishes(turns, n);
  }

  // -- the worker -----------------------------------------------------------------------------

  /** The counters after `n` finished tasks. */
  ghost predicate Tallied(o: Outcome, due: nat, turns: nat -> Turn, n: nat) {
    && o.dueCreated == due && o.pending == 0
    && o.claimed == n
    && o.needsReview == CountFate(turns, n, Reviewed)
    && o.obsolete == CountFate(turns, n, WentObsolete)
    && o.retryScheduled == CountFate(turns, n, Retried)
    && o.exhausted == Exhaustions(turns, n) % 4_294_967_296
  }

  lemma {:induction false} FatesAddUp(turns: nat -> Turn, n: nat)
    requires Worked(turns, n)
    ensures CountFate(turns, n, Reviewed) + CountFate(turns, n, WentObsolete) +
            CountFate(turns, n, Retried) + CountFate(turns, n, RanOut) == n
  {
    if n == 0 {
    } else {
      FatesAddUp(turns, n - 1);
      assert Finishes(turns, n - 1);
    }
  }

  /** Adding below the modulus, checked or not, keeps the residue. */
  lemma ModAdd(a: nat, b: nat)
    ensures a % 4_294_967_296 + b < 4_294_967_296 ==> (a + b) % 4_294_967_296 == a % 4_294_967_296 + b
    ensures Bump(a % 4_294_967_296) == (a + 1) % 4_294_967_296
  {
    var q := a / 4_294_967_296;
    assert a == q * 4_294_967_296 + a % 4_294_967_296;
    if a % 4_294_967_296 + b < 4_294_967_296 {
      assert a + b == q * 4_294_967_296 + (a % 4_294_967_296 + b);
    }
  }

  /** Outside the exhaustion counter, no counter of a run comes near its width. */
  lemma SmallCounters(o: Outcome, due: nat, turns: nat -> Turn, n: nat)
    requires Tallied(o, due, turns, n) && Worked(turns, n) && n < 64
    ensures Bump(o.claimed) == o.claimed + 1 && Bump(o.needsReview) == o.needsReview + 1
    ensures Bump(o.obsolete) == o.obsolete + 1 && Bump(o.retryScheduled) == o.retryScheduled + 1
  {
    FatesAddUp(turns, n);
  }

  /** A turn goes on exactly when it fits and gives its task a fate, and then the tally is one longer. */
  lemma TurnTallied(o: Outcome, due: nat, turns: nat -> Turn, n: nat)
    requires Tallied(o, due, turns, n) && Worked(turns, n) && n < 64
    ensures TakeTurn(o, turns(n)).Continue? <==> Finishes(turns, n)
    ensures TakeTurn(o, turns(n)).Continue? ==> Tallied(TakeTurn(o, turns(n)).outcome, due, turns, n + 1)
  {
    SmallCounters(o, due, turns, n);
    if TakeTurn(o, turns(n)).Continue? {
      var before, reported := Exhaustions(turns, n), ReportedBy(turns(n));
      ModAdd(before, reported);
      ModAdd(before + reported, 1);
      assert Exhaustions(turns, n + 1) == before + reported + One(turns(n), RanOut);
    }
  }

  /** A turn stops the loop exactly when it is idle; it adds only what its claim reported. */
  lemma TurnIdle(o: Outcome, due: nat, turns: nat -> Turn, n: nat)
    requires Tallied(o, due, turns, n)
    ensures TakeTurn(o, turns(n)).Stop? <==> Idle(turns, n)
    ensures TakeTurn(o, turns(n)).Stop? ==>
      TakeTurn(o, turns(n)).outcome == o.(exhausted := (Reported(turns, n + 1) + CountFate(turns, n, RanOut)) % 4_294_967_296)
  {
    ModAdd(Exhaustions(turns, n), ReportedBy(turns(n)));
    assert Reported(turns, n + 1) + CountFate(turns, n, RanOut) == Exhaustions(turns, n) + ReportedBy(turns(n));
  }

  /** Some number of claims completes the run. */
  ghost predicate Completable(turns: nat -> Turn, limit: nat) {
    exists m: nat :: Completes(turns, limit, m)
  }

  /** The error that ends a run at turn `n`, given the exhaustions before it. */
  ghost function Refusal(turns: nat -> Turn, n: nat): Error
    requires !Finishes(turns, n) && !Idle(turns, n)
  {
    var t := turns(n);
    if t.claim.Err? then t.claim.error
    else if !Fits(turns, n) then InternalInvariant
    else if t.prepared.Err? && !Attempted(t.prepared.error) then t.prepared.error
    else if t.prepared.Err? && t.failing.Err? then t.failing.error
    else if t.commit.Err? then t.commit.error
    else assert false; InternalInvariant
  }

  /** A turn that neither goes on nor stops rules every completion out, with the error of its failing port. */
  lemma TurnFails(o: Outcome, due: nat, turns: nat -> Turn, limit: nat, n: nat)
    requires n < limit && Worked(turns, n) && Tallied(o, due, turns, n) && !Finishes(turns, n) && !Idle(turns, n)
    ensures !Completable(turns, limit)
    ensures TakeTurn(o, turns(n)).Fail? ==> TakeTurn(o, turns(n)).error == Refusal(turns, n)
  {
    forall m: nat ensures !Completes(turns, limit, m) {
      assert m < n ==> Finishes(turns, m);
    }
  }

  /** What every counter of a successful run is, in terms of the ports' answers alone. */
  ghost predicate Accounts(o: Outcome, due: nat, turns: nat -> Turn, limit: nat, n: nat, pending: nat) {
    && o.dueCreated == due && o.pending == pending
    && o.claimed == n
    && o.needsReview == CountFate(turns, n, Reviewed)
    && o.obsolete == CountFate(turns, n, WentObsolete)
    && o.retryScheduled == CountFate(turns, n, Retried)
    && o.exhausted == (Reported(turns, TurnsTaken(limit, n)) + CountFate(turns, n, RanOut)) % 4_294_967_296
  }

  /** Claims are reviews, obsolete tasks, retries and exhaustions net of the reported ones. */
  ghost predicate Balanced(o: Outcome, reported: nat) {
    o.claimed == o.needsReview + o.obsolete + o.retryScheduled + (o.exhausted - reported)
  }

  /** The claims balance exactly when all exhaustions together stay below 2^32. */
  lemma ClaimsAddUp(o: Outcome, due: nat, turns: nat -> Turn, limit: nat, n: nat, pending: nat)
    requires Completes(turns, limit, n) && Accounts(o, due, turns, limit, n, pending)
    ensures var reported := Reported(turns, TurnsTaken(limit, n));
            Balanced(o, reported) <==> reported + CountFate(turns, n, RanOut) < 4_294_967_296
  {
    FatesAddUp(turns, n);
    var total := Reported(turns, TurnsTaken(limit, n)) + CountFate(turns, n, RanOut);
    if total < 4_294_967_296 {
      assert total % 4_294_967_296 == total;
    }
  }

  /** The run fails at the first turn that neither finishes a task nor finds the queue empty. */
  ghost predicate FailsAt(turns: nat -> Turn, limit: nat, n: nat, e: Error) {
    n < limit && Worked(turns, n) && !Finishes(turns, n) && !Idle(turns, n) && e == Refusal(turns, n)
  }

  /** The three ways a turn can go. */
  lemma TurnDecides(o: Outcome, due: nat, turns: nat -> Turn, limit: nat, n: nat)
    requires n < limit <= 64 && Worked(turns, n) && Tallied(o, due, turns, n)
    ensures match TakeTurn(o, turns(n))
            case Continue(next) => Worked(turns, n + 1) && Tallied(next, due, turns, n + 1)
            case Stop(next) => Completes(turns, limit, n) && Accounts(next, due, turns, limit, n, 0)
            case Fail(e) => !Completable(turns, limit) && FailsAt(turns, limit, n, e)
  {
    TurnTallied(o, due, turns, n);
    TurnIdle(o, due, turns, n);
    if TakeTurn(o, turns(n)).Fail? {
      TurnFails(o, due, turns, limit, n);
    }
  }

  method RunTurns(limit: nat, due: nat, turns: nat -> Turn) returns (r: Result<Outcome>, ghost n: nat)
    requires limit <= 64
    ensures r.Ok? <==> Completable(turns, limit)
    ensures r.Ok? ==> Completes(turns, limit, n) && Accounts(r.value, due, turns, limit, n, 0)
    ensures r.Err? ==> FailsAt(turns, limit, n, r.error)
  {
    var outcome := Start(due);
    var i := 0;
    n := 0;
    while i < limit
      invariant 0 <= i <= limit && i == n
      invariant Worked(turns, n) && Tallied(outcome, due, turns, n)
    {
      TurnDecides(outcome, due, turns, limit, n);
      match TakeTurn(outcome, turns(i)) {
        case Fail(e) =>
          return Err(e), n;
        case Stop(next) =>
          return Ok(next), n;
        case Continue(next) =>
          outcome := next;
      }
      i := i + 1;
      n := n + 1;
    }
    assert Completes(turns, limit, n);
    return Ok(outcome), n;
  }

  method ProcessTasks(limit: nat, swept: Result<nat>, turns: nat -> Turn, pending: Result<nat>)
    returns (r: Result<Outcome>, ghost n: nat)
    ensures r.Ok? <==> 1 <= limit <= 64 && swept.Ok? && pending.Ok? && Completable(turns, limit)
    ensures r.Ok? ==> Completes(turns, limit, n) && Accounts(r.value, swept.value, turns, limit, n, pending.value)
    ensures r.Ok? ==>
      var reported := Reported(turns, TurnsTaken(limit, n));
      Balanced(r.value, reported) <==> reported + CountFate(turns, n, RanOut) < 4_294_967_296
    ensures limit == 0 || limit > 64 ==> r == Err(InvalidArguments)
    ensures 1 <= limit <= 64 && swept.Err? ==> r == Err(swept.error)
    ensures 1 <= limit <= 64 && swept.Ok? && r.Err? ==>
      if Completable(turns, limit) then pending == Err(r.error) else FailsAt(turns, limit, n, r.error)
  {
    if limit == 0 || limit > MAX_BATCH {
      return Err(InvalidArguments), 0;
    }
    if swept.Err? {
      return Err(swept.error), 0;
    }
    var worked;
    worked, n := RunTurns(limit, swept.value, turns);
    if worked.Err? {
      return worked, n;
    }
    if pending.Err? {
      return Err(pending.error), n;
    }
    r := Ok(worked.value.(pending := pending.value));
    ClaimsAddUp(r.value, swept.value, turns, limit, n, pending.value);
  }

  // -- when the unchecked counter wraps -------------------------------------------------------

  /** The unchecked increment of turn `i` finds the exhaustion counter at its maximum. */
  ghost predicate Wraps(turns: nat -> Turn, i: nat) {
    FateOf(turns(i)) == Some(RanOut) && (Reported(turns, i + 1) + CountFate(turns, i, RanOut)) % 4_294_967_296 == 4_294_967_295
  }

  lemma {:induction false} ExhaustionsGrow(turns: nat -> Turn, m: nat, n: nat)
    requires m <= n
    ensures Exhaustions(turns, m) <= Exhaustions(turns, n)
    decreases n
  {
    if m == n {
    } else {
      ExhaustionsGrow(turns, m, n - 1);
    }
  }

  /** One turn takes the total past 2^32 exactly when its increment wraps. */
  lemma PassesByWrapping(turns: nat -> Turn, i: nat)
    requires Exhaustions(turns, i) < 4_294_967_296 && Fits(turns, i)
    ensures Exhaustions(turns, i + 1) >= 4_294_967_296 <==> Wraps(turns, i)
  {
    var before, reported := Exhaustions(turns, i), ReportedBy(turns(i));
    assert before % 4_294_967_296 == before;
    assert Reported(turns, i + 1) + CountFate(turns, i, RanOut) == before + reported;
    assert (before + reported) % 4_294_967_296 == before + reported;
    assert Exhaustions(turns, i + 1) == before + reported + One(turns(i), RanOut);
  }

  /**
  The finished tasks of a run pass 2^32 exhaustions exactly when some increment wraps. Where overflow
  checks are on, that increment panics instead.
  */
  lemma {:induction false} WrapsExactly(turns: nat -> Turn, n: nat)
    requires Worked(turns, n)
    ensures Exhaustions(turns, n) >= 4_294_967_296 <==> exists i: nat :: i < n && Wraps(turns, i)
  {
    if n == 0 {
    } else {
      WrapsExactly(turns, n - 1);
      ExhaustionsGrow(turns, n - 1, n);
      if Exhaustions(turns, n - 1) < 4_294_967_296 {
        assert Finishes(turns, n - 1);
        PassesByWrapping(turns, n - 1);
      }
    }
  }

  /** So a completed run balances exactly when no increment wrapped; the idle claim's addition is checked. */
  lemma BalancedUnlessWrapped(o: Outcome, due: nat, turns: nat -> Turn, limit: nat, n: nat, pending: nat)
    requires Completes(turns, limit, n) && Accounts(o, due, turns, limit, n, pending)
    ensures Balanced(o, Reported(turns, TurnsTaken(limit, n))) <==> !exists i: nat :: i < n && Wraps(turns, i)
  {
    ClaimsAddUp(o, due, turns, limit, n, pending);
    WrapsExactly(turns, n);
    if n < limit {
      assert Reported(turns, n + 1) == Reported(turns, n) + ReportedBy(turns(n));
      assert Exhaustions(turns, n) < 4_294_967_296 ==> Exhaustions(turns, n) % 4_294_967_296 == Exhaustions(turns, n);
    }
  }

  /** A claim that reports 2^32 - 1 exhaustions, and a task that exhausts. */
  const WRAPPING: Turn := Turn(Ok((4_294_967_295, true)), Ok(Exhausted), Err(NotFound), Ok(()))

  lemma FirstTurn(turns: nat -> Turn, fate: Fate)
    ensures Reported(turns, 0) == 0 && Reported(turns, 1) == ReportedBy(turns(0))
    ensures CountFate(turns, 0, fate) == 0 && CountFate(turns, 1, fate) == One(turns(0), fate)
  {
  }

  /** Such a turn wraps the counter to zero, and the one claim of the run is not accounted for. */
  lemma CounterWraps(turns: nat -> Turn)
    requires turns(0) == WRAPPING
    ensures Completes(turns, 1, 1) && Wraps(turns, 0)
    ensures Accounts(Outcome(0, 1, 0, 0, 0, 0, 0), 0, turns, 1, 1, 0)
    ensures !Balanced(Outcome(0, 1, 0, 0, 0, 0, 0), Reported(turns, 1))
  {
    FirstTurn(turns, RanOut);
    FirstTurn(turns, Reviewed);
    FirstTurn(turns, WentObsolete);
    FirstTurn(turns, Retried);
    assert Finishes(turns, 0);
  }
}
