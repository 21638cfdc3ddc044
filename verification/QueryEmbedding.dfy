/**
Query embeddings served through the cache. Keys are strings; what a caller cares about is the
workspace, the principal, the generation and the digest of the question. Here the two are joined: a
hit is the latest vector learned for exactly that scope.
*/
module QueryEmbedding {
  import opened Wrappers
  import opened Uuids
  import opened Collections
  import opened CacheKey
  import opened QueryCache
  import SearchJobs

  datatype Scope = Scope(workspace: Uuid, principal: Uuid, generation: int, inputDigest: string)

  /** One use of the cache, in terms of scopes. */
  datatype Use = Asked(scope: Scope, time: nat) | Learned(scope: Scope, time: nat, values: Vector)

  datatype Embedding = Embedding(model: Model, inputDigest: string, values: Vector, cacheHit: bool)

  function KeyOf(s: Scope): string {
    Key(s.workspace, s.principal, s.generation, PINNED, s.inputDigest)
  }

  function Keyed(use: Use): Event {
    match use
    case Asked(scope, time) => Get(KeyOf(scope), time)
    case Learned(scope, time, values) => Put(KeyOf(scope), time, values)
  }

  ghost function History(log: seq<Use>): (history: seq<Event>)
    ensures |history| == |log|
  {
    seq(|log|, i requires 0 <= i < |log| => Keyed(log[i]))
  }

  ghost predicate Learns(use: Use, scope: Scope) {
    use.Learned? && use.scope == scope
  }

  /** Where `scope` was last learned, or -1. */
  ghost function LastLearned(log: seq<Use>, scope: Scope): (i: int)
    ensures -1 <= i < |log|
    ensures i >= 0 ==> Learns(log[i], scope)
    ensures forall j :: i < j < |log| ==> !Learns(log[j], scope)
  {
    if log == [] then -1
    else if Learns(log[|log| - 1], scope) then |log| - 1
    else LastLearned(log[..|log| - 1], scope)
  }

  /** The other scopes learned since `scope` was last learned. */
  ghost function Since(log: seq<Use>, scope: Scope): set<Scope> {
    set j | LastLearned(log, scope) < j < |log| && log[j].Learned? && log[j].scope != scope :: log[j].scope
  }

  ghost predicate Chronological(log: seq<Use>) {
    forall i, j :: 0 <= i < j < |log| ==> log[i].time <= log[j].time
  }

  ghost function Clock(log: seq<Use>): nat {
    if log == [] then 0 else log[|log| - 1].time
  }

  // -- scopes and keys ------------------------------------------------------------------------

  lemma KeyOfInjective(a: Scope, b: Scope)
    ensures KeyOf(a) == KeyOf(b) <==> a == b
  {
    SameModelSameParts(a.workspace, a.principal, a.generation, a.inputDigest, b.workspace, b.principal, b.generation, b.inputDigest, PINNED);
  }

  lemma LearnsIsPuts(use: Use, scope: Scope)
    ensures Puts(Keyed(use), KeyOf(scope)) <==> Learns(use, scope)
  {
    KeyOfInjective(use.scope, scope);
  }

  lemma LastLearnedIsLastPut(log: seq<Use>, scope: Scope)
    ensures LastPut(History(log), KeyOf(scope)) == LastLearned(log, scope)
  {
    var history, key := History(log), KeyOf(scope);
    forall i | 0 <= i < |log| ensures Puts(history[i], key) <==> Learns(log[i], scope) {
      LearnsIsPuts(log[i], scope);
    }
    var i, j := LastPut(history, key), LastLearned(log, scope);
    assert i >= 0 ==> Puts(history[i], key) && Learns(log[i], scope);
    assert j >= 0 ==> Learns(log[j], scope) && Puts(history[j], key);
  }

  ghost function KeysOf(scopes: set<Scope>): set<string> {
    Image(scopes, KeyOf)
  }

  lemma OtherKeyIsOtherScope(log: seq<Use>, scope: Scope, j: nat)
    requires LastLearned(log, scope) < j < |log| && Keyed(log[j]).Put? && Keyed(log[j]).key != KeyOf(scope)
    ensures Keyed(log[j]).key in KeysOf(Since(log, scope))
  {
    assert log[j].scope in Since(log, scope);
  }

  /** Keys under pressure are scopes learned since. */
  lemma PressureIsScopes(log: seq<Use>, scope: Scope)
    ensures |Pressure(History(log), KeyOf(scope))| <= |Since(log, scope)|
  {
    var history, key, others := History(log), KeyOf(scope), KeysOf(Since(log, scope));
    LastLearnedIsLastPut(log, scope);
    forall j | LastPut(history, key) < j < |history| && history[j].Put? && history[j].key != key
      ensures history[j].key in others
    {
      OtherKeyIsOtherScope(log, scope, j);
    }
    SubsetSize(Pressure(history, key), others);
    ImageSize(Since(log, scope), KeyOf);
  }

  lemma Extended(log: seq<Use>, use: Use)
    requires Chronological(log) && Clock(log) <= use.time
    ensures History(log + [use]) == History(log) + [Keyed(use)] && Chronological(log + [use])
  {
    var longer := log + [use];
    forall i, j | 0 <= i < j < |longer| ensures longer[i].time <= longer[j].time {
      assert longer[i] == log[i] && log[i].time <= Clock(log);
    }
  }

  /**
  What asking for a scope answers after any log of uses, from any number of callers: a hit is the
  latest vector learned for that very scope, under 61 seconds old; and a scope learned less than 61
  seconds ago is missed only if at least 64 other scopes were learned since.
  */
  lemma ScopeAnswers(log: seq<Use>, scope: Scope, now: nat)
    requires Chronological(log) && Clock(log) <= now
    ensures var found, i := Find(AfterGet(Replay(History(log)), now), KeyOf(scope)), LastLearned(log, scope);
            && (found.Some? ==> i >= 0 && found.value == log[i].values && now - log[i].time < 61_000_000_000)
            && (found.None? && i >= 0 && now - log[i].time < 61_000_000_000 ==> |Since(log, scope)| >= 64)
  {
    var history := History(log);
    assert Monotone(history) && Now(history) <= now;
    LookupAnswers(history, KeyOf(scope), now);
    LastLearnedIsLastPut(log, scope);
    PressureIsScopes(log, scope);
  }

  /** The latest vector learned for the scope, under 61 seconds ago. */
  ghost predicate Recent(log: seq<Use>, scope: Scope, now: nat, values: Vector) {
    var i := LastLearned(log, scope);
    i >= 0 && values == log[i].values && now - log[i].time < 61_000_000_000
  }

  /** Learned under 61 seconds ago, and fewer than 64 other scopes since. */
  ghost predicate Retained(log: seq<Use>, scope: Scope, now: nat) {
    var i := LastLearned(log, scope);
    i >= 0 && now - log[i].time < 61_000_000_000 && |Since(log, scope)| < 64
  }

  // -- the service ----------------------------------------------------------------------------

  class QueryEmbedder {
    const sha256: string -> string
    const usable: Vector -> bool
    const cache: KnowledgeQueryCache
    ghost var log: seq<Use>

    ghost predicate Valid()
      reads this, cache
    {
      && cache.Valid() && cache.history == History(log) && Chronological(log)
      && forall i :: 0 <= i < |log| ==> log[i].Learned? ==> usable(log[i].values)
    }

    constructor (sha256: string -> string, usable: Vector -> bool)
      ensures Valid() && log == [] && this.sha256 == sha256 && this.usable == usable && fresh(cache)
    {
      this.sha256, this.usable := sha256, usable;
      cache := new KnowledgeQueryCache();
      log := [];
    }

    /** Embeddings are sought for the widest mode only, when vectors are ready and the pinned model is served. */
    predicate Sought(superWide: bool, vectorsReady: bool, provided: Option<Model>) {
      superWide && vectorsReady && provided.Some? && Validated(provided.value)
    }

    /** Ask the cache. */
    method Recall(scope: Scope, now: nat) returns (found: Option<Vector>)
      requires Valid() && Clock(log) <= now
      modifies this, cache
      ensures Valid() && log == old(log) + [Asked(scope, now)]
      ensures found.Some? ==> Recent(old(log), scope, now, found.value) && usable(found.value)
      ensures Retained(old(log), scope, now) ==> found.Some?
    {
      ScopeAnswers(log, scope, now);
      Extended(log, Asked(scope, now));
      found := cache.Lookup(KeyOf(scope), now);
      log := log + [Asked(scope, now)];
    }

    method Learn(scope: Scope, now: nat, values: Vector)
      requires Valid() && Clock(log) <= now && usable(values)
      modifies this, cache
      ensures Valid() && log == old(log) + [Learned(scope, now, values)]
    {
      Extended(log, Learned(scope, now, values));
      cache.Insert(KeyOf(scope), now, values);
      log := log + [Learned(scope, now, values)];
    }

    /** What a sought embedding is: a recent one from the cache, or the provider's usable answer, which is then learned. */
    ghost predicate Answers(before: seq<Use>, after: seq<Use>, scope: Scope, now: nat, later: nat,
                            answer: Result<Vector>, r: Option<Embedding>) {
      match r
      case None => (answer.Err? || !usable(answer.value)) && after == before + [Asked(scope, now)]
      case Some(Embedding(_, digest, values, cacheHit)) =>
        && digest == scope.inputDigest && usable(values)
        && if cacheHit then Recent(before, scope, now, values) && after == before + [Asked(scope, now)]
           else answer == Ok(values) && after == before + [Asked(scope, now)] + [Learned(scope, later, values)]
    }

    /** From the cache; on a miss, from the provider, whose answer `answer` is. */
    method Serve(model: Model, scope: Scope, answer: Result<Vector>, now: nat, later: nat) returns (r: Option<Embedding>)
      requires Valid() && Clock(log) <= now <= later
      modifies this, cache
      ensures Valid()
      ensures Answers(old(log), log, scope, now, later, answer, r) && (r.Some? ==> r.value.model == model)
      ensures Retained(old(log), scope, now) ==> r.Some? && r.value.cacheHit
    {
      var found := Recall(scope, now);
      if found.Some? {
        return Some(Embedding(model, scope.inputDigest, found.value, true));
      }
      if answer.Err? || !usable(answer.value) {
        return None;
      }
      Learn(scope, later, answer.value);
      return Some(Embedding(model, scope.inputDigest, answer.value, false));
    }

    /**
    The vector of a question: a recent one for the same scope, or a usable answer of the provider,
    which is learned. `now` and `later` are the clock at the lookup and at the insertion.
    */
    method Query(superWide: bool, vectorsReady: bool, provided: Option<Model>,
                 workspace: Uuid, principal: Uuid, generation: int, normalized: string,
                 embed: SearchJobs.Request -> Result<Vector>, now: nat, later: nat)
      returns (r: Option<Embedding>)
      requires Valid() && Clock(log) <= now <= later
      modifies this, cache
      ensures Valid()
      ensures !Sought(superWide, vectorsReady, provided) ==> r.None? && log == old(log)
      ensures Sought(superWide, vectorsReady, provided) ==>
        var input := "query: " + normalized;
        var scope := Scope(workspace, principal, generation, sha256(input));
        && Answers(old(log), log, scope, now, later, embed(SearchJobs.Request(input, sha256(input), provided.value)), r)
        && (r.Some? ==> r.value.model == provided.value)
        && (Retained(old(log), scope, now) ==> r.Some? && r.value.cacheHit)
    {
      if !superWide || !vectorsReady || provided.None? || !Validated(provided.value) {
        return None;
      }
      var input := "query: " + normalized;
      var digest := sha256(input);
      var scope := Scope(workspace, principal, generation, digest);
      r := Serve(provided.value, scope, embed(SearchJobs.Request(input, digest, provided.value)), now, later);
    }
  }
}
