/**
The query-embedding cache: a queue of at most 64 entries that forgets an entry 61 seconds after it
was put. Proved, over every history of calls on a monotone clock, to answer like a map that
remembers the latest value of a key, up to age and to pressure from 64 other keys.
*/
module QueryCache {
  import opened Wrappers
  import opened Collections

  const CAPACITY: nat := 64
  const SECOND: nat := 1_000_000_000
  const MAX_AGE_SECONDS: nat := 60

  type Vector = seq<real>

  datatype Entry = Entry(key: string, created: nat, values: Vector)

  /** Times are clock readings in nanoseconds. */
  datatype Event = Put(key: string, time: nat, values: Vector) | Get(wanted: string, time: nat)

  /** Whole seconds between two readings; an earlier `now` counts as no time at all. */
  function ElapsedSeconds(created: nat, now: nat): nat {
    if now < created then 0 else (now - created) / SECOND
  }

  predicate Fresh(created: nat, now: nat) {
    ElapsedSeconds(created, now) <= MAX_AGE_SECONDS
  }

  // -- the queue ------------------------------------------------------------------------------

  function Retain(entries: seq<Entry>, keep: Entry -> bool): seq<Entry> {
    if entries == [] then [] else
      Retain(entries[..|entries| - 1], keep) +
      if keep(entries[|entries| - 1]) then [entries[|entries| - 1]] else []
  }

  function AfterGet(entries: seq<Entry>, now: nat): seq<Entry> {
    Retain(entries, (e: Entry) => Fresh(e.created, now))
  }

  function Others(entries: seq<Entry>, key: string): seq<Entry> {
    Retain(entries, (e: Entry) => e.key != key)
  }

  function AfterPut(entries: seq<Entry>, key: string, now: nat, values: Vector): seq<Entry> {
    var others := Others(entries, key);
    (if |others| >= CAPACITY then others[1..] else others) + [Entry(key, now, values)]
  }

  function Find(entries: seq<Entry>, key: string): Option<Vector> {
    if entries == [] then None
    else if entries[0].key == key then Some(entries[0].values)
    else Find(entries[1..], key)
  }

  function Apply(entries: seq<Entry>, event: Event): seq<Entry> {
    match event
    case Get(_, now) => AfterGet(entries, now)
    case Put(key, now, values) => AfterPut(entries, key, now, values)
  }

  function Replay(history: seq<Event>): seq<Entry> {
    if history == [] then [] else Apply(Replay(history[..|history| - 1]), history[|history| - 1])
  }

  class KnowledgeQueryCache {
    var entries: seq<Entry>
    ghost var history: seq<Event>

    ghost predicate Valid()
      reads this
    {
      entries == Replay(history)
    }

    constructor ()
      ensures Valid() && history == []
    {
      entries, history := [], [];
    }

    method Lookup(key: string, now: nat) returns (values: Option<Vector>)
      requires Valid()
      modifies this
      ensures Valid() && history == old(history) + [Get(key, now)]
      ensures values == Find(AfterGet(Replay(old(history)), now), key)
    {
      history := history + [Get(key, now)];
      assert history[..|history| - 1] == old(history);
      entries := AfterGet(entries, now);
      var i := 0;
      while i < |entries|
        invariant 0 <= i <= |entries| && Find(entries, key) == Find(entries[i..], key)
      {
        if entries[i].key == key {
          return Some(entries[i].values);
        }
        i := i + 1;
      }
      return None;
    }

    method Insert(key: string, now: nat, values: Vector)
      requires Valid()
      modifies this
      ensures Valid() && history == old(history) + [Put(key, now, values)]
    {
      history := history + [Put(key, now, values)];
      assert history[..|history| - 1] == old(history);
      entries := Others(entries, key);
      if |entries| >= CAPACITY {
        entries := entries[1..];
      }
      entries := entries + [Entry(key, now, values)];
    }
  }

  // -- the timed map --------------------------------------------------------------------------

  ghost predicate Monotone(history: seq<Event>) {
    forall i, j :: 0 <= i < j < |history| ==> history[i].time <= history[j].time
  }

  ghost function Now(history: seq<Event>): nat {
    if history == [] then 0 else history[|history| - 1].time
  }

  ghost predicate Puts(event: Event, key: string) {
    event.Put? && event.key == key
  }

  /** Where `key` was last put, or -1. */
  ghost function LastPut(history: seq<Event>, key: string): (i: int)
    ensures -1 <= i < |history|
    ensures i >= 0 ==> Puts(history[i], key)
    ensures forall j :: i < j < |history| ==> !Puts(history[j], key)
  {
    if history == [] then -1
    else if Puts(history[|history| - 1], key) then |history| - 1
    else LastPut(history[..|history| - 1], key)
  }

  /** The other keys put since `key` was last put. */
  ghost function Pressure(history: seq<Event>, key: string): set<string> {
    set j | LastPut(history, key) < j < |history| && history[j].Put? && history[j].key != key :: history[j].key
  }

  // -- what the queue keeps -------------------------------------------------------------------

  ghost predicate Has(entries: seq<Entry>, key: string) {
    exists i :: 0 <= i < |entries| && entries[i].key == key
  }

  /** Every entry is the latest put of its key. */
  ghost predicate Latest(history: seq<Event>, entries: seq<Entry>) {
    forall p :: 0 <= p < |entries| ==>
      var i := LastPut(history, entries[p].key);
      i >= 0 && history[i].time == entries[p].created && history[i].values == entries[p].values
  }

  /** Entries stand in the order of their puts; so keys are distinct. */
  ghost predicate PutOrder(history: seq<Event>, entries: seq<Entry>) {
    forall p, q :: 0 <= p < q < |entries| ==> LastPut(history, entries[p].key) < LastPut(history, entries[q].key)
  }

  /** A missing key was never put, is too old, or has been pushed out by 64 others. */
  ghost predicate Excused(history: seq<Event>, entries: seq<Entry>, key: string) {
    var i := LastPut(history, key);
    i < 0 || Has(entries, key) || !Fresh(history[i].time, Now(history)) || |Pressure(history, key)| >= CAPACITY
  }

  ghost predicate Sound(history: seq<Event>, entries: seq<Entry>) {
    && |entries| <= CAPACITY
    && Latest(history, entries)
    && PutOrder(history, entries)
    && forall key :: Excused(history, entries, key)
  }

  lemma {:induction false} RetainFacts(entries: seq<Entry>, keep: Entry -> bool)
    ensures |Retain(entries, keep)| <= |entries|
    ensures forall e :: e in Retain(entries, keep) <==> e in entries && keep(e)
  {
    if entries == [] {
    } else {
      RetainFacts(entries[..|entries| - 1], keep);
      assert entries == entries[..|entries| - 1] + [entries[|entries| - 1]];
    }
  }

  lemma RetainLatest(history: seq<Event>, entries: seq<Entry>, keep: Entry -> bool)
    requires Latest(history, entries)
    ensures Latest(history, Retain(entries, keep))
  {
    var kept := Retain(entries, keep);
    RetainFacts(entries, keep);
    forall p | 0 <= p < |kept|
      ensures var i := LastPut(history, kept[p].key);
              i >= 0 && history[i].time == kept[p].created && history[i].values == kept[p].values
    {
      assert kept[p] in entries;
    }
  }

  /** All entries were put before the last put of `key`. */
  ghost predicate AllBefore(history: seq<Event>, entries: seq<Entry>, key: string) {
    forall p :: 0 <= p < |entries| ==> LastPut(history, entries[p].key) < LastPut(history, key)
  }

  lemma PutOrderAppend(history: seq<Event>, entries: seq<Entry>, last: Entry)
    ensures PutOrder(history, entries + [last]) <==> PutOrder(history, entries) && AllBefore(history, entries, last.key)
  {
    var longer := entries + [last];
    if PutOrder(history, longer) {
      forall p, q | 0 <= p < q < |entries| ensures LastPut(history, entries[p].key) < LastPut(history, entries[q].key) {
        assert longer[p] == entries[p] && longer[q] == entries[q];
      }
      forall p | 0 <= p < |entries| ensures LastPut(history, entries[p].key) < LastPut(history, last.key) {
        assert longer[p] == entries[p] && longer[|entries|] == last;
      }
    }
  }

  lemma {:induction false} RetainOrder(history: seq<Event>, entries: seq<Entry>, keep: Entry -> bool)
    requires PutOrder(history, entries)
    ensures PutOrder(history, Retain(entries, keep))
  {
    if entries == [] {
    } else {
      var init, last := entries[..|entries| - 1], entries[|entries| - 1];
      assert entries == init + [last];
      PutOrderAppend(history, init, last);
      RetainOrder(history, init, keep);
      var kept := Retain(init, keep);
      RetainFacts(init, keep);
      forall p | 0 <= p < |kept| ensures LastPut(history, kept[p].key) < LastPut(history, last.key) {
        assert kept[p] in init;
      }
      PutOrderAppend(history, kept, last);
    }
  }

  lemma RetainHas(entries: seq<Entry>, keep: Entry -> bool, key: string)
    requires Has(entries, key) && forall e :: e in entries && e.key == key ==> keep(e)
    ensures Has(Retain(entries, keep), key)
  {
    RetainFacts(entries, keep);
    var i :| 0 <= i < |entries| && entries[i].key == key;
    assert entries[i] in Retain(entries, keep);
  }

  lemma LastPutStep(history: seq<Event>, event: Event, key: string)
    ensures LastPut(history + [event], key) == if Puts(event, key) then |history| else LastPut(history, key)
  {
    assert (history + [event])[..|history|] == history;
  }

  lemma PressureStep(history: seq<Event>, event: Event, key: string)
    requires !Puts(event, key)
    ensures Pressure(history + [event], key) == Pressure(history, key) + if event.Put? then {event.key} else {}
  {
    LastPutStep(history, event, key);
    var longer := history + [event];
    assert forall j :: 0 <= j < |history| ==> longer[j] == history[j];
    assert longer[|history|] == event;
    if event.Put? {
      assert event.key in Pressure(longer, key);
    }
    forall k | k in Pressure(history, key) ensures k in Pressure(longer, key) {
      var j :| LastPut(history, key) < j < |history| && history[j].Put? && history[j].key != key && history[j].key == k;
      assert longer[j].key == k;
    }
  }

  /** What was too old stays too old, and pressure only grows, until the key is put again. */
  lemma StillExcused(history: seq<Event>, event: Event, key: string)
    requires Monotone(history + [event]) && !Puts(event, key)
    requires LastPut(history, key) >= 0
    requires !Fresh(history[LastPut(history, key)].time, Now(history)) || |Pressure(history, key)| >= CAPACITY
    ensures forall entries :: Excused(history + [event], entries, key)
  {
    var longer := history + [event];
    LastPutStep(history, event, key);
    PressureStep(history, event, key);
    SubsetSize(Pressure(history, key), Pressure(longer, key));
    var i := LastPut(history, key);
    assert longer[i] == history[i];
    assert longer[|history| - 1].time <= longer[|history|].time;
    ElapsedGrows(history[i].time, Now(history), event.time);
  }

  lemma ElapsedGrows(created: nat, a: nat, b: nat)
    requires a <= b
    ensures ElapsedSeconds(created, a) <= ElapsedSeconds(created, b)
  {
    if created <= a {
      var x, y := a - created, b - created;
      assert x / SECOND <= y / SECOND;
    }
  }

  // -- one more event -------------------------------------------------------------------------

  /** Events about other keys do not disturb what is known of an entry. */
  lemma LatestStep(history: seq<Event>, event: Event, entries: seq<Entry>)
    requires Latest(history, entries) && PutOrder(history, entries)
    requires forall p :: 0 <= p < |entries| ==> !Puts(event, entries[p].key)
    ensures Latest(history + [event], entries) && PutOrder(history + [event], entries)
  {
    forall p | 0 <= p < |entries|
      ensures LastPut(history + [event], entries[p].key) == LastPut(history, entries[p].key)
    {
      LastPutStep(history, event, entries[p].key);
    }
  }

  lemma GetExcuses(history: seq<Event>, event: Event, entries: seq<Entry>, key: string)
    requires event.Get? && Monotone(history + [event]) && Sound(history, entries) && entries == Replay(history)
    ensures Excused(history + [event], AfterGet(entries, event.time), key)
  {
    var longer := history + [event];
    assert longer[..|history|] == history;
    LastPutStep(history, event, key);
    assert Excused(history, entries, key);
    var i := LastPut(history, key);
    if i >= 0 {
      assert longer[i] == history[i];
      if Has(entries, key) {
        if Fresh(history[i].time, event.time) {
          assert Latest(history, entries);
          RetainHas(entries, (e: Entry) => Fresh(e.created, event.time), key);
        }
      } else {
        StillExcused(history, event, key);
      }
    }
  }

  lemma GetKeeps(history: seq<Event>, event: Event)
    requires event.Get? && Monotone(history + [event]) && Sound(history, Replay(history))
    ensures Sound(history + [event], AfterGet(Replay(history), event.time))
  {
    var entries := Replay(history);
    var keep := (e: Entry) => Fresh(e.created, event.time);
    RetainFacts(entries, keep);
    LatestStep(history, event, entries);
    RetainLatest(history + [event], entries, keep);
    RetainOrder(history + [event], entries, keep);
    forall key ensures Excused(history + [event], AfterGet(entries, event.time), key) {
      GetExcuses(history, event, entries, key);
    }
  }

  ghost function Keys(entries: seq<Entry>): set<string> {
    set p | 0 <= p < |entries| :: entries[p].key
  }

  lemma {:induction false} KeysCount(history: seq<Event>, entries: seq<Entry>)
    requires PutOrder(history, entries)
    ensures |Keys(entries)| == |entries|
  {
    if entries == [] {
      assert Keys(entries) == {};
    } else {
      var init, last := entries[..|entries| - 1], entries[|entries| - 1];
      assert entries == init + [last];
      PutOrderAppend(history, init, last);
      KeysCount(history, init);
      assert Keys(entries) == Keys(init) + {last.key};
    }
  }

  /** The front entry of a full queue has seen 63 later puts; the incoming key is the 64th. */
  lemma FrontUnderPressure(history: seq<Event>, event: Event, queue: seq<Entry>)
    requires event.Put? && Latest(history, queue) && PutOrder(history, queue) && |queue| == 64
    requires forall p :: 0 <= p < |queue| ==> queue[p].key != event.key
    ensures |Pressure(history + [event], queue[0].key)| >= 64
  {
    var front, rest := queue[0].key, queue[1..];
    PressureStep(history, event, front);
    assert PutOrder(history, rest) by {
      assert forall p :: 0 <= p < |rest| ==> rest[p] == queue[p + 1];
    }
    KeysCount(history, rest);
    forall k | k in Keys(rest) ensures k in Pressure(history, front) && k != event.key {
      var p :| 0 <= p < |rest| && rest[p].key == k;
      assert rest[p] == queue[p + 1];
      assert LastPut(history, queue[0].key) < LastPut(history, queue[p + 1].key);
    }
    SubsetSize(Keys(rest) + {event.key}, Pressure(history + [event], front));
  }

  lemma PutExcuses(history: seq<Event>, event: Event, entries: seq<Entry>, key: string)
    requires event.Put? && Monotone(history + [event]) && Sound(history, entries) && entries == Replay(history)
    ensures Excused(history + [event], AfterPut(entries, event.key, event.time, event.values), key)
  {
    var longer, others := history + [event], Others(entries, event.key);
    var keep := (e: Entry) => e.key != event.key;
    var after := AfterPut(entries, event.key, event.time, event.values);
    assert longer[..|history|] == history;
    if key == event.key {
      assert after[|after| - 1].key == key;
    } else if LastPut(history, key) >= 0 {
      assert Excused(history, entries, key);
      if Has(entries, key) {
        RetainFacts(entries, keep);
        RetainHas(entries, keep, key);
        RetainLatest(history, entries, keep);
        RetainOrder(history, entries, keep);
        PushedOut(history, event, others, key);
      } else {
        StillExcused(history, event, key);
      }
    } else {
      LastPutStep(history, event, key);
    }
  }

  /** A key among the others is still there after the put, or it was the front of a full queue. */
  lemma PushedOut(history: seq<Event>, event: Event, others: seq<Entry>, key: string)
    requires event.Put? && Latest(history, others) && PutOrder(history, others) && |others| <= CAPACITY
    requires forall e :: e in others ==> e.key != event.key
    requires Has(others, key)
    ensures var kept := if |others| >= CAPACITY then others[1..] else others;
            Has(kept + [Entry(event.key, event.time, event.values)], key) || |Pressure(history + [event], key)| >= CAPACITY
  {
    var p :| 0 <= p < |others| && others[p].key == key;
    var kept := if |others| >= CAPACITY then others[1..] else others;
    var after := kept + [Entry(event.key, event.time, event.values)];
    if |others| < CAPACITY {
      assert after[p].key == key;
    } else if p > 0 {
      assert after[p - 1].key == key;
    } else {
      FrontUnderPressure(history, event, others);
    }
  }

  lemma DropFront(history: seq<Event>, queue: seq<Entry>)
    requires queue != [] && Latest(history, queue) && PutOrder(history, queue)
    ensures Latest(history, queue[1..]) && PutOrder(history, queue[1..])
  {
    var rest := queue[1..];
    forall p, q | 0 <= p < q < |rest| ensures LastPut(history, rest[p].key) < LastPut(history, rest[q].key) {
      assert rest[p] == queue[p + 1] && rest[q] == queue[q + 1];
    }
    forall p | 0 <= p < |rest|
      ensures var i := LastPut(history, rest[p].key);
              i >= 0 && history[i].time == rest[p].created && history[i].values == rest[p].values
    {
      assert rest[p] == queue[p + 1];
    }
  }

  lemma PutOrders(history: seq<Event>, event: Event, entries: seq<Entry>)
    requires event.Put? && |entries| <= CAPACITY && Latest(history, entries) && PutOrder(history, entries)
    ensures var after := AfterPut(entries, event.key, event.time, event.values);
            |after| <= CAPACITY && Latest(history + [event], after) && PutOrder(history + [event], after)
  {
    var keep := (e: Entry) => e.key != event.key;
    var others := Others(entries, event.key);
    RetainFacts(entries, keep);
    RetainLatest(history, entries, keep);
    RetainOrder(history, entries, keep);
    assert forall p :: 0 <= p < |others| ==> others[p] in others;
    LatestStep(history, event, others);
    if |others| >= CAPACITY {
      DropFront(history + [event], others);
    }
    AppendNewest(history, event, if |others| >= CAPACITY then others[1..] else others);
  }

  lemma PutKeeps(history: seq<Event>, event: Event)
    requires event.Put? && Monotone(history + [event]) && Sound(history, Replay(history))
    ensures Sound(history + [event], AfterPut(Replay(history), event.key, event.time, event.values))
  {
    var entries := Replay(history);
    PutOrders(history, event, entries);
    forall key ensures Excused(history + [event], AfterPut(entries, event.key, event.time, event.values), key) {
      PutExcuses(history, event, entries, key);
    }
  }

  lemma AppendNewest(history: seq<Event>, event: Event, kept: seq<Entry>)
    requires event.Put? && Latest(history + [event], kept) && PutOrder(history + [event], kept)
    requires forall p :: 0 <= p < |kept| ==> kept[p].key != event.key
    ensures Latest(history + [event], kept + [Entry(event.key, event.time, event.values)])
    ensures PutOrder(history + [event], kept + [Entry(event.key, event.time, event.values)])
  {
    var newest := Entry(event.key, event.time, event.values);
    LastPutStep(history, event, event.key);
    assert (history + [event])[|history|] == event;
    forall p | 0 <= p < |kept| ensures LastPut(history + [event], kept[p].key) < |history| {
      LastPutStep(history, event, kept[p].key);
    }
    PutOrderAppend(history + [event], kept, newest);
  }

  // -- whole histories ------------------------------------------------------------------------

  lemma {:induction false} ReplaySound(history: seq<Event>)
    requires Monotone(history)
    ensures Sound(history, Replay(history))
  {
    if history == [] {
    } else {
      var init, event := history[..|history| - 1], history[|history| - 1];
      assert history == init + [event];
      ReplaySound(init);
      if event.Get? {
        GetKeeps(init, event);
      } else {
        PutKeeps(init, event);
      }
    }
  }

  lemma {:induction false} FindFirst(entries: seq<Entry>, key: string)
    ensures Find(entries, key).Some? <==> Has(entries, key)
    ensures Find(entries, key).Some? ==> exists p :: 0 <= p < |entries| && entries[p].key == key && entries[p].values == Find(entries, key).value
  {
    if entries == [] || entries[0].key == key {
    } else {
      var rest := entries[1..];
      FindFirst(rest, key);
      if Has(rest, key) {
        var p :| 0 <= p < |rest| && rest[p].key == key && rest[p].values == Find(rest, key).value;
        assert entries[p + 1] == rest[p];
      }
      if Has(entries, key) {
        var p :| 0 <= p < |entries| && entries[p].key == key;
        assert rest[p - 1] == entries[p];
      }
    }
  }

  /**
  What a lookup answers after any history: a hit is the latest value put for the key and is less
  than 61 seconds old; a miss on a key put less than 61 seconds ago means that at least 64 other
  keys have been put since.
  */
  lemma LookupAnswers(history: seq<Event>, key: string, now: nat)
    requires Monotone(history) && Now(history) <= now
    ensures var found, i := Find(AfterGet(Replay(history), now), key), LastPut(history, key);
            && (found.Some? ==> i >= 0 && found.value == history[i].values && now - history[i].time < 61_000_000_000)
            && (found.None? && i >= 0 && now - history[i].time < 61_000_000_000 ==> |Pressure(history, key)| >= 64)
  {
    ReplaySound(history);
    if Has(AfterGet(Replay(history), now), key) {
      HitIsLatest(history, key, now);
    } else {
      FindFirst(AfterGet(Replay(history), now), key);
      if LastPut(history, key) >= 0 {
        MissIsExcused(history, key, now);
      }
    }
  }

  lemma HitIsLatest(history: seq<Event>, key: string, now: nat)
    requires Monotone(history) && Now(history) <= now && Latest(history, Replay(history))
    requires Has(AfterGet(Replay(history), now), key)
    ensures var found, i := Find(AfterGet(Replay(history), now), key), LastPut(history, key);
            found.Some? && i >= 0 && found.value == history[i].values && now - history[i].time < 61_000_000_000
  {
    var keep := (e: Entry) => Fresh(e.created, now);
    var kept := AfterGet(Replay(history), now);
    RetainFacts(Replay(history), keep);
    RetainLatest(history, Replay(history), keep);
    FindFirst(kept, key);
    var p :| 0 <= p < |kept| && kept[p].key == key && kept[p].values == Find(kept, key).value;
    assert kept[p] in kept;
    PutTimeBounded(history, LastPut(history, key));
    FreshMeans(kept[p].created, now);
  }

  lemma MissIsExcused(history: seq<Event>, key: string, now: nat)
    requires Monotone(history) && Now(history) <= now && Sound(history, Replay(history))
    requires !Has(AfterGet(Replay(history), now), key) && LastPut(history, key) >= 0
    ensures now - history[LastPut(history, key)].time < 61_000_000_000 ==> |Pressure(history, key)| >= 64
  {
    var entries, i := Replay(history), LastPut(history, key);
    assert Excused(history, entries, key);
    PutTimeBounded(history, i);
    FreshMeans(history[i].time, now);
    ElapsedGrows(history[i].time, Now(history), now);
    if Has(entries, key) && Fresh(history[i].time, now) {
      RetainHas(entries, (e: Entry) => Fresh(e.created, now), key);
    }
  }

  lemma FreshMeans(created: nat, now: nat)
    requires created <= now
    ensures Fresh(created, now) <==> now - created < 61_000_000_000
  {
  }

  lemma PutTimeBounded(history: seq<Event>, i: nat)
    requires Monotone(history) && i < |history|
    ensures history[i].time <= Now(history)
  {
  }

  /** The queue itself: at most 64 entries, distinct keys, insertion times in order. */
  lemma QueueShape(history: seq<Event>)
    requires Monotone(history)
    ensures |Replay(history)| <= 64
    ensures forall p, q :: 0 <= p < q < |Replay(history)| ==>
      Replay(history)[p].key != Replay(history)[q].key && Replay(history)[p].created <= Replay(history)[q].created
  {
    ReplaySound(history);
    var entries := Replay(history);
    forall p, q | 0 <= p < q < |entries| ensures entries[p].key != entries[q].key && entries[p].created <= entries[q].created {
      assert LastPut(history, entries[p].key) < LastPut(history, entries[q].key);
    }
  }
}
