/**
 Callbacks that wait for events. A one-shot callback runs at the next event only, a persistent one at every
 event; a persistent event goes on for whatever is scheduled later, until everything is purged.
 */
module Callbacks {

  type Event = int

  /** The name tells callbacks apart; running one is recorded. */
  datatype Callback = Callback(name: string, registerer: string)

  // ---------- Histories ----------

  datatype Op =
    | Fire(event: Event)
    | FireForGood(event: Event)
    | Schedule(event: Event, once: bool, callback: Callback)
    | Purged

  datatype Waiting = Waiting(once: seq<Callback>, always: seq<Callback>)

  datatype State = State(scheduled: map<Event, Waiting>, persistent: set<Event>, ran: seq<Callback>) {
    function For(e: Event): Waiting {
      if e in scheduled then scheduled[e] else Waiting([], [])
    }
  }

  const NOTHING := State(map[], {}, [])

  /** All that waits for the event runs: the persistent callbacks first, then the others for the last time. */
  function Fired(s: State, e: Event): State {
    if e !in s.scheduled then s
    else
      var w := s.scheduled[e];
      State(s.scheduled[e := Waiting([], w.always)], s.persistent, s.ran + w.always + w.once)
  }

  function Scheduled(s: State, e: Event, once: bool, cb: Callback): State {
    var w := s.For(e);
    var now := e in s.persistent;
    var w' := Waiting(if once && !now then w.once + [cb] else w.once, if once then w.always else w.always + [cb]);
    State(
      s.scheduled[e := w'],
      s.persistent,
      if now then s.ran + [cb] else s.ran)
  }

  function Apply(s: State, op: Op): State {
    match op
    case Fire(e) => Fired(s, e)
    case FireForGood(e) => Fired(s.(persistent := s.persistent + {e}), e)
    case Schedule(e, once, cb) => Scheduled(s, e, once, cb)
    case Purged => State(map[], {}, s.ran)
  }

  function After(s: State, ops: seq<Op>): State
    decreases |ops|
  {
    if ops == [] then s else After(Apply(s, ops[0]), ops[1..])
  }

  lemma {:induction false} AfterBoth(s: State, a: seq<Op>, b: seq<Op>)
    ensures After(s, a + b) == After(After(s, a), b)
    decreases |a|
  {
    if a == [] {
      assert a + b == b;
    } else {
      assert (a + b)[1..] == a[1..] + b;
      AfterBoth(Apply(s, a[0]), a[1..], b);
    }
  }

  // ---------- One-shot callbacks do not pile up behind a persistent event ----------

  ghost predicate NobodyWaitsInVain(s: State) {
    forall e <- s.persistent :: s.For(e).once == []
  }

  lemma ApplyKeeps(s: State, op: Op)
    requires NobodyWaitsInVain(s)
    ensures NobodyWaitsInVain(Apply(s, op))
  {
    var s' := Apply(s, op);
    forall e <- s'.persistent ensures s'.For(e).once == [] {
      if e in s.persistent { assert s.For(e).once == []; }
    }
  }

  /** Over every history: once an event is persistent, no one-shot callback waits for it until a purge. */
  lemma {:induction false} PersistentEventLeavesNoOneWaiting(s: State, ops: seq<Op>)
    requires NobodyWaitsInVain(s)
    ensures NobodyWaitsInVain(After(s, ops))
    decreases |ops|
  {
    if ops != [] {
      ApplyKeeps(s, ops[0]);
      PersistentEventLeavesNoOneWaiting(Apply(s, ops[0]), ops[1..]);
    }
  }

  // ---------- In which order callbacks run ----------

  /** The persistent callbacks scheduled for the event since the last purge, in order. */
  function Persistent(ops: seq<Op>, e: Event): seq<Callback> {
    if ops == [] then []
    else
      var earlier := Persistent(ops[..|ops| - 1], e);
      match ops[|ops| - 1]
      case Purged => []
      case Schedule(f, once, cb) => if f == e && !once then earlier + [cb] else earlier
      case _ => earlier
  }

  /** The one-shot callbacks scheduled for the event since it last occurred, unless it is persistent, in order. */
  function OneShots(ops: seq<Op>, e: Event): seq<Callback> {
    if ops == [] then []
    else
      var before := ops[..|ops| - 1];
      var earlier := OneShots(before, e);
      match ops[|ops| - 1]
      case Purged => []
      case Fire(f) => if f == e then [] else earlier
      case FireForGood(f) => if f == e then [] else earlier
      case Schedule(f, once, cb) => if f == e && once && !ForGood(before, e) then earlier + [cb] else earlier
  }

  lemma {:induction false} WaitingInOrder(ops: seq<Op>, e: Event)
    ensures After(NOTHING, ops).For(e) == Waiting(OneShots(ops, e), Persistent(ops, e))
  {
    hide ForGood;
    if ops != [] {
      var n := |ops| - 1;
      var before, last := ops[..n], ops[n];
      WaitingInOrder(before, e);
      ForGoodExactly(before, e);
      AfterBoth(NOTHING, before, [last]);
      assert ops == before + [last] && [last][1..] == [];
      assert After(After(NOTHING, before), [last]) == Apply(After(NOTHING, before), last);
    }
  }

  /** After any history an event runs the persistent callbacks and then the one-shots, each in order of scheduling. */
  lemma EventRunsInOrder(ops: seq<Op>, e: Event)
    ensures After(NOTHING, ops + [Fire(e)]).ran == After(NOTHING, ops).ran + Persistent(ops, e) + OneShots(ops, e)
    ensures After(NOTHING, ops + [FireForGood(e)]).ran == After(NOTHING, ops + [Fire(e)]).ran
  {
    hide OneShots, Persistent;
    var s := After(NOTHING, ops);
    WaitingInOrder(ops, e);
    AfterBoth(NOTHING, ops, [Fire(e)]);
    AfterBoth(NOTHING, ops, [FireForGood(e)]);
    assert [Fire(e)][1..] == [] && [FireForGood(e)][1..] == [];
    assert After(s, [Fire(e)]) == Fired(s, e);
    assert After(s, [FireForGood(e)]) == Fired(s.(persistent := s.persistent + {e}), e);
    assert s.ran + [] + [] == s.ran;
  }

  // ---------- How often a callback runs ----------

  /** The event was made persistent, and nothing was purged since. */
  predicate ForGood(ops: seq<Op>, e: Event) {
    ops != [] &&
    var last := ops[|ops| - 1];
    (last == FireForGood(e) || (!last.Purged? && ForGood(ops[..|ops| - 1], e)))
  }

  lemma {:induction false} ForGoodExactly(ops: seq<Op>, e: Event)
    ensures e in After(NOTHING, ops).persistent <==> ForGood(ops, e)
  {
    if ops != [] {
      var n := |ops| - 1;
      ForGoodExactly(ops[..n], e);
      AfterBoth(NOTHING, ops[..n], [ops[n]]);
      assert ops == ops[..n] + [ops[n]];
      assert After(After(NOTHING, ops[..n]), [ops[n]]) == Apply(After(NOTHING, ops[..n]), ops[n]);
    }
  }

  /** How often the event occurs, of either kind, before the next purge. */
  function Occurrences(ops: seq<Op>, e: Event): nat {
    if ops == [] || ops[0].Purged? then 0
    else (if ops[0] == Fire(e) || ops[0] == FireForGood(e) then 1 else 0) + Occurrences(ops[1..], e)
  }

  ghost predicate Mentions(ops: seq<Op>, cb: Callback) {
    exists op <- ops :: op.Schedule? && op.callback == cb
  }

  function Times(s: seq<Callback>, cb: Callback): nat { multiset(s)[cb] }

  /** The callback waits for no event but `e`. */
  ghost predicate WaitsOnlyFor(s: State, e: Event, cb: Callback) {
    forall f <- s.scheduled :: f != e ==> cb !in s.scheduled[f].once && cb !in s.scheduled[f].always
  }

  /** One operation that does not schedule the callback itself. */
  lemma OneOperation(s: State, op: Op, e: Event, cb: Callback)
    requires WaitsOnlyFor(s, e, cb) && !(op.Schedule? && op.callback == cb)
    ensures
      var s' := Apply(s, op);
      var w, w' := s.For(e), s'.For(e);
      && WaitsOnlyFor(s', e, cb)
      && if op.Purged? then
           w' == Waiting([], []) && s'.ran == s.ran
         else if op == Fire(e) || op == FireForGood(e) then
           && Times(s'.ran, cb) == Times(s.ran, cb) + Times(w.once, cb) + Times(w.always, cb)
           && w'.once == [] && w'.always == w.always
         else
           && Times(s'.ran, cb) == Times(s.ran, cb)
           && Times(w'.once, cb) == Times(w.once, cb) && Times(w'.always, cb) == Times(w.always, cb)
  {
    hide Fired, Scheduled, State.For, WaitsOnlyFor, Times;
    match op
    case Fire(f) => OneEvent(s, f, e, cb);
    case FireForGood(f) =>
      OnlyTheEventIsPersistent(s, f, e, cb);
      OneEvent(s.(persistent := s.persistent + {f}), f, e, cb);
    case Schedule(f, once, c) => OneScheduling(s, f, once, c, e, cb);
    case Purged => OnePurge(s, e, cb);
  }

  lemma OnlyTheEventIsPersistent(s: State, f: Event, e: Event, cb: Callback)
    requires WaitsOnlyFor(s, e, cb)
    ensures var s' := s.(persistent := s.persistent + {f});
      WaitsOnlyFor(s', e, cb) && s'.For(e) == s.For(e)
  {}

  lemma OnePurge(s: State, e: Event, cb: Callback)
    ensures var s' := State(map[], {}, s.ran);
      WaitsOnlyFor(s', e, cb) && s'.For(e) == Waiting([], [])
  {}

  lemma OneScheduling(s: State, f: Event, once: bool, c: Callback, e: Event, cb: Callback)
    requires WaitsOnlyFor(s, e, cb) && c != cb
    ensures
      var s' := Scheduled(s, f, once, c);
      var w, w' := s.For(e), s'.For(e);
      && WaitsOnlyFor(s', e, cb) && Times(s'.ran, cb) == Times(s.ran, cb)
      && Times(w'.once, cb) == Times(w.once, cb) && Times(w'.always, cb) == Times(w.always, cb)
  {
    if f != e { assert cb !in s.For(f).once && cb !in s.For(f).always; }
  }

  lemma OneEvent(s: State, f: Event, e: Event, cb: Callback)
    requires WaitsOnlyFor(s, e, cb)
    ensures
      var s' := Fired(s, f);
      var w, w' := s.For(e), s'.For(e);
      && WaitsOnlyFor(s', e, cb)
      && if f == e then
           && Times(s'.ran, cb) == Times(s.ran, cb) + Times(w.once, cb) + Times(w.always, cb)
           && w'.once == [] && w'.always == w.always
         else
           Times(s'.ran, cb) == Times(s.ran, cb) && w' == w
  {
    if f in s.scheduled {
      var v := s.scheduled[f];
      if f != e { assert cb !in v.once && cb !in v.always; }
      assert multiset(s.ran + v.always + v.once) == multiset(s.ran) + multiset(v.always) + multiset(v.once);
    }
  }

  lemma NotMentioned(ops: seq<Op>, cb: Callback)
    requires !Mentions(ops, cb) && ops != []
    ensures !Mentions(ops[1..], cb) && !(ops[0].Schedule? && ops[0].callback == cb)
  {
    assert ops[0] in ops;
  }

  lemma NoTimes(cb: Callback)
    ensures Times([], cb) == 0
  {}

  lemma OneMore(m: nat, n: nat)
    ensures m * (1 + n) == m + m * n
  {}

  /** What still waits in a state decides how often the callback runs from there on. */
  lemma {:induction false} RunsFromHere(s: State, ops: seq<Op>, e: Event, cb: Callback)
    requires WaitsOnlyFor(s, e, cb) && !Mentions(ops, cb)
    ensures Times(After(s, ops).ran, cb) == Times(s.ran, cb)
      + Times(s.For(e).always, cb) * Occurrences(ops, e)
      + (if Occurrences(ops, e) > 0 then Times(s.For(e).once, cb) else 0)
    decreases |ops|
  {
    hide Apply, WaitsOnlyFor, State.For, Times, Mentions;
    if ops != [] {
      var s' := Apply(s, ops[0]);
      NotMentioned(ops, cb);
      OneOperation(s, ops[0], e, cb);
      RunsFromHere(s', ops[1..], e, cb);
      OneMore(Times(s.For(e).always, cb), Occurrences(ops[1..], e));
      if ops[0].Purged? || ops[0] == Fire(e) || ops[0] == FireForGood(e) { NoTimes(cb); }
    }
  }

  /** A callback that was never scheduled neither waits nor has run. */
  lemma {:induction false} NotYetScheduled(s: State, ops: seq<Op>, e: Event, cb: Callback)
    requires WaitsOnlyFor(s, e, cb) && !Mentions(ops, cb)
    requires Times(s.For(e).once, cb) == 0 && Times(s.For(e).always, cb) == 0
    ensures var s' := After(s, ops);
      && WaitsOnlyFor(s', e, cb) && Times(s'.ran, cb) == Times(s.ran, cb)
      && Times(s'.For(e).once, cb) == 0 && Times(s'.For(e).always, cb) == 0
    decreases |ops|
  {
    hide Apply, WaitsOnlyFor, Mentions;
    if ops != [] {
      NotMentioned(ops, cb);
      OneOperation(s, ops[0], e, cb);
      NotYetScheduled(Apply(s, ops[0]), ops[1..], e, cb);
    }
  }

  /** How often a callback runs that is scheduled for an event that occurs so many times before the next purge. */
  function Expected(once: bool, now: bool, occurrences: nat): nat {
    if once then (if now || occurrences > 0 then 1 else 0)
    else (if now then 1 else 0) + occurrences
  }

  /**
   Over every history, how often a callback runs that is scheduled at one point of it: a one-shot callback
   at most once, and exactly once if its event was persistent already or occurs later before a purge; a
   persistent one once for each later occurrence before a purge, and once more if its event was persistent.
   */
  lemma RunsExactly(before: seq<Op>, e: Event, once: bool, cb: Callback, later: seq<Op>)
    requires !Mentions(before, cb) && !Mentions(later, cb)
    ensures Times(After(NOTHING, before + [Schedule(e, once, cb)] + later).ran, cb)
         == Expected(once, ForGood(before, e), Occurrences(later, e))
  {
    hide Mentions, ForGood, Occurrences;
    var op := Schedule(e, once, cb);
    var s := After(NOTHING, before);
    NotYetScheduled(NOTHING, before, e, cb);
    ForGoodExactly(before, e);
    AfterBoth(NOTHING, before + [op], later);
    AfterBoth(NOTHING, before, [op]);
    assert After(s, [op]) == Apply(s, op);
    JustScheduled(s, e, once, cb);
    RunsFromHere(Apply(s, op), later, e, cb);
  }

  lemma JustScheduled(s: State, e: Event, once: bool, cb: Callback)
    requires WaitsOnlyFor(s, e, cb) && Times(s.ran, cb) == 0
    requires Times(s.For(e).once, cb) == 0 && Times(s.For(e).always, cb) == 0
    ensures var s' := Scheduled(s, e, once, cb);
      && WaitsOnlyFor(s', e, cb)
      && Times(s'.ran, cb) == (if e in s.persistent then 1 else 0)
      && Times(s'.For(e).once, cb) == (if once && e !in s.persistent then 1 else 0)
      && Times(s'.For(e).always, cb) == (if once then 0 else 1)
  {
    var w := s.For(e);
    assert multiset(w.once + [cb]) == multiset(w.once) + multiset{cb};
    assert multiset(w.always + [cb]) == multiset(w.always) + multiset{cb};
    assert multiset(s.ran + [cb]) == multiset(s.ran) + multiset{cb};
  }

  // ---------- The registry ----------

  /** Nothing waits for the event yet, but it has a place to wait. */
  function Opened(s: State, e: Event): State { s.(scheduled := s.scheduled[e := s.For(e)]) }

  lemma OpeningChangesNothing(s: State, e: Event, once: bool, cb: Callback)
    ensures Scheduled(Opened(s, e), e, once, cb) == Scheduled(s, e, once, cb)
  {
    var after := Scheduled(s, e, once, cb);
    assert s.scheduled[e := s.For(e)][e := after.scheduled[e]] == s.scheduled[e := after.scheduled[e]];
  }

  class Collection {
    var runOnce: seq<Callback>
    var persistentCallbacks: seq<Callback>

    constructor ()
      ensures runOnce == [] && persistentCallbacks == []
    {
      runOnce, persistentCallbacks := [], [];
    }

    function Value(): Waiting
      reads this
    {
      Waiting(runOnce, persistentCallbacks)
    }
  }

  /** The tables of the package, with the record of what ran. */
  class Registry {
    var scheduled: map<Event, Collection>
    var persistentEvents: map<Event, bool>
    var ran: seq<Callback>

    constructor ()
      ensures Valid() && Model() == NOTHING
    {
      scheduled, persistentEvents, ran := map[], map[], [];
    }

    /** Every event has a collection of its own. */
    ghost predicate Valid()
      reads this
    {
      forall e <- scheduled, f <- scheduled :: scheduled[e] == scheduled[f] ==> e == f
    }

    ghost function Model(): State
      reads this, scheduled.Values
    {
      State(
        (map e | e in scheduled :: scheduled[e].Value()),
        (set e | e in persistentEvents && persistentEvents[e]),
        ran)
    }

    method RunAll(callbacks: seq<Callback>)
      modifies this`ran
      ensures ran == old(ran) + callbacks
    {
      for i := 0 to |callbacks|
        invariant ran == old(ran) + callbacks[..i]
      {
        ran := ran + [callbacks[i]];
      }
    }

    method RegisterEvent(event: Event)
      requires Valid()
      modifies this`ran, scheduled.Values
      ensures Valid() && Model() == Fired(old(Model()), event)
    {
      if event !in scheduled { return; }
      var collection := scheduled[event];
      assert collection in scheduled.Values;
      ghost var before := Model();
      RunAll(collection.persistentCallbacks);
      RunAll(collection.runOnce);
      collection.runOnce := [];
      forall e <- scheduled | e != event ensures scheduled[e].Value() == before.scheduled[e] {
        assert scheduled[e] != collection;
      }
      assert Model() == Fired(before, event);
    }

    method RegisterPersistentEvent(event: Event)
      requires Valid()
      modifies this`ran, this`persistentEvents, scheduled.Values
      ensures Valid() && Model() == Apply(old(Model()), FireForGood(event))
    {
      persistentEvents := persistentEvents[event := true];
      assert Model() == old(Model()).(persistent := old(Model()).persistent + {event});
      RegisterEvent(event);
    }

    /** The collection of the event, made now if there is none. */
    method CollectionFor(event: Event) returns (collection: Collection)
      requires Valid()
      modifies this`scheduled
      ensures Valid() && event in scheduled && scheduled[event] == collection
      ensures collection in old(scheduled).Values || fresh(collection)
      ensures Model() == Opened(old(Model()), event)
    {
      ghost var before := Model();
      if event !in scheduled {
        collection := new Collection();
        scheduled := scheduled[event := collection];
      }
      collection := scheduled[event];
      assert Model().scheduled == before.scheduled[event := before.For(event)];
    }

    /** Runs the callback if its event is persistent, and adds it to the list it has to wait in. */
    method Enqueue(event: Event, runOnce: bool, callback: Callback, collection: Collection)
      requires Valid() && event in scheduled && scheduled[event] == collection
      modifies this`ran, collection
      ensures Valid() && Model() == Scheduled(old(Model()), event, runOnce, callback)
    {
      ghost var before := Model();
      if event in persistentEvents && persistentEvents[event] {
        ran := ran + [callback];
      } else if runOnce {
        collection.runOnce := collection.runOnce + [callback];
      }
      if !runOnce {
        collection.persistentCallbacks := collection.persistentCallbacks + [callback];
      }
      forall e <- scheduled | e != event ensures scheduled[e].Value() == before.scheduled[e] {
        assert scheduled[e] != collection;
      }
      assert Model() == Scheduled(before, event, runOnce, callback);
    }

    method ScheduleCallback(event: Event, runOnce: bool, callback: Callback)
      requires Valid()
      modifies this`scheduled, this`ran, scheduled.Values
      ensures Valid() && Model() == Scheduled(old(Model()), event, runOnce, callback)
    {
      hide Registry.Valid, Registry.Model, Scheduled, Opened;
      ghost var before := Model();
      var collection := CollectionFor(event);
      Enqueue(event, runOnce, callback, collection);
      OpeningChangesNothing(before, event, runOnce, callback);
    }

    method Purge()
      modifies this`scheduled, this`persistentEvents
      ensures Valid() && Model() == Apply(old(Model()), Purged)
    {
      scheduled, persistentEvents := map[], map[];
    }
  }
}
