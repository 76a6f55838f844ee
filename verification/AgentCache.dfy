/** internal/handlers/auth.go and agents.go: the answers for agent keys, kept for a minute. */
module AgentCache {
  import opened Wrappers

  type Time = int
  type Key = int
  type Actor = int
  type CallId = int

  const MINUTE := 60

  /** `asked` and `stored` are when the database gave the answer and when it was put into the cache. */
  datatype Cached = Cached(actor: Actor, expires: Time, asked: Time, stored: Time)

  /** A call that has its answer from the database and has not stored it yet. */
  datatype Pending = Pending(key: Key, actor: Actor, asked: Time)

  /** The keys that the database lets in, and the same at every moment so far. */
  datatype World = World(now: Time, valid: map<Key, Actor>, past: seq<Moment>, cache: map<Key, Cached>,
      calls: map<CallId, Pending>)
  datatype Moment = Moment(at: Time, valid: map<Key, Actor>)

  /** `Purge` and `Change` are the two halves of an update of an agent, in that order. */
  datatype Event =
    | Tick(now: Time)
    | Purge
    | Change(valid: map<Key, Actor>)
    | Ask(call: CallId, key: Key)
    | Store(call: CallId)

  /** What AuthenticateAgent answers without the database. */
  function FromCache(w: World, key: Key): Option<Actor> {
    if key in w.cache && w.now < w.cache[key].expires then Some(w.cache[key].actor) else None
  }

  function Step(w: World, e: Event): World {
    match e
    case Tick(now) => if now < w.now then w else w.(now := now, past := w.past + [Moment(now, w.valid)])
    case Purge => w.(cache := map[])
    case Change(valid) => w.(valid := valid, past := w.past + [Moment(w.now, valid)])
    case Ask(call, key) =>
      if FromCache(w, key).Some? || call in w.calls then w
      else
        var cleared := w.(cache := w.cache - {key});
        if key in w.valid then cleared.(calls := w.calls[call := Pending(key, w.valid[key], w.now)]) else cleared
    case Store(call) =>
      if call !in w.calls then w
      else
        var p := w.calls[call];
        w.(cache := w.cache[p.key := Cached(p.actor, w.now + MINUTE, p.asked, w.now)], calls := w.calls - {call})
  }

  ghost predicate WasValid(w: World, key: Key, actor: Actor, at: Time) {
    exists m :: m in w.past && m.at == at && key in m.valid && m.valid[key] == actor
  }

  ghost predicate HonestAnswer(w: World, key: Key, c: Cached) {
    c.asked <= c.stored <= w.now && c.expires == c.stored + MINUTE && WasValid(w, key, c.actor, c.asked)
  }

  ghost predicate HonestCall(w: World, p: Pending) {
    p.asked <= w.now && WasValid(w, p.key, p.actor, p.asked)
  }

  ghost predicate Honest(w: World) {
    && Moment(w.now, w.valid) in w.past
    && (forall k <- w.cache :: HonestAnswer(w, k, w.cache[k]))
    && (forall i <- w.calls :: HonestCall(w, w.calls[i]))
  }

  function Start(now: Time, valid: map<Key, Actor>): World {
    World(now, valid, [Moment(now, valid)], map[], map[])
  }

  function End(w: World, events: seq<Event>): World
    decreases |events|
  {
    if events == [] then w else End(Step(w, events[0]), events[1..])
  }

  lemma LaterWasValid(w: World, later: World, key: Key, actor: Actor, at: Time)
    requires WasValid(w, key, actor, at) && forall m <- w.past :: m in later.past
    ensures WasValid(later, key, actor, at)
  {
    var m :| m in w.past && m.at == at && key in m.valid && m.valid[key] == actor;
    assert m in later.past;
  }

  lemma StepRemembers(w: World, e: Event)
    requires Moment(w.now, w.valid) in w.past
    ensures var next := Step(w, e);
            w.now <= next.now && (forall m <- w.past :: m in next.past) && Moment(next.now, next.valid) in next.past
  {}

  lemma StepIsHonest(w: World, e: Event)
    requires Honest(w)
    ensures Honest(Step(w, e))
  {
    var next := Step(w, e);
    StepRemembers(w, e);
    forall k <- w.cache ensures HonestAnswer(next, k, w.cache[k]) {
      LaterWasValid(w, next, k, w.cache[k].actor, w.cache[k].asked);
    }
    forall i <- w.calls ensures HonestCall(next, w.calls[i]) {
      LaterWasValid(w, next, w.calls[i].key, w.calls[i].actor, w.calls[i].asked);
    }
  }

  lemma {:induction false} RunIsHonest(w: World, events: seq<Event>)
    requires Honest(w)
    ensures Honest(End(w, events))
    decreases |events|
  {
    if events != [] {
      StepIsHonest(w, events[0]);
      RunIsHonest(Step(w, events[0]), events[1..]);
    }
  }

  /** No call takes longer than `lag` from the answer of the database to the cache. */
  predicate Prompt(w: World, events: seq<Event>, lag: nat)
    decreases |events|
  {
    events != [] ==>
      && (events[0].Store? && events[0].call in w.calls ==> w.now - w.calls[events[0].call].asked <= lag)
      && Prompt(Step(w, events[0]), events[1..], lag)
  }

  lemma {:induction false} RunIsPrompt(w: World, events: seq<Event>, lag: nat)
    requires Prompt(w, events, lag) && forall k <- w.cache :: w.cache[k].stored - w.cache[k].asked <= lag
    ensures forall k <- End(w, events).cache :: End(w, events).cache[k].stored - End(w, events).cache[k].asked <= lag
    decreases |events|
  {
    if events != [] { RunIsPrompt(Step(w, events[0]), events[1..], lag); }
  }

  /** Whatever is updated and purged meanwhile, an answer from the cache is one that the database gave at
      some moment less than a minute ago, and as much longer as calls take to store what they were told. */
  lemma StaleForAMinuteAtMost(now: Time, valid: map<Key, Actor>, events: seq<Event>, lag: nat, key: Key)
    requires Prompt(Start(now, valid), events, lag)
    ensures var w := End(Start(now, valid), events);
            FromCache(w, key).Some? ==>
              exists at: Time :: w.now - 60 - lag < at <= w.now && WasValid(w, key, FromCache(w, key).value, at)
  {
    RunIsHonest(Start(now, valid), events);
    RunIsPrompt(Start(now, valid), events, lag);
    var w := End(Start(now, valid), events);
    if FromCache(w, key).Some? {
      var at := w.cache[key].asked;
      assert w.now - 60 - lag < at <= w.now && WasValid(w, key, FromCache(w, key).value, at);
    }
  }

  /** And the cache does answer: what a call has stored is the answer for a minute, and then no longer. */
  lemma StoredForAMinute(w: World, call: CallId, at: Time)
    requires call in w.calls && w.now <= at
    ensures var key, actor := w.calls[call].key, w.calls[call].actor;
            FromCache(End(w, [Store(call), Tick(at)]), key) == if at < w.now + 60 then Some(actor) else None
  {
    var run := [Store(call), Tick(at)];
    var w1 := Step(w, Store(call));
    assert run[1..] == [Tick(at)] && run[1..][1..] == [];
    assert End(w, run) == End(w1, run[1..]) == Step(w1, Tick(at));
  }

  // ---------------------------------------------------------------- purge, then update

  function Answer(valid: map<Key, Actor>, key: Key): Option<Actor> {
    if key in valid then Some(valid[key]) else None
  }

  ghost predicate Pends(w: World, key: Key) { exists i :: i in w.calls && w.calls[i].key == key }

  /** The key can be answered from the cache, or can as soon as a call stores what it was told. */
  ghost predicate InPlay(w: World, key: Key) { FromCache(w, key).Some? || Pends(w, key) }

  /** Every such answer is the database's. */
  ghost predicate Current(w: World) {
    && (forall k :: FromCache(w, k).Some? ==> FromCache(w, k) == Answer(w.valid, k))
    && (forall i <- w.calls :: Answer(w.valid, w.calls[i].key) == Some(w.calls[i].actor))
  }

  /** Nothing but calls and the clock. */
  ghost predicate Quiet(events: seq<Event>) {
    forall e <- events :: e.Tick? || e.Ask? || e.Store?
  }

  /** From here on, and until the database changes or the cache is purged, nobody is told from the cache
      what the database would not say. */
  ghost predicate Truthful(w: World) {
    forall later, k | Quiet(later) ::
      FromCache(End(w, later), k).Some? ==> FromCache(End(w, later), k) == Answer(w.valid, k)
  }

  /** A change of the database that changes an answer in play. */
  ghost predicate Untimely(w: World, e: Event) {
    e.Change? && exists k :: InPlay(w, k) && Answer(e.valid, k) != Answer(w.valid, k)
  }

  /** Exactly such a change ends it. */
  lemma StepIsCurrentIff(w: World, e: Event)
    requires Current(w)
    ensures Current(Step(w, e)) <==> !Untimely(w, e)
  {
    if e.Change? {
      forall i <- w.calls ensures InPlay(w, w.calls[i].key) {}
    }
  }

  lemma {:induction false} QuietIsCurrent(w: World, events: seq<Event>)
    requires Current(w) && Quiet(events)
    ensures Current(End(w, events)) && End(w, events).valid == w.valid
    decreases |events|
  {
    if events != [] {
      assert events[0] in events && forall e <- events[1..] :: e in events;
      StepIsCurrentIff(w, events[0]);
      QuietIsCurrent(Step(w, events[0]), events[1..]);
    }
  }

  lemma TruthfulIff(w: World)
    ensures Truthful(w) <==> Current(w)
  {
    if Current(w) {
      forall later, k | Quiet(later) && FromCache(End(w, later), k).Some?
        ensures FromCache(End(w, later), k) == Answer(w.valid, k)
      {
        QuietIsCurrent(w, later);
      }
    } else if k :| FromCache(w, k).Some? && FromCache(w, k) != Answer(w.valid, k) {
      assert Quiet([]) && End(w, []) == w;
    } else {
      var i :| i in w.calls && Answer(w.valid, w.calls[i].key) != Some(w.calls[i].actor);
      var later := [Store(i)];
      assert later[1..] == [] && Quiet(later) && End(w, later) == Step(w, Store(i));
      assert FromCache(End(w, later), w.calls[i].key) == Some(w.calls[i].actor);
    }
  }

  ghost predicate NoneUntimely(w: World, events: seq<Event>)
    decreases |events|
  {
    events != [] ==> !Untimely(w, events[0]) && NoneUntimely(Step(w, events[0]), events[1..])
  }

  lemma {:induction false} TimelyIsTruthful(w: World, events: seq<Event>)
    requires Truthful(w) && NoneUntimely(w, events)
    ensures Truthful(End(w, events))
    decreases |events|
  {
    if events != [] {
      TruthfulIff(w);
      StepIsCurrentIff(w, events[0]);
      TruthfulIff(Step(w, events[0]));
      TimelyIsTruthful(Step(w, events[0]), events[1..]);
    }
  }

  /** However many updates are under way at once: no answer from the cache is ever wrong while no change is
      untimely. */
  lemma TimelyUpdatesAreSeen(now: Time, valid: map<Key, Actor>, events: seq<Event>, key: Key)
    requires NoneUntimely(Start(now, valid), events)
    ensures var w := End(Start(now, valid), events);
            FromCache(w, key).Some? ==> FromCache(w, key) == Answer(w.valid, key)
  {
    TruthfulIff(Start(now, valid));
    TimelyIsTruthful(Start(now, valid), events);
    TruthfulIff(End(Start(now, valid), events));
  }

  // ---------------------------------------------------------- what is in play, by the trace

  ghost predicate NoPurge(events: seq<Event>) { forall e <- events :: !e.Purge? }

  /** The keys whose answer is stored during these events, with no purge after it, and less than a minute
      before `end`. */
  ghost function StoredIn(w: World, events: seq<Event>, end: Time): set<Key>
    decreases |events|
  {
    if events == [] then {}
    else
      var e := events[0];
      var stored := e.Store? && e.call in w.calls && NoPurge(events[1..]) && end < w.now + 60;
      (if stored then {w.calls[e.call].key} else {}) + StoredIn(Step(w, e), events[1..], end)
  }

  /** No entry is good for longer than a minute. */
  ghost predicate Bounded(w: World) { forall k <- w.cache :: w.cache[k].expires <= w.now + 60 }

  lemma {:induction false} ClockGoesOn(w: World, events: seq<Event>)
    ensures w.now <= End(w, events).now
    decreases |events|
  {
    if events != [] { ClockGoesOn(Step(w, events[0]), events[1..]); }
  }

  lemma PurgesLater(e: Event, events: seq<Event>)
    requires events != [] && events[0] == e
    ensures NoPurge(events) <==> !e.Purge? && NoPurge(events[1..])
  {
    assert events == [e] + events[1..];
  }

  ghost predicate Lasts(w: World, events: seq<Event>, key: Key, end: Time) {
    NoPurge(events) && key in w.cache && end < w.cache[key].expires
  }

  lemma StepLasts(w: World, events: seq<Event>, key: Key, end: Time)
    requires Bounded(w) && events != [] && w.now <= end
    ensures Bounded(Step(w, events[0]))
    ensures var e := events[0];
            var stored := e.Store? && e.call in w.calls && NoPurge(events[1..]) && end < w.now + 60;
            Lasts(Step(w, e), events[1..], key, end) <==>
              Lasts(w, events, key, end) || (stored && key == w.calls[e.call].key)
  {
    PurgesLater(events[0], events);
    hide NoPurge;
  }

  lemma {:induction false} CachedIff(w: World, events: seq<Event>, key: Key)
    requires Bounded(w)
    ensures var end := End(w, events);
            FromCache(end, key).Some? <==> key in StoredIn(w, events, end.now) || Lasts(w, events, key, end.now)
    decreases |events|
  {
    if events != [] {
      ClockGoesOn(w, events);
      StepLasts(w, events, key, End(w, events).now);
      CachedIff(Step(w, events[0]), events[1..], key);
    }
  }

  lemma {:induction false} EndOfBoth(w: World, a: seq<Event>, b: seq<Event>)
    ensures End(w, a + b) == End(End(w, a), b)
    decreases |a|
  {
    if a == [] {
      assert a + b == b;
    } else {
      assert (a + b)[1..] == a[1..] + b;
      EndOfBoth(Step(w, a[0]), a[1..], b);
    }
  }

  lemma EndOfUpdate(w: World, mid: seq<Event>, after: map<Key, Actor>)
    ensures End(w, [Purge] + mid) == End(Step(w, Purge), mid)
    ensures End(w, [Purge] + mid + [Change(after)]) == Step(End(Step(w, Purge), mid), Change(after))
  {
    var last := [Change(after)];
    assert ([Purge] + mid)[1..] == mid && last[1..] == [];
    EndOfBoth(w, [Purge] + mid, last);
  }

  /** The handlers purge first and update afterwards; meanwhile anything happens, other updates too. If the
      cache was right until then, it stays so if and only if the update changes no answer that a call has
      stored since the last purge, less than a minute ago, or is about to store. */
  lemma PurgeThenUpdateIff(w: World, mid: seq<Event>, after: map<Key, Actor>)
    requires Truthful(End(w, [Purge] + mid))
    ensures var purged, before := Step(w, Purge), End(w, [Purge] + mid);
            Truthful(End(w, [Purge] + mid + [Change(after)])) <==>
              !exists k :: (k in StoredIn(purged, mid, before.now) || Pends(before, k))
                           && Answer(after, k) != Answer(before.valid, k)
  {
    var purged, before := Step(w, Purge), End(w, [Purge] + mid);
    EndOfUpdate(w, mid, after);
    TruthfulIff(before);
    TruthfulIff(Step(before, Change(after)));
    StepIsCurrentIff(before, Change(after));
    forall k ensures InPlay(before, k) <==> k in StoredIn(purged, mid, before.now) || Pends(before, k) {
      CachedIff(purged, mid, k);
    }
  }

  /** The failing case, for every key that an update takes back: a call that gets in between the purge and
      the update leaves an answer in the cache that the database has just withdrawn. */
  lemma PurgedTooSoon(w: World, key: Key, call: CallId, after: map<Key, Actor>)
    requires key in w.valid && call !in w.calls && key !in after
    ensures var end := End(w, [Purge, Ask(call, key), Store(call), Change(after)]);
            key !in end.valid && FromCache(end, key) == Some(w.valid[key])
  {
    var run := [Purge, Ask(call, key), Store(call), Change(after)];
    var w1 := Step(w, Purge);
    var w2 := Step(w1, Ask(call, key));
    var w3 := Step(w2, Store(call));
    assert run[1..] == [Ask(call, key), Store(call), Change(after)];
    assert run[1..][1..] == [Store(call), Change(after)];
    assert run[1..][1..][1..] == [Change(after)];
    assert End(w, run) == End(w1, run[1..]) == End(w2, run[1..][1..]) == End(w3, [Change(after)])
        == Step(w3, Change(after));
  }

}
