/** internal/auth/ratelimit.go: the fixed-window limiter in front of the login. */
module RateLimit {
  import opened Wrappers

  type Time = int

  datatype Window = Window(start: Time, count: nat)

  /** A limiter lets `limit` hits of a key through per window of length `per`. */
  datatype Config = Config(limit: int, per: int)

  type Hits = map<string, Window>

  /** The number of keys above which lapsed windows are thrown away. */
  const PURGE_ABOVE := 10000

  predicate Lapsed(c: Config, w: Window, now: Time) { now - w.start > c.per }

  function Purged(c: Config, hits: Hits, now: Time): Hits {
    if |hits| > PURGE_ABOVE then map k | k in hits && !Lapsed(c, hits[k], now) :: hits[k] else hits
  }

  function Lookup(hits: Hits, key: string): Option<Window> {
    if key in hits then Some(hits[key]) else None
  }

  /** One hit against the window of its key, if there is one. */
  function Count(c: Config, w: Option<Window>, now: Time): (Window, bool) {
    if w == None || Lapsed(c, w.value, now) then (Window(now, 1), true)
    else (Window(w.value.start, w.value.count + 1), w.value.count + 1 <= c.limit)
  }

  function Allow(c: Config, hits: Hits, key: string, now: Time): (Hits, bool) {
    var kept := Purged(c, hits, now);
    var (w, ok) := Count(c, Lookup(kept, key), now);
    (kept[key := w], ok)
  }

  // ------------------------------------------------------------------------ traces

  /** A call of Allow or Reset, with the time at which the lock was taken. */
  datatype Event = Hit(key: string, at: Time) | Clear(key: string, at: Time)

  ghost predicate Chronological(from: Time, events: seq<Event>)
    decreases |events|
  {
    events != [] ==> from <= events[0].at && Chronological(events[0].at, events[1..])
  }

  /** An answer with its time. */
  datatype Answer = Answer(at: Time, ok: bool)

  function Step(c: Config, hits: Hits, e: Event): (Hits, bool) {
    match e
    case Hit(key, at) => Allow(c, hits, key, at)
    case Clear(key, _) => (hits - {key}, true)
  }

  /** What one key is told over a whole trace. */
  function Told(c: Config, hits: Hits, events: seq<Event>, key: string): seq<Answer>
    decreases |events|
  {
    if events == [] then []
    else
      var (next, ok) := Step(c, hits, events[0]);
      (if events[0] == Hit(key, events[0].at) then [Answer(events[0].at, ok)] else []) + Told(c, next, events[1..], key)
  }

  /** The same for a limiter that has only this key, sees only its own calls, and never purges. */
  function ToldAlone(c: Config, w: Option<Window>, events: seq<Event>, key: string): seq<Answer>
    decreases |events|
  {
    if events == [] then []
    else
      var e := events[0];
      if e.key != key then ToldAlone(c, w, events[1..], key)
      else if e.Clear? then ToldAlone(c, None, events[1..], key)
      else
        var (w', ok) := Count(c, w, e.at);
        [Answer(e.at, ok)] + ToldAlone(c, Some(w'), events[1..], key)
  }

  /** A window that has lapsed is as good as none. */
  ghost predicate SameFrom(c: Config, w: Option<Window>, v: Option<Window>, now: Time) {
    w == v || (w == None && Lapsed(c, v.value, now))
  }

  /** Neither the purge nor the other keys can be told from the answers: for every trace of calls with a
      clock that does not run backwards, a key is told what a limiter of its own would tell it. */
  lemma {:induction false} KeysAreIndependent(c: Config, hits: Hits, v: Option<Window>, events: seq<Event>,
                                              key: string, from: Time)
    requires Chronological(from, events) && SameFrom(c, Lookup(hits, key), v, from)
    ensures Told(c, hits, events, key) == ToldAlone(c, v, events, key)
    decreases |events|
  {
    if events != [] {
      var e := events[0];
      var next := Step(c, hits, e).0;
      if e.key != key {
        KeysAreIndependent(c, next, v, events[1..], key, e.at);
      } else if e.Clear? {
        KeysAreIndependent(c, next, None, events[1..], key, e.at);
      } else {
        KeysAreIndependent(c, next, Some(Count(c, v, e.at).0), events[1..], key, e.at);
      }
    }
  }

  /** In particular the purge is unobservable from the start. */
  lemma PurgeIsUnobservable(c: Config, events: seq<Event>, key: string, from: Time)
    requires Chronological(from, events)
    ensures Told(c, map[], events, key) == ToldAlone(c, None, events, key)
  {
    KeysAreIndependent(c, map[], None, events, key, from);
  }

  // ------------------------------------------------------------------------- bounds

  /** How many hits were let through in [a, b]. */
  function PassedIn(answers: seq<Answer>, a: Time, b: Time): nat {
    if answers == [] then 0
    else (if answers[0].ok && a <= answers[0].at <= b then 1 else 0) + PassedIn(answers[1..], a, b)
  }

  /** The hits that one window lets through: the limit, but never less than the first. */
  function Quota(c: Config): nat { if c.limit < 1 then 1 else c.limit }

  /** What is left in [a, b] for a key whose window is `w`: what its window has left and, if that
      window started before `a`, one fresh window. */
  function Left(c: Config, w: Option<Window>, a: Time): nat {
    if w == None then Quota(c)
    else
      var rest := if w.value.count < Quota(c) then Quota(c) - w.value.count else 0;
      rest + (if w.value.start < a then Quota(c) else 0)
  }

  lemma {:induction false} LeftIsEnough(c: Config, w: Option<Window>, events: seq<Event>, key: string, from: Time,
                                        a: Time, b: Time)
    requires a <= from && b - a <= c.per && Chronological(from, events)
    requires w.Some? ==> w.value.count >= 1
    requires NeverCleared(events, key)
    ensures PassedIn(ToldAlone(c, w, events, key), a, b) <= Left(c, w, a)
    decreases |events|
  {
    if events != [] {
      var e, rest := events[0], events[1..];
      if e.key != key {
        LeftIsEnough(c, w, rest, key, e.at, a, b);
      } else if e.at > b {
        NothingAfter(c, w, events, key, from, a, b);
      } else {
        var (w', ok) := Count(c, w, e.at);
        LeftIsEnough(c, Some(w'), rest, key, e.at, a, b);
        assert ToldAlone(c, w, events, key)[1..] == ToldAlone(c, Some(w'), rest, key);
      }
    }
  }

  lemma {:induction false} NothingAfter(c: Config, w: Option<Window>, events: seq<Event>, key: string, from: Time,
                                        a: Time, b: Time)
    requires Chronological(from, events) && events != [] && events[0].at > b
    ensures PassedIn(ToldAlone(c, w, events, key), a, b) == 0
    decreases |events|
  {
    var e, rest := events[0], events[1..];
    var v := if e.key != key then w else if e.Clear? then None else Some(Count(c, w, e.at).0);
    if rest != [] { NothingAfter(c, v, rest, key, e.at, a, b); }
    if e.key == key && e.Hit? {
      assert ToldAlone(c, w, events, key)[1..] == ToldAlone(c, v, rest, key);
    }
  }

  ghost predicate Counted(hits: Hits) { forall k <- hits :: hits[k].count >= 1 }

  ghost predicate NeverCleared(events: seq<Event>, key: string) {
    events != [] ==> events[0] != Clear(key, events[0].at) && NeverCleared(events[1..], key)
  }

  /** In any interval no longer than the window, a key that is not reset gets at most twice its quota
      minus one hits through, whatever the state of the limiter and whatever the other keys do. */
  lemma BurstBound(c: Config, hits: Hits, events: seq<Event>, key: string, a: Time, b: Time)
    requires Counted(hits) && b - a <= c.per && Chronological(a, events)
    requires NeverCleared(events, key)
    ensures PassedIn(Told(c, hits, events, key), a, b) <= 2 * Quota(c) - 1
  {
    KeysAreIndependent(c, hits, Lookup(hits, key), events, key, a);
    LeftIsEnough(c, Lookup(hits, key), events, key, a, a, b);
  }

  lemma StepsCount(c: Config, hits: Hits, e: Event)
    requires Counted(hits)
    ensures Counted(Step(c, hits, e).0)
  {}

  function Reached(c: Config, hits: Hits, events: seq<Event>): Hits
    decreases |events|
  {
    if events == [] then hits else Reached(c, Step(c, hits, events[0]).0, events[1..])
  }

  lemma {:induction false} ReachedIsCounted(c: Config, hits: Hits, events: seq<Event>)
    requires Counted(hits)
    ensures Counted(Reached(c, hits, events))
    decreases |events|
  {
    if events != [] {
      StepsCount(c, hits, events[0]);
      ReachedIsCounted(c, Step(c, hits, events[0]).0, events[1..]);
    }
  }

  /** So it is in every interval of every trace, whatever came before it. */
  lemma BurstBoundAlways(c: Config, before: seq<Event>, events: seq<Event>, key: string, a: Time, b: Time)
    requires b - a <= c.per && Chronological(a, events) && NeverCleared(events, key)
    ensures PassedIn(Told(c, Reached(c, map[], before), events, key), a, b) <= 2 * Quota(c) - 1
  {
    ReachedIsCounted(c, map[], before);
    BurstBound(c, Reached(c, map[], before), events, key, a, b);
  }

  /** And a window that is started by a hit lets at most the quota through until it lapses. */
  lemma WindowBound(c: Config, hits: Hits, events: seq<Event>, key: string, at: Time)
    requires c.per >= 0 && Chronological(at, events) && NeverCleared(events, key)
    requires events != [] && events[0] == Hit(key, at)
    requires Lookup(hits, key) == None || Lapsed(c, Lookup(hits, key).value, at)
    ensures PassedIn(Told(c, hits, events, key), at, at + c.per) <= Quota(c)
  {
    var v := Lookup(hits, key);
    KeysAreIndependent(c, hits, v, events, key, at);
    LeftIsEnough(c, Some(Window(at, 1)), events[1..], key, at, at, at + c.per);
    assert ToldAlone(c, v, events, key)[1..] == ToldAlone(c, Some(Window(at, 1)), events[1..], key);
  }

  /** `n` hits of a key at once. */
  function Burst(key: string, at: Time, n: nat): seq<Event> {
    if n == 0 then [] else [Hit(key, at)] + Burst(key, at, n - 1)
  }

  lemma {:induction false} BurstIsOrderly(key: string, at: Time, n: nat, rest: seq<Event>, from: Time)
    requires from <= at && Chronological(at, rest) && NeverCleared(rest, key)
    ensures Chronological(from, Burst(key, at, n) + rest) && NeverCleared(Burst(key, at, n) + rest, key)
    decreases n
  {
    var all := Burst(key, at, n) + rest;
    if n == 0 {
      assert all == rest;
      if rest != [] { assert from <= rest[0].at; }
    } else {
      BurstIsOrderly(key, at, n - 1, rest, at);
      assert all[1..] == Burst(key, at, n - 1) + rest;
      assert all[0] == Hit(key, at);
    }
  }

  lemma {:induction false} BurstPasses(c: Config, w: Window, key: string, at: Time, n: nat, rest: seq<Event>,
                                       a: Time, b: Time)
    requires !Lapsed(c, w, at) && w.count + n <= c.limit && a <= at <= b
    ensures PassedIn(ToldAlone(c, Some(w), Burst(key, at, n) + rest, key), a, b)
         == n + PassedIn(ToldAlone(c, Some(Window(w.start, w.count + n)), rest, key), a, b)
    decreases n
  {
    var all := Burst(key, at, n) + rest;
    if n == 0 {
      assert all == rest;
    } else {
      var w' := Window(w.start, w.count + 1);
      assert all[1..] == Burst(key, at, n - 1) + rest;
      BurstPasses(c, w', key, at, n - 1, rest, a, b);
      assert ToldAlone(c, Some(w), all, key)[1..] == ToldAlone(c, Some(w'), all[1..], key);
    }
  }

  /** The trace that meets the bound: a window is emptied as it ends, and the next one right after. */
  function Straddle(c: Config, key: string): seq<Event>
    requires c.limit >= 1
  {
    Burst(key, c.per, c.limit - 1) + ([Hit(key, c.per + 1)] + Burst(key, c.per + 1, c.limit - 1))
  }

  lemma StraddleIsOrderly(c: Config, key: string)
    requires c.limit >= 1 && c.per >= 1
    ensures Chronological(1, Straddle(c, key)) && NeverCleared(Straddle(c, key), key)
  {
    var n, at := c.limit - 1, c.per + 1;
    var burst := Burst(key, at, n);
    var later := [Hit(key, at)] + burst;
    assert burst + [] == burst;
    BurstIsOrderly(key, at, n, [], at);
    assert later[1..] == burst;
    BurstIsOrderly(key, c.per, n, later, 1);
  }

  lemma StraddlePasses(c: Config, key: string)
    requires c.limit >= 1 && c.per >= 1
    ensures PassedIn(ToldAlone(c, Some(Window(0, 1)), Straddle(c, key), key), 1, c.per + 1) == 2 * c.limit - 1
  {
    var n, at := c.limit - 1, c.per + 1;
    var burst := Burst(key, at, n);
    var later := [Hit(key, at)] + burst;
    assert burst + [] == burst && later[1..] == burst;
    BurstPasses(c, Window(0, 1), key, c.per, n, later, 1, at);
    BurstPasses(c, Window(at, 1), key, at, n, [], 1, at);
    var told := ToldAlone(c, Some(Window(0, 1 + n)), later, key);
    assert told == [Answer(at, true)] + ToldAlone(c, Some(Window(at, 1)), burst, key);
    assert told[1..] == ToldAlone(c, Some(Window(at, 1)), burst, key);
  }

  /** The bound is tight, for every limit and every window length. */
  lemma BurstBoundIsTight(c: Config, key: string)
    requires c.limit >= 1 && c.per >= 1
    ensures exists hits, events ::
              && Counted(hits) && Chronological(1, events) && NeverCleared(events, key)
              && PassedIn(Told(c, hits, events, key), 1, c.per + 1) == 2 * Quota(c) - 1
  {
    var hits: Hits, events := map[key := Window(0, 1)], Straddle(c, key);
    StraddleIsOrderly(c, key);
    StraddlePasses(c, key);
    KeysAreIndependent(c, hits, Some(Window(0, 1)), events, key, 1);
    assert Counted(hits) && PassedIn(Told(c, hits, events, key), 1, c.per + 1) == 2 * Quota(c) - 1;
  }

  // ------------------------------------------------------------- what every hit is told

  /** When a key was hit. */
  function HitsOf(events: seq<Event>, key: string): seq<Time> {
    if events == [] then []
    else (if events[0] == Hit(key, events[0].at) then [events[0].at] else []) + HitsOf(events[1..], key)
  }

  /** How many hits in a row are no later than `last`. */
  function Within(hits: seq<Time>, last: Time): (n: nat)
    ensures n <= |hits| && (forall i :: 0 <= i < n ==> hits[i] <= last) && (n < |hits| ==> hits[n] > last)
  {
    if hits == [] || hits[0] > last then 0 else 1 + Within(hits[1..], last)
  }

  /** The answers to `n` hits of one window of which `before` have come already: the first of all is let
      through, and so is each of the first `limit`. */
  function OfWindow(limit: int, before: nat, n: nat): (oks: seq<bool>)
    ensures |oks| == n && forall i :: 0 <= i < n ==> (oks[i] <==> before + i == 0 || before + i < limit)
  {
    seq(n, i requires 0 <= i < n => before + i == 0 || before + i < limit)
  }

  /** A fixed window: it is opened by a hit, has all the hits up to its length after that one, whether they
      are let through or not, and the first later hit opens the next. */
  function ByWindow(limit: int, per: int, hits: seq<Time>): (oks: seq<bool>)
    ensures |oks| == |hits|
    decreases |hits|
  {
    if hits == [] then []
    else
      var n := 1 + Within(hits[1..], hits[0] + per);
      OfWindow(limit, 0, n) + ByWindow(limit, per, hits[n..])
  }

  /** In the middle of a window that was opened at `start`, after `count` hits. */
  function FromWindow(limit: int, per: int, start: Time, count: nat, hits: seq<Time>): (oks: seq<bool>)
    ensures |oks| == |hits|
  {
    var n := Within(hits, start + per);
    OfWindow(limit, count, n) + ByWindow(limit, per, hits[n..])
  }

  function Oks(answers: seq<Answer>): (oks: seq<bool>)
    ensures |oks| == |answers|
  {
    if answers == [] then [] else [answers[0].ok] + Oks(answers[1..])
  }

  lemma OneMore(first: bool, window: seq<bool>, rest: seq<bool>)
    ensures ([first] + window) + rest == [first] + (window + rest)
  {}

  lemma OfWindowStep(limit: int, before: nat, n: nat)
    ensures OfWindow(limit, before, 1 + n) == [before == 0 || before < limit] + OfWindow(limit, before + 1, n)
  {}

  lemma FirstOfWindow(limit: int, n: nat)
    ensures OfWindow(limit, 0, 1 + n) == [true] + OfWindow(limit, 1, n)
  {}

  lemma HitInWindow(limit: int, per: int, start: Time, count: nat, hits: seq<Time>)
    requires hits != [] && count >= 1 && hits[0] <= start + per
    ensures FromWindow(limit, per, start, count, hits)
         == [count < limit] + FromWindow(limit, per, start, count + 1, hits[1..])
  {
    var n := Within(hits[1..], start + per);
    assert hits[1 + n..] == hits[1..][n..];
    OfWindowStep(limit, count, n);
    hide OfWindow, ByWindow;
    OneMore(count < limit, OfWindow(limit, count + 1, n), ByWindow(limit, per, hits[1 + n..]));
  }

  lemma ByWindowIs(limit: int, per: int, hits: seq<Time>)
    requires hits != []
    ensures var n := Within(hits[1..], hits[0] + per);
            ByWindow(limit, per, hits) == OfWindow(limit, 0, 1 + n) + ByWindow(limit, per, hits[1..][n..])
  {
    hide OfWindow, Within;
    var n := Within(hits[1..], hits[0] + per);
    assert hits[1 + n..] == hits[1..][n..];
  }

  lemma HitOpensWindow(limit: int, per: int, hits: seq<Time>)
    requires hits != []
    ensures ByWindow(limit, per, hits) == [true] + FromWindow(limit, per, hits[0], 1, hits[1..])
  {
    hide OfWindow, ByWindow, Within;
    var n := Within(hits[1..], hits[0] + per);
    var window, rest := OfWindow(limit, 1, n), ByWindow(limit, per, hits[1..][n..]);
    ByWindowIs(limit, per, hits);
    FirstOfWindow(limit, n);
    OneMore(true, window, rest);
  }

  lemma HitAfterWindow(limit: int, per: int, start: Time, count: nat, hits: seq<Time>)
    requires hits != [] && hits[0] > start + per
    ensures FromWindow(limit, per, start, count, hits) == ByWindow(limit, per, hits)
  {
    assert OfWindow(limit, count, 0) == [] && hits[0..] == hits;
  }

  lemma OtherKey(c: Config, w: Option<Window>, events: seq<Event>, key: string)
    requires events != [] && events[0].key != key
    ensures ToldAlone(c, w, events, key) == ToldAlone(c, w, events[1..], key)
    ensures HitsOf(events, key) == HitsOf(events[1..], key)
  {}

  lemma OneHit(c: Config, w: Option<Window>, events: seq<Event>, key: string)
    requires events != [] && events[0].Hit? && events[0].key == key
    ensures var at := events[0].at;
            && HitsOf(events, key) == [at] + HitsOf(events[1..], key)
            && Oks(ToldAlone(c, w, events, key))
               == [Count(c, w, at).1] + Oks(ToldAlone(c, Some(Count(c, w, at).0), events[1..], key))
  {
    var e := events[0];
    var rest := ToldAlone(c, Some(Count(c, w, e.at).0), events[1..], key);
    assert ToldAlone(c, w, events, key) == [Answer(e.at, Count(c, w, e.at).1)] + rest;
    assert ToldAlone(c, w, events, key)[1..] == rest;
  }

  /** Whatever is let through or refused: a window stays what it is until its length is over. */
  lemma {:induction false} WindowStays(c: Config, w: Window, events: seq<Event>, key: string)
    requires w.count >= 1 && NeverCleared(events, key)
    ensures Oks(ToldAlone(c, Some(w), events, key))
         == FromWindow(c.limit, c.per, w.start, w.count, HitsOf(events, key))
    decreases |events|
  {
    hide FromWindow, ByWindow, OfWindow, Within;
    if events == [] {
      NoHits(c.limit, c.per, w.start, w.count);
    } else if events[0].key != key {
      OtherKey(c, Some(w), events, key);
      WindowStays(c, w, events[1..], key);
    } else {
      var at, hits := events[0].at, HitsOf(events, key);
      OneHit(c, Some(w), events, key);
      assert hits[1..] == HitsOf(events[1..], key);
      if at <= w.start + c.per {
        WindowStays(c, Window(w.start, w.count + 1), events[1..], key);
        HitInWindow(c.limit, c.per, w.start, w.count, hits);
      } else {
        WindowStays(c, Window(at, 1), events[1..], key);
        HitAfterWindow(c.limit, c.per, w.start, w.count, hits);
        HitOpensWindow(c.limit, c.per, hits);
      }
    }
  }

  lemma NoHits(limit: int, per: int, start: Time, count: nat)
    ensures FromWindow(limit, per, start, count, []) == []
  {}

  lemma {:induction false} FirstOpens(c: Config, events: seq<Event>, key: string)
    requires NeverCleared(events, key)
    ensures Oks(ToldAlone(c, None, events, key)) == ByWindow(c.limit, c.per, HitsOf(events, key))
    decreases |events|
  {
    if events == [] {
    } else if events[0].key != key {
      OtherKey(c, None, events, key);
      FirstOpens(c, events[1..], key);
    } else {
      hide FromWindow, ByWindow, OfWindow, Within;
      var at, hits := events[0].at, HitsOf(events, key);
      OneHit(c, None, events, key);
      assert hits[1..] == HitsOf(events[1..], key);
      WindowStays(c, Window(at, 1), events[1..], key);
      HitOpensWindow(c.limit, c.per, hits);
    }
  }

  /** What every hit of a key is told, by the times of its hits alone: `ByWindow`, for every trace of calls
      in which the key is not reset, whatever the other keys do. */
  lemma AnswersAreByWindow(c: Config, events: seq<Event>, key: string, from: Time)
    requires Chronological(from, events) && NeverCleared(events, key)
    ensures Oks(Told(c, map[], events, key)) == ByWindow(c.limit, c.per, HitsOf(events, key))
  {
    PurgeIsUnobservable(c, events, key, from);
    FirstOpens(c, events, key);
  }

  /** And a reset begins anew. */
  lemma {:induction false} ResetBeginsAnew(c: Config, w: Option<Window>, before: seq<Event>, at: Time,
                                           events: seq<Event>, key: string)
    ensures ToldAlone(c, w, before + [Clear(key, at)] + events, key)
         == ToldAlone(c, w, before, key) + ToldAlone(c, None, events, key)
    decreases |before|
  {
    var all := before + [Clear(key, at)] + events;
    if before == [] {
      assert all[0] == Clear(key, at) && all[1..] == events;
    } else {
      var e := before[0];
      assert all[0] == e && all[1..] == before[1..] + [Clear(key, at)] + events;
      var v := if e.key != key then w else if e.Clear? then None else Some(Count(c, w, e.at).0);
      ResetBeginsAnew(c, v, before[1..], at, events, key);
    }
  }

  lemma ThreeByWindow()
    ensures ByWindow(1, 60, [0, 30, 61]) == [true, false, true]
  {
    var hits: seq<Time> := [0, 30, 61];
    assert hits[1..] == [30, 61] && hits[1..][1..] == [61] && hits[2..] == [61];
    assert Within([61], 60) == 0 && Within([30, 61], 60) == 1;
    assert OfWindow(1, 0, 2) == [true, false] && OfWindow(1, 0, 1) == [true];
    assert ByWindow(1, 60, [61]) == [true];
  }

  lemma ThreeHits(key: string, run: seq<Event>)
    requires run == [Hit(key, 0), Hit(key, 30), Hit(key, 61)]
    ensures HitsOf(run, key) == [0, 30, 61] && Chronological(0, run) && NeverCleared(run, key)
  {
    var two, one := run[1..], run[1..][1..];
    assert two == [Hit(key, 30), Hit(key, 61)] && one == [Hit(key, 61)] && one[1..] == [];
    assert HitsOf(one, key) == [61] && HitsOf(two, key) == [30, 61];
    assert NeverCleared(one, key) && Chronological(30, one);
    assert NeverCleared(two, key) && Chronological(0, two);
  }

  /** A login that is tried again and again is let through once its minute is over. */
  lemma RetriesDoNotExtend(key: string)
    ensures Oks(Told(Config(1, 60), map[], [Hit(key, 0), Hit(key, 30), Hit(key, 61)], key)) == [true, false, true]
  {
    hide ByWindow, HitsOf, Told, Chronological, NeverCleared, Oks;
    ThreeHits(key, [Hit(key, 0), Hit(key, 30), Hit(key, 61)]);
    ThreeByWindow();
    AnswersAreByWindow(Config(1, 60), [Hit(key, 0), Hit(key, 30), Hit(key, 61)], key, 0);
  }
}
