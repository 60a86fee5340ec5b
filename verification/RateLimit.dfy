/** The per-key rate limiter: a window opened by the first request, not a sliding one. */
module RateLimit {
  import opened Durations

  datatype Window = Window(requests: int, openedAt: int)

  type Windows = map<string, Window>

  /** The limit and the length of a window, as `New` leaves them: both positive. */
  datatype Limits = Limits(requests: int, duration: int)

  predicate Positive(l: Limits) { l.requests >= 1 && l.duration >= 1 }

  // ---------- one request and one cleanup ----------

  /** The answer to a request and the window left behind. */
  function Decide(w: Windows, key: string, now: int, l: Limits): (bool, Windows) {
    if key !in w || now - w[key].openedAt >= l.duration then (true, w[key := Window(1, now)])
    else if w[key].requests >= l.requests then (false, w)
    else (true, w[key := Window(w[key].requests + 1, w[key].openedAt)])
  }

  /** What a request does. Without a window, or when its window opened a duration ago or more, it is allowed
      and opens one. Else it is allowed when fewer than the limit were, and counted; or denied, with no
      change. Other keys are not touched. */
  lemma DecideMeaning(w: Windows, key: string, now: int, l: Limits)
    ensures var (allowed, w') := Decide(w, key, now, l); var open := key in w && now < w[key].openedAt + l.duration;
      && (allowed <==> !open || w[key].requests < l.requests)
      && (!open ==> w' == w[key := Window(1, now)])
      && (open && allowed ==> w' == w[key := Window(w[key].requests + 1, w[key].openedAt)])
      && (!allowed ==> w' == w)
  {
  }

  /** A cleanup drops exactly the windows that opened more than two durations ago. */
  lemma CleanedMeaning(w: Windows, now: int, l: Limits, key: string)
    ensures key in Cleaned(w, now, l) <==> key in w && now <= w[key].openedAt + 2 * l.duration
    ensures key in Cleaned(w, now, l) ==> Cleaned(w, now, l)[key] == w[key]
  {
  }

  predicate Stale(v: Window, now: int, l: Limits) { now - v.openedAt > 2 * l.duration }

  function Cleaned(w: Windows, now: int, l: Limits): Windows {
    map key | key in w && !Stale(w[key], now, l) :: w[key]
  }

  // ---------- the object ----------

  class Limiter {
    var windows: Windows
    const limits: Limits

    /** `New`: a limit or duration that is not positive is replaced by its default. */
    constructor (requests: int, duration: int)
      ensures windows == map[] && Positive(limits)
      ensures limits.requests == if requests <= 0 then 60 else requests
      ensures limits.duration == if duration <= 0 then MINUTE else duration
    {
      limits := Limits(if requests <= 0 then 60 else requests, if duration <= 0 then MINUTE else duration);
      windows := map[];
    }

    method Allow(key: string, now: int) returns (allowed: bool)
      modifies this
      ensures (allowed, windows) == Decide(old(windows), key, now, limits)
    {
      if key !in windows {
        windows := windows[key := Window(1, now)];
        return true;
      }
      var w := windows[key];
      var elapsed := now - w.openedAt;
      if elapsed >= limits.duration {
        windows := windows[key := Window(1, now)];
        return true;
      }
      if w.requests >= limits.requests { return false; }
      windows := windows[key := Window(w.requests + 1, w.openedAt)];
      return true;
    }

    /** `cleanupExpired`: the map is gone through in any order. */
    method CleanupExpired(now: int)
      modifies this
      ensures windows == Cleaned(old(windows), now, limits)
    {
      var todo := windows.Keys;
      ghost var before := windows;
      while todo != {}
        invariant todo <= before.Keys
        invariant forall key :: key in windows <==> key in before && (key in todo || !Stale(before[key], now, limits))
        invariant forall key :: key in windows ==> windows[key] == before[key]
        decreases todo
      {
        var key :| key in todo;
        todo := todo - {key};
        if now - windows[key].openedAt > limits.duration * 2 { windows := windows - {key}; }
      }
    }
  }

  // ---------- runs ----------

  datatype Event = Request(key: string, time: int) | Cleanup(time: int)

  /** The clock does not go back. */
  predicate Timed(events: seq<Event>) {
    forall i, j :: 0 <= i < j < |events| ==> events[i].time <= events[j].time
  }

  function Step(w: Windows, e: Event, l: Limits): Windows {
    match e case Request(key, time) => Decide(w, key, time, l).1 case Cleanup(time) => Cleaned(w, time, l)
  }

  /** The windows after the whole sequence, starting from none. */
  function After(events: seq<Event>, l: Limits): Windows {
    if events == [] then map[] else Step(After(events[..|events| - 1], l), events[|events| - 1], l)
  }

  predicate Allowed(w: Windows, e: Event, l: Limits) {
    e.Request? && Decide(w, e.key, e.time, l).0
  }

  /** How many requests for `key` in the interval [from, from + duration) are allowed. */
  function AllowedIn(events: seq<Event>, l: Limits, key: string, from: int): nat {
    if events == [] then 0
    else
      var (front, last) := (events[..|events| - 1], events[|events| - 1]);
      AllowedIn(front, l, key, from) + if Counts(After(front, l), last, l, key, from) then 1 else 0
  }

  predicate Counts(w: Windows, e: Event, l: Limits, key: string, from: int) {
    e.Request? && e.key == key && from <= e.time < from + l.duration && Allowed(w, e, l)
  }

  // ---------- the bound ----------

  /** What is known of the count when the key's window is `v`: the requests of earlier windows lie a
      whole duration before this one opened, and the opening request itself may lie before `from`. */
  predicate CountFits(count: int, v: Window, from: int, l: Limits) {
    && 1 <= v.requests <= l.requests && count <= 2 * l.requests - 1
    && (from <= v.openedAt < from + l.duration ==> count <= l.requests - 1 + v.requests)
    && (v.openedAt < from ==> count <= v.requests - 1)
    && (v.openedAt + l.duration <= from ==> count == 0)
  }

  /** What is known when the key has no window: anything counted is a whole duration old. */
  predicate CountOld(count: int, now: int, from: int, l: Limits) {
    count <= 2 * l.requests - 1 && (now - l.duration <= from ==> count == 0)
  }

  predicate Known(events: seq<Event>, l: Limits, key: string, from: int) {
    var (w, count) := (After(events, l), AllowedIn(events, l, key, from));
    if events == [] then count == 0
    else
      var now := events[|events| - 1].time;
      if key in w then w[key].openedAt <= now && CountFits(count, w[key], from, l) else CountOld(count, now, from, l)
  }

  lemma {:induction false} CountKnown(events: seq<Event>, l: Limits, key: string, from: int)
    requires Positive(l) && Timed(events)
    ensures Known(events, l, key, from)
    decreases |events|
  {
    if events != [] {
      var front, last := events[..|events| - 1], events[|events| - 1];
      CountKnown(front, l, key, from);
      StepKnown(front, last, l, key, from);
      assert front + [last] == events;
    }
  }

  lemma StepKnown(front: seq<Event>, last: Event, l: Limits, key: string, from: int)
    requires Positive(l) && Known(front, l, key, from)
    requires front == [] || front[|front| - 1].time <= last.time
    ensures Known(front + [last], l, key, from)
  {
    assert (front + [last])[..|front|] == front;
  }

  /** Any half-open interval of one duration holds at most 2L - 1 allowed requests for a key, in
      every timed sequence of requests and cleanups. */
  lemma TwoWindowBound(events: seq<Event>, l: Limits, key: string, from: int)
    requires Positive(l) && Timed(events)
    ensures AllowedIn(events, l, key, from) <= 2 * l.requests - 1
  {
    CountKnown(events, l, key, from);
  }

  // ---------- the bound is met ----------

  /** `n` requests for one key at one time. */
  function Burst(key: string, time: int, n: nat): (r: seq<Event>)
    ensures |r| == n && forall i :: 0 <= i < n ==> r[i] == Request(key, time)
  {
    if n == 0 then [] else Burst(key, time, n - 1) + [Request(key, time)]
  }

  /** One request opens a window; the rest of it is used up just before it ends, and the whole next
      window right after. */
  function Worst(key: string, l: Limits): seq<Event>
    requires Positive(l)
  {
    [Request(key, 0)] + Burst(key, l.duration - 1, l.requests - 1) + Burst(key, l.duration, l.requests)
  }

  lemma OneMore(events: seq<Event>, e: Event, l: Limits, key: string, from: int)
    ensures After(events + [e], l) == Step(After(events, l), e, l)
    ensures AllowedIn(events + [e], l, key, from) ==
      AllowedIn(events, l, key, from) + if Counts(After(events, l), e, l, key, from) then 1 else 0
  {
    assert (events + [e])[..|events|] == events;
  }

  /** A burst on an open window with room: all of it is allowed and counted. */
  lemma {:induction false} BurstAllowed(events: seq<Event>, l: Limits, key: string, time: int, n: nat, from: int)
    requires Positive(l) && from <= time < from + l.duration
    requires var w := After(events, l); key in w && time - w[key].openedAt < l.duration && w[key].requests + n <= l.requests
    ensures var (w, w') := (After(events, l), After(events + Burst(key, time, n), l));
      w' == w[key := Window(w[key].requests + n, w[key].openedAt)]
    ensures AllowedIn(events + Burst(key, time, n), l, key, from) == AllowedIn(events, l, key, from) + n
  {
    hide After, AllowedIn;
    if n == 0 {
      assert events + [] == events;
    } else {
      BurstAllowed(events, l, key, time, n - 1, from);
      var front := events + Burst(key, time, n - 1);
      OneMore(front, Request(key, time), l, key, from);
      assert events + Burst(key, time, n) == front + [Request(key, time)];
    }
  }

  /** No smaller bound holds: for every limit and every duration of at least two there is a timed
      sequence with exactly 2L - 1 allowed requests in one interval. */
  lemma TwoWindowBoundMet(l: Limits, key: string)
    requires Positive(l) && l.duration >= 2
    ensures Timed(Worst(key, l)) && AllowedIn(Worst(key, l), l, key, l.duration - 1) == 2 * l.requests - 1
  {
    var d, from := l.duration, l.duration - 1;
    WorstTimed(l, key);
    WorstShape(l, key);
    hide After, AllowedIn, Burst, Timed, Worst;
    FirstWindow(l, key, d - 1, from);
    var full := [Request(key, 0)] + Burst(key, d - 1, l.requests - 1);
    OneMore(full, Request(key, d), l, key, from);
    BurstAllowed(full + [Request(key, d)], l, key, d, l.requests - 1, from);
  }

  /** A first window used up at time `time`. */
  lemma FirstWindow(l: Limits, key: string, time: int, from: int)
    requires Positive(l) && 0 <= time < l.duration && from <= time < from + l.duration
    ensures var full := [Request(key, 0)] + Burst(key, time, l.requests - 1);
      After(full, l) == map[key := Window(l.requests, 0)] &&
      AllowedIn(full, l, key, from) == if from <= 0 then l.requests else l.requests - 1
  {
    assert After([], l) == map[] && AllowedIn([], l, key, from) == 0;
    hide After, AllowedIn, Burst;
    var first := [Request(key, 0)];
    assert [] + first == first;
    OneMore([], Request(key, 0), l, key, from);
    BurstAllowed(first, l, key, time, l.requests - 1, from);
  }

  lemma WorstTimed(l: Limits, key: string)
    requires Positive(l) && l.duration >= 2
    ensures Timed(Worst(key, l))
  {
  }

  lemma WorstShape(l: Limits, key: string)
    requires Positive(l)
    ensures Worst(key, l) == [Request(key, 0)] + Burst(key, l.duration - 1, l.requests - 1) +
      [Request(key, l.duration)] + Burst(key, l.duration, l.requests - 1)
  {
    BurstFront(key, l.duration, l.requests);
  }

  lemma BurstFront(key: string, time: int, n: nat)
    requires n >= 1
    ensures Burst(key, time, n) == [Request(key, time)] + Burst(key, time, n - 1)
  {
  }

  // ---------- when the window does slide ----------

  /** With windows of one nanosecond: what is known of the count when the key's window is `v`. */
  predicate OneFits(w: Windows, key: string, count: int, now: int, from: int, l: Limits) {
    if key in w then
      && 1 <= w[key].requests <= l.requests && w[key].openedAt <= now
      && count <= (if w[key].openedAt == from then w[key].requests else if w[key].openedAt > from then l.requests else 0)
    else count <= l.requests && (now <= from ==> count == 0)
  }

  lemma {:induction false} OneKnown(events: seq<Event>, l: Limits, key: string, from: int)
    requires Positive(l) && l.duration == 1 && Timed(events)
    ensures if events == [] then AllowedIn(events, l, key, from) == 0
      else OneFits(After(events, l), key, AllowedIn(events, l, key, from), events[|events| - 1].time, from, l)
    decreases |events|
  {
    if events != [] {
      var front, last := events[..|events| - 1], events[|events| - 1];
      OneKnown(front, l, key, from);
      hide After, AllowedIn;
      OneMore(front, last, l, key, from);
      assert front + [last] == events;
      if front == [] { assert After(front, l) == map[] by { NothingYet(l); } }
    }
  }

  lemma NothingYet(l: Limits)
    ensures After([], l) == map[]
  {
  }

  /** The most requests for one key that an interval of one duration can let through. */
  function Bound(l: Limits): int { if l.duration == 1 then l.requests else 2 * l.requests - 1 }

  /** No timed sequence goes beyond the bound. */
  lemma BoundHolds(events: seq<Event>, l: Limits, key: string, from: int)
    requires Positive(l) && Timed(events)
    ensures AllowedIn(events, l, key, from) <= Bound(l)
  {
    if l.duration == 1 { OneKnown(events, l, key, from); } else { TwoWindowBound(events, l, key, from); }
  }

  /** For every limit and every duration some timed sequence reaches it. */
  lemma BoundMet(l: Limits, key: string) returns (events: seq<Event>, from: int)
    requires Positive(l)
    ensures Timed(events) && AllowedIn(events, l, key, from) == Bound(l)
  {
    if l.duration == 1 {
      FirstWindow(l, key, 0, 0);
      events, from := [Request(key, 0)] + Burst(key, 0, l.requests - 1), 0;
    } else {
      TwoWindowBoundMet(l, key);
      events, from := Worst(key, l), l.duration - 1;
    }
  }

  /** The limiter keeps to its limit in every interval of one duration, as a sliding window would, if
      and only if the limit is one request or the duration one nanosecond. */
  lemma SlidesExactlyWhen(l: Limits)
    requires Positive(l)
    ensures (forall events, key, from :: Timed(events) ==> AllowedIn(events, l, key, from) <= l.requests) <==>
      l.requests == 1 || l.duration == 1
  {
    hide AllowedIn, Timed;
    if l.requests == 1 || l.duration == 1 {
      forall events, key, from | Timed(events) ensures AllowedIn(events, l, key, from) <= l.requests {
        BoundHolds(events, l, key, from);
      }
    } else {
      var events, from := BoundMet(l, "");
    }
  }

  // ---------- cleanup is not observable ----------

  /** Two sets of windows no later request can tell apart: they differ only in windows that are over. */
  ghost predicate SameFrom(a: Windows, b: Windows, now: int, l: Limits) {
    && (forall key :: key in a && key in b ==> a[key] == b[key] || (Past(a[key], now, l) && Past(b[key], now, l)))
    && (forall key :: key in a && key !in b ==> Past(a[key], now, l))
    && (forall key :: key in b && key !in a ==> Past(b[key], now, l))
  }

  predicate Past(v: Window, now: int, l: Limits) { now - v.openedAt >= l.duration }

  function Requests(events: seq<Event>): (r: seq<Event>)
    ensures forall i :: 0 <= i < |r| ==> r[i].Request?
  {
    if events == [] then []
    else
      var last := events[|events| - 1];
      Requests(events[..|events| - 1]) + if last.Request? then [last] else []
  }

  lemma CleanedSame(a: Windows, b: Windows, now: int, l: Limits)
    requires Positive(l) && SameFrom(a, b, now, l)
    ensures SameFrom(Cleaned(a, now, l), b, now, l)
  {
  }

  lemma DecideSame(a: Windows, b: Windows, key: string, now: int, l: Limits)
    requires Positive(l) && SameFrom(a, b, now, l)
    ensures Decide(a, key, now, l).0 == Decide(b, key, now, l).0
    ensures SameFrom(Decide(a, key, now, l).1, Decide(b, key, now, l).1, now, l)
  {
  }

  /** Leaving every cleanup out of a timed sequence leaves windows that answer the same. */
  lemma {:induction false} CleanupInvisible(events: seq<Event>, l: Limits, now: int)
    requires Positive(l) && Timed(events) && (events == [] || events[|events| - 1].time <= now)
    ensures SameFrom(After(events, l), After(Requests(events), l), now, l)
    decreases |events|
  {
    if events != [] {
      var front, last := events[..|events| - 1], events[|events| - 1];
      CleanupInvisible(front, l, last.time);
      if last.Request? {
        DecideSame(After(front, l), After(Requests(front), l), last.key, last.time, l);
        OneMore(Requests(front), last, l, last.key, 0);
      } else {
        assert Requests(front) + [] == Requests(front);
        CleanedSame(After(front, l), After(Requests(front), l), last.time, l);
      }
      LaterSame(After(events, l), After(Requests(events), l), last.time, now, l);
    }
  }

  lemma LaterSame(a: Windows, b: Windows, t: int, now: int, l: Limits)
    requires SameFrom(a, b, t, l) && t <= now
    ensures SameFrom(a, b, now, l)
  {
  }

  /** Two timed sequences with the same requests, and cleanups wherever they like, give every later
      request the same answer. */
  lemma CleanupChangesNoAnswer(a: seq<Event>, b: seq<Event>, l: Limits, key: string, now: int)
    requires Positive(l) && Timed(a) && Timed(b) && Requests(a) == Requests(b)
    requires (a == [] || a[|a| - 1].time <= now) && (b == [] || b[|b| - 1].time <= now)
    ensures Decide(After(a, l), key, now, l).0 == Decide(After(b, l), key, now, l).0
  {
    CleanupInvisible(a, l, now);
    CleanupInvisible(b, l, now);
    DecideSame(After(a, l), After(Requests(a), l), key, now, l);
    DecideSame(After(b, l), After(Requests(b), l), key, now, l);
  }

  /** A denied request leaves no trace, and is denied only when its window is open and full; so no
      window ever holds more than the limit. */
  lemma DeniedOnlyWhenFull(events: seq<Event>, l: Limits, key: string, now: int)
    requires Positive(l) && Timed(events) && (events == [] || events[|events| - 1].time <= now)
    ensures var w := After(events, l);
      && (!Decide(w, key, now, l).0 <==> key in w && now < w[key].openedAt + l.duration && w[key].requests == l.requests)
      && (!Decide(w, key, now, l).0 ==> Decide(w, key, now, l).1 == w)
      && (key in w ==> 1 <= w[key].requests <= l.requests)
  {
    CountKnown(events, l, key, 0);
  }
}
