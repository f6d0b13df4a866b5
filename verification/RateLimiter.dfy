/** The fixed-window rate limiter (internal/middleware/ratelimit.go, allow). */
module RateLimiter {
  import opened Prelude

  /** A counting window; the zero start means that none has begun. */
  datatype Window = Window(start: Instant, count: int)

  const NO_WINDOW := Window(0, 0)

  datatype Limits = Limits(perIP: int, window: int) {
    predicate Valid() { perIP >= 1 && window >= 1 }

    /** A request begins a window, joins the current one, or is refused. */
    predicate Begins(w: Window, now: Instant) { w.start == 0 || now - w.start >= window }

    predicate Admits(w: Window, now: Instant) { Begins(w, now) || w.count < perIP }

    function Next(w: Window, now: Instant): Window {
      if Begins(w, now) then Window(now, 1)
      else if w.count < perIP then w.(count := w.count + 1)
      else w
    }
  }

  function Current(counts: map<string, Window>, key: string): Window {
    if key in counts then counts[key] else NO_WINDOW
  }

  datatype Call = Call(key: string, now: Instant)

  /** The counts after a call: only the entry of its key is written, and not even that if the call is refused. */
  function Update(l: Limits, counts: map<string, Window>, call: Call): map<string, Window> {
    var current := Current(counts, call.key);
    if l.Admits(current, call.now) then counts[call.key := l.Next(current, call.now)] else counts
  }

  class Limiter {
    const limits: Limits
    var counts: map<string, Window>

    constructor (limitPerIP: int, window: int)
      ensures limits.perIP == (if limitPerIP <= 0 then 500 else limitPerIP)
      ensures limits.window == (if window <= 0 then 1_000_000_000 else window)
      ensures limits.Valid() && counts == map[]
    {
      limits := Limits(if limitPerIP <= 0 then 500 else limitPerIP, if window <= 0 then 1_000_000_000 else window);
      counts := map[];
    }

    method Allow(key: string, now: Instant) returns (ok: bool)
      modifies this
      ensures ok <==> limits.Admits(Current(old(counts), key), now)
      ensures counts == Update(limits, old(counts), Call(key, now))
    {
      var current := if key in counts then counts[key] else NO_WINDOW;
      if current.start == 0 || now - current.start >= limits.window {
        counts := counts[key := Window(now, 1)];
        return true;
      }
      if current.count >= limits.perIP {
        return false;
      }
      current := current.(count := current.count + 1);
      counts := counts[key := current];
      return true;
    }
  }

  // ---------------------------------------------------------------------------
  // Runs
  // ---------------------------------------------------------------------------

  /** The counts after a run of calls for any keys, from an empty limiter. */
  function Counts(l: Limits, calls: seq<Call>): map<string, Window> {
    if calls == [] then map[] else Update(l, Counts(l, calls[..|calls| - 1]), calls[|calls| - 1])
  }

  function Times(calls: seq<Call>, key: string): seq<Instant> {
    if calls == [] then []
    else Times(calls[..|calls| - 1], key) + if calls[|calls| - 1].key == key then [calls[|calls| - 1].now] else []
  }

  /** The window after calls of one key at the given times. */
  function After(l: Limits, times: seq<Instant>): Window {
    if times == [] then NO_WINDOW else l.Next(After(l, times[..|times| - 1]), times[|times| - 1])
  }

  /** In the shared counts each key has exactly the window of its own calls: calls for other keys have no effect. */
  lemma {:induction false} KeysAreIndependent(l: Limits, calls: seq<Call>, key: string)
    ensures Current(Counts(l, calls), key) == After(l, Times(calls, key))
  {
    if calls != [] {
      var init, last := calls[..|calls| - 1], calls[|calls| - 1];
      KeysAreIndependent(l, init, key);
      if last.key == key {
        assert Times(calls, key)[..|Times(calls, key)| - 1] == Times(init, key);
      } else {
        assert Times(calls, key) == Times(init, key);
      }
    }
  }

  predicate Admitted(l: Limits, times: seq<Instant>, i: nat)
    requires i < |times|
  {
    l.Admits(After(l, times[..i]), times[i])
  }

  /** Admitted calls with a time in [from, until). */
  function Tally(l: Limits, times: seq<Instant>, from: Instant, until: Instant): nat {
    if times == [] then 0
    else
      var n := |times| - 1;
      Tally(l, times[..n], from, until) + if Admitted(l, times, n) && from <= times[n] < until then 1 else 0
  }

  /** Admitted calls counted in the window that starts at the given time. */
  function WindowTally(l: Limits, times: seq<Instant>, start: Instant): nat {
    if times == [] then 0
    else
      var n := |times| - 1;
      WindowTally(l, times[..n], start) + if Admitted(l, times, n) && After(l, times).start == start then 1 else 0
  }

  /** No call is at the zero time, and a call that gets the lock earlier is ahead of a later one by at most the lag. */
  ghost predicate Clock(times: seq<Instant>, lag: int) {
    && (forall i :: 0 <= i < |times| ==> times[i] != 0)
    && (forall i, j :: 0 <= i < j < |times| ==> times[i] <= times[j] + lag)
  }

  /** The current window began with one of the calls, and every later call is at most the lag before that. */
  lemma {:induction false} AfterBounds(l: Limits, times: seq<Instant>)
    requires l.Valid() && forall i :: 0 <= i < |times| ==> times[i] != 0
    ensures times == [] ==> After(l, times) == NO_WINDOW
    ensures times != [] ==> var w := After(l, times);
              w.start in times && 1 <= w.count <= l.perIP && times[|times| - 1] - w.start < l.window
  {
    if times != [] {
      AfterBounds(l, times[..|times| - 1]);
    }
  }

  /** Each counting window admits at most the limit; the current one has admitted exactly its count. */
  lemma {:induction false} WindowTallyBound(l: Limits, times: seq<Instant>, start: Instant)
    requires l.Valid() && (forall i :: 0 <= i < |times| ==> times[i] != 0) && start != 0
    ensures WindowTally(l, times, start) <= l.perIP
    ensures times != [] && After(l, times).start == start ==> WindowTally(l, times, start) == After(l, times).count
    ensures times == [] || After(l, times).start < start ==> WindowTally(l, times, start) == 0
  {
    if times != [] {
      var init := times[..|times| - 1];
      WindowTallyBound(l, init, start);
      AfterBounds(l, init);
      AfterBounds(l, times);
    }
  }

  /** The limit is two and the interval a single instant: three windows may reach into it, but not four. */
  predicate Instantaneous(l: Limits, lag: int, length: int) {
    l.perIP == 2 && length == 1 && lag < 2 * l.window
  }

  /** An interval of this length sees at most two windows, and not both in full, or is the exception. */
  predicate Short(l: Limits, lag: int, length: int) {
    length <= l.window && (l.perIP == 1 || length <= l.window - lag + 1 || Instantaneous(l, lag, length))
  }

  /** How many of an interval's calls can have been admitted so far, by where the current window began. */
  function Quota(l: Limits, w: Window, from: Instant, length: int): int {
    if w.start <= from - l.window then 0
    else if w.start < from then w.count - 1
    else if w.start == from then w.count
    else if l.perIP == 2 && length == 1 then
      if w.start < from + l.window then w.count else if w.start < from + 2 * l.window then w.count + 1 else 3
    else if w.start < from + length then l.perIP - 1 + w.count
    else if w.start <= from + l.window then l.perIP + w.count - 1
    else 2 * l.perIP - 1
  }

  lemma QuotaBegins(l: Limits, t: Instant, from: Instant, length: int)
    requires l.Valid() && 1 <= length <= l.window
    ensures Quota(l, Window(t, 1), from, length) >= if from <= t < from + length then 1 else 0
  {
  }

  /** A call that is admitted within the interval raises the quota. */
  lemma QuotaGrows(l: Limits, w: Window, t: Instant, lag: int, from: Instant, length: int)
    requires l.Valid() && 1 <= w.count <= l.perIP && w.start != 0 && w.start <= t + lag && 1 <= length
             && Short(l, lag, length)
    ensures Quota(l, l.Next(w, t), from, length) >=
            Quota(l, w, from, length) + if l.Admits(w, t) && from <= t < from + length then 1 else 0
  {
  }

  lemma {:induction false} SlidingInvariant(l: Limits, times: seq<Instant>, lag: int, from: Instant, length: int)
    requires l.Valid() && lag >= 0 && Clock(times, lag) && 1 <= length && Short(l, lag, length)
    ensures times == [] ==> Tally(l, times, from, from + length) == 0
    ensures times != [] ==> Tally(l, times, from, from + length) <= Quota(l, After(l, times), from, length)
  {
    hide Quota, Limits.Admits, Limits.Next;
    if times != [] {
      var init, t := times[..|times| - 1], times[|times| - 1];
      SlidingInvariant(l, init, lag, from, length);
      AfterBounds(l, init);
      if init == [] {
        FirstBegins(l, t);
        QuotaBegins(l, t, from, length);
      } else {
        var i :| 0 <= i < |init| && init[i] == After(l, init).start;
        assert times[i] == init[i] <= t + lag;
        QuotaGrows(l, After(l, init), t, lag, from, length);
      }
    }
  }

  lemma FirstBegins(l: Limits, t: Instant)
    ensures l.Next(NO_WINDOW, t) == Window(t, 1)
  {
  }

  /** In any half-open interval that is short enough at most 2*limit - 1 requests of a key are admitted. */
  lemma {:induction false} TallyBound(l: Limits, times: seq<Instant>, lag: int, from: Instant, length: int)
    requires l.Valid() && lag >= 0 && Clock(times, lag) && 1 <= length && Short(l, lag, length)
    ensures Tally(l, times, from, from + length) <= 2 * l.perIP - 1
  {
    SlidingInvariant(l, times, lag, from, length);
    AfterBounds(l, times);
  }

  // ---------------------------------------------------------------------------
  // The bound is exact
  // ---------------------------------------------------------------------------

  function Repeat(t: Instant, n: nat): seq<Instant> { seq(n, _ => t) }

  lemma TallyLast(l: Limits, times: seq<Instant>, t: Instant, from: Instant, until: Instant)
    ensures After(l, times + [t]) == l.Next(After(l, times), t)
    ensures Tally(l, times + [t], from, until) ==
            Tally(l, times, from, until) + if l.Admits(After(l, times), t) && from <= t < until then 1 else 0
  {
    var all := times + [t];
    assert all[..|all| - 1] == times && all[|all| - 1] == t;
  }

  /** Calls that join a window with room are all admitted. */
  lemma {:induction false} RepeatJoins(l: Limits, times: seq<Instant>, t: Instant, n: nat, from: Instant,
                                       until: Instant)
    requires After(l, times).start != 0 && t - After(l, times).start < l.window && After(l, times).count + n <= l.perIP
    requires from <= t < until
    ensures After(l, times + Repeat(t, n)) == After(l, times).(count := After(l, times).count + n)
    ensures Tally(l, times + Repeat(t, n), from, until) == Tally(l, times, from, until) + n
  {
    if n == 0 {
      assert times + Repeat(t, 0) == times;
    } else {
      RepeatJoins(l, times, t, n - 1, from, until);
      TallyLast(l, times + Repeat(t, n - 1), t, from, until);
      assert times + Repeat(t, n) == times + Repeat(t, n - 1) + [t];
    }
  }

  lemma EmptyRun(l: Limits, from: Instant, until: Instant)
    ensures After(l, []) == NO_WINDOW && Tally(l, [], from, until) == 0
  {
  }

  /** A call that begins a window at a later time and is joined by calls up to the limit. */
  lemma FullWindow(l: Limits, times: seq<Instant>, start: Instant, t: Instant, from: Instant, until: Instant)
    returns (more: seq<Instant>)
    requires l.Valid() && l.Begins(After(l, times), start) && start != 0 && t - start < l.window && from <= t < until
    ensures more == times + [start] + Repeat(t, l.perIP - 1) && After(l, more) == Window(start, l.perIP)
    ensures Tally(l, more, from, until) ==
            Tally(l, times, from, until) + (if from <= start < until then 1 else 0) + l.perIP - 1
  {
    hide After, Tally;
    TallyLast(l, times, start, from, until);
    RepeatJoins(l, times + [start], t, l.perIP - 1, from, until);
    more := times + [start] + Repeat(t, l.perIP - 1);
  }

  /** A burst at the end of one window and the next window's quota: 2*limit - 1 within one window length. */
  lemma {:induction false} SlidingBoundAttained(l: Limits) returns (times: seq<Instant>)
    requires l.Valid() && l.window >= 2
    ensures Clock(times, 0) && Tally(l, times, l.window, 2 * l.window) == 2 * l.perIP - 1
  {
    hide After, Tally;
    var (n, w) := (l.perIP - 1, l.window);
    EmptyRun(l, w, 2 * w);
    times := FullWindow(l, [], 1, w, w, 2 * w);
    times := FullWindow(l, times, w + 1, w + 1, w, 2 * w);
    assert |times| == 2 * n + 2;
    assert forall i :: 0 <= i < |times| ==> times[i] == if i == 0 then 1 else if i <= n then w else w + 1;
  }

  /** In an interval longer than a window two windows can be admitted in full. */
  lemma {:induction false} TwoFullWindows(l: Limits, length: int) returns (times: seq<Instant>)
    requires l.Valid() && length > l.window
    ensures Clock(times, 0) && Tally(l, times, 1, 1 + length) == 2 * l.perIP
  {
    hide After, Tally;
    var (n, w) := (l.perIP - 1, l.window);
    EmptyRun(l, 1, 1 + length);
    times := FullWindow(l, [], 1, 1, 1, 1 + length);
    times := FullWindow(l, times, 1 + w, 1 + w, 1, 1 + length);
    assert |times| == 2 * n + 2;
    assert forall i :: 0 <= i < |times| ==> times[i] == if i <= n then 1 else 1 + w;
  }

  /**
    * With a lag three windows can reach into an interval within one window length: 3*limit - 2 requests are admitted.
    */
  lemma {:induction false} ThreeWindows(l: Limits, lag: int, length: int) returns (times: seq<Instant>)
    requires l.Valid() && 2 <= length <= l.window && length > l.window - lag + 1
    ensures Clock(times, lag) && Tally(l, times, l.window, l.window + length) == 3 * l.perIP - 2
  {
    hide After, Tally;
    var (n, w, until) := (l.perIP - 1, l.window, l.window + length);
    EmptyRun(l, w, until);
    times := FullWindow(l, [], 1, w, w, until);
    times := FullWindow(l, times, w + 1, w + 1, w, until);
    times := FullWindow(l, times, 2 * w + 1, until - 1, w, until);
    assert |times| == 3 * n + 3;
    assert forall i :: 0 <= i < |times| ==>
                         times[i] == if i == 0 then 1 else if i <= n then w else if i <= 2 * n + 1 then w + 1
                                     else if i == 2 * n + 2 then 2 * w + 1 else until - 1;
  }

  /** With a lag above the window length, three windows can be joined at a single instant. */
  lemma {:induction false} ThreeAtOnce(l: Limits, lag: int) returns (times: seq<Instant>, from: Instant)
    requires l.Valid() && lag > l.window
    ensures Clock(times, lag) && Tally(l, times, from, from + 1) >= 3 * l.perIP - 3
  {
    hide After, Tally;
    var (n, w) := (l.perIP - 1, l.window);
    from := w + 1;
    EmptyRun(l, from, from + 1);
    if w == 1 {
      times := FullWindow(l, [], from, from, from, from + 1);
    } else {
      times := FullWindow(l, [], 2, from, from, from + 1);
    }
    var first := times[0];
    times := FullWindow(l, times, from + 1, from, from, from + 1);
    times := FullWindow(l, times, from + 1 + w, from, from, from + 1);
    assert |times| == 3 * n + 3;
    assert forall i :: 0 <= i < |times| ==>
                         times[i] == if i == 0 then first else if i <= n then from else if i == n + 1 then from + 1
                                     else if i <= 2 * n + 1 then from else if i == 2 * n + 2 then from + 1 + w
                                       else from;
  }

  /** With a lag of twice the window length a window can begin at an instant that two later ones are joined at. */
  lemma {:induction false} FourAtOnce(l: Limits, lag: int) returns (times: seq<Instant>)
    requires l.Valid() && lag >= 2 * l.window
    ensures Clock(times, lag) && Tally(l, times, 1, 2) == 3 * l.perIP - 2
  {
    hide After, Tally;
    var (n, w) := (l.perIP - 1, l.window);
    EmptyRun(l, 1, 2);
    times := FullWindow(l, [], 1, 1, 1, 2);
    times := FullWindow(l, times, 1 + w, 1, 1, 2);
    times := FullWindow(l, times, 1 + 2 * w, 1, 1, 2);
    assert |times| == 3 * n + 3;
    assert forall i :: 0 <= i < |times| ==>
                         times[i] == if i == n + 1 then 1 + w else if i == 2 * n + 2 then 1 + 2 * w else 1;
  }

  // ---------------------------------------------------------------------------
  // Runs of the limiter
  // ---------------------------------------------------------------------------

  /** The answer of call i of a run. */
  predicate Answers(l: Limits, calls: seq<Call>, i: nat)
    requires i < |calls|
  {
    l.Admits(Current(Counts(l, calls[..i]), calls[i].key), calls[i].now)
  }

  /** Admitted calls of a key with a time in [from, until). */
  function CallTally(l: Limits, calls: seq<Call>, key: string, from: Instant, until: Instant): nat {
    if calls == [] then 0
    else
      var n := |calls| - 1;
      CallTally(l, calls[..n], key, from, until)
      + if calls[n].key == key && Answers(l, calls, n) && from <= calls[n].now < until then 1 else 0
  }

  /** Admitted calls of a key that the window starting at the given time has counted. */
  function CallWindowTally(l: Limits, calls: seq<Call>, key: string, start: Instant): nat {
    if calls == [] then 0
    else
      var n := |calls| - 1;
      CallWindowTally(l, calls[..n], key, start)
      + if calls[n].key == key && Answers(l, calls, n) && Current(Counts(l, calls), key).start == start then 1 else 0
  }

  ghost predicate CallClock(calls: seq<Call>, lag: int) {
    && (forall i :: 0 <= i < |calls| ==> calls[i].now != 0)
    && (forall i, j :: 0 <= i < j < |calls| ==> calls[i].now <= calls[j].now + lag)
  }

  lemma {:induction false} TimesClock(calls: seq<Call>, key: string, lag: int)
    requires CallClock(calls, lag)
    ensures Clock(Times(calls, key), lag)
    ensures forall t :: t in Times(calls, key) ==> exists i :: 0 <= i < |calls| && calls[i].now == t
  {
    if calls != [] {
      var init, last := calls[..|calls| - 1], calls[|calls| - 1];
      TimesClock(init, key, lag);
      forall t | t in Times(init, key)
        ensures t <= last.now + lag && exists i :: 0 <= i < |calls| && calls[i].now == t
      {
        var i :| 0 <= i < |init| && init[i].now == t;
        assert calls[i] == init[i];
      }
      var (before, times) := (Times(init, key), Times(calls, key));
      assert forall i :: 0 <= i < |before| ==> before[i] in before && times[i] == before[i];
    }
  }

  /** What a run of the limiter admits of a key is what that key's calls alone would be admitted. */
  lemma {:induction false} TalliesAgree(l: Limits, calls: seq<Call>, key: string, from: Instant, until: Instant,
                                        start: Instant)
    ensures CallTally(l, calls, key, from, until) == Tally(l, Times(calls, key), from, until)
    ensures CallWindowTally(l, calls, key, start) == WindowTally(l, Times(calls, key), start)
  {
    if calls != [] {
      var init, last := calls[..|calls| - 1], calls[|calls| - 1];
      TalliesAgree(l, init, key, from, until, start);
      var times := Times(calls, key);
      if last.key == key {
        assert times[..|times| - 1] == Times(init, key);
        KeysAreIndependent(l, init, key);
        KeysAreIndependent(l, calls, key);
      } else {
        assert times == Times(init, key);
      }
    }
  }

  /** Each counting window of a key admits at most the limit, in any run with nonzero clock readings. */
  lemma {:induction false} WindowBound(l: Limits, calls: seq<Call>, key: string, start: Instant)
    requires l.Valid() && (forall i :: 0 <= i < |calls| ==> calls[i].now != 0) && start != 0
    ensures CallWindowTally(l, calls, key, start) <= l.perIP
  {
    TimesNonzero(calls, key);
    TalliesAgree(l, calls, key, 0, 0, start);
    WindowTallyBound(l, Times(calls, key), start);
  }

  lemma {:induction false} TimesNonzero(calls: seq<Call>, key: string)
    requires forall i :: 0 <= i < |calls| ==> calls[i].now != 0
    ensures forall i :: 0 <= i < |Times(calls, key)| ==> Times(calls, key)[i] != 0
  {
    if calls != [] {
      TimesNonzero(calls[..|calls| - 1], key);
    }
  }

  /**
    * In any half-open interval that is short enough the limiter admits at most 2*limit - 1 requests of a key. Short
    * means at most one window length, and with a limit above one also at most window - lag + 1, or, with a limit of
    * two, a single instant while the lag is below two windows. So readings that go back by one nanosecond do no harm.
    */
  lemma {:induction false} SlidingBound(l: Limits, calls: seq<Call>, key: string, lag: int, from: Instant, length: int)
    requires l.Valid() && lag >= 0 && CallClock(calls, lag) && 1 <= length && Short(l, lag, length)
    ensures CallTally(l, calls, key, from, from + length) <= 2 * l.perIP - 1
  {
    TimesClock(calls, key, lag);
    TalliesAgree(l, calls, key, from, from + length, 0);
    TallyBound(l, Times(calls, key), lag, from, length);
  }

  function CallsAt(key: string, times: seq<Instant>): (calls: seq<Call>)
    ensures |calls| == |times| && forall i :: 0 <= i < |calls| ==> calls[i] == Call(key, times[i])
  {
    seq(|times|, i requires 0 <= i < |times| => Call(key, times[i]))
  }

  lemma {:induction false} TimesOfCallsAt(key: string, times: seq<Instant>)
    ensures Times(CallsAt(key, times), key) == times
  {
    if times != [] {
      var init := times[..|times| - 1];
      TimesOfCallsAt(key, init);
      assert CallsAt(key, times)[..|times| - 1] == CallsAt(key, init);
      assert times == init + [times[|times| - 1]];
    }
  }

  lemma ClockOfCallsAt(key: string, times: seq<Instant>, lag: int)
    requires lag >= 0 && (Clock(times, 0) || Clock(times, lag))
    ensures CallClock(CallsAt(key, times), lag)
  {
  }

  /** At most 2*limit - 1 calls of the key are admitted in the interval. */
  predicate Bounded(l: Limits, calls: seq<Call>, key: string, from: Instant, length: int) {
    CallTally(l, calls, key, from, from + length) <= 2 * l.perIP - 1
  }

  /** A run that exceeds the bound in an interval that is not short. */
  lemma LongRun(l: Limits, lag: int, length: int) returns (times: seq<Instant>, from: Instant)
    requires l.Valid() && lag >= 0 && length >= 1 && !Short(l, lag, length)
    ensures (Clock(times, 0) || Clock(times, lag)) && Tally(l, times, from, from + length) > 2 * l.perIP - 1
  {
    hide Tally, Clock;
    if length > l.window {
      from := 1;
      times := TwoFullWindows(l, length);
    } else if length >= 2 {
      from := l.window;
      times := ThreeWindows(l, lag, length);
    } else if l.perIP == 2 {
      from := 1;
      times := FourAtOnce(l, lag);
    } else {
      times, from := ThreeAtOnce(l, lag);
    }
  }

  /** The bound holds in every run exactly for the short intervals. */
  lemma {:induction false} SlidingExactly(l: Limits, key: string, lag: int, length: int)
    requires l.Valid() && lag >= 0 && length >= 1
    ensures Short(l, lag, length) <==>
            forall calls, from :: CallClock(calls, lag) ==> Bounded(l, calls, key, from, length)
  {
    hide CallTally, Tally, Clock, CallClock, Times;
    if Short(l, lag, length) {
      forall calls, from | CallClock(calls, lag) ensures Bounded(l, calls, key, from, length) {
        SlidingBound(l, calls, key, lag, from, length);
      }
    } else {
      var times, from := LongRun(l, lag, length);
      var calls := CallsAt(key, times);
      TimesOfCallsAt(key, times);
      ClockOfCallsAt(key, times, lag);
      TalliesAgree(l, calls, key, from, from + length, 0);
      assert !Bounded(l, calls, key, from, length);
    }
  }
}
