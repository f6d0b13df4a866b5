/** Replay protection: the nonce cache and the timestamp skew check (internal/middleware/hmac.go). */
module NonceStore {
  import opened Prelude
  import Calendar

  type Seen = map<string, Instant>

  const SECOND := 1_000_000_000
  const DEFAULT_TTL := 60 * SECOND

  /** The entries that survive a sweep at the given clock reading. */
  function Swept(s: Seen, ttl: int, now: Instant): Seen {
    map k | k in s && now - s[k] <= ttl :: s[k]
  }

  class MemoryNonceStore {
    const ttl: int
    var seenAt: Seen

    constructor (ttl: int)
      ensures seenAt == map[] && this.ttl == if ttl <= 0 then DEFAULT_TTL else ttl
    {
      this.ttl := if ttl <= 0 then DEFAULT_TTL else ttl;
      seenAt := map[];
    }

    method Use(nonce: string, ttl: int, now: Instant) returns (isNew: bool)
      modifies this
      ensures isNew <==> nonce !in Swept(old(seenAt), ttl, now)
      ensures seenAt == if isNew then Swept(old(seenAt), ttl, now)[nonce := now] else Swept(old(seenAt), ttl, now)
    {
      ghost var before := seenAt;
      var keys := seenAt.Keys;
      while keys != {}
        invariant keys <= before.Keys
        invariant seenAt == map k | k in before && (k in keys || now - before[k] <= ttl) :: before[k]
        decreases keys
      {
        var key :| key in keys;
        if now - seenAt[key] > ttl {
          seenAt := seenAt - {key};
        }
        keys := keys - {key};
      }
      assert seenAt == Swept(before, ttl, now);
      if nonce in seenAt {
        return false;
      }
      seenAt := seenAt[nonce := now];
      return true;
    }
  }

  // ---------------------------------------------------------------------------
  // Runs of Use calls, in the order in which they take the lock
  // ---------------------------------------------------------------------------

  datatype Call = Call(nonce: string, now: Instant)

  function Store(calls: seq<Call>, ttl: int): Seen {
    if calls == [] then map[]
    else
      var last := calls[|calls| - 1];
      var swept := Swept(Store(calls[..|calls| - 1], ttl), ttl, last.now);
      if last.nonce in swept then swept else swept[last.nonce := last.now]
  }

  /** The answer that call i gets. */
  predicate Accepted(calls: seq<Call>, ttl: int, i: nat)
    requires i < |calls|
  {
    calls[i].nonce !in Swept(Store(calls[..i], ttl), ttl, calls[i].now)
  }

  /** Call j recorded the nonce and no call after it and before call n has swept it. */
  ghost predicate Holds(calls: seq<Call>, ttl: int, nonce: string, j: int, n: nat)
    requires n <= |calls|
  {
    0 <= j < n && calls[j].nonce == nonce && Accepted(calls, ttl, j) && forall p :: j < p < n ==>
        calls[p].now - calls[j].now <= ttl
  }

  /** The cache before call n, swept at its clock reading, and the cache after it. */
  lemma StoreStep(calls: seq<Call>, ttl: int, n: nat)
    requires n < |calls|
    ensures Store(calls[..n + 1], ttl) ==
            (var swept := Swept(Store(calls[..n], ttl), ttl, calls[n].now);
             if Accepted(calls, ttl, n) then swept[calls[n].nonce := calls[n].now] else swept)
  {
    assert calls[..n + 1][..n] == calls[..n];
  }

  /** The cache holds exactly the accepted uses that no sweep has removed, for any clock readings at all. */
  lemma {:induction false} StoreIsUnsweptUses(calls: seq<Call>, ttl: int, n: nat, nonce: string)
    requires n <= |calls| && ttl >= 0
    ensures nonce in Store(calls[..n], ttl) <==> exists j :: Holds(calls, ttl, nonce, j, n)
    ensures forall j :: Holds(calls, ttl, nonce, j, n) ==>
                          nonce in Store(calls[..n], ttl) && Store(calls[..n], ttl)[nonce] == calls[j].now
  {
    hide Store;
    if n == 0 {
      assert Store(calls[..0], ttl) == map[] by { EmptyStore(ttl); }
    } else {
      var m, last := n - 1, calls[n - 1];
      StoreIsUnsweptUses(calls, ttl, m, nonce);
      StoreStep(calls, ttl, m);
      var swept := Swept(Store(calls[..m], ttl), ttl, last.now);
      forall j | Holds(calls, ttl, nonce, j, n)
        ensures nonce in Store(calls[..n], ttl) && Store(calls[..n], ttl)[nonce] == calls[j].now
      {
        if j < m {
          assert Holds(calls, ttl, nonce, j, m);
        }
      }
      if nonce in swept {
        var j :| Holds(calls, ttl, nonce, j, m);
        assert Holds(calls, ttl, nonce, j, n);
      } else if last.nonce == nonce {
        assert Holds(calls, ttl, nonce, m, n);
      }
    }
  }

  lemma EmptyStore(ttl: int)
    ensures Store([], ttl) == map[]
  {
  }

  /** A use is refused exactly when an accepted use of the same nonce has not been swept, even by this call. */
  lemma {:induction false} RefusedExactlyWhenHeld(calls: seq<Call>, ttl: int, i: nat)
    requires i < |calls| && ttl >= 0
    ensures !Accepted(calls, ttl, i) <==>
            exists j :: Holds(calls, ttl, calls[i].nonce, j, i) && calls[i].now - calls[j].now <= ttl
  {
    StoreIsUnsweptUses(calls, ttl, i, calls[i].nonce);
  }

  ghost predicate NondecreasingClock(calls: seq<Call>) {
    forall i, j :: 0 <= i < j < |calls| ==> calls[i].now <= calls[j].now
  }

  /** The reference: a log that never forgets, refusing a nonce accepted at most ttl ago. */
  predicate LogAccepts(calls: seq<Call>, ttl: int, i: nat)
    requires i < |calls|
  {
    forall j :: 0 <= j < i && calls[j].nonce == calls[i].nonce && LogAccepts(calls, ttl, j) ==>
        calls[i].now - calls[j].now > ttl
  }

  /** With a nondecreasing clock the pruned cache answers exactly as the log that never forgets. */
  lemma {:induction false} PruningIsInvisible(calls: seq<Call>, ttl: int, i: nat)
    requires i < |calls| && ttl >= 0 && NondecreasingClock(calls)
    ensures Accepted(calls, ttl, i) <==> LogAccepts(calls, ttl, i)
  {
    forall j | 0 <= j < i ensures Accepted(calls, ttl, j) <==> LogAccepts(calls, ttl, j) {
      PruningIsInvisible(calls, ttl, j);
    }
    RefusedExactlyWhenHeld(calls, ttl, i);
    var nonce := calls[i].nonce;
    if Accepted(calls, ttl, i) {
      forall j | 0 <= j < i && calls[j].nonce == nonce && LogAccepts(calls, ttl, j)
        ensures calls[i].now - calls[j].now > ttl
      {
        if calls[i].now - calls[j].now <= ttl {
          assert Holds(calls, ttl, nonce, j, i);
        }
      }
    } else {
      var j :| Holds(calls, ttl, nonce, j, i) && calls[i].now - calls[j].now <= ttl;
      assert LogAccepts(calls, ttl, j);
    }
  }

  // ---------------------------------------------------------------------------
  // The skew check
  // ---------------------------------------------------------------------------

  const MIN_INT64 := -0x8000_0000_0000_0000
  const MAX_INT64 := 0x7FFF_FFFF_FFFF_FFFF
  const UNIX_EPOCH_SECONDS := 62_135_596_800  // seconds from year 1 to 1970

  function Wrap64(x: int): int {
    (x - MIN_INT64) % 0x1_0000_0000_0000_0000 + MIN_INT64
  }

  /** time.Unix: seconds are rebased to year 1 in 64-bit arithmetic. */
  function UnixTime(timestamp: int): Instant {
    Wrap64(timestamp + UNIX_EPOCH_SECONDS) * SECOND
  }

  const UNIX_EPOCH := Calendar.Civil(1970, 1, 1, 0, 0, 0, 0)

  lemma EpochIs()
    ensures UNIX_EPOCH.Valid() && UNIX_EPOCH.Instant() == UNIX_EPOCH_SECONDS * SECOND
  {
    hide Calendar.Civil.Valid, Calendar.Civil.Instant;
    Calendar.YearStart(UNIX_EPOCH);
  }

  /** A timestamp counts the seconds from 1970-01-01T00:00:00Z of the calendar, as long as year 1 is within 64 bits. */
  lemma {:induction false} UnixTimeIs(timestamp: int)
    requires MIN_INT64 <= timestamp + UNIX_EPOCH_SECONDS <= MAX_INT64
    ensures UNIX_EPOCH.Valid() && UnixTime(timestamp) == UNIX_EPOCH.Instant() + timestamp * SECOND
  {
    hide Calendar.Civil.Valid, Calendar.Civil.Instant;
    EpochIs();
  }

  /** time.Since: the difference saturates at the ends of a 64-bit duration. */
  function Since(now: Instant, t: Instant): int {
    if now - t < MIN_INT64 then MIN_INT64 else if now - t > MAX_INT64 then MAX_INT64 else now - t
  }

  /** absDuration: negating the least duration wraps to itself. */
  function AbsDuration(d: int): int {
    if d < 0 then Wrap64(-d) else d
  }

  predicate SkewOk(skew: int, now: Instant, timestamp: int) {
    AbsDuration(Since(now, UnixTime(timestamp))) <= skew
  }

  /** A timestamp so far ahead that the difference saturates. */
  predicate FarFuture(now: Instant, timestamp: int) {
    now - UnixTime(timestamp) <= MIN_INT64
  }

  /**
    * The check bounds the distance to the clock, except that a timestamp 2^63 nanoseconds or more ahead always passes,
    * and so does everything under the greatest skew, at which the difference saturates.
    */
  lemma {:induction false} SkewExactly(skew: int, now: Instant, timestamp: int)
    requires 0 < skew <= MAX_INT64
    ensures SkewOk(skew, now, timestamp) <==>
            FarFuture(now, timestamp) || -skew <= now - UnixTime(timestamp) <= skew || skew == MAX_INT64
  {
    var d := Since(now, UnixTime(timestamp));
    if MIN_INT64 < d < 0 {
      assert Wrap64(-d) == -d;
    } else if d == MIN_INT64 {
      assert Wrap64(-d) == MIN_INT64;
    }
  }

  /** Every check of HMAC.Wrap before the nonce check. */
  predicate Presentable(timestamp: Option<int>, nonce: string, signature: string, signatureValid: bool, skew: int,
                        skewRead: Instant) {
    timestamp.Some? && nonce != "" && signature != "" && SkewOk(skew, skewRead, timestamp.value) && signatureValid
  }

  /**
    * The checks of HMAC.Wrap after the body is read. Only a request that passes all others consults the nonce store,
    * and without a store it is admitted with no replay check.
    */
  method Admit(timestamp: Option<int>, nonce: string, signature: string, signatureValid: bool,
               skew: int, store: MemoryNonceStore?, skewRead: Instant, useRead: Instant) returns (admitted: bool)
    modifies if store != null then {store} else {}
    ensures admitted <==> && Presentable(timestamp, nonce, signature, signatureValid, skew, skewRead)
                          && (store != null ==> nonce !in Swept(old(store.seenAt), store.ttl, useRead))
    ensures store != null && admitted ==> store.seenAt == Swept(old(store.seenAt), store.ttl, useRead)[nonce := useRead]
    ensures store != null && !Presentable(timestamp, nonce, signature, signatureValid, skew, skewRead) ==>
              store.seenAt == old(store.seenAt)
  {
    if timestamp.None? || nonce == "" || signature == "" {
      return false;
    }
    if AbsDuration(Since(skewRead, UnixTime(timestamp.value))) > skew {
      return false;
    }
    if !signatureValid {
      return false;
    }
    if store != null {
      admitted := store.Use(nonce, store.ttl, useRead);
      return;
    }
    return true;
  }

  // ---------------------------------------------------------------------------
  // No replay
  // ---------------------------------------------------------------------------

  /** A request that reached the nonce check: its header fields and its two clock readings. */
  datatype Request = Request(timestamp: int, nonce: string, skewRead: Instant, useRead: Instant)

  function Calls(rs: seq<Request>): (cs: seq<Call>)
    ensures |cs| == |rs| && forall i :: 0 <= i < |cs| ==> cs[i] == Call(rs[i].nonce, rs[i].useRead)
  {
    seq(|rs|, i requires 0 <= i < |rs| => Call(rs[i].nonce, rs[i].useRead))
  }

  /**
    * Every request passed the skew check; the nonce clock reading follows the skew reading by at most gap;
    * and a reading taken by a request that gets the lock earlier is ahead of a later one by at most lag.
    * With one clock that never goes back and readings taken in lock order, lag is zero.
    */
  ghost predicate Run(rs: seq<Request>, skew: int, gap: int, lag: int) {
    && (forall i :: 0 <= i < |rs| ==> SkewOk(skew, rs[i].skewRead, rs[i].timestamp))
    && (forall i :: 0 <= i < |rs| ==> rs[i].skewRead <= rs[i].useRead <= rs[i].skewRead + gap)
    && (forall i, j :: 0 <= i < j < |rs| ==> rs[i].useRead <= rs[j].useRead + lag)
  }

  ghost predicate Replayed(rs: seq<Request>, ttl: int, i: nat, j: nat) {
    && i < j < |rs| && rs[i].timestamp == rs[j].timestamp && rs[i].nonce == rs[j].nonce
    && Accepted(Calls(rs), ttl, i) && Accepted(Calls(rs), ttl, j)
  }

  /** Any run in which request r is accepted, and its timestamp and nonce again later. */
  ghost predicate CanBeReplayed(r: Request, skew: int, gap: int, lag: int, ttl: int) {
    exists rs: seq<Request>, i: nat, j: nat :: Run(rs, skew, gap, lag) && Replayed(rs, ttl, i, j) && rs[i] == r
  }

  /** The latest a nonce check can run, or a sweep before it, for a request with this timestamp. */
  function LatestSweep(timestamp: int, skew: int, gap: int, lag: int): Instant {
    UnixTime(timestamp) + skew + gap + lag
  }

  /** Request q can reach the nonce check and sweep what was used more than ttl before, in time for a replay of r. */
  predicate Sweeps(q: Request, r: Request, skew: int, gap: int, lag: int, ttl: int) {
    && SkewOk(skew, q.skewRead, q.timestamp) && q.skewRead <= q.useRead <= q.skewRead + gap
    && r.useRead + ttl < q.useRead <= LatestSweep(r.timestamp, skew, gap, lag)
  }

  /** A replay needs a request that sweeps the first use more than ttl after it, at the latest the replay itself. */
  lemma {:induction false} ReplayNeedsSweep(rs: seq<Request>, skew: int, gap: int, lag: int, ttl: int, i: nat, j: nat)
    requires 0 < skew < MAX_INT64 && gap >= 0 && lag >= 0 && ttl >= 0
    requires Run(rs, skew, gap, lag) && Replayed(rs, ttl, i, j)
    ensures exists q :: Sweeps(q, rs[i], skew, gap, lag, ttl)
  {
    var cs, latest := Calls(rs), LatestSweep(rs[i].timestamp, skew, gap, lag);
    SkewExactly(skew, rs[j].skewRead, rs[j].timestamp);
    assert rs[j].useRead + lag <= latest;
    RefusedExactlyWhenHeld(cs, ttl, j);
    assert !(Holds(cs, ttl, rs[j].nonce, i, j) && cs[j].now - cs[i].now <= ttl);
    if k :| i < k < j && cs[k].now - cs[i].now > ttl {
      assert rs[k].useRead <= rs[j].useRead + lag;
      assert Sweeps(rs[k], rs[i], skew, gap, lag, ttl);
    } else {
      assert Sweeps(rs[j], rs[i], skew, gap, lag, ttl);
    }
  }

  /** No timestamp and nonce pair is accepted twice, unless its timestamp was far in the future the first time. */
  lemma {:induction false} NoReplay(rs: seq<Request>, skew: int, gap: int, lag: int, ttl: int, i: nat, j: nat)
    requires 0 < skew < MAX_INT64 && gap >= 0 && lag >= 0
    requires ttl >= 2 * skew + gap + lag
    requires Run(rs, skew, gap, lag) && i < |rs| && !FarFuture(rs[i].skewRead, rs[i].timestamp)
    ensures !Replayed(rs, ttl, i, j)
  {
    SkewExactly(skew, rs[i].skewRead, rs[i].timestamp);
    if Replayed(rs, ttl, i, j) {
      ReplayNeedsSweep(rs, skew, gap, lag, ttl, i, j);
    }
  }

  /** Two uses more than ttl apart are both accepted. */
  lemma TwoCalls(cs: seq<Call>, ttl: int)
    requires |cs| == 2 && cs[1].now - cs[0].now > ttl >= 0
    ensures Accepted(cs, ttl, 0) && Accepted(cs, ttl, 1)
  {
    assert Store(cs[..0], ttl) == map[];
    RefusedExactlyWhenHeld(cs, ttl, 1);
  }

  /**
    * A use of another nonce that sweeps the first use lets the same nonce in again, even if that reads an earlier
    * clock.
    */
  lemma ThreeCalls(cs: seq<Call>, ttl: int)
    requires |cs| == 3 && cs[1].now - cs[0].now > ttl >= 0 && cs[1].nonce != cs[0].nonce == cs[2].nonce
    ensures Accepted(cs, ttl, 0) && Accepted(cs, ttl, 2)
  {
    assert Store(cs[..0], ttl) == map[];
    RefusedExactlyWhenHeld(cs, ttl, 2);
  }

  /** A sweep in time lets the second use in, which reads the latest clock that its timestamp allows. */
  lemma {:induction false} ReplayAfterSweep(r: Request, q: Request, skew: int, gap: int, lag: int, ttl: int)
    returns (rs: seq<Request>)
    requires 0 < skew < MAX_INT64 && gap >= 0 && lag >= 0 && ttl >= 0
    requires SkewOk(skew, r.skewRead, r.timestamp) && r.skewRead <= r.useRead <= r.skewRead + gap
    requires Sweeps(q, r, skew, gap, lag, ttl)
    ensures Run(rs, skew, gap, lag) && rs != [] && rs[0] == r && Replayed(rs, ttl, 0, 2)
  {
    var t := UnixTime(r.timestamp);
    var other := r.nonce + "'";
    assert |other| != |r.nonce|;
    rs := [r, q.(nonce := other), Request(r.timestamp, r.nonce, t + skew, t + skew + gap)];
    SkewExactly(skew, t + skew, r.timestamp);
    ThreeCalls(Calls(rs), ttl);
  }

  /** Under the greatest skew every timestamp passes, so waiting ttl out is enough. */
  lemma {:induction false} ReplayUnderGreatestSkew(r: Request, gap: int, lag: int, ttl: int) returns (rs: seq<Request>)
    requires gap >= 0 && lag >= 0 && ttl >= 0 && r.skewRead <= r.useRead <= r.skewRead + gap
    ensures Run(rs, MAX_INT64, gap, lag) && rs != [] && rs[0] == r && Replayed(rs, ttl, 0, 1)
  {
    var next := r.useRead + ttl + 1;
    rs := [r, Request(r.timestamp, r.nonce, next, next)];
    SkewExactly(MAX_INT64, r.skewRead, r.timestamp);
    SkewExactly(MAX_INT64, next, r.timestamp);
    TwoCalls(Calls(rs), ttl);
  }

  /**
    * Exactly which requests can be replayed, for every skew, ttl, gap and lag: those for which some request can sweep
    * their first use in time, and all of them under the greatest skew.
    */
  lemma {:induction false} ReplayedExactly(r: Request, skew: int, gap: int, lag: int, ttl: int)
    requires 0 < skew <= MAX_INT64 && gap >= 0 && lag >= 0 && ttl >= 0
    requires SkewOk(skew, r.skewRead, r.timestamp) && r.skewRead <= r.useRead <= r.skewRead + gap
    ensures CanBeReplayed(r, skew, gap, lag, ttl) <==>
              (exists q :: Sweeps(q, r, skew, gap, lag, ttl)) || skew == MAX_INT64
  {
    hide Run, Accepted, Sweeps, SkewOk;
    if skew == MAX_INT64 {
      var rs := ReplayUnderGreatestSkew(r, gap, lag, ttl);
    } else if q :| Sweeps(q, r, skew, gap, lag, ttl) {
      var rs := ReplayAfterSweep(r, q, skew, gap, lag, ttl);
    } else if rs: seq<Request>, i: nat, j: nat :| Run(rs, skew, gap, lag) && Replayed(rs, ttl, i, j) && rs[i] == r {
      ReplayNeedsSweep(rs, skew, gap, lag, ttl, i, j);
    }
  }

  /** The timestamp that time.Unix maps to the last 64-bit second. */
  const LAST_TIMESTAMP := MAX_INT64 - UNIX_EPOCH_SECONDS

  /**
    * Without a lag the sweep is the replay's own, and with one it can be that of any timestamp far in the future,
    * unless the clock is within 2^63 nanoseconds of the end of 64-bit seconds. In both cases it is in time exactly if
    * the first use was more than ttl before the latest reading, which is a comparison of four numbers.
    */
  lemma {:induction false} SweptExactly(r: Request, skew: int, gap: int, lag: int, ttl: int)
    requires 0 < skew < MAX_INT64 && gap >= 0 && lag >= 0 && ttl >= 0
    requires lag == 0 || FarFuture(LatestSweep(r.timestamp, skew, gap, lag), LAST_TIMESTAMP)
    ensures (exists q :: Sweeps(q, r, skew, gap, lag, ttl)) <==>
            r.useRead + ttl < LatestSweep(r.timestamp, skew, gap, lag)
  {
    var latest := LatestSweep(r.timestamp, skew, gap, lag);
    if r.useRead + ttl < latest {
      var q := if lag == 0 then Request(r.timestamp, "", latest - gap, latest)
        else Request(LAST_TIMESTAMP, "", latest, latest);
      SkewExactly(skew, q.skewRead, q.timestamp);
      assert Sweeps(q, r, skew, gap, lag, ttl);
    }
  }

  /**
    * A timestamp far in the future when first checked can be replayed under any 64-bit ttl, whatever the gap and lag.
    */
  lemma {:induction false} FarFutureIsReplayed(r: Request, skew: int, gap: int, lag: int, ttl: int)
    requires 0 < skew <= MAX_INT64 && gap >= 0 && lag >= 0 && 0 <= ttl <= MAX_INT64
    requires FarFuture(r.skewRead, r.timestamp) && r.skewRead <= r.useRead <= r.skewRead + gap
    ensures CanBeReplayed(r, skew, gap, lag, ttl)
  {
    hide CanBeReplayed;
    SkewExactly(skew, r.skewRead, r.timestamp);
    ReplayedExactly(r, skew, gap, lag, ttl);
    if skew < MAX_INT64 {
      var t := UnixTime(r.timestamp);
      SkewExactly(skew, t + skew, r.timestamp);
      assert Sweeps(Request(r.timestamp, "", t + skew, t + skew + gap), r, skew, gap, lag, ttl);
    }
  }

  /**
    * The bound on ttl is exact, for 64-bit durations: only timestamps that were far in the future can be replayed if
    * and only if ttl >= 2*skew + gap + lag.
    */
  lemma {:induction false} SafeExactly(skew: int, gap: int, lag: int, ttl: int)
    requires 0 < skew <= MAX_INT64 && 0 <= gap <= MAX_INT64 && 0 <= lag <= MAX_INT64 && 0 <= ttl <= MAX_INT64
    ensures ttl >= 2 * skew + gap + lag <==>
            forall r :: CanBeReplayed(r, skew, gap, lag, ttl) ==> FarFuture(r.skewRead, r.timestamp)
  {
    hide Run, Accepted;
    if ttl >= 2 * skew + gap + lag {
      forall r | CanBeReplayed(r, skew, gap, lag, ttl) ensures FarFuture(r.skewRead, r.timestamp) {
        var rs: seq<Request>, i: nat, j: nat :| Run(rs, skew, gap, lag) && Replayed(rs, ttl, i, j) && rs[i] == r;
        if !FarFuture(r.skewRead, r.timestamp) {
          NoReplay(rs, skew, gap, lag, ttl, i, j);
        }
      }
    } else {
      UnsafeExample(skew, gap, lag, ttl);
    }
  }

  /** Below the bound a request at the start of the epoch can be replayed. */
  lemma UnsafeExample(skew: int, gap: int, lag: int, ttl: int)
    requires 0 < skew <= MAX_INT64 && 0 <= gap <= MAX_INT64 && 0 <= lag <= MAX_INT64 && 0 <= ttl <= MAX_INT64
    requires ttl < 2 * skew + gap + lag
    ensures exists r :: CanBeReplayed(r, skew, gap, lag, ttl) && !FarFuture(r.skewRead, r.timestamp)
  {
    hide CanBeReplayed, Sweeps;
    var t := UnixTime(0);
    var r := Request(0, "", t - skew, t - skew);
    SkewExactly(skew, t - skew, 0);
    ReplayedExactly(r, skew, gap, lag, ttl);
    if skew < MAX_INT64 {
      SweptExactly(r, skew, gap, lag, ttl);
    }
    assert !FarFuture(r.skewRead, r.timestamp);
  }

  const DEFAULT_SKEW := 30 * SECOND

  /** The default 30s skew and 60s ttl meet the bound with no room: they are safe only if both gap and lag are zero. */
  lemma {:induction false} DefaultsHaveNoRoom(gap: int, lag: int)
    requires 0 <= gap <= MAX_INT64 && 0 <= lag <= MAX_INT64
    ensures gap == lag == 0 <==>
            forall r :: CanBeReplayed(r, DEFAULT_SKEW, gap, lag, DEFAULT_TTL) ==> FarFuture(r.skewRead, r.timestamp)
  {
    hide CanBeReplayed, FarFuture;
    SafeExactly(DEFAULT_SKEW, gap, lag, DEFAULT_TTL);
  }
}
