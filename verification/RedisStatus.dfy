/** The Redis status store: the ordering guard again, over strings and with expiry (internal/syncstatus/redis.go). */
module RedisStatus {
  import opened Prelude
  import opened SyncStatus
  import opened Calendar

  const NANOS_PER_MILLI := 1_000_000

  /** One Redis hash with its expiry deadline on the server's clock. Keys are the normalized UPNs. */
  datatype Hash = Hash(status: string, updatedAt: string, source: string, expiresAt: Instant)

  type Hashes = map<string, Hash>

  function StatusText(s: Status): string {
    match s
    case Unsynced => ""
    case Pending => "sync_pending"
    case Synced => "synced"
    case Failed => "sync_failed"
  }

  /** Every text other than the three outcomes has precedence zero, like the unsynced status. */
  function StatusOf(text: string): Status {
    if text == "sync_pending" then Pending
    else if text == "sync_failed" then Failed
    else if text == "synced" then Synced
    else Unsynced
  }

  function TextPrecedence(text: string): nat {
    if text == "sync_pending" then 1 else if text == "sync_failed" then 2 else if text == "synced" then 3 else 0
  }

  /** The hashes a client can still see: a key whose deadline has come is gone. */
  function Live(h: Hashes, serverNow: Instant): Hashes {
    map k | k in h && serverNow < h[k].expiresAt :: h[k]
  }

  /** The arguments of one run of the transition script. */
  datatype Transition = Transition(key: string, status: string, updatedAt: string, source: string, ttlMillis: int,
                                   serverNow: Instant) {
    predicate Rejected(h: Hashes) {
      key in h && (StrLess(source, h[key].source)
                   || (source == h[key].source && TextPrecedence(status) <= TextPrecedence(h[key].status)))
    }

    function Run(h: Hashes): Hashes {
      var live := Live(h, serverNow);
      if Rejected(live) then live
      else live[key := Hash(status, updatedAt, source, serverNow + ttlMillis * NANOS_PER_MILLI)]
    }
  }

  /** The script run that a Mark call issues. */
  function MarkScript(w: Write, ttl: int, serverNow: Instant): Transition {
    Transition(w.key, StatusText(w.status), Format(w.now), Format(w.source), ttl / NANOS_PER_MILLI, serverNow)
  }

  /** How long an accepted record is kept, before Redis rounds it down to whole milliseconds. */
  function TtlFor(status: Status, pendingTTL: int, terminalTTL: int): int {
    if status == Pending then pendingTTL else terminalTTL
  }

  /** HGETALL and the parsing in Get. */
  function Read(h: Hashes, key: string): Result<Record> {
    if key !in h then Ok(NO_RECORD)
    else
      var status, updatedAt, source := StatusOf(h[key].status), Parse(h[key].updatedAt), Parse(h[key].source);
      if Precedence(status) == 0 || updatedAt.None? || source.None? then Err
      else Ok(Record(status, updatedAt.value, source.value))
  }

  class RedisStore {
    var hashes: Hashes
    const pendingTTL: int
    const terminalTTL: int

    constructor (pendingTTL: int, terminalTTL: int)
      requires pendingTTL >= NANOS_PER_MILLI && terminalTTL >= NANOS_PER_MILLI
      ensures hashes == map[] && this.pendingTTL == pendingTTL && this.terminalTTL == terminalTTL
    {
      hashes := map[];
      this.pendingTTL := pendingTTL;
      this.terminalTTL := terminalTTL;
    }

    /** What a Mark call asks the server to do. */
    function Script(upn: string, status: Status, source: Instant, now: Instant, serverNow: Instant): Transition {
      var ttl := TtlFor(status, pendingTTL, terminalTTL);
      MarkScript(Write(NormalizeUPN(upn), status, source, now), ttl, serverNow)
    }

    /**
      * One Mark call. If the request reaches the server, the script runs against what is live at the server's clock;
      * the call succeeds if the answer also comes back.
      */
    method Mark(upn: string, status: Status, source: Instant, now: Instant, serverNow: Instant, reached: bool,
                answered: bool)
      returns (ok: bool)
      modifies this
      ensures ok <==> reached && answered
      ensures hashes == if reached then Script(upn, status, source, now, serverNow).Run(old(hashes)) else old(hashes)
      ensures reached && Sound(old(hashes)) && Storable(Write(NormalizeUPN(upn), status, source, now)) ==>
                Sound(hashes) && forall later :: serverNow <= later ==>
                  Answer(hashes, NormalizeUPN(upn), later) ==
                  AnswerAfter(old(hashes), Write(NormalizeUPN(upn), status, source, now), serverNow,
                              Deadline(serverNow, status, pendingTTL, terminalTTL), later)
    {
      hide NormalizeUPN, Format, StrLess, Storable, Sound, Answer, AnswerAfter, Deadline;
      if Sound(hashes) && Storable(Write(NormalizeUPN(upn), status, source, now)) {
        MarkReadable(this, hashes, upn, status, source, now, serverNow);
      }
      if !reached {
        return false;
      }
      hashes := Live(hashes, serverNow);
      var key, text, newSource := NormalizeUPN(upn), StatusText(status), Format(source);
      if key in hashes {
        if StrLess(newSource, hashes[key].source) {
          return answered;
        }
        if newSource == hashes[key].source {
          if TextPrecedence(text) <= TextPrecedence(hashes[key].status) {
            return answered;
          }
        }
      }
      var ttl := if status == Pending then pendingTTL else terminalTTL;
      hashes := hashes[key := Hash(text, Format(now), newSource, serverNow + ttl / NANOS_PER_MILLI * NANOS_PER_MILLI)];
      return answered;
    }

    method Get(upn: string, serverNow: Instant, answered: bool) returns (r: Result<Record>)
      ensures r == if answered then Read(Live(hashes, serverNow), NormalizeUPN(upn)) else Err
    {
      if !answered {
        return Err;
      }
      var fields, key := Live(hashes, serverNow), NormalizeUPN(upn);
      if key !in fields {
        return Ok(NO_RECORD);
      }
      var status := StatusOf(fields[key].status);
      if Precedence(status) == 0 {
        return Err;
      }
      var updatedAt := Parse(fields[key].updatedAt);
      if updatedAt.None? {
        return Err;
      }
      var source := Parse(fields[key].source);
      if source.None? {
        return Err;
      }
      return Ok(Record(status, updatedAt.value, source.value));
    }
  }

  /** A store is made exactly if there is a client, a key prefix and two TTLs of at least a millisecond. */
  method NewRedisStore(hasClient: bool, keyPrefix: string, pendingTTL: int, terminalTTL: int)
    returns (store: RedisStore?)
    ensures store != null <==>
            hasClient && TrimSpace(keyPrefix) != "" && pendingTTL >= NANOS_PER_MILLI && terminalTTL >= NANOS_PER_MILLI
    ensures store != null ==>
              store.hashes == map[] && store.pendingTTL == pendingTTL && store.terminalTTL == terminalTTL
  {
    if !hasClient {
      return null;
    }
    if TrimSpace(keyPrefix) == "" {
      return null;
    } else if pendingTTL < NANOS_PER_MILLI {
      return null;
    } else if terminalTTL < NANOS_PER_MILLI {
      return null;
    }
    store := new RedisStore(pendingTTL, terminalTTL);
  }

  // ---------------------------------------------------------------------------
  // Refinement of the memory store
  // ---------------------------------------------------------------------------

  ghost predicate Storable(w: Write) {
    w.status != Unsynced && FourDigitYear(w.now) && FourDigitYear(w.source)
  }

  /** The hash is the stored form of the record. */
  ghost predicate Denotes(hash: Hash, r: Record) {
    && StatusOf(hash.status) == r.status != Unsynced
    && FourDigitYear(r.updatedAt) && hash.updatedAt == Format(r.updatedAt)
    && FourDigitYear(r.source) && hash.source == Format(r.source)
  }

  ghost predicate Represents(h: Hashes, rs: Records) {
    h.Keys == rs.Keys && forall k :: k in h ==> Denotes(h[k], rs[k])
  }

  /** The script arguments are those of the write. */
  ghost predicate Encodes(t: Transition, w: Write) {
    Storable(w) && t.key == w.key && forall expiresAt ::
      Denotes(Hash(t.status, t.updatedAt, t.source, expiresAt), Record(w.status, w.now, w.source))
  }

  lemma MarkScriptEncodes(w: Write, ttl: int, serverNow: Instant)
    requires Storable(w)
    ensures Encodes(MarkScript(w, ttl, serverNow), w)
  {
  }

  /** Get reads exactly the record that a hash stands for, and never fails on what Mark stored. */
  lemma {:induction false} ReadsBack(h: Hashes, rs: Records, key: string)
    requires Represents(h, rs)
    ensures Read(h, key) == Ok(if key in rs then rs[key] else NO_RECORD)
  {
    hide Format, Parse;
    if key in rs {
      ParseFormat(rs[key].updatedAt);
      ParseFormat(rs[key].source);
    }
  }

  /** The string guard and the time guard take the same decision. */
  lemma {:induction false} GuardsAgree(h: Hashes, rs: Records, t: Transition, w: Write)
    requires Represents(h, rs) && Encodes(t, w)
    ensures t.Rejected(h) <==> w.key in rs && !Below(rs[w.key].source, rs[w.key].status, w.source, w.status)
  {
    hide Format, StrLess;
    if w.key in rs {
      assert Denotes(h[w.key], rs[w.key]);
      assert Denotes(Hash(t.status, t.updatedAt, t.source, 0), Record(w.status, w.now, w.source));
      FormatOrder(w.source, rs[w.key].source);
    }
  }

  /** The script keeps the same one of two writes of one source time: failed over pending, synced over both. */
  lemma {:induction false} SameTimeRejected(h: Hashes, rs: Records, t: Transition, w: Write)
    requires Represents(h, rs) && Encodes(t, w) && w.key in rs && w.source == rs[w.key].source
    ensures t.Rejected(h) <==>
            (rs[w.key].status, w.status) !in {(Pending, Failed), (Pending, Synced), (Failed, Synced)}
  {
    hide Format, StrLess, StatusOf, Transition.Rejected, FourDigitYear;
    assert Denotes(h[w.key], rs[w.key]);
    GuardsAgree(h, rs, t, w);
  }

  /** The records a memory store is left with when the expired keys are forgotten. */
  ghost function Unexpired(h: Hashes, rs: Records, serverNow: Instant): Records {
    map k | k in rs && k in Live(h, serverNow) :: rs[k]
  }

  /** One script run is one guarded write on whatever has not expired. */
  lemma {:induction false} ScriptRefinesApply(h: Hashes, rs: Records, t: Transition, w: Write)
    requires Represents(h, rs) && Encodes(t, w)
    ensures Represents(t.Run(h), Apply(Unexpired(h, rs, t.serverNow), w))
  {
    hide Format, StrLess, StatusOf;
    var live, kept := Live(h, t.serverNow), Unexpired(h, rs, t.serverNow);
    assert Represents(live, kept);
    GuardsAgree(live, kept, t, w);
  }

  /** Every hash stands for a record. */
  ghost predicate Sound(h: Hashes) {
    exists rs :: Represents(h, rs)
  }

  /** What Get answers at the given time of the server, if it is answered. */
  ghost function Answer(h: Hashes, key: string, serverNow: Instant): Result<Record> {
    Read(Live(h, serverNow), key)
  }

  lemma {:induction false} AnswerIs(h: Hashes, rs: Records, key: string, serverNow: Instant)
    requires Represents(h, rs)
    ensures Answer(h, key, serverNow) == Ok(if key in h && serverNow < h[key].expiresAt then rs[key] else NO_RECORD)
  {
    hide Denotes;
    var kept := Unexpired(h, rs, serverNow);
    assert Represents(Live(h, serverNow), kept);
    ReadsBack(Live(h, serverNow), kept, key);
  }

  /** The moment from which a record accepted at serverNow is no longer answered. */
  ghost function Deadline(serverNow: Instant, status: Status, pendingTTL: int, terminalTTL: int): Instant {
    match status
    case Pending => serverNow + pendingTTL / NANOS_PER_MILLI * NANOS_PER_MILLI
    case Synced => serverNow + terminalTTL / NANOS_PER_MILLI * NANOS_PER_MILLI
    case Failed => serverNow + terminalTTL / NANOS_PER_MILLI * NANOS_PER_MILLI
    case Unsynced => serverNow
  }

  /** The write supersedes what Get would have answered just before it. */
  ghost predicate Supersedes(h: Hashes, w: Write, serverNow: Instant) {
    match Answer(h, w.key, serverNow)
    case Err => false
    case Ok(r) => r == NO_RECORD || Below(r.source, r.status, w.source, w.status)
  }

  /** What Get answers for the key later than a write on it: the record until its deadline, if it supersedes. */
  ghost function AnswerAfter(h: Hashes, w: Write, serverNow: Instant, deadline: Instant, later: Instant)
    : Result<Record>
  {
    if !Supersedes(h, w, serverNow) then Answer(h, w.key, later)
    else if later < deadline then Ok(Record(w.status, w.now, w.source))
    else Ok(NO_RECORD)
  }

  /**
    * How long a Mark call can be read back. A record that supersedes what was there is answered until its TTL, in whole
    * milliseconds, has run out on the server's clock, and not from then on. One that does not leaves every later answer
    * as it would have been, the deadline included. Other keys are never affected.
    */
  lemma {:induction false} ReadableExactly(store: RedisStore, h: Hashes, upn: string, status: Status, source: Instant,
                                           now: Instant, serverNow: Instant, key: string, later: Instant)
    requires Sound(h) && serverNow <= later
    requires status != Unsynced && FourDigitYear(now) && FourDigitYear(source)
    ensures Answer(store.Script(upn, status, source, now, serverNow).Run(h), key, later) ==
            if key != NormalizeUPN(upn) then Answer(h, key, later)
            else AnswerAfter(h, Write(key, status, source, now), serverNow,
                             Deadline(serverNow, status, store.pendingTTL, store.terminalTTL), later)
    ensures Sound(store.Script(upn, status, source, now, serverNow).Run(h))
  {
    hide Format, StrLess, StatusOf, NormalizeUPN, FourDigitYear, Denotes;
    var rs :| Represents(h, rs);
    var w := Write(NormalizeUPN(upn), status, source, now);
    var t := store.Script(upn, status, source, now, serverNow);
    MarkScriptEncodes(w, TtlFor(status, store.pendingTTL, store.terminalTTL), serverNow);
    ScriptRefinesApply(h, rs, t, w);
    GuardsAgree(Live(h, serverNow), Unexpired(h, rs, serverNow), t, w);
    AnswerIs(h, rs, w.key, serverNow);
    AnswerIs(h, rs, key, later);
    AnswerIs(t.Run(h), Apply(Unexpired(h, rs, serverNow), w), key, later);
  }

  lemma MarkReadable(store: RedisStore, h: Hashes, upn: string, status: Status, source: Instant, now: Instant,
                     serverNow: Instant)
    requires Sound(h) && Storable(Write(NormalizeUPN(upn), status, source, now))
    ensures Sound(store.Script(upn, status, source, now, serverNow).Run(h))
    ensures forall later :: serverNow <= later ==>
              Answer(store.Script(upn, status, source, now, serverNow).Run(h), NormalizeUPN(upn), later) ==
              AnswerAfter(h, Write(NormalizeUPN(upn), status, source, now), serverNow,
                          Deadline(serverNow, status, store.pendingTTL, store.terminalTTL), later)
  {
    hide Sound, Answer, AnswerAfter, Deadline, NormalizeUPN, RedisStore.Script;
    ReadableExactly(store, h, upn, status, source, now, serverNow, NormalizeUPN(upn), serverNow);
    forall later | serverNow <= later
      ensures Answer(store.Script(upn, status, source, now, serverNow).Run(h), NormalizeUPN(upn), later) ==
              AnswerAfter(h, Write(NormalizeUPN(upn), status, source, now), serverNow,
                          Deadline(serverNow, status, store.pendingTTL, store.terminalTTL), later)
    {
      ReadableExactly(store, h, upn, status, source, now, serverNow, NormalizeUPN(upn), later);
    }
  }

  ghost function RunAll(h: Hashes, ts: seq<Transition>): Hashes {
    if ts == [] then h else ts[|ts| - 1].Run(RunAll(h, ts[..|ts| - 1]))
  }

  /** The memory store doing the writes and forgetting, before each of them, the keys that expired. */
  ghost function ApplyUnexpired(h: Hashes, rs: Records, ts: seq<Transition>, ws: seq<Write>): Records
    requires |ts| == |ws|
  {
    if ts == [] then rs
    else
      var n := |ts| - 1;
      Apply(Unexpired(RunAll(h, ts[..n]), ApplyUnexpired(h, rs, ts[..n], ws[..n]), ts[n].serverNow), ws[n])
  }

  /** Every run of the Redis store is a run of the memory store that forgets exactly the expired keys. */
  lemma {:induction false} RedisRefinesMemory(h: Hashes, rs: Records, ts: seq<Transition>, ws: seq<Write>)
    requires Represents(h, rs) && |ts| == |ws| && forall i :: 0 <= i < |ts| ==> Encodes(ts[i], ws[i])
    ensures Represents(RunAll(h, ts), ApplyUnexpired(h, rs, ts, ws))
  {
    hide Represents, Encodes, Apply;
    if ts != [] {
      var n := |ts| - 1;
      RedisRefinesMemory(h, rs, ts[..n], ws[..n]);
      ScriptRefinesApply(RunAll(h, ts[..n]), ApplyUnexpired(h, rs, ts[..n], ws[..n]), ts[n], ws[n]);
    }
  }

  /** No key has reached its deadline when a script runs. */
  ghost predicate NothingExpires(h: Hashes, ts: seq<Transition>) {
    forall n :: 0 <= n < |ts| ==> Live(RunAll(h, ts[..n]), ts[n].serverNow) == RunAll(h, ts[..n])
  }

  /** Between expirations the two stores hold the same records after any sequence of Mark calls. */
  lemma {:induction false} SameBetweenExpirations(h: Hashes, rs: Records, ts: seq<Transition>, ws: seq<Write>)
    requires Represents(h, rs) && |ts| == |ws| && forall i :: 0 <= i < |ts| ==> Encodes(ts[i], ws[i])
    requires NothingExpires(h, ts)
    ensures Represents(RunAll(h, ts), ApplyAll(rs, ws))
  {
    hide Encodes, Apply, Denotes;
    if ts != [] {
      var n := |ts| - 1;
      assert forall k :: 0 <= k < n ==> ts[..n][..k] == ts[..k];
      SameBetweenExpirations(h, rs, ts[..n], ws[..n]);
      var (mid, records) := (RunAll(h, ts[..n]), ApplyAll(rs, ws[..n]));
      ScriptRefinesApply(mid, records, ts[n], ws[n]);
      assert Unexpired(mid, records, ts[n].serverNow) == records;
    }
  }
}
