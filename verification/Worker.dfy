/** The worker's message processing, in place on its buffers (internal/worker/worker.go). */
module Worker {
  import opened Prelude
  import opened SyncStatus
  import opened WorkerSteps
  import opened WorkerTraces
  import opened Receiver

  const KIND := "password-sync"

  /** The JSON fields that decodePasswordSyncMessage looks at. */
  datatype Fields = Fields(cn: string, upn: string, ciphertext: string, nonce: string, keyId: string, alg: string,
                           enqueuedAt: Instant) {
    predicate Complete() {
      && TrimSpace(cn) != "" && TrimSpace(upn) != "" && TrimSpace(ciphertext) != "" && TrimSpace(nonce) != ""
      && TrimSpace(keyId) != "" && TrimSpace(alg) != "" && enqueuedAt != 0
    }
  }

  /** json.Unmarshal into the full message and into the three fields kept for an invalid one. */
  datatype Json = Json(full: seq<byte> -> Option<Fields>, partial: seq<byte> -> Option<SyncMessage>)

  function DecodeMessage(json: Json, kind: string, body: seq<byte>): Option<SyncMessage> {
    if TrimSpace(kind) != KIND then None
    else
      var f := json.full(body);
      if f.None? || !f.value.Complete() then None else Some(SyncMessage(f.value.cn, f.value.upn, f.value.enqueuedAt))
  }

  function InvalidEntry(json: Json, body: seq<byte>): DeadLetter {
    var p := json.partial(body);
    if p.None? then DeadLetter(InvalidMessageSchema, 0, "", "", 0)
    else DeadLetter(InvalidMessageSchema, 0, p.value.cn, p.value.upn, p.value.enqueuedAt)
  }

  /** The job that a message is to the worker; a missing message is an invalid one. */
  function JobOf(backoffs: seq<int>, json: Json, msg: Message?): Job
    reads if msg != null then {msg.body} else {}
  {
    JobOn(backoffs, json, if msg == null then None else Some((msg.kind, msg.body[..])))
  }

  /** The trace ends with a completion that the service accepted. */
  predicate Removes(es: seq<Event>) { es != [] && es[|es| - 1] == Event.Complete(true) }

  /** The entry for an undecodable body: what can still be read of it, under the names it was read from. */
  function Remains(p: Option<SyncMessage>): DeadLetter {
    match p
    case None => DeadLetter(InvalidMessageSchema, 0, "", "", 0)
    case Some(m) =>
      DeadLetter(reason := InvalidMessageSchema, attempts := 0, cn := m.cn, upn := m.upn, enqueuedAt := m.enqueuedAt)
  }

  /**
    * What the worker does with a message of this kind and body, written out: a complete password-sync message is
    * handled under its own names and enqueue time, anything else is turned away with what can be read of it.
    */
  ghost predicate Does(backoffs: seq<int>, json: Json, given: Option<(string, seq<byte>)>, es: seq<Event>, ok: bool) {
    match given
    case None => TurnedAway(Remains(None), es, ok)
    case Some((kind, body)) =>
      var f := json.full(body);
      if && TrimSpace(kind) == "password-sync" && f.Some? && TrimSpace(f.value.cn) != "" && TrimSpace(f.value.upn) != ""
         && TrimSpace(f.value.ciphertext) != "" && TrimSpace(f.value.nonce) != "" && TrimSpace(f.value.keyId) != ""
         && TrimSpace(f.value.alg) != "" && f.value.enqueuedAt != 0
      then Handled(backoffs, SyncMessage(cn := f.value.cn, upn := f.value.upn, enqueuedAt := f.value.enqueuedAt), es,
        ok)
      else TurnedAway(Remains(json.partial(body)), es, ok)
  }

  function JobOn(backoffs: seq<int>, json: Json, given: Option<(string, seq<byte>)>): Job {
    match given
    case None => Job(backoffs, None, DeadLetter(InvalidMessageSchema, 0, "", "", 0))
    case Some((kind, body)) => Job(backoffs, DecodeMessage(json, kind, body), InvalidEntry(json, body))
  }

  /** The worker's decoding gives a job whose runs are exactly those. */
  lemma {:induction false} DoesAsJob(backoffs: seq<int>, json: Json, given: Option<(string, seq<byte>)>, job: Job,
                                     es: seq<Event>,
                                     ok: bool)
    requires job == JobOn(backoffs, json, given)
    ensures job.Reaches(es, Returned(ok)) <==> Does(backoffs, json, given, es, ok)
  {
    hide TrimSpace, Job.Follow, Handled, TurnedAway;
    RunsExactly(job, es, ok);
  }

  datatype ProcessorResult = ProcessorResult(failed: bool, attempts: nat, permanent: bool, retryCanceled: bool) {
    function Phase(): Phase {
      if !failed then Succeeded(attempts)
      else if retryCanceled then Canceled(attempts)
      else Failing(attempts, permanent)
    }

    /** The result says how the last attempt ended. */
    predicate Shows(how: Ending) {
      && failed == !how.Synchronized? && retryCanceled == how.Interrupted?
      && permanent == (how.DecryptFailed? || how.PermanentError?)
    }
  }

  class Worker {
    const receiver: ServiceBusReceiver
    const backoffs: seq<int>
    const json: Json
    /** The effects of the message being processed. */
    ghost var trace: seq<Event>
    /** The plaintext buffers handed out so far. */
    ghost var plaintexts: set<array<byte>>
    /** Every effect so far that must not see live secrets saw only zeroed buffers. */
    ghost var clean: bool

    constructor (receiver: ServiceBusReceiver, backoffs: seq<int>, json: Json)
      ensures this.receiver == receiver && this.json == json && this.clean && this.plaintexts == {} && this.trace == []
      ensures this.backoffs == if backoffs == [] then DEFAULT_BACKOFFS else backoffs
    {
      this.receiver := receiver;
      this.backoffs := if backoffs == [] then DEFAULT_BACKOFFS else backoffs;
      this.json := json;
      trace, plaintexts, clean := [], {}, true;
    }

    ghost predicate PlaintextsZero()
      reads this, plaintexts
    {
      forall b :: b in plaintexts ==> AllZero(b[..])
    }

    ghost predicate BodyZero(msg: Message?)
      reads if msg != null then {msg.body} else {}
    {
      msg != null ==> AllZero(msg.body[..])
    }

    /** Sleeps, dead letters, status writes and settlements need zeroed plaintexts; the last three a zeroed body too. */
    ghost predicate Guarded(e: Event, msg: Message?)
      reads this, plaintexts, if msg != null then {msg.body} else {}
    {
      && (e.Sleep? ==> PlaintextsZero())
      && (e.WriteDeadLetter? || e.MarkStatus? || e.Complete? || e.Abandon? ==> PlaintextsZero() && BodyZero(msg))
    }

    /** Records an effect together with whether the buffers were as they must be when it happened. */
    ghost method Emit(e: Event, guarded: bool)
      modifies this`trace, this`clean
      ensures trace == old(trace) + [e] && clean == (old(clean) && guarded)
    {
      clean := clean && guarded;
      trace := trace + [e];
    }

    method Decrypt(ghost msg: Message) returns (plaintext: array?<byte>)
      modifies this
      ensures trace == old(trace) + [Event.Decrypt(plaintext != null)] && clean == old(clean)
      ensures plaintext == null ==> plaintexts == old(plaintexts)
      ensures plaintext != null ==> fresh(plaintext) && plaintexts == old(plaintexts) + {plaintext}
    {
      var ok: bool := *;
      Emit(Event.Decrypt(ok), Guarded(Event.Decrypt(ok), msg));
      if !ok {
        return null;
      }
      var n :| 0 <= n;
      plaintext := new byte[n];
      plaintexts := plaintexts + {plaintext};
    }

    /** The processor borrows the plaintext and may change it; it is zeroed as soon as the call returns. */
    method Attempt(plaintext: array<byte>, ghost msg: Message) returns (verdict: Verdict)
      modifies this`trace, this`clean, plaintext
      ensures trace == old(trace) + [Process(verdict)] && clean == old(clean) && AllZero(plaintext[..])
    {
      Borrow(plaintext);
      verdict := *;
      Emit(Process(verdict), Guarded(Process(verdict), msg));
      ZeroBytes(plaintext, plaintext.Length);
    }

    method Borrow(plaintext: array<byte>)
      modifies plaintext
    {
      for i := 0 to plaintext.Length {
        plaintext[i] := *;
      }
    }

    /** The retry loop. */
    method ProcessPasswordSync(ghost job: Job, ghost msg: Message) returns (r: ProcessorResult)
      requires job.backoffs == backoffs && job.message.Some? && trace == [] && PlaintextsZero()
      modifies this
      ensures job.Reaches(trace, r.Phase()) && clean == old(clean) && PlaintextsZero()
      ensures 1 <= r.attempts <= |backoffs| + 1
      ensures r.failed && !r.permanent && !r.retryCanceled ==> r.attempts == |backoffs| + 1
      ensures exists how :: r.Shows(how) && Over(job, trace, r.attempts, how)
      ensures forall b :: b in plaintexts ==> b in old(plaintexts) || fresh(b)
    {
      hide Job.Follow, Over;
      assert job.Reaches([], Attempting(1)) by { NothingYet(job); }
      var attempts := 1;
      while true
        invariant 1 <= attempts <= |backoffs| + 1
        invariant job.Reaches(trace, Attempting(attempts)) && clean == old(clean) && PlaintextsZero()
        invariant forall b :: b in plaintexts ==> b in old(plaintexts) || fresh(b)
        decreases |backoffs| + 1 - attempts
      {
        ghost var es := trace;
        var plaintext := Decrypt(msg);
        OneMore(job, es, Attempting(attempts), Event.Decrypt(plaintext != null));
        if plaintext == null {
          EndsExactly(job, trace, Failing(attempts, true));
          return ProcessorResult(true, attempts, true, false);
        }
        es := trace;
        var verdict := Attempt(plaintext, msg);
        OneMore(job, es, Calling(attempts), Process(verdict));
        if verdict == Success {
          EndsExactly(job, trace, Succeeded(attempts));
          return ProcessorResult(false, attempts, false, false);
        }
        if verdict == Permanent {
          EndsExactly(job, trace, Failing(attempts, true));
          return ProcessorResult(true, attempts, true, false);
        }
        if attempts > |backoffs| {
          EndsExactly(job, trace, Failing(attempts, false));
          return ProcessorResult(true, attempts, false, false);
        }
        var slept: bool := *;
        OneMore(job, trace, Waiting(attempts), Sleep(backoffs[attempts - 1], slept));
        Emit(Sleep(backoffs[attempts - 1], slept), Guarded(Sleep(backoffs[attempts - 1], slept), msg));
        if !slept {
          EndsExactly(job, trace, Canceled(attempts));
          return ProcessorResult(true, attempts, false, true);
        }
        attempts := attempts + 1;
      }
    }

    /** zeroMessageBody. */
    method ZeroBody(msg: Message?)
      requires PlaintextsZero()
      modifies if msg != null then {msg.body} else {}
      ensures BodyZero(msg) && PlaintextsZero()
    {
      if msg != null {
        ZeroBytes(msg.body, msg.body.Length);
      }
    }

    method RecordFailure(entry: DeadLetter, ghost msg: Message?) returns (ok: bool)
      modifies this`trace, this`clean
      ensures trace == old(trace) + [WriteDeadLetter(entry, ok)]
              && clean == (old(clean) && old(Guarded(WriteDeadLetter(entry, true), msg)))
    {
      ok := *;
      Emit(WriteDeadLetter(entry, ok), Guarded(WriteDeadLetter(entry, ok), msg));
    }

    /** The status write is best effort: its answer is ignored. */
    method Mark(status: Status, upn: string, source: Instant, ghost msg: Message?)
      modifies this`trace, this`clean
      ensures clean == (old(clean) && old(Guarded(MarkStatus(status, upn, source, true), msg)))
      ensures exists ok :: trace == old(trace) + [MarkStatus(status, upn, source, ok)]
    {
      var ok: bool := *;
      Emit(MarkStatus(status, upn, source, ok), Guarded(MarkStatus(status, upn, source, ok), msg));
    }

    method CompleteNow(ghost job: Job, msg: Message?) returns (ok: bool)
      requires receiver.Valid() && PlaintextsZero() && BodyZero(msg) && job.Reaches(trace, Completing)
      modifies this`trace, this`clean, receiver, receiver.Bodies(msg)
      ensures receiver.Valid() && PlaintextsZero() && receiver.received == old(receiver.received)
      ensures receiver.native == old(receiver.native) - receiver.settled
      ensures job.Reaches(trace, Returned(ok)) && clean == old(clean) && Settlements(trace) == if ok then 1 else 0
      ensures ok ==> msg != null && msg !in old(receiver.settled) && receiver.settled == old(receiver.settled) + {msg}
      ensures !ok ==> receiver.settled == old(receiver.settled)
      ensures trace == old(trace) + [Event.Complete(ok)]
      ensures ok ==> receiver.completed == old(receiver.completed) + {msg}
      ensures !ok ==> receiver.completed == old(receiver.completed)
    {
      hide Job.Follow, Job.Step;
      ghost var guarded := Guarded(Event.Complete(true), msg);
      LastStep(job, trace, Completing, true);
      LastStep(job, trace, Completing, false);
      ok := receiver.CompleteMessage(msg);
      Emit(Event.Complete(ok), guarded);
    }

    method AbandonNow(ghost job: Job, ghost p: Phase, msg: Message?) returns (ok: bool)
      requires receiver.Valid() && PlaintextsZero() && BodyZero(msg) && job.Reaches(trace, p)
               && (p.Canceled? || p.Retreating?)
      modifies this`trace, this`clean, receiver, receiver.Bodies(msg)
      ensures receiver.Valid() && PlaintextsZero() && receiver.received == old(receiver.received)
      ensures receiver.native == old(receiver.native) - receiver.settled
      ensures job.Reaches(trace, Returned(ok && p.Canceled?)) && clean == old(clean)
      ensures Settlements(trace) == if ok then 1 else 0
      ensures ok ==> msg != null && msg !in old(receiver.settled) && receiver.settled == old(receiver.settled) + {msg}
      ensures !ok ==> receiver.settled == old(receiver.settled)
      ensures trace == old(trace) + [Event.Abandon(ok)] && receiver.completed == old(receiver.completed)
    {
      hide Job.Follow, Job.Step;
      ghost var guarded := Guarded(Event.Abandon(true), msg);
      LastStep(job, trace, p, true);
      LastStep(job, trace, p, false);
      ok := receiver.AbandonMessage(msg);
      Emit(Event.Abandon(ok), guarded);
    }

    /** The path of a message that does not decode; its entry is taken from the body before the body is zeroed. */
    method RejectMessage(ghost job: Job, msg: Message?) returns (ok: bool)
      requires receiver.Valid() && PlaintextsZero() && job.message.None? && trace == []
      requires job.invalidEntry == if msg == null then DeadLetter(InvalidMessageSchema, 0, "", "", 0)
                                   else InvalidEntry(json, msg.body[..])
      modifies this`trace, this`clean, receiver, receiver.Bodies(msg), if msg != null then {msg.body} else {}
      ensures receiver.Valid() && PlaintextsZero() && receiver.received == old(receiver.received)
      ensures receiver.native == old(receiver.native) - receiver.settled
      ensures job.Reaches(trace, Returned(ok)) && clean == old(clean)
      ensures receiver.settled == old(receiver.settled) + if msg != null && Settlements(trace) == 1 then {msg} else {}
      ensures receiver.completed == old(receiver.completed) + if msg != null && Removes(trace) then {msg} else {}
      ensures ok ==> msg != null && msg !in old(receiver.settled) && msg in receiver.settled
    {
      hide Job.Follow, InvalidEntry;
      NothingYet(job);
      var entry := if msg == null then DeadLetter(InvalidMessageSchema, 0, "", "", 0)
        else InvalidEntry(json, msg.body[..]);
      ZeroBody(msg);
      var written := RecordFailure(entry, msg);
      OneMore(job, [], Rejecting, WriteDeadLetter(entry, written));
      assert [] + [WriteDeadLetter(entry, written)] == trace;
      if !written {
        var abandoned := AbandonNow(job, Retreating, msg);
        return false;
      }
      ok := CompleteNow(job, msg);
    }

    /** The paths of a decoded message after the retry loop. */
    method SettleMessage(ghost job: Job, msg: Message, decoded: SyncMessage, r: ProcessorResult) returns (ok: bool)
      requires receiver.Valid() && PlaintextsZero() && job.message == Some(decoded) && job.Reaches(trace, r.Phase())
      modifies this`trace, this`clean, receiver, receiver.Bodies(msg), msg.body
      ensures receiver.Valid() && PlaintextsZero() && receiver.received == old(receiver.received)
      ensures receiver.native == old(receiver.native) - receiver.settled
      ensures job.Reaches(trace, Returned(ok)) && clean == old(clean)
      ensures receiver.settled == old(receiver.settled) + if Settlements(trace) == 1 then {msg} else {}
      ensures receiver.completed == old(receiver.completed) + if Removes(trace) then {msg} else {}
      ensures ok ==> msg !in old(receiver.settled) && msg in receiver.settled
    {
      hide Job.Follow;
      ZeroBody(msg);
      ghost var es := trace;
      if !r.failed {
        Mark(Synced, decoded.upn, decoded.enqueuedAt, msg);
        MarkStep(job, es, r.Phase(), Synced, decoded);
        ok := CompleteNow(job, msg);
        return;
      }
      if r.retryCanceled {
        ok := AbandonNow(job, r.Phase(), msg);
        return;
      }
      var entry := DeadLetter(if r.permanent then PermanentProcessor else TransientRetriesExhausted, r.attempts,
                              decoded.cn, decoded.upn, decoded.enqueuedAt);
      var written := RecordFailure(entry, msg);
      OneMore(job, es, r.Phase(), WriteDeadLetter(entry, written));
      if !written {
        var abandoned := AbandonNow(job, Retreating, msg);
        return false;
      }
      es := trace;
      Mark(Failed, decoded.upn, decoded.enqueuedAt, msg);
      MarkStep(job, es, Recorded(r.attempts), Failed, decoded);
      ok := CompleteNow(job, msg);
    }

    /** The whole of processMessage: decode, retry, then record and settle. */
    method ProcessMessage(msg: Message?) returns (ok: bool)
      requires receiver.Valid() && PlaintextsZero()
      modifies this, receiver, receiver.Bodies(msg), if msg != null then {msg.body} else {}
      ensures receiver.Valid() && PlaintextsZero()
      ensures old(JobOf(backoffs, json, msg)).Reaches(trace, Returned(ok))
      ensures Does(backoffs, json, old(if msg == null then None else Some((msg.kind, msg.body[..]))), trace, ok)
      ensures clean == old(clean)
      ensures receiver.received == old(receiver.received) && receiver.native == old(receiver.native) - receiver.settled
      ensures receiver.settled == old(receiver.settled) + if msg != null && Settlements(trace) == 1 then {msg} else {}
      ensures receiver.completed == old(receiver.completed) + if msg != null && Removes(trace) then {msg} else {}
      ensures ok ==> msg != null && msg !in old(receiver.settled) && msg in receiver.settled
    {
      hide Job.Follow, TrimSpace;
      trace := [];
      ghost var job := JobOf(backoffs, json, msg);
      var decoded := if msg == null then None else DecodeMessage(json, msg.kind, msg.body[..]);
      ghost var given := if msg == null then None else Some((msg.kind, msg.body[..]));
      if decoded.None? {
        ok := RejectMessage(job, msg);
        DoesAsJob(backoffs, json, given, job, trace, ok);
        return;
      }
      var r := ProcessPasswordSync(job, msg);
      ok := SettleMessage(job, msg, decoded.value, r);
      DoesAsJob(backoffs, json, given, job, trace, ok);
    }

    /** The messages of one delivery, in order, until cancellation or the first error. */
    method ProcessBatch(messages: seq<Message>, ghost natives: seq<Native>) returns (ok: bool, stop: bool)
      requires receiver.Valid() && PlaintextsZero() && |messages| == |natives|
      requires forall k :: 0 <= k < |messages| ==>
                 messages[k] in receiver.native && receiver.native[messages[k]] == natives[k]
      requires forall i, k :: 0 <= i < k < |messages| ==> messages[i] != messages[k]
      modifies this, receiver, set m | m in messages :: m.body, set n | n in natives :: n.body
      ensures receiver.Valid() && PlaintextsZero() && clean == old(clean) && receiver.received == old(receiver.received)
      ensures old(receiver.settled) <= receiver.settled
      ensures forall m :: m in receiver.settled ==> m in old(receiver.settled) || m in messages
      ensures ok && !stop ==> forall m :: m in messages ==> m in receiver.settled
      ensures !ok ==> stop
    {
      hide Job.Follow, Job.Step, Job.Reaches, Settlements, JobOf, JobOn, Does, Removes, TrimSpace, DecodeMessage,
        InvalidEntry;
      for j := 0 to |messages|
        invariant receiver.Valid() && PlaintextsZero() && clean == old(clean)
                  && receiver.received == old(receiver.received)
        invariant old(receiver.settled) <= receiver.settled
        invariant forall m :: m in receiver.settled ==> m in old(receiver.settled) || m in messages
        invariant forall k :: 0 <= k < j ==> messages[k] in receiver.settled
        invariant forall k :: j <= k < |messages| ==>
                    messages[k] in receiver.native && receiver.native[messages[k]] == natives[k]
      {
        var canceled: bool := *;
        if canceled {
          return true, true;
        }
        assert natives[j] in natives && messages[j] in messages;
        ok := ProcessMessage(messages[j]);
        if !ok {
          return false, true;
        }
      }
      return true, false;
    }

    /**
      * The receive loop over any deliveries, where None is a receive error. An error stops it at once; while it
      * goes on, whatever it has received is settled, so nothing it took is left in the receiver's map.
      */
    method Run(deliveries: seq<Option<seq<Native>>>) returns (ok: bool, stop: bool)
      requires receiver.Valid() && PlaintextsZero()
      modifies this, receiver, Delivered(deliveries)
      ensures receiver.Valid() && PlaintextsZero() && clean == old(clean)
      ensures old(receiver.received) <= receiver.received && old(receiver.settled) <= receiver.settled
      ensures ok && !stop ==> receiver.native.Keys <= old(receiver.native.Keys)
    {
      hide Job.Follow, Job.Step, Job.Reaches, Settlements, JobOf, JobOn, Does, Removes, TrimSpace, DecodeMessage,
        InvalidEntry;
      for i := 0 to |deliveries|
        invariant receiver.Valid() && PlaintextsZero() && clean == old(clean)
        invariant old(receiver.received) <= receiver.received && old(receiver.settled) <= receiver.settled
        invariant receiver.native.Keys <= old(receiver.native.Keys)
      {
        var canceled: bool := *;
        if canceled {
          return true, true;
        }
        var messages := receiver.ReceiveMessages(deliveries[i]);
        if messages.None? {
          canceled := *;
          return canceled, true;
        }
        ok, stop := ProcessBatch(messages.value, deliveries[i].value);
        if stop {
          return;
        }
      }
      return true, false;
    }
  }

  /** A worker is made exactly if none of its collaborators is missing. */
  method NewWorker(receiver: ServiceBusReceiver?, hasProcessor: bool, hasSink: bool, hasDecrypter: bool,
                   hasRecorder: bool,
                   backoffs: seq<int>, json: Json) returns (w: Worker?)
    ensures w != null <==> receiver != null && hasProcessor && hasSink && hasDecrypter && hasRecorder
    ensures w != null ==> w.receiver == receiver && w.json == json && w.clean && w.plaintexts == {} && w.backoffs != []
    ensures w != null ==> w.backoffs == if backoffs == [] then DEFAULT_BACKOFFS else backoffs
  {
    if receiver == null {
      return null;
    }
    if !hasProcessor {
      return null;
    }
    if !hasSink {
      return null;
    }
    if !hasDecrypter {
      return null;
    }
    if !hasRecorder {
      return null;
    }
    w := new Worker(receiver, backoffs, json);
  }

  /** The native buffers of all deliveries. */
  ghost function Delivered(deliveries: seq<Option<seq<Native>>>): set<array<byte>> {
    set i, n | 0 <= i < |deliveries| && deliveries[i].Some? && n in deliveries[i].value :: n.body
  }

  lemma NothingYet(job: Job)
    ensures job.Reaches([], job.Start())
  {
  }

  /** The two settling steps, whatever the answer. */
  lemma LastStep(job: Job, es: seq<Event>, p: Phase, ok: bool)
    requires job.Reaches(es, p) && (p.Completing? || p.Canceled? || p.Retreating?)
    ensures var e := if p.Completing? then Event.Complete(ok) else Event.Abandon(ok);
            && job.Reaches(es + [e], Returned(ok && !p.Retreating?))
            && Settlements(es + [e]) == if ok then 1 else 0
  {
    var e := if p.Completing? then Event.Complete(ok) else Event.Abandon(ok);
    OneMore(job, es, p, e);
    SettledOnce(job, es, p);
    assert (es + [e])[..|es|] == es;
  }

  /** A status write leads to completion whatever its answer. */
  lemma MarkStep(job: Job, es: seq<Event>, p: Phase, status: Status, m: SyncMessage)
    requires job.Reaches(es, p) && job.message == Some(m)
    requires (p.Succeeded? && status == Synced) || (p.Recorded? && status == Failed)
    ensures forall ok :: job.Reaches(es + [MarkStatus(status, m.upn, m.enqueuedAt, ok)], Completing)
  {
    forall ok ensures job.Reaches(es + [MarkStatus(status, m.upn, m.enqueuedAt, ok)], Completing) {
      OneMore(job, es, p, MarkStatus(status, m.upn, m.enqueuedAt, ok));
    }
  }
}
