/**
  * The retry and settlement protocol of one message, as the automaton of the effects the worker may have
  * (internal/worker/worker.go). The worker's code is proved to follow it, and the sync protocol runs on it.
  */
module WorkerSteps {
  import opened Prelude
  import opened SyncStatus

  /** The fields of a queued message that the worker uses after decoding it. */
  datatype SyncMessage = SyncMessage(cn: string, upn: string, enqueuedAt: Instant)

  datatype Reason = InvalidMessageSchema | PermanentProcessor | TransientRetriesExhausted

  datatype DeadLetter = DeadLetter(reason: Reason, attempts: nat, cn: string, upn: string, enqueuedAt: Instant)

  /** The backoffs of a worker that is given none. */
  const DEFAULT_BACKOFFS: seq<int> := [1_000_000_000, 2_000_000_000, 4_000_000_000]

  datatype Verdict = Success | Transient | Permanent

  /** An effect on the world and the answer it got. */
  datatype Event =
    | Decrypt(ok: bool)
    | Process(verdict: Verdict)
    | Sleep(delay: int, ok: bool)
    | WriteDeadLetter(entry: DeadLetter, ok: bool)
    | MarkStatus(status: Status, upn: string, source: Instant, ok: bool)
    | Complete(ok: bool)
    | Abandon(ok: bool)

  /** What the worker does next. Attempts are counted from one. */
  datatype Phase =
    | Rejecting                        // write the dead letter of an undecodable message
    | Attempting(n: nat)               // decrypt for attempt n
    | Calling(n: nat)                  // hand the plaintext to the processor
    | Waiting(n: nat)                  // back off after attempt n
    | Succeeded(n: nat)                // mark synced
    | Canceled(n: nat)                 // abandon: the backoff was cut short
    | Failing(n: nat, permanent: bool) // write the dead letter
    | Recorded(n: nat)                 // mark failed
    | Completing                       // complete
    | Retreating                       // abandon: the dead letter was not written
    | Returned(ok: bool)               // nil or an error

  /** One message being processed: the backoffs, the decoded message, and the entry to write if it does not decode. */
  datatype Job = Job(backoffs: seq<int>, message: Option<SyncMessage>, invalidEntry: DeadLetter) {
    function Start(): Phase { if message.Some? then Attempting(1) else Rejecting }

    function FailureEntry(n: nat, permanent: bool): DeadLetter
      requires message.Some?
    {
      DeadLetter(if permanent then PermanentProcessor else TransientRetriesExhausted, n,
                 message.value.cn, message.value.upn, message.value.enqueuedAt)
    }

    /** The phase after an effect; none if the worker never has that effect in this phase. */
    function Step(p: Phase, e: Event): Option<Phase> {
      match (p, e)
      case (Rejecting, WriteDeadLetter(entry, ok)) =>
        if entry == invalidEntry then Some(if ok then Completing else Retreating) else None
      case (Attempting(n), Decrypt(ok)) => Some(if ok then Calling(n) else Failing(n, true))
      case (Calling(n), Process(verdict)) =>
        Some(match verdict
             case Success => Succeeded(n)
             case Permanent => Failing(n, true)
             case Transient => if n > |backoffs| then Failing(n, false) else Waiting(n))
      case (Waiting(n), Sleep(delay, ok)) =>
        if 1 <= n <= |backoffs| && delay == backoffs[n - 1] then Some(if ok then Attempting(n + 1) else Canceled(n))
          else None
      case (Succeeded(_), MarkStatus(status, upn, source, _)) =>
        if status == Synced && message.Some? && upn == message.value.upn && source == message.value.enqueuedAt
          then Some(Completing) else None
      case (Canceled(_), Abandon(ok)) => Some(Returned(ok))
      case (Failing(n, permanent), WriteDeadLetter(entry, ok)) =>
        if message.Some? && entry == FailureEntry(n, permanent) then Some(if ok then Recorded(n) else Retreating)
          else None
      case (Recorded(_), MarkStatus(status, upn, source, _)) =>
        if status == Failed && message.Some? && upn == message.value.upn && source == message.value.enqueuedAt
          then Some(Completing) else None
      case (Completing, Complete(ok)) => Some(Returned(ok))
      case (Retreating, Abandon(_)) => Some(Returned(false))
      case _ => None
    }

    function Follow(p: Phase, es: seq<Event>): Option<Phase> {
      if es == [] then Some(p)
      else
        var q := Follow(p, es[..|es| - 1]);
        if q.None? then None else Step(q.value, es[|es| - 1])
    }

    /** The effects so far are those of a run of the worker that has reached phase p. */
    ghost predicate Reaches(es: seq<Event>, p: Phase) { Follow(Start(), es) == Some(p) }
  }

  lemma OneMore(job: Job, es: seq<Event>, p: Phase, e: Event)
    requires job.Reaches(es, p) && job.Step(p, e).Some?
    ensures job.Reaches(es + [e], job.Step(p, e).value)
  {
    assert (es + [e])[..|es|] == es;
  }

  /** Where a step can lead, and in which phase a status write or a completion can happen. */
  lemma StepInto(job: Job, p: Phase, e: Event)
    requires job.Step(p, e).Some?
    ensures var q := job.Step(p, e).value;
            && (q.Succeeded? ==> Succeeds(e))
            && (q.Recorded? ==> p.Failing? && job.message.Some?)
            && (q.Recorded? ==> e == WriteDeadLetter(job.FailureEntry(q.n, p.permanent), true))
            && (q.Completing? ==> DeadLetters(e) || p.Succeeded? || p.Recorded?)
    ensures e.MarkStatus? ==> job.message.Some?
    ensures e.MarkStatus? ==> e.upn == job.message.value.upn && e.source == job.message.value.enqueuedAt
    ensures e.MarkStatus? ==> (e.status == Synced && p.Succeeded?) || (e.status == Failed && p.Recorded?)
    ensures e.Complete? ==> p.Completing?
  {
  }

  function Attempts(es: seq<Event>): nat {
    if es == [] then 0 else Attempts(es[..|es| - 1]) + if es[|es| - 1].Decrypt? then 1 else 0
  }

  function Sleeps(es: seq<Event>): seq<int> {
    if es == [] then []
    else Sleeps(es[..|es| - 1]) + if es[|es| - 1].Sleep? then [es[|es| - 1].delay] else []
  }

  predicate Settles(e: Event) { (e.Complete? || e.Abandon?) && e.ok }

  function Settlements(es: seq<Event>): nat {
    if es == [] then 0 else Settlements(es[..|es| - 1]) + if Settles(es[|es| - 1]) then 1 else 0
  }

  predicate Succeeds(e: Event) { e == Process(Success) }

  predicate DeadLetters(e: Event) { e.WriteDeadLetter? && e.ok }

  /** The attempt a phase belongs to and whether its backoff has been slept. */
  ghost predicate InAttempt(p: Phase, attempts: nat, sleeps: nat) {
    match p
    case Attempting(n) => n == attempts + 1 && sleeps == attempts
    case Calling(n) => n == attempts && sleeps == attempts - 1
    case Waiting(n) => n == attempts && sleeps == attempts - 1
    case Succeeded(n) => n == attempts && sleeps == attempts - 1
    case Canceled(n) => n == attempts && sleeps == attempts
    case Failing(n, _) => n == attempts && sleeps == attempts - 1
    case Recorded(n) => n == attempts && sleeps == attempts - 1
    case _ => true
  }

  /** The retry loop: attempts are bounded, and the sleeps are the first backoffs in order. */
  lemma {:induction false} RetryBounds(job: Job, es: seq<Event>, p: Phase)
    requires job.Reaches(es, p)
    ensures Attempts(es) <= |job.backoffs| + 1
    ensures job.message.Some? && es != [] ==> Attempts(es) >= 1
    ensures |Sleeps(es)| <= |job.backoffs| && Sleeps(es) == job.backoffs[..|Sleeps(es)|]
    ensures InAttempt(p, Attempts(es), |Sleeps(es)|)
    ensures p.Attempting? ==> p.n <= |job.backoffs| + 1
    ensures p.Waiting? ==> p.n <= |job.backoffs|
    ensures p == Failing(Attempts(es), false) ==> Attempts(es) == |job.backoffs| + 1
    ensures job.message.None? ==> Attempts(es) == 0 && (p.Rejecting? || p.Completing? || p.Retreating? || p.Returned?)
    ensures job.message.Some? ==> !p.Rejecting?
  {
    if es != [] {
      var init, last := es[..|es| - 1], es[|es| - 1];
      var q := job.Follow(job.Start(), init).value;
      RetryBounds(job, init, q);
      if last.Sleep? {
        assert Sleeps(es) == job.backoffs[..|Sleeps(init)| + 1];
      }
    } else {
      assert job.backoffs[..0] == [];
    }
  }

  /** A failed decryption or a permanent error is followed by no further attempt and no sleep. */
  lemma {:induction false} PermanentEnds(job: Job, es: seq<Event>, p: Phase, i: nat)
    requires job.Reaches(es, p) && i < |es| && (es[i] == Decrypt(false) || es[i] == Process(Permanent))
    ensures forall j :: i < j < |es| ==> !es[j].Decrypt? && !es[j].Process? && !es[j].Sleep?
    ensures p.Failing? || p.Recorded? || p.Completing? || p.Retreating? || p.Returned?
  {
    var init := es[..|es| - 1];
    if i < |init| {
      PermanentEnds(job, init, job.Follow(job.Start(), init).value, i);
    }
  }

  /** Completing is reached only through a processor success or a written dead letter. */
  lemma {:induction false} CompletionIsJustified(job: Job, es: seq<Event>, p: Phase)
    requires job.Reaches(es, p)
    ensures p.Succeeded? ==> exists i :: 0 <= i < |es| && Succeeds(es[i])
    ensures p.Recorded? ==> exists i :: 0 <= i < |es| && DeadLetters(es[i])
    ensures p.Completing? || (exists i :: 0 <= i < |es| && es[i].Complete?) ==>
              exists i :: 0 <= i < |es| && (Succeeds(es[i]) || DeadLetters(es[i]))
  {
    if es != [] {
      var init, last := es[..|es| - 1], es[|es| - 1];
      var q := job.Follow(job.Start(), init).value;
      CompletionIsJustified(job, init, q);
      if i: int :| 0 <= i < |init| && (Succeeds(init[i]) || DeadLetters(init[i])) {
        assert es[i] == init[i];
      }
      if i: int :| 0 <= i < |init| && Succeeds(init[i]) {
        assert Succeeds(es[i]);
      }
      if i: int :| 0 <= i < |init| && DeadLetters(init[i]) {
        assert DeadLetters(es[i]);
      }
      if Succeeds(last) || DeadLetters(last) {
        assert es[|es| - 1] == last;
      }
      if i: int :| 0 <= i < |es| && es[i].Complete? {
        assert i < |init| ==> init[i].Complete?;
      }
    }
  }

  /** A message is settled at most once, and a run that returns without an error has settled it exactly once. */
  lemma {:induction false} SettledOnce(job: Job, es: seq<Event>, p: Phase)
    requires job.Reaches(es, p)
    ensures Settlements(es) <= 1
    ensures !p.Returned? ==> Settlements(es) == 0
    ensures p == Returned(true) ==> Settlements(es) == 1
  {
    if es != [] {
      var init := es[..|es| - 1];
      SettledOnce(job, init, job.Follow(job.Start(), init).value);
    }
  }
}
