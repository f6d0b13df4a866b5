/**
  * Every trace of the worker on one message, written out (internal/worker/worker.go). The automaton of WorkerSteps is
  * proved to have exactly these.
  */
module WorkerTraces {
  import opened Prelude
  import opened SyncStatus
  import opened WorkerSteps

  /** The first n attempts, each a transient failure that is slept on for its own backoff. */
  function Rounds(backoffs: seq<int>, n: nat): seq<Event>
    requires n <= |backoffs|
  {
    if n == 0 then []
    else Rounds(backoffs, n - 1) + [Decrypt(true), Process(Transient), Sleep(backoffs[n - 1], true)]
  }

  /** How the last attempt ends. */
  datatype Ending = Synchronized | DecryptFailed | PermanentError | Exhausted | Interrupted {
    predicate Fails() { DecryptFailed? || PermanentError? || Exhausted? }
  }

  /** Attempt n is the last one: retries are given up only after the last backoff, and interrupted only before it. */
  predicate CanEnd(backoffs: seq<int>, n: nat, how: Ending) {
    && 1 <= n <= |backoffs| + 1
    && (how.Exhausted? ==> n == |backoffs| + 1) && (how.Interrupted? ==> n <= |backoffs|)
  }

  function LastAttempt(backoffs: seq<int>, n: nat, how: Ending): seq<Event>
    requires CanEnd(backoffs, n, how)
  {
    match how
    case Synchronized => [Decrypt(true), Process(Success)]
    case DecryptFailed => [Decrypt(false)]
    case PermanentError => [Decrypt(true), Process(Permanent)]
    case Exhausted => [Decrypt(true), Process(Transient)]
    case Interrupted => [Decrypt(true), Process(Transient), Sleep(backoffs[n - 1], false)]
  }

  /** All attempts on a message. */
  function Tries(backoffs: seq<int>, n: nat, how: Ending): seq<Event>
    requires CanEnd(backoffs, n, how)
  {
    Rounds(backoffs, n - 1) + LastAttempt(backoffs, n, how)
  }

  /** The dead letter of a message that failed at attempt n: exhausted retries are transient, the rest permanent. */
  function LetterOf(m: SyncMessage, n: nat, how: Ending): DeadLetter {
    DeadLetter(if how.Exhausted? then TransientRetriesExhausted else PermanentProcessor, n, m.cn, m.upn, m.enqueuedAt)
  }

  /** A status write for the message, whatever its answer. */
  predicate Marks(e: Event, status: Status, m: SyncMessage) {
    e.MarkStatus? && e.status == status && e.upn == m.upn && e.source == m.enqueuedAt
  }

  /** What follows the attempts: one of the settlements, with the result that is returned. */
  predicate Settlement(m: SyncMessage, n: nat, how: Ending, tail: seq<Event>, ok: bool) {
    match how
    case Synchronized => |tail| == 2 && Marks(tail[0], Synced, m) && tail[1] == Complete(ok)
    case Interrupted => tail == [Abandon(ok)]
    case _ =>
      || (|tail| == 3 && tail[0] == WriteDeadLetter(LetterOf(m, n, how), true) && Marks(tail[1], Failed, m)
          && tail[2] == Complete(ok))
      || (|tail| == 2 && tail[0] == WriteDeadLetter(LetterOf(m, n, how), false) && tail[1].Abandon? && !ok)
  }

  /** A whole run on a message that decodes: attempt n is the last one, ends this way, and is followed by the tail. */
  predicate Handles(backoffs: seq<int>, m: SyncMessage, es: seq<Event>, ok: bool, n: nat, how: Ending,
                    tail: seq<Event>) {
    CanEnd(backoffs, n, how) && Settlement(m, n, how, tail, ok) && es == Tries(backoffs, n, how) + tail
  }

  ghost predicate Handled(backoffs: seq<int>, m: SyncMessage, es: seq<Event>, ok: bool) {
    exists n: nat, how, tail :: Handles(backoffs, m, es, ok, n, how, tail)
  }

  /** A whole run on a message that does not. */
  predicate TurnedAway(entry: DeadLetter, es: seq<Event>, ok: bool) {
    && |es| == 2
    && ((es[0] == WriteDeadLetter(entry, true) && es[1] == Complete(ok))
        || (es[0] == WriteDeadLetter(entry, false) && es[1].Abandon? && !ok))
  }

  // ---------------------------------------------------------------------------
  // Following the automaton
  // ---------------------------------------------------------------------------

  /** The phases until the attempts are over. */
  ghost predicate Loop(job: Job, es: seq<Event>, p: Phase)
    requires job.message.Some?
  {
    match p
    case Attempting(n) => 1 <= n <= |job.backoffs| + 1 && es == Rounds(job.backoffs, n - 1)
    case Calling(n) => 1 <= n <= |job.backoffs| + 1 && es == Rounds(job.backoffs, n - 1) + [Decrypt(true)]
    case Waiting(n) =>
      1 <= n <= |job.backoffs| && es == Rounds(job.backoffs, n - 1) + [Decrypt(true), Process(Transient)]
    case _ => false
  }

  /** The phase that the attempts lead to when they are over. */
  function EndPhase(n: nat, how: Ending): Phase {
    match how
    case Synchronized => Succeeded(n)
    case Interrupted => Canceled(n)
    case _ => Failing(n, !how.Exhausted?)
  }

  ghost predicate Over(job: Job, es: seq<Event>, n: nat, how: Ending) {
    CanEnd(job.backoffs, n, how) && es == Tries(job.backoffs, n, how)
  }

  /** The phase that a settlement in progress is in. */
  ghost predicate Partly(m: SyncMessage, n: nat, how: Ending, tail: seq<Event>, p: Phase) {
    match how
    case Synchronized => |tail| == 1 && Marks(tail[0], Synced, m) && p.Completing?
    case Interrupted => false
    case _ =>
      || (tail == [WriteDeadLetter(LetterOf(m, n, how), true)] && p == Recorded(n))
      || (tail == [WriteDeadLetter(LetterOf(m, n, how), false)] && p.Retreating?)
      || (|tail| == 2 && tail[0] == WriteDeadLetter(LetterOf(m, n, how), true) && Marks(tail[1], Failed, m)
        && p.Completing?)
  }

  ghost predicate Stage(m: SyncMessage, n: nat, how: Ending, tail: seq<Event>, p: Phase) {
    || (tail == [] && p == EndPhase(n, how))
    || Partly(m, n, how, tail, p)
    || (p.Returned? && Settlement(m, n, how, tail, p.ok))
  }

  /** Attempt n was the last, ended this way, and the settlement has got this far. */
  ghost predicate AfterLoop(job: Job, es: seq<Event>, p: Phase, n: nat, how: Ending, k: nat)
    requires job.message.Some?
  {
    && k <= |es| && Over(job, es[..k], n, how)
    && Stage(job.message.value, n, how, es[k..], p)
  }

  ghost predicate At(job: Job, es: seq<Event>, p: Phase) {
    if job.message.Some? then Loop(job, es, p) || exists n: nat, how, k: nat :: AfterLoop(job, es, p, n, how, k)
    else
      match p
      case Rejecting => es == []
      case Completing => es == [WriteDeadLetter(job.invalidEntry, true)]
      case Retreating => es == [WriteDeadLetter(job.invalidEntry, false)]
      case Returned(ok) => TurnedAway(job.invalidEntry, es, ok)
      case _ => false
  }

  lemma LoopStep(job: Job, es: seq<Event>, p: Phase, e: Event)
    requires job.message.Some? && Loop(job, es, p) && job.Step(p, e).Some?
    ensures At(job, es + [e], job.Step(p, e).value)
  {
    var q, after := job.Step(p, e).value, es + [e];
    if p.Attempting? && !e.ok {
      assert after == Tries(job.backoffs, p.n, DecryptFailed);
      assert after[..|after|] == after;
      assert AfterLoop(job, after, q, p.n, DecryptFailed, |after|);
    } else if p.Calling? && !q.Waiting? {
      var how := match e.verdict case Success => Synchronized case Permanent => PermanentError case Transient =>
        Exhausted;
      assert after == Tries(job.backoffs, p.n, how);
      assert after[..|after|] == after;
      assert AfterLoop(job, after, q, p.n, how, |after|);
    } else if p.Calling? {
      assert after == Rounds(job.backoffs, p.n - 1) + [Decrypt(true), Process(Transient)];
    } else if p.Waiting? && e.ok {
      assert after == Rounds(job.backoffs, p.n);
    } else if p.Waiting? {
      assert after == Tries(job.backoffs, p.n, Interrupted);
      assert after[..|after|] == after;
      assert AfterLoop(job, after, q, p.n, Interrupted, |after|);
    }
  }

  lemma StageStep(job: Job, n: nat, how: Ending, tail: seq<Event>, p: Phase, e: Event)
    requires job.message.Some? && Stage(job.message.value, n, how, tail, p) && job.Step(p, e).Some?
    ensures Stage(job.message.value, n, how, tail + [e], job.Step(p, e).value)
  {
  }

  lemma {:induction false} AtStep(job: Job, es: seq<Event>, p: Phase, e: Event)
    requires At(job, es, p) && job.Step(p, e).Some?
    ensures At(job, es + [e], job.Step(p, e).value)
  {
    hide Stage, Over;
    if job.message.Some? {
      if Loop(job, es, p) {
        LoopStep(job, es, p, e);
      } else {
        var n: nat, how, k: nat :| AfterLoop(job, es, p, n, how, k);
        StageStep(job, n, how, es[k..], p, e);
        assert (es + [e])[..k] == es[..k] && (es + [e])[k..] == es[k..] + [e];
        assert AfterLoop(job, es + [e], job.Step(p, e).value, n, how, k);
      }
    }
  }

  lemma {:induction false} ReachesAt(job: Job, es: seq<Event>, p: Phase)
    requires job.Reaches(es, p)
    ensures At(job, es, p)
  {
    hide At, Job.Step;
    if es == [] {
      StartsAt(job);
    } else {
      var init, last := es[..|es| - 1], es[|es| - 1];
      ReachesAt(job, init, job.Follow(job.Start(), init).value);
      AtStep(job, init, job.Follow(job.Start(), init).value, last);
      assert init + [last] == es;
    }
  }

  lemma StartsAt(job: Job)
    ensures At(job, [], job.Start())
  {
  }

  // ---------------------------------------------------------------------------
  // Every trace is one of the automaton
  // ---------------------------------------------------------------------------

  /** Following more effects from where the first ones lead. */
  lemma {:induction false} FollowMore(job: Job, es: seq<Event>, p: Phase, more: seq<Event>)
    requires job.Reaches(es, p)
    ensures job.Follow(job.Start(), es + more) == job.Follow(p, more)
  {
    hide Job.Step;
    if more == [] {
      assert es + more == es;
    } else {
      FollowMore(job, es, p, more[..|more| - 1]);
      assert (es + more)[..|es + more| - 1] == es + more[..|more| - 1];
    }
  }

  lemma FollowOne(job: Job, p: Phase, e: Event)
    ensures job.Follow(p, [e]) == job.Step(p, e)
  {
    assert [e][..0] == [];
  }

  lemma FollowTwo(job: Job, p: Phase, d: Event, e: Event)
    ensures job.Follow(p, [d, e]) == if job.Step(p, d).None? then None else job.Step(job.Step(p, d).value, e)
  {
    hide Job.Step;
    FollowOne(job, p, d);
    assert [d, e][..1] == [d];
  }

  lemma FollowThree(job: Job, p: Phase, c: Event, d: Event, e: Event)
    ensures job.Follow(p, [c, d, e]) == if job.Follow(p, [c, d]).None? then None
            else job.Step(job.Follow(p, [c, d]).value, e)
  {
    hide Job.Step;
    assert [c, d, e][..2] == [c, d];
  }

  lemma {:induction false} RoundsReach(job: Job, n: nat)
    requires job.message.Some? && n <= |job.backoffs|
    ensures job.Reaches(Rounds(job.backoffs, n), Attempting(n + 1))
  {
    hide Job.Follow;
    if n == 0 {
      NothingFollowed(job);
    } else {
      RoundsReach(job, n - 1);
      var round := [Decrypt(true), Process(Transient), Sleep(job.backoffs[n - 1], true)];
      FollowMore(job, Rounds(job.backoffs, n - 1), Attempting(n), round);
      FollowTwo(job, Attempting(n), round[0], round[1]);
      FollowThree(job, Attempting(n), round[0], round[1], round[2]);
    }
  }

  lemma NothingFollowed(job: Job)
    ensures job.Reaches([], job.Start())
  {
  }

  lemma {:induction false} TriesReach(job: Job, n: nat, how: Ending)
    requires job.message.Some? && CanEnd(job.backoffs, n, how)
    ensures job.Reaches(Tries(job.backoffs, n, how), EndPhase(n, how))
  {
    hide Job.Follow;
    RoundsReach(job, n - 1);
    var (p, last) := (Attempting(n), LastAttempt(job.backoffs, n, how));
    FollowMore(job, Rounds(job.backoffs, n - 1), p, last);
    FollowOne(job, p, last[0]);
    if |last| >= 2 {
      FollowTwo(job, p, last[0], last[1]);
    }
    if |last| == 3 {
      FollowThree(job, p, last[0], last[1], last[2]);
    }
  }

  lemma {:induction false} SettlementReaches(job: Job, n: nat, how: Ending, tail: seq<Event>, ok: bool)
    requires job.message.Some? && Settlement(job.message.value, n, how, tail, ok)
    ensures job.Follow(EndPhase(n, how), tail) == Some(Returned(ok))
  {
    hide Job.Follow;
    var p := EndPhase(n, how);
    FollowOne(job, p, tail[0]);
    if |tail| == 1 {
      assert tail == [tail[0]];
    } else {
      FollowTwo(job, p, tail[0], tail[1]);
      if |tail| == 2 {
        assert tail == [tail[0], tail[1]];
      } else {
        FollowThree(job, p, tail[0], tail[1], tail[2]);
        assert tail == [tail[0], tail[1], tail[2]];
      }
    }
  }

  /**
    * The worker's runs on a message are exactly the traces written out above, with exactly the results they return: in
    * both directions, for every message, every backoff list and every answer of the environment.
    */
  lemma {:induction false} RunsExactly(job: Job, es: seq<Event>, ok: bool)
    ensures job.Reaches(es, Returned(ok)) <==>
            if job.message.Some? then Handled(job.backoffs, job.message.value, es, ok)
            else TurnedAway(job.invalidEntry, es, ok)
  {
    hide Job.Follow, Job.Step, Settlement, Tries, CanEnd;
    if job.Reaches(es, Returned(ok)) {
      ReachesAt(job, es, Returned(ok));
      if job.message.Some? {
        var n: nat, how, k: nat :| AfterLoop(job, es, Returned(ok), n, how, k);
        assert es == es[..k] + es[k..];
        assert Handles(job.backoffs, job.message.value, es, ok, n, how, es[k..]);
      }
    }
    if job.message.Some? && Handled(job.backoffs, job.message.value, es, ok) {
      var n: nat, how, tail :| Handles(job.backoffs, job.message.value, es, ok, n, how, tail);
      TriesReach(job, n, how);
      SettlementReaches(job, n, how, tail, ok);
      FollowMore(job, Tries(job.backoffs, n, how), EndPhase(n, how), tail);
    } else if job.message.None? && TurnedAway(job.invalidEntry, es, ok) {
      TurnedAwayReaches(job, es, ok);
    }
  }

  lemma TurnedAwayReaches(job: Job, es: seq<Event>, ok: bool)
    requires job.message.None? && TurnedAway(job.invalidEntry, es, ok)
    ensures job.Reaches(es, Returned(ok))
  {
    hide Job.Follow;
    FollowTwo(job, Rejecting, es[0], es[1]);
    assert es == [es[0], es[1]];
  }

  /**
    * The attempts end exactly as written out: in success, interrupted in a backoff, or in a failure that is a
    * decryption failure, a permanent error, or a transient error after the last backoff.
    */
  lemma {:induction false} EndsExactly(job: Job, es: seq<Event>, p: Phase)
    requires job.message.Some? && (p.Succeeded? || p.Canceled? || p.Failing?)
    ensures job.Reaches(es, p) <==> exists how :: Over(job, es, p.n, how) && p == EndPhase(p.n, how)
  {
    hide Job.Follow, Job.Step, Tries;
    if job.Reaches(es, p) {
      ReachesAt(job, es, p);
      var n: nat, how, k: nat :| AfterLoop(job, es, p, n, how, k);
      assert k == |es| && es[..k] == es;
    }
    if how :| Over(job, es, p.n, how) && p == EndPhase(p.n, how) {
      TriesReach(job, p.n, how);
    }
  }
}
