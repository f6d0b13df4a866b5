/**
  * Every trace of a submission, written out (internal/migration/service.go). The automaton of Submit is proved to have
  * exactly these.
  */
module SubmitTraces {
  import opened Prelude
  import opened SyncStatus
  import opened WorkerSteps
  import Submit

  type Event = Submit.Event

  /** The message of a submission stamped at the given time: the UPN is the trimmed CN at the lower-case domain. */
  function MessageAt(sub: Submit.Submission, now: Instant): SyncMessage {
    SyncMessage(cn := TrimSpace(sub.cn), upn := TrimSpace(sub.cn) + "@" + NormalizeUPN(sub.primaryDomain),
      enqueuedAt := now)
  }

  /** Why a request ends before anything happens; none if it does not. */
  function Refusal(sub: Submit.Submission): Option<Submit.Outcome> {
    var identity := Submit.ClassifyCN(sub.unicode, sub.cn);
    if sub.eventType !in {"login_bootstrap", "password_change", "password_recovery"}
      then Some(Submit.Failure(Submit.InvalidEventType))
    else if identity == Submit.ExternalEmail then Some(Submit.Skipped(Submit.CnIsExternalEmail))
    else if identity == Submit.Unknown then Some(Submit.Failure(Submit.UnknownIdentity))
    else if NormalizeUPN(sub.primaryDomain) == "" then Some(Submit.Failure(Submit.NoDomain))
    else None
  }

  lemma NotRefused(sub: Submit.Submission)
    requires Submit.ValidEventType(sub.eventType) && Submit.Internal(Submit.ClassifyCN(sub.unicode, sub.cn))
    requires Submit.BuildUPN(sub.unicode, sub.cn, sub.primaryDomain).Some?
    ensures Refusal(sub).None?
  {
    hide Submit.ClassifyCN, Submit.BuildUPN, NormalizeUPN, TrimSpace;
    Submit.BuildUPNExactly(sub.unicode, sub.cn, sub.primaryDomain);
  }

  /** Only a login_bootstrap is looked up, and only if there is a store. */
  predicate LooksUp(sub: Submit.Submission) { sub.eventType == "login_bootstrap" && sub.hasStore }

  predicate Fresh(r: Record, now: Instant, pendingTTL: int) { r.updatedAt <= now < r.updatedAt + pendingTTL }

  /** The look-up ends the submission as a duplicate. */
  predicate Duplicate(sub: Submit.Submission, look: seq<Event>, reason: Submit.Reason) {
    && LooksUp(sub) && look != [] && look[0].Lookup? && look[0].record.Ok?
    && match reason
       case AlreadySynced => |look| == 1 && look[0].record.value.status == Synced
       case SyncPending =>
         && |look| == 2 && look[1].Clock? && look[0].record.value.status == Pending
         && Fresh(look[0].record.value, look[1].now, sub.pendingTTL)
       case _ => false
  }

  /** The look-up, if there is one, lets the submission go on. */
  predicate GoesOn(sub: Submit.Submission, look: seq<Event>) {
    if !LooksUp(sub) then look == []
    else
      && look != [] && look[0].Lookup?
      && match look[0].record
         case Err => |look| == 1
         case Ok(r) =>
           || (|look| == 1 && (r.status == Unsynced || r.status == Failed))
           || (|look| == 2 && r.status == Pending && look[1].Clock? && !Fresh(r, look[1].now, sub.pendingTTL))
  }

  /**
    * What is sent after that, and how it ends: the password is encrypted, bound to the message that is then enqueued.
    */
  predicate Sends(sub: Submit.Submission, tail: seq<Event>, outcome: Submit.Outcome) {
    if !sub.hasQueue then tail == [] && outcome == Submit.Failure(Submit.NoQueue)
    else if !sub.hasEncrypter then tail == [] && outcome == Submit.Failure(Submit.NoEncrypter)
    else
      && |tail| >= 2 && tail[0].Clock?
      && var m := MessageAt(sub, tail[0].now);
         || (|tail| == 2 && tail[1] == Submit.Encrypt(sub.password, m, false)
           && outcome == Submit.Failure(Submit.EncryptFailed))
         || (tail[1] == Submit.Encrypt(sub.password, m, true) && Enqueues(sub, m, tail[2..], outcome))
  }

  predicate Enqueues(sub: Submit.Submission, m: SyncMessage, tail: seq<Event>, outcome: Submit.Outcome) {
    || (tail == [Submit.Enqueue(m, false)] && outcome == Submit.Failure(Submit.EnqueueFailed))
    || (!sub.hasStore && tail == [Submit.Enqueue(m, true)] && outcome == Submit.Enqueued)
    || (sub.hasStore && |tail| == 2 && tail[0] == Submit.Enqueue(m, true) && MarksPending(tail[1], m)
      && outcome == Submit.Enqueued)
  }

  predicate MarksPending(e: Event, m: SyncMessage) { e.MarkPending? && e.upn == m.upn && e.source == m.enqueuedAt }

  /** A whole submission. */
  ghost predicate Whole(sub: Submit.Submission, es: seq<Event>, outcome: Submit.Outcome) {
    if Refusal(sub).Some? then es == [] && outcome == Refusal(sub).value
    else
      || (outcome.Skipped? && Duplicate(sub, es, outcome.reason))
      || exists k: nat :: k <= |es| && GoesOn(sub, es[..k]) && Sends(sub, es[k..], outcome)
  }

  // ---------------------------------------------------------------------------
  // The automaton has exactly these traces
  // ---------------------------------------------------------------------------

  /** The trace after the look-up, for every phase. */
  ghost predicate Sending(sub: Submit.Submission, tail: seq<Event>, p: Submit.Phase) {
    if tail == [] then p == sub.Proceed()
    else
      && sub.hasQueue && sub.hasEncrypter && tail[0].Clock?
      && SendingAt(sub, MessageAt(sub, tail[0].now), tail[1..], p)
  }

  ghost predicate SendingAt(sub: Submit.Submission, m: SyncMessage, tail: seq<Event>, p: Submit.Phase) {
    if tail == [] then p == Submit.Encrypting(m)
    else if |tail| == 1 && tail[0] == Submit.Encrypt(sub.password, m, false)
      then p == Submit.Ended(Submit.Failure(Submit.EncryptFailed))
    else tail[0] == Submit.Encrypt(sub.password, m, true) && Queueing(sub, m, tail[1..], p)
  }

  ghost predicate Queueing(sub: Submit.Submission, m: SyncMessage, tail: seq<Event>, p: Submit.Phase) {
    || (tail == [] && p == Submit.Enqueueing(m))
    || (sub.hasStore && tail == [Submit.Enqueue(m, true)] && p == Submit.Marking(m))
    || (p.Ended? && Enqueues(sub, m, tail, p.outcome))
  }

  /** The trace so far, for every phase. */
  ghost predicate At(sub: Submit.Submission, es: seq<Event>, p: Submit.Phase) {
    if Refusal(sub).Some? then es == [] && p == Submit.Ended(Refusal(sub).value)
    else
      || Judging(sub, es, p)
      || exists k: nat :: Sent(sub, es, p, k)
  }

  ghost predicate Judging(sub: Submit.Submission, es: seq<Event>, p: Submit.Phase) {
    || (LooksUp(sub) && es == [] && p.Looking?)
    || (LooksUp(sub) && p.Deciding? && es == [Submit.Lookup(Ok(p.record))] && p.record.status == Pending)
    || (p.Ended? && p.outcome.Skipped? && Duplicate(sub, es, p.outcome.reason))
  }

  ghost predicate Sent(sub: Submit.Submission, es: seq<Event>, p: Submit.Phase, k: nat) {
    k <= |es| && GoesOn(sub, es[..k]) && Sending(sub, es[k..], p)
  }

  lemma {:induction false} StartsAt(sub: Submit.Submission, p: Submit.Phase)
    ensures At(sub, [], p) <==> p == sub.Start()
  {
    hide Submit.ClassifyCN, Submit.BuildUPN, NormalizeUPN, TrimSpace;
    Submit.BuildUPNExactly(sub.unicode, sub.cn, sub.primaryDomain);
    assert forall k: nat :: Sent(sub, [], p, k) ==> k == 0;
    assert Sent(sub, [], p, 0) <==> !LooksUp(sub) && p == sub.Proceed();
  }

  lemma JudgingStep(sub: Submit.Submission, es: seq<Event>, p: Submit.Phase, e: Event)
    requires Refusal(sub).None? && Judging(sub, es, p) && sub.Step(p, e).Some?
    ensures At(sub, es + [e], sub.Step(p, e).value)
  {
    hide Refusal, MessageAt, Submit.Submission.UPN, TrimSpace;
    var q, after := sub.Step(p, e).value, es + [e];
    assert after[..|after|] == after && after[|after|..] == [];
    if !Judging(sub, after, q) {
      assert Sent(sub, after, q, |after|);
    }
  }

  lemma MessageIs(sub: Submit.Submission, now: Instant)
    requires Refusal(sub).None?
    ensures WorkerSteps.SyncMessage(TrimSpace(sub.cn), sub.UPN(), now) == MessageAt(sub, now)
  {
    hide Submit.ClassifyCN, Submit.BuildUPN, NormalizeUPN, TrimSpace;
    Submit.BuildUPNExactly(sub.unicode, sub.cn, sub.primaryDomain);
  }

  lemma SendingStep(sub: Submit.Submission, tail: seq<Event>, p: Submit.Phase, e: Event)
    requires Refusal(sub).None? && Sending(sub, tail, p) && sub.Step(p, e).Some?
    ensures Sending(sub, tail + [e], sub.Step(p, e).value)
  {
    hide Refusal, MessageAt, Submit.Submission.UPN, TrimSpace;
    if tail == [] {
      MessageIs(sub, e.now);
      assert (tail + [e])[1..] == [];
    } else {
      assert (tail + [e])[1..] == tail[1..] + [e];
      if |tail| > 1 {
        assert (tail[1..] + [e])[1..] == tail[1..][1..] + [e];
      } else {
        assert (tail[1..] + [e])[1..] == [];
      }
    }
  }

  lemma {:induction false} FollowsAt(sub: Submit.Submission, es: seq<Event>)
    requires sub.Follow(es).Some?
    ensures At(sub, es, sub.Follow(es).value)
  {
    hide Refusal, Judging, Sending, GoesOn, Submit.Submission.Start, Submit.Submission.Step;
    if es == [] {
      StartsAt(sub, sub.Start());
    } else {
      var init, e := es[..|es| - 1], es[|es| - 1];
      FollowsAt(sub, init);
      var p := sub.Follow(init).value;
      assert es == init + [e];
      NoStepAfterRefusal(sub, p, e);
      if Judging(sub, init, p) {
        JudgingStep(sub, init, p, e);
      } else {
        var k: nat :| Sent(sub, init, p, k);
        SendingStep(sub, init[k..], p, e);
        assert es[..k] == init[..k] && es[k..] == init[k..] + [e];
        assert Sent(sub, es, sub.Step(p, e).value, k);
      }
    }
  }

  lemma NoStepAfterRefusal(sub: Submit.Submission, p: Submit.Phase, e: Event)
    ensures p.Ended? ==> sub.Step(p, e).None?
  {
  }

  /** The phase before the last effect of a trace. */
  lemma {:induction false} JudgingBack(sub: Submit.Submission, es: seq<Event>, p: Submit.Phase)
    returns (q: Submit.Phase)
    requires Refusal(sub).None? && Judging(sub, es, p) && es != []
    ensures At(sub, es[..|es| - 1], q) && sub.Step(q, es[|es| - 1]) == Some(p)
  {
    hide Refusal, MessageAt, Submit.Submission.UPN, TrimSpace;
    q := if |es| == 1 then Submit.Looking else Submit.Deciding(es[0].record.value);
    assert |es| == 2 ==> es[..1] == [es[0]];
    assert Judging(sub, es[..|es| - 1], q);
  }

  lemma {:induction false} GoesOnBack(sub: Submit.Submission, es: seq<Event>) returns (q: Submit.Phase)
    requires Refusal(sub).None? && GoesOn(sub, es) && es != []
    ensures At(sub, es[..|es| - 1], q) && sub.Step(q, es[|es| - 1]) == Some(sub.Proceed())
  {
    hide Refusal, MessageAt, Submit.Submission.UPN, TrimSpace;
    q := if |es| == 1 then Submit.Looking else Submit.Deciding(es[0].record.value);
    assert |es| == 2 ==> es[..1] == [es[0]];
    assert Judging(sub, es[..|es| - 1], q);
  }

  lemma {:induction false} SendingBack(sub: Submit.Submission, tail: seq<Event>, p: Submit.Phase)
    returns (q: Submit.Phase)
    requires Refusal(sub).None? && Sending(sub, tail, p) && tail != []
    ensures Sending(sub, tail[..|tail| - 1], q) && sub.Step(q, tail[|tail| - 1]) == Some(p)
  {
    hide Refusal, MessageAt, Submit.Submission.UPN, TrimSpace;
    var m := MessageAt(sub, tail[0].now);
    MessageIs(sub, tail[0].now);
    var init := tail[..|tail| - 1];
    match |tail| {
      case 1 => q := Submit.Stamping;
      case 2 =>
        q := Submit.Encrypting(m);
        assert init[1..] == [];
      case 3 =>
        q := Submit.Enqueueing(m);
        assert init[1..] == [tail[1]] && init[1..][1..] == [];
        assert tail[1..][1..] == [tail[2]];
      case _ =>
        q := Submit.Marking(m);
        assert tail[1..][1..] == [tail[2], tail[3]];
        assert init[1..][1..] == [tail[2]];
    }
  }

  lemma {:induction false} AtFollows(sub: Submit.Submission, es: seq<Event>, p: Submit.Phase)
    requires At(sub, es, p)
    ensures sub.Follow(es) == Some(p)
  {
    hide Refusal, Judging, Sending, GoesOn, Submit.Submission.Start, Submit.Submission.Step;
    if es == [] {
      StartsAt(sub, p);
    } else {
      var init := es[..|es| - 1];
      var q;
      if Judging(sub, es, p) {
        q := JudgingBack(sub, es, p);
      } else {
        var k: nat :| Sent(sub, es, p, k);
        if k == |es| {
          assert es[..k] == es && es[k..] == [];
          SendingNothing(sub, p);
          q := GoesOnBack(sub, es);
        } else {
          q := SendingBack(sub, es[k..], p);
          assert init[..k] == es[..k] && init[k..] == es[k..][..|es| - k - 1];
          assert Sent(sub, init, q, k);
        }
      }
      AtFollows(sub, init, q);
    }
  }

  lemma SendingNothing(sub: Submit.Submission, p: Submit.Phase)
    ensures Sending(sub, [], p) <==> p == sub.Proceed()
  {
  }

  /**
    * The submissions that end are exactly the traces written out above, with exactly the outcomes they have: in both
    * directions, for every request, configuration and answer of the environment.
    */
  lemma {:induction false} SubmitsExactly(sub: Submit.Submission, es: seq<Event>, outcome: Submit.Outcome)
    ensures sub.Follow(es) == Some(Submit.Ended(outcome)) <==> Whole(sub, es, outcome)
  {
    hide Refusal, Submit.Submission.Follow, Duplicate, GoesOn, Sending, Sends;
    var p := Submit.Ended(outcome);
    forall k: nat | k <= |es| ensures Sending(sub, es[k..], p) <==> Sends(sub, es[k..], outcome) {
      SendsIsSending(sub, es[k..], outcome);
    }
    assert At(sub, es, p) <==> Whole(sub, es, outcome) by {
      if k: nat :| Sent(sub, es, p, k) {
        assert k <= |es| && GoesOn(sub, es[..k]) && Sends(sub, es[k..], outcome);
      }
      if k: nat :| k <= |es| && GoesOn(sub, es[..k]) && Sends(sub, es[k..], outcome) {
        assert Sent(sub, es, p, k);
      }
    }
    if sub.Follow(es) == Some(p) {
      FollowsAt(sub, es);
    }
    if At(sub, es, p) {
      AtFollows(sub, es, p);
    }
  }

  lemma SendsIsSending(sub: Submit.Submission, tail: seq<Event>, outcome: Submit.Outcome)
    ensures Sending(sub, tail, Submit.Ended(outcome)) <==> Sends(sub, tail, outcome)
  {
    hide MessageAt, TrimSpace;
    if |tail| >= 2 {
      assert tail[1..][1..] == tail[2..];
    }
  }

  ghost predicate Encrypted(sub: Submit.Submission, es: seq<Event>) {
    && (forall i :: 0 <= i < |es| && es[i].Encrypt? ==> es[i].plaintext == sub.password)
    && (forall i :: 0 <= i < |es| && es[i].Enqueue? ==>
          i > 0 && es[i - 1] == Submit.Encrypt(sub.password, es[i].message, true))
  }

  lemma SendingEncrypts(sub: Submit.Submission, tail: seq<Event>, p: Submit.Phase)
    requires Sending(sub, tail, p)
    ensures Encrypted(sub, tail)
  {
    hide MessageAt;
    if |tail| >= 2 {
      assert tail[1..][0] == tail[1];
      assert tail[1..][1..] == tail[2..];
    }
  }

  /**
    * In every submission, finished or not, whatever is encrypted is the password, and a message is enqueued only right
    * after the password was encrypted bound to that very message.
    */
  lemma {:induction false} EncryptsThePassword(sub: Submit.Submission, es: seq<Event>)
    requires sub.Follow(es).Some?
    ensures forall i :: 0 <= i < |es| && es[i].Encrypt? ==> es[i].plaintext == sub.password
    ensures forall i :: 0 <= i < |es| && es[i].Enqueue? ==>
              i > 0 && es[i - 1] == Submit.Encrypt(sub.password, es[i].message, true)
  {
    hide Refusal, Sending, Submit.Submission.Follow;
    FollowsAt(sub, es);
    var p := sub.Follow(es).value;
    if k: nat :| Refusal(sub).None? && Sent(sub, es, p, k) {
      SendingEncrypts(sub, es[k..], p);
      var look, tail := es[..k], es[k..];
      forall i | 0 <= i < |es|
        ensures es[i].Encrypt? ==> es[i].plaintext == sub.password
        ensures es[i].Enqueue? ==> i > 0 && es[i - 1] == Submit.Encrypt(sub.password, es[i].message, true)
      {
        if i < k {
          assert es[i] == look[i];
        } else {
          assert es[i] == tail[i - k];
          assert i > k ==> es[i - 1] == tail[i - k - 1];
        }
      }
    }
  }

  /** A submission that says it enqueued has encrypted. */
  lemma {:induction false} EnqueuedWasEncrypted(sub: Submit.Submission, es: seq<Event>)
    requires Whole(sub, es, Submit.Enqueued)
    ensures exists e :: e in es && e.Encrypt? && e.ok && e.plaintext == sub.password
  {
    hide Submit.ClassifyCN, NormalizeUPN, TrimSpace, MessageAt, GoesOn;
    var k: nat :| k <= |es| && GoesOn(sub, es[..k]) && Sends(sub, es[k..], Submit.Enqueued);
    assert es[k..][1] == es[k + 1] && es[k + 1] in es;
  }

  lemma EveryOutcome(sub: Submit.Submission)
    ensures forall es, outcome :: sub.Follow(es) == Some(Submit.Ended(outcome)) ==>
                                    Whole(sub, es, outcome) && Encrypted(sub, es)
  {
    hide Whole, Submit.Submission.Follow;
    forall es, outcome | sub.Follow(es) == Some(Submit.Ended(outcome))
      ensures Whole(sub, es, outcome) && Encrypted(sub, es)
    {
      SubmitsExactly(sub, es, outcome);
      EncryptsThePassword(sub, es);
    }
  }
}
