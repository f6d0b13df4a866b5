/** Concrete families of runs: they show what the protocol can do and that the conditions of its theorems are needed. */
module SyncRuns {
  import opened Prelude
  import opened SyncStatus
  import opened SyncProtocol
  import WorkerSteps
  import Submit

  lemma RunOneMore(s: State, actions: seq<Action>, a: Action)
    requires Run(s, actions).Some?
    ensures Run(s, actions + [a]) == Do(Run(s, actions).value, a)
  {
    assert (actions + [a])[..|actions|] == actions;
  }

  /** A submission that gets past deduplication, up to its accepted enqueue: its pending write is still to come. */
  lemma {:induction false} SubmitsUpToMark(before: seq<Action>, k: nat, id: Id, sub: Submit.Submission, now: Instant)
    returns (actions: seq<Action>, es: seq<Submit.Event>)
    requires Run(INIT, before).Some?
    requires k !in Run(INIT, before).value.submissions && id !in Run(INIT, before).value.accepted
    requires sub.Start() == Submit.Stamping && sub.hasStore
    ensures var s := Run(INIT, before).value;
            var m := WorkerSteps.SyncMessage(TrimSpace(sub.cn), sub.UPN(), now);
            && Run(INIT, actions) == Some(s.(submissions := s.submissions[k := Submitting(sub, es)],
                                             accepted := s.accepted[id := m], queue := s.queue + {id}))
            && sub.Follow(es) == Some(Submit.Marking(m))
  {
    hide NormalizeUPN, TrimSpace, Submit.Submission.Start, Submit.Submission.UPN, Submit.Submission.Follow, Run;
    var s := Run(INIT, before).value;
    var m := WorkerSteps.SyncMessage(TrimSpace(sub.cn), sub.UPN(), now);
    var e0, e1, e2 := Submit.Clock(now), Submit.Encrypt(sub.password, m, true), Submit.Enqueue(m, true);
    Beginnings(sub);
    Submit.OneMore(sub, [], e0);
    Submit.OneMore(sub, [] + [e0], e1);
    Submit.OneMore(sub, [] + [e0] + [e1], e2);
    es := [] + [e0] + [e1] + [e2];
    RunOneMore(INIT, before, Begin(k, sub));
    actions := before + [Begin(k, sub)];
    RunOneMore(INIT, actions, Submits(k, e0, false, id, now));
    actions := actions + [Submits(k, e0, false, id, now)];
    RunOneMore(INIT, actions, Submits(k, e1, false, id, now));
    actions := actions + [Submits(k, e1, false, id, now)];
    RunOneMore(INIT, actions, Submits(k, e2, false, id, now));
    actions := actions + [Submits(k, e2, false, id, now)];
    assert Run(INIT, actions).value.submissions == s.submissions[k := Submitting(sub, es)];
  }

  lemma Beginnings(sub: Submit.Submission)
    ensures Run(INIT, []) == Some(INIT) && sub.Follow([]) == Some(sub.Start())
  {
  }

  /** A replica takes a queued message, succeeds at the first attempt, marks it synced and completes it. */
  lemma {:induction false} WorkerSyncs(s0: State, before: seq<Action>, id: Id, now: Instant)
    returns (actions: seq<Action>, w: Working)
    requires Run(s0, before).Some? && id in Run(s0, before).value.queue && id in Run(s0, before).value.accepted
    ensures var s := Run(s0, before).value;
            var m := s.accepted[id];
            Run(s0, actions) == Some(s.Mark(Write(NormalizeUPN(m.upn), Synced, m.enqueuedAt, now))
                                     .(replicas := s.replicas[0 := w], successes := s.successes + {id},
                                       passwords := s.passwords + [id],
                                       queue := s.queue - {id}, completed := s.completed + {id}))
  {
    hide NormalizeUPN, Apply, Run;
    var m := Run(s0, before).value.accepted[id];
    var job := WorkerSteps.Job(WorkerSteps.DEFAULT_BACKOFFS, Some(m),
                               WorkerSteps.DeadLetter(WorkerSteps.InvalidMessageSchema, 0, "", "", 0));
    w := Working(id, job, WorkerSteps.Returned(true));
    actions := before;
    RunOneMore(s0, actions, Deliver(0, id, job));
    actions := actions + [Deliver(0, id, job)];
    var e := Works(0, WorkerSteps.Decrypt(true), false, now);
    RunOneMore(s0, actions, e);
    actions := actions + [e];
    e := Works(0, WorkerSteps.Process(WorkerSteps.Success), false, now);
    RunOneMore(s0, actions, e);
    actions := actions + [e];
    e := Works(0, WorkerSteps.MarkStatus(Synced, m.upn, m.enqueuedAt, true), false, now);
    RunOneMore(s0, actions, e);
    actions := actions + [e];
    e := Works(0, WorkerSteps.Complete(true), false, now);
    RunOneMore(s0, actions, e);
    actions := actions + [e];
    assert Run(s0, actions).value.replicas == Run(s0, before).value.replicas[0 := w];
  }

  /**
    * The guard protects only unexpired records: after an expiry the late pending write of a message that is already
    * processed and completed is stored.
    */
  lemma {:induction false} ExpiryLetsPendingBack(sub: Submit.Submission, now: Instant) returns (actions: seq<Action>)
    requires sub.Start() == Submit.Stamping && sub.hasStore
    ensures Run(INIT, actions).Some?
    ensures var s := Run(INIT, actions).value;
            var key := NormalizeUPN(sub.UPN());
            Stores(s, key, Pending, now) && s.queue == {} && WasProcessed(s, key, now)
  {
    hide NormalizeUPN, TrimSpace, Submit.Submission.Start, Submit.Submission.UPN, Submit.Submission.Follow, Run;
    Beginnings(sub);
    var es, w;
    actions, es := SubmitsUpToMark([], 0, 0, sub, now);
    actions, w := WorkerSyncs(INIT, actions, 0, now);
    var m, key := Run(INIT, actions).value.accepted[0], NormalizeUPN(sub.UPN());
    RunOneMore(INIT, actions, Lapse(key));
    actions := actions + [Lapse(key)];
    var late := Submit.MarkPending(m.upn, now, true);
    Submit.OneMore(sub, es, late);
    RunOneMore(INIT, actions, Submits(0, late, false, 0, now));
    actions := actions + [Submits(0, late, false, 0, now)];
    assert Matches(Run(INIT, actions).value.accepted[0], key, now);
  }
}
