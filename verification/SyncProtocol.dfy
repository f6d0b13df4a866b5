/**
  * The whole pipeline as a transition system: submissions, an at-least-once queue, any number of worker replicas and
  * the status store, interleaved step by step. All nondeterminism is in the actions: answers, clock readings,
  * whether a call that failed took effect all the same, redelivery, broker expiry and status record expiry.
  */
module SyncProtocol {
  import opened Prelude
  import opened SyncStatus
  import WorkerSteps
  import Submit

  type Id = nat
  type SyncMessage = WorkerSteps.SyncMessage

  /** A submission under way and its effects so far. */
  datatype Submitting = Submitting(sub: Submit.Submission, es: seq<Submit.Event>)

  /** A replica, the queue message it holds and where it is with it. */
  datatype Working = Working(id: Id, job: WorkerSteps.Job, phase: WorkerSteps.Phase)

  datatype State = State(
    submissions: map<nat, Submitting>,
    replicas: map<nat, Working>,
    queue: set<Id>,                               // messages the broker still holds
    store: Records,
    accepted: map<Id, SyncMessage>,               // history: every message the queue ever accepted
    completed: set<Id>,                           // history: removed by a worker
    expired: set<Id>,                             // history: removed by the broker itself
    successes: set<Id>,                           // history: the processor reported success
    passwords: seq<Id>,                           // history: whose passwords the directory took, in order
    deadLetters: set<(Id, WorkerSteps.DeadLetter)>, // history: safe dead letters written
    log: seq<Write>,                              // history: the status writes that took effect
    lapsed: map<string, nat>                      // history: how long the log was when a key last expired
  ) {
    function Mark(w: Write): State {
      this.(store := Apply(store, w), log := log + [w])
    }

    /** The record of the key expires. */
    function Forget(key: string): State {
      this.(store := store - {key}, lapsed := lapsed[key := |log|])
    }
  }

  const INIT := State(map[], map[], {}, map[], map[], {}, {}, {}, [], {}, [], map[])

  datatype Action =
    | Begin(k: nat, sub: Submit.Submission)
    | Submits(k: nat, submitEvent: Submit.Event, applied: bool, id: Id, clock: Instant)
    | Deliver(r: nat, id: Id, job: WorkerSteps.Job)
    | Works(r: nat, event: WorkerSteps.Event, applied: bool, clock: Instant)
    | Expire(id: Id)
    | Lapse(key: string)

  /** The effect of one step of a submission on the queue and the store. */
  function SubmitEffect(s: State, upn: string, e: Submit.Event, applied: bool, id: Id, clock: Instant): Option<State> {
    match e
    case Lookup(Ok(r)) => if r == Read(s.store, NormalizeUPN(upn)) then Some(s) else None
    case Enqueue(m, ok) =>
      if !ok && !applied then Some(s)
      else if id in s.accepted then None
      else Some(s.(accepted := s.accepted[id := m], queue := s.queue + {id}))
    case MarkPending(u, source, ok) =>
      if ok || applied then Some(s.Mark(Write(NormalizeUPN(u), Pending, source, clock))) else Some(s)
    case _ => Some(s)
  }

  /** What the store answers for a key: its record, or the empty one. */
  function Read(store: Records, key: string): Record {
    if key in store then store[key] else NO_RECORD
  }

  /** The effect of one step of a worker; the broker confirms a completion only of a message it still holds. */
  function WorkEffect(s: State, id: Id, e: WorkerSteps.Event, applied: bool, clock: Instant): Option<State> {
    match e
    case Process(verdict) =>
      Some(if verdict.Success? then s.(successes := s.successes + {id}, passwords := s.passwords + [id])
           else if applied then s.(passwords := s.passwords + [id])
           else s)
    case WriteDeadLetter(entry, ok) =>
      Some(if ok || applied then s.(deadLetters := s.deadLetters + {(id, entry)}) else s)
    case MarkStatus(status, upn, source, ok) =>
      if ok || applied then Some(s.Mark(Write(NormalizeUPN(upn), status, source, clock))) else Some(s)
    case Complete(ok) =>
      if !ok && !applied then Some(s)
      else if id !in s.queue then None
      else Some(s.(queue := s.queue - {id}, completed := s.completed + {id}))
    case _ => Some(s)
  }

  /** One step of the system; none if the action is not possible in the state. */
  function Do(s: State, a: Action): Option<State> {
    match a
    case Begin(k, sub) =>
      if k in s.submissions then None else Some(s.(submissions := s.submissions[k := Submitting(sub, [])]))
    case Submits(k, e, applied, id, clock) =>
      if k !in s.submissions then None
      else
        var t := s.submissions[k];
        if t.sub.Follow(t.es + [e]).None? then None
        else SubmitEffect(s.(submissions := s.submissions[k := Submitting(t.sub, t.es + [e])]), t.sub.UPN(), e, applied,
          id, clock)
    // A replica may be handed any message the broker holds at any time: this covers redelivery after an abandon, a
    // lost lock or a crash, and a restart of the replica. The body may fail to decode, but never as another message.
    case Deliver(r, id, job) =>
      if id in s.queue && id in s.accepted && (job.message.None? || job.message == Some(s.accepted[id]))
      then Some(s.(replicas := s.replicas[r := Working(id, job, job.Start())]))
      else None
    case Works(r, e, applied, clock) =>
      if r !in s.replicas then None
      else
        var w := s.replicas[r];
        var p := w.job.Step(w.phase, e);
        if p.None? then None
        else WorkEffect(s.(replicas := s.replicas[r := w.(phase := p.value)]), w.id, e, applied, clock)
    case Expire(id) =>
      if id in s.queue then Some(s.(queue := s.queue - {id}, expired := s.expired + {id})) else None
    case Lapse(key) =>
      Some(s.Forget(key))
  }

  function Run(s: State, actions: seq<Action>): Option<State> {
    if actions == [] then Some(s)
    else
      var t := Run(s, actions[..|actions| - 1]);
      if t.None? then None else Do(t.value, actions[|actions| - 1])
  }

  /** An accepted message for the key with the source time. */
  predicate Matches(m: SyncMessage, key: string, source: Instant) {
    NormalizeUPN(m.upn) == key && m.enqueuedAt == source
  }

  ghost predicate WasAccepted(s: State, key: string, source: Instant) {
    exists id :: id in s.accepted && Matches(s.accepted[id], key, source)
  }

  ghost predicate WasProcessed(s: State, key: string, source: Instant) {
    exists id :: id in s.accepted && id in s.successes && Matches(s.accepted[id], key, source)
  }

  ghost predicate WasDeadLettered(s: State, key: string, source: Instant) {
    exists id, entry :: (id, entry) in s.deadLetters && id in s.accepted && Matches(s.accepted[id], key, source)
                        && NormalizeUPN(entry.upn) == key && entry.enqueuedAt == source
  }

  /** Each status write is backed by what it claims. */
  ghost predicate Backed(s: State, w: Write) {
    match w.status
    case Pending => WasAccepted(s, w.key, w.source)
    case Synced => WasProcessed(s, w.key, w.source)
    case Failed => WasDeadLettered(s, w.key, w.source)
    case Unsynced => false
  }

  /** The write a record came from. */
  function Origin(key: string, r: Record): Write { Write(key, r.status, r.source, r.updatedAt) }

  ghost predicate DeadLettered(s: State, id: Id) { exists entry :: (id, entry) in s.deadLetters }

  ghost predicate WorkingOk(s: State, w: Working) {
    && w.id in s.accepted
    && (w.job.message.None? || w.job.message == Some(s.accepted[w.id]))
    && (w.phase.Succeeded? ==> w.id in s.successes)
    && (w.phase.Recorded? ==> w.job.message.Some? && exists permanent ::
        (w.id, w.job.FailureEntry(w.phase.n, permanent)) in s.deadLetters)
    && (w.phase.Completing? ==> w.id in s.successes || DeadLettered(s, w.id))
  }

  ghost predicate SubmittingOk(s: State, t: Submitting) {
    && t.sub.Follow(t.es).Some?
    && (t.sub.Follow(t.es).value.Marking? ==> exists id ::
        id in s.accepted && s.accepted[id] == t.sub.Follow(t.es).value.message)
    && (forall i :: 0 <= i < |t.es| && t.es[i].Lookup? && t.es[i].record.Ok? ==>
                      t.es[i].record.value.status.Unsynced?
                        || Origin(NormalizeUPN(t.sub.UPN()), t.es[i].record.value) in s.log)
  }

  /** No accepted message is lost or duplicated, and a worker removes one only with a success or a dead letter. */
  ghost predicate Conserved(s: State) {
    Partitioned(s) && Justified(s)
  }

  ghost predicate Partitioned(s: State) {
    && s.accepted.Keys == s.queue + s.completed + s.expired
    && s.queue !! s.completed && s.queue !! s.expired && s.completed !! s.expired
  }

  ghost predicate Justified(s: State) {
    && (forall id :: id in s.successes ==> id in s.passwords) && (forall id :: id in s.passwords ==> id in s.accepted)
    && (forall id, entry :: (id, entry) in s.deadLetters ==> id in s.accepted)
    && (forall id :: id in s.completed ==> id in s.successes || DeadLettered(s, id))
  }

  /** Where in the log the writes since the key's last expiry begin. */
  function LastExpiry(s: State, key: string): nat {
    if key in s.lapsed then s.lapsed[key] else 0
  }

  /** The writes since the key's last expiry. */
  function Since(s: State, key: string): seq<Write>
    requires LastExpiry(s, key) <= |s.log|
  {
    s.log[LastExpiry(s, key)..]
  }

  /** The store holds for the key what the writes since its last expiry leave in an empty store. */
  ghost predicate Remembers(s: State, key: string) {
    LastExpiry(s, key) <= |s.log| && SameRecord(s.store, ApplyAll(map[], Since(s, key)), key)
  }

  ghost predicate Tracked(s: State) {
    && (forall w :: w in s.log ==> Backed(s, w))
    && (forall key :: key in s.store ==> Origin(key, s.store[key]) in s.log)
    && (forall key :: Remembers(s, key))
  }

  predicate SameRecord(a: Records, b: Records, key: string) {
    (key in a <==> key in b) && (key in a ==> a[key] == b[key])
  }

  ghost predicate Inv(s: State) {
    && Conserved(s) && Tracked(s)
    && (forall r :: r in s.replicas ==> WorkingOk(s, s.replicas[r]))
    && (forall k :: k in s.submissions ==> SubmittingOk(s, s.submissions[k]))
  }

  /** The histories only grow. */
  ghost predicate Grows(s: State, t: State) {
    && (forall id :: id in s.accepted ==> id in t.accepted && t.accepted[id] == s.accepted[id])
    && s.successes <= t.successes && s.deadLetters <= t.deadLetters && s.passwords <= t.passwords
    && (forall w :: w in s.log ==> w in t.log)
  }

  lemma WorkGrows(s: State, id: Id, e: WorkerSteps.Event, applied: bool, clock: Instant)
    requires WorkEffect(s, id, e, applied, clock).Some?
    ensures Grows(s, WorkEffect(s, id, e, applied, clock).value)
  {
    hide NormalizeUPN, Apply;
  }

  lemma SubmitGrows(s: State, upn: string, e: Submit.Event, applied: bool, id: Id, clock: Instant)
    requires SubmitEffect(s, upn, e, applied, id, clock).Some?
    ensures Grows(s, SubmitEffect(s, upn, e, applied, id, clock).value)
  {
    hide NormalizeUPN, Apply;
  }

  lemma {:induction false} DoGrows(s: State, a: Action, t: State)
    requires Do(s, a) == Some(t)
    ensures Grows(s, t)
  {
    hide Submit.Submission.Follow, Submit.Submission.UPN, WorkerSteps.Job.Step, WorkEffect, SubmitEffect;
    match a
    case Works(r, e, applied, clock) =>
      var w := s.replicas[r];
      WorkGrows(s.(replicas := s.replicas[r := w.(phase := w.job.Step(w.phase, e).value)]), w.id, e, applied, clock);
    case Submits(k, e, applied, id, clock) =>
      var b := s.submissions[k];
      SubmitGrows(s.(submissions := s.submissions[k := Submitting(b.sub, b.es + [e])]), b.sub.UPN(), e, applied, id,
        clock);
    case _ =>
  }

  lemma BackedGrows(s: State, t: State, w: Write)
    requires Grows(s, t) && Backed(s, w)
    ensures Backed(t, w)
  {
    hide NormalizeUPN, Matches;
  }

  lemma WorkingGrows(s: State, t: State, w: Working)
    requires Grows(s, t) && WorkingOk(s, w)
    ensures WorkingOk(t, w)
  {
  }

  lemma SubmittingGrows(s: State, t: State, b: Submitting)
    requires Grows(s, t) && SubmittingOk(s, b)
    ensures SubmittingOk(t, b)
  {
    hide NormalizeUPN, Submit.Submission.Follow, Submit.Submission.UPN;
  }

  /** What a worker's step establishes for its next phase. */
  lemma WorksOk(s: State, r: nat, e: WorkerSteps.Event, applied: bool, clock: Instant, t: State)
    requires r in s.replicas && WorkingOk(s, s.replicas[r]) && Do(s, Works(r, e, applied, clock)) == Some(t)
    ensures r in t.replicas && WorkingOk(t, t.replicas[r])
  {
    hide NormalizeUPN, Apply, WorkerSteps.Job.Step, SubmitEffect, Submit.Submission.Follow, Submit.Submission.UPN,
      Grows;
    var w := s.replicas[r];
    DoGrows(s, Works(r, e, applied, clock), t);
    WorkingGrows(s, t, w);
    WorkerSteps.StepInto(w.job, w.phase, e);
    if e.WriteDeadLetter? && e.ok {
      assert (w.id, e.entry) in t.deadLetters;
    }
    if w.phase.Recorded? {
      var permanent :| (w.id, w.job.FailureEntry(w.phase.n, permanent)) in t.deadLetters;
    }
  }

  /** The status writes of a worker are backed. */
  lemma {:induction false} WorkerWriteBacked(s: State, w: Working, e: WorkerSteps.Event, clock: Instant)
    requires WorkingOk(s, w) && w.job.Step(w.phase, e).Some? && e.MarkStatus?
    ensures Backed(s, Write(NormalizeUPN(e.upn), e.status, e.source, clock))
  {
    hide NormalizeUPN, WorkerSteps.Job.Step;
    WorkerSteps.StepInto(w.job, w.phase, e);
    assert Matches(s.accepted[w.id], NormalizeUPN(e.upn), e.source);
    if w.phase.Recorded? {
      var permanent :| (w.id, w.job.FailureEntry(w.phase.n, permanent)) in s.deadLetters;
    }
  }

  /** The pending write of a submission is backed: it is only made for a message the queue has accepted. */
  lemma {:induction false} SubmitterWriteBacked(s: State, b: Submitting, e: Submit.Event, clock: Instant)
    requires SubmittingOk(s, b) && b.sub.Follow(b.es + [e]).Some? && e.MarkPending?
    ensures Backed(s, Write(NormalizeUPN(e.upn), Pending, e.source, clock))
  {
    hide NormalizeUPN, Submit.Submission.Follow, Submit.Submission.Start, Submit.Submission.UPN;
    Submit.OneMore(b.sub, b.es, e);
    var p := b.sub.Follow(b.es).value;
    assert p.Marking? && p.message.upn == e.upn && p.message.enqueuedAt == e.source;
    var id :| id in s.accepted && s.accepted[id] == p.message;
    assert Matches(s.accepted[id], NormalizeUPN(e.upn), e.source);
  }

  /** What a submission's step establishes for its next phase. */
  lemma SubmitsOk(s: State, k: nat, e: Submit.Event, applied: bool, id: Id, clock: Instant, t: State)
    requires k in s.submissions && SubmittingOk(s, s.submissions[k]) && Tracked(s)
    requires Do(s, Submits(k, e, applied, id, clock)) == Some(t)
    ensures k in t.submissions && SubmittingOk(t, t.submissions[k])
  {
    hide NormalizeUPN, Apply, Backed, ApplyAll, Submit.Submission.Follow, Submit.Submission.Start,
      Submit.Submission.UPN;
    var b := s.submissions[k];
    DoGrows(s, Submits(k, e, applied, id, clock), t);
    Submit.OneMore(b.sub, b.es, e);
    var p := b.sub.Follow(b.es + [e]).value;
    if p.Marking? {
      assert e == Submit.Enqueue(p.message, true);
      assert id in t.accepted && t.accepted[id] == p.message;
    }
  }

  lemma SameAfterWrite(a: Records, b: Records, w: Write, key: string)
    requires SameRecord(a, b, key)
    ensures SameRecord(Apply(a, w), Apply(b, w), key)
  {
  }

  /** A write that is backed keeps the log, the store and their agreement. */
  lemma MarkTracked(s: State, w: Write)
    requires Tracked(s) && Backed(s, w)
    ensures Tracked(s.Mark(w))
  {
    hide NormalizeUPN, Backed, SameRecord;
    var t := s.Mark(w);
    forall v | v in t.log ensures Backed(t, v) {
      BackedGrows(s, t, v);
    }
    forall key ensures Remembers(t, key) {
      assert Remembers(s, key);
      var since := Since(s, key);
      assert Since(t, key) == since + [w] && (since + [w])[..|since|] == since;
      SameAfterWrite(s.store, ApplyAll(map[], since), w, key);
    }
  }

  lemma TrackedGrows(s: State, t: State)
    requires Tracked(s) && Grows(s, t) && t.store == s.store && t.log == s.log && t.lapsed == s.lapsed
    ensures Tracked(t)
  {
    hide SameRecord, Matches, NormalizeUPN, ApplyAll;
    forall key ensures Remembers(t, key) {
      assert Remembers(s, key);
    }
  }

  lemma ForgetRemembers(s: State, key: string, k: string)
    requires Remembers(s, k)
    ensures Remembers(s.Forget(key), k)
  {
    var t := s.Forget(key);
    if k == key {
      assert Since(t, key) == [];
    } else {
      assert Since(t, k) == Since(s, k);
    }
  }

  lemma ForgetTracked(s: State, key: string)
    requires Tracked(s)
    ensures Tracked(s.Forget(key))
  {
    hide Backed, Remembers;
    var t := s.Forget(key);
    forall w | w in t.log ensures Backed(t, w) {
      BackedGrows(s, t, w);
    }
    forall k ensures Remembers(t, k) {
      ForgetRemembers(s, key, k);
    }
  }

  lemma WorksTracked(s: State, r: nat, e: WorkerSteps.Event, applied: bool, clock: Instant, t: State)
    requires Tracked(s) && r in s.replicas && WorkingOk(s, s.replicas[r])
             && Do(s, Works(r, e, applied, clock)) == Some(t)
    ensures Tracked(t)
  {
    hide NormalizeUPN, Apply, Backed, Tracked, WorkingOk, WorkerSteps.Job.Step;
    var w := s.replicas[r];
    DoGrows(s, Works(r, e, applied, clock), t);
    if e.MarkStatus? && (e.ok || applied) {
      var moved := s.(replicas := s.replicas[r := w.(phase := w.job.Step(w.phase, e).value)]);
      WorkerWriteBacked(s, w, e, clock);
      TrackedGrows(s, moved);
      BackedGrows(s, moved, Write(NormalizeUPN(e.upn), e.status, e.source, clock));
      MarkTracked(moved, Write(NormalizeUPN(e.upn), e.status, e.source, clock));
    } else {
      TrackedGrows(s, t);
    }
  }

  lemma SubmitsTracked(s: State, k: nat, e: Submit.Event, applied: bool, id: Id, clock: Instant, t: State)
    requires Tracked(s) && k in s.submissions && SubmittingOk(s, s.submissions[k])
    requires Do(s, Submits(k, e, applied, id, clock)) == Some(t)
    ensures Tracked(t)
  {
    hide NormalizeUPN, Apply, Backed, Tracked, SubmittingOk, Submit.Submission.Follow, Submit.Submission.UPN;
    var b := s.submissions[k];
    DoGrows(s, Submits(k, e, applied, id, clock), t);
    if e.MarkPending? && (e.ok || applied) {
      var moved := s.(submissions := s.submissions[k := Submitting(b.sub, b.es + [e])]);
      SubmitterWriteBacked(s, b, e, clock);
      TrackedGrows(s, moved);
      BackedGrows(s, moved, Write(NormalizeUPN(e.upn), Pending, e.source, clock));
      MarkTracked(moved, Write(NormalizeUPN(e.upn), Pending, e.source, clock));
    } else {
      TrackedGrows(s, t);
    }
  }

  lemma TrackedKept(s: State, a: Action, t: State)
    requires Inv(s) && Do(s, a) == Some(t)
    ensures Tracked(t)
  {
    hide Do, Tracked, Conserved, WorkingOk, SubmittingOk;
    match a
    case Works(r, e, applied, clock) =>
      assert r in s.replicas by { DoNames(s, a); }
      WorksTracked(s, r, e, applied, clock, t);
    case Submits(k, e, applied, id, clock) =>
      assert k in s.submissions by { DoNames(s, a); }
      SubmitsTracked(s, k, e, applied, id, clock, t);
    case Lapse(key) => ForgetTracked(s, key); DoNames(s, a);
    case _ => DoGrows(s, a, t); DoNames(s, a); TrackedGrows(s, t);
  }

  /** Who an action needs and what it leaves alone. */
  lemma DoNames(s: State, a: Action)
    requires Do(s, a).Some?
    ensures a.Works? ==> a.r in s.replicas
    ensures a.Submits? ==> a.k in s.submissions
    ensures a.Lapse? ==> Do(s, a).value == s.Forget(a.key)
    ensures a.Begin? || a.Deliver? || a.Expire? ==>
              var t := Do(s, a).value; t.store == s.store && t.log == s.log && t.lapsed == s.lapsed
  {
    hide NormalizeUPN, Apply, Submit.Submission.Follow, Submit.Submission.UPN, WorkerSteps.Job.Step;
  }

  /** The messages stay where they are, a new one is accepted, or one moves out of the queue. */
  ghost predicate Moves(s: State, t: State) {
    || (t.accepted == s.accepted && t.queue == s.queue && t.completed == s.completed && t.expired == s.expired)
    || (exists id :: id !in s.accepted && t.accepted.Keys == s.accepted.Keys + {id} && t.queue == s.queue + {id}
                     && t.completed == s.completed && t.expired == s.expired)
    || (exists id :: id in s.queue && t.accepted == s.accepted && t.queue == s.queue - {id}
                     && t.completed == s.completed + {id} && t.expired == s.expired)
    || (exists id :: id in s.queue && t.accepted == s.accepted && t.queue == s.queue - {id}
                     && t.completed == s.completed && t.expired == s.expired + {id})
  }

  lemma WorkMoves(s: State, id: Id, e: WorkerSteps.Event, applied: bool, clock: Instant)
    requires WorkEffect(s, id, e, applied, clock).Some?
    ensures Moves(s, WorkEffect(s, id, e, applied, clock).value)
  {
    hide NormalizeUPN, Apply;
  }

  lemma SubmitMoves(s: State, upn: string, e: Submit.Event, applied: bool, id: Id, clock: Instant)
    requires SubmitEffect(s, upn, e, applied, id, clock).Some?
    ensures Moves(s, SubmitEffect(s, upn, e, applied, id, clock).value)
  {
    hide NormalizeUPN, Apply;
  }

  lemma QueueMoves(s: State, a: Action, t: State)
    requires Do(s, a) == Some(t)
    ensures Moves(s, t)
  {
    hide Submit.Submission.Follow, Submit.Submission.UPN, WorkerSteps.Job.Step, WorkEffect, SubmitEffect;
    match a
    case Works(r, e, applied, clock) =>
      var w := s.replicas[r];
      WorkMoves(s.(replicas := s.replicas[r := w.(phase := w.job.Step(w.phase, e).value)]), w.id, e, applied, clock);
    case Submits(k, e, applied, id, clock) =>
      var b := s.submissions[k];
      SubmitMoves(s.(submissions := s.submissions[k := Submitting(b.sub, b.es + [e])]), b.sub.UPN(), e, applied, id,
        clock);
    case _ =>
  }

  lemma PartitionedKept(s: State, a: Action, t: State)
    requires Partitioned(s) && Do(s, a) == Some(t)
    ensures Partitioned(t)
  {
    hide Do;
    QueueMoves(s, a, t);
  }

  /** Only a worker's step adds successes, dead letters and completions, and only for the message it holds. */
  lemma WorkerAdds(s: State, a: Action, t: State)
    requires Do(s, a) == Some(t)
    ensures !a.Works? ==> t.successes == s.successes && t.deadLetters == s.deadLetters && t.completed == s.completed
    ensures !a.Works? ==> t.passwords == s.passwords
    ensures a.Works? ==>
              && (forall id :: id in t.passwords ==> id in s.passwords || id == s.replicas[a.r].id)
              && (forall id :: id in t.successes ==>
                  id in s.successes || (id == s.replicas[a.r].id && id in t.passwords))
              && (forall id, entry :: (id, entry) in t.deadLetters ==>
                  (id, entry) in s.deadLetters || id == s.replicas[a.r].id)
              && (forall id :: id in t.completed ==>
                  id in s.completed || (id == s.replicas[a.r].id && a.event.Complete?))
  {
    hide NormalizeUPN, Apply, Submit.Submission.Follow, Submit.Submission.UPN, WorkerSteps.Job.Step;
  }

  lemma JustifiedKept(s: State, a: Action, t: State)
    requires Inv(s) && Do(s, a) == Some(t)
    ensures Justified(t)
  {
    hide Do, Tracked, SubmittingOk, Partitioned;
    DoGrows(s, a, t);
    DoNames(s, a);
    WorkerAdds(s, a, t);
    forall id | id in t.completed && id !in t.successes ensures DeadLettered(t, id) {
      if a.Works? && a.event.Complete? && id == s.replicas[a.r].id && id !in s.completed {
        CompletesFrom(s, a);
      }
      var entry :| (id, entry) in s.deadLetters;
      assert (id, entry) in t.deadLetters;
    }
  }

  lemma CompletesFrom(s: State, a: Action)
    requires Do(s, a).Some? && a.Works? && a.event.Complete?
    ensures s.replicas[a.r].phase.Completing?
  {
    hide NormalizeUPN, Apply, WorkerSteps.Job.Step;
    WorkerSteps.StepInto(s.replicas[a.r].job, s.replicas[a.r].phase, a.event);
  }

  /** Every step keeps the invariant. */
  lemma {:induction false} InvKept(s: State, a: Action, t: State)
    requires Inv(s) && Do(s, a) == Some(t)
    ensures Inv(t)
  {
    hide Tracked, Partitioned, Justified, SubmittingOk, WorkingOk;
    DoGrows(s, a, t);
    PartitionedKept(s, a, t);
    JustifiedKept(s, a, t);
    TrackedKept(s, a, t);
    forall r | r in t.replicas ensures WorkingOk(t, t.replicas[r]) {
      ReplicaKept(s, a, t, r);
    }
    forall k | k in t.submissions ensures SubmittingOk(t, t.submissions[k]) {
      SubmissionKept(s, a, t, k);
    }
  }

  /** An action touches only the replica it names. */
  lemma ReplicaFrame(s: State, a: Action, t: State)
    requires Do(s, a) == Some(t)
    ensures forall r :: r in t.replicas && !((a.Works? || a.Deliver?) && a.r == r) ==>
              r in s.replicas && t.replicas[r] == s.replicas[r]
    ensures a.Deliver? ==>
              && a.id in s.accepted && (a.job.message.None? || a.job.message == Some(s.accepted[a.id]))
              && t.replicas[a.r] == Working(a.id, a.job, a.job.Start())
  {
    hide NormalizeUPN, Apply, Submit.Submission.Follow, Submit.Submission.UPN, WorkerSteps.Job.Step;
  }

  /** An action touches only the submission it names. */
  lemma SubmissionFrame(s: State, a: Action, t: State)
    requires Do(s, a) == Some(t)
    ensures forall k :: k in t.submissions && !((a.Submits? || a.Begin?) && a.k == k) ==>
                          k in s.submissions && t.submissions[k] == s.submissions[k]
    ensures a.Begin? ==> t.submissions[a.k] == Submitting(a.sub, [])
  {
    hide NormalizeUPN, Apply, Submit.Submission.Follow, Submit.Submission.UPN, WorkerSteps.Job.Step;
  }

  lemma ReplicaKept(s: State, a: Action, t: State, r: nat)
    requires Inv(s) && Do(s, a) == Some(t) && r in t.replicas
    ensures WorkingOk(t, t.replicas[r])
  {
    hide Do, Tracked, Conserved, SubmittingOk;
    DoGrows(s, a, t);
    DoNames(s, a);
    ReplicaFrame(s, a, t);
    if a.Works? && a.r == r {
      WorksOk(s, r, a.event, a.applied, a.clock, t);
    } else if !(a.Deliver? && a.r == r) {
      WorkingGrows(s, t, s.replicas[r]);
    }
  }

  lemma SubmissionKept(s: State, a: Action, t: State, k: nat)
    requires Inv(s) && Do(s, a) == Some(t) && k in t.submissions
    ensures SubmittingOk(t, t.submissions[k])
  {
    hide Do, Tracked, Conserved, WorkingOk, NormalizeUPN, TrimSpace, Submit.ClassifyCN, Submit.BuildUPN,
      Submit.Submission.Step;
    DoGrows(s, a, t);
    DoNames(s, a);
    SubmissionFrame(s, a, t);
    if a.Submits? && a.k == k {
      SubmitsOk(s, k, a.submitEvent, a.applied, a.id, a.clock, t);
    } else if !(a.Begin? && a.k == k) {
      SubmittingGrows(s, t, s.submissions[k]);
    }
  }

  /** The invariant holds in every reachable state. */
  lemma {:induction false} Reachable(actions: seq<Action>)
    requires Run(INIT, actions).Some?
    ensures Inv(Run(INIT, actions).value)
  {
    hide Do, Inv;
    if actions == [] {
      InitInv();
    } else {
      var init := actions[..|actions| - 1];
      Reachable(init);
      InvKept(Run(INIT, init).value, actions[|actions| - 1], Run(INIT, actions).value);
    }
  }

  lemma InitInv()
    ensures Inv(INIT)
  {
  }

  /**
    * In every run a stored record is backed: synced by an earlier processor success, pending by an accepted message
    * and failed by a written dead letter, each for a message with that normalized UPN and that enqueue time.
    */
  lemma {:induction false} RecordsAreBacked(actions: seq<Action>, key: string)
    requires Run(INIT, actions).Some? && key in Run(INIT, actions).value.store
    ensures var s := Run(INIT, actions).value;
            var r := s.store[key];
            && (r.status == Synced ==> WasProcessed(s, key, r.source))
            && (r.status == Pending ==> WasAccepted(s, key, r.source))
            && (r.status == Failed ==> WasDeadLettered(s, key, r.source))
            && r.status != Unsynced
  {
    hide Run, NormalizeUPN, WorkingOk, SubmittingOk, Conserved, WasProcessed, WasAccepted, WasDeadLettered;
    Reachable(actions);
    var s := Run(INIT, actions).value;
    assert Backed(s, Origin(key, s.store[key]));
  }

  /**
    * No silent loss: in every run each accepted message is in exactly one place, and one that a worker completed was
    * processed successfully or has a dead letter.
    */
  lemma {:induction false} NoSilentLoss(actions: seq<Action>, id: Id)
    requires Run(INIT, actions).Some? && id in Run(INIT, actions).value.accepted
    ensures var s := Run(INIT, actions).value;
            && id in s.queue + s.completed + s.expired
            && !(id in s.queue && id in s.completed) && !(id in s.queue && id in s.expired)
               && !(id in s.completed && id in s.expired)
            && (id in s.completed ==> id in s.successes || DeadLettered(s, id))
  {
    hide Run, NormalizeUPN, WorkingOk, SubmittingOk, Tracked, DeadLettered;
    Reachable(actions);
  }

  /**
    * In every run and for every key, what is stored is the first write with the greatest (source time, precedence)
    * since the key last expired, whatever the interleaving, and nothing if there is no write since then.
    */
  lemma {:induction false} LatestWriteWins(actions: seq<Action>, key: string)
    requires Run(INIT, actions).Some?
    ensures var s := Run(INIT, actions).value;
            && LastExpiry(s, key) <= |s.log|
            && var since := Since(s, key);
               && (key in s.store <==> exists i :: 0 <= i < |since| && since[i].key == key)
               && (key in s.store ==> exists i :: FirstMaximum(since, key, i) && Origin(key, s.store[key]) == since[i])
  {
    hide Run, NormalizeUPN, WorkingOk, SubmittingOk, Conserved, Backed, ApplyAll, Below;
    Reachable(actions);
    var s := Run(INIT, actions).value;
    assert Remembers(s, key);
    var since := Since(s, key);
    StoredIsFirstMaximum(since, key);
    if key in s.store {
      var i :| && FirstMaximum(since, key, i)
               && ApplyAll(map[], since)[key] == Record(since[i].status, since[i].now, since[i].source);
      assert Origin(key, s.store[key]) == since[i];
    }
  }

  ghost predicate Stores(s: State, key: string, status: Status, source: Instant) {
    key in s.store && s.store[key].status == status && s.store[key].source == source
  }

  /** An outcome is stored exactly if it was written since the key's last expiry and nothing since then outranks it. */
  lemma {:induction false} StoredExactly(actions: seq<Action>, key: string, status: Status, source: Instant)
    requires Run(INIT, actions).Some?
    ensures var s := Run(INIT, actions).value;
            && LastExpiry(s, key) <= |s.log|
            && (Stores(s, key, status, source) <==>
                Written(Since(s, key), key, status, source) && Unsurpassed(Since(s, key), key, status, source))
  {
    hide Run, NormalizeUPN, WorkingOk, SubmittingOk, Conserved, Backed, ApplyAll, Written, Unsurpassed;
    Reachable(actions);
    var s := Run(INIT, actions).value;
    assert Remembers(s, key);
    OutcomeExactly(Since(s, key), key, status, source);
  }

  /**
    * The exact condition of the race: the pending record of a message that was marked synced is back if and only if the
    * key expired after the mark, the pending write came after that, and so did no outcome of the message or later
    * write.
    */
  lemma {:induction false} PendingBackExactly(actions: seq<Action>, i: nat)
    requires Run(INIT, actions).Some?
    requires i < |Run(INIT, actions).value.log| && Run(INIT, actions).value.log[i].status == Synced
    ensures var s := Run(INIT, actions).value;
            var w := s.log[i];
            Stores(s, w.key, Pending, w.source) <==>
            && i < LastExpiry(s, w.key) <= |s.log|
            && Written(Since(s, w.key), w.key, Pending, w.source)
               && Unsurpassed(Since(s, w.key), w.key, Pending, w.source)
  {
    hide Run, Written;
    var s := Run(INIT, actions).value;
    var w := s.log[i];
    StoredExactly(actions, w.key, Pending, w.source);
    if LastExpiry(s, w.key) <= i {
      assert Since(s, w.key)[i - LastExpiry(s, w.key)] == w;
    }
  }

  /**
    * From any state on, a record whose key does not expire is never lowered. In particular, once a message is recorded
    * as synced, the submitter's late pending write and any replay of the message leave it synced.
    */
  lemma {:induction false} NeverDowngraded(s: State, actions: seq<Action>, key: string)
    requires Run(s, actions).Some? && Lapse(key) !in actions && key in s.store
    ensures var t := Run(s, actions).value;
            && key in t.store
            && (t.store[key] == s.store[key]
                || Below(s.store[key].source, s.store[key].status, t.store[key].source, t.store[key].status))
            && (s.store[key].status == Synced && t.store[key].source == s.store[key].source ==>
                t.store[key] == s.store[key])
  {
    hide Do;
    if actions != [] {
      var init, last := actions[..|actions| - 1], actions[|actions| - 1];
      NeverDowngraded(s, init, key);
      DoNeverLowers(Run(s, init).value, last, key);
    }
  }

  lemma DoNeverLowers(s: State, a: Action, key: string)
    requires Do(s, a).Some? && a != Lapse(key) && key in s.store
    ensures var t := Do(s, a).value;
            && key in t.store
            && (t.store[key] == s.store[key]
                || Below(s.store[key].source, s.store[key].status, t.store[key].source, t.store[key].status))
  {
    hide NormalizeUPN, Submit.Submission.Follow, Submit.Submission.UPN, WorkerSteps.Job.Step;
  }

  /** A login_bootstrap skipped as already synced: a message for the UPN was processed successfully. */
  lemma {:induction false} AlreadySyncedIsJustified(actions: seq<Action>, k: nat)
    requires Run(INIT, actions).Some? && k in Run(INIT, actions).value.submissions
    requires var b := Run(INIT, actions).value.submissions[k];
             b.sub.Follow(b.es) == Some(Submit.Ended(Submit.Skipped(Submit.AlreadySynced)))
    ensures var s := Run(INIT, actions).value;
            exists source :: WasProcessed(s, NormalizeUPN(s.submissions[k].sub.UPN()), source)
  {
    hide Run, NormalizeUPN, WorkingOk, Conserved, WasProcessed, WasAccepted, WasDeadLettered,
         Submit.Submission.Follow, Submit.Submission.UPN, Submit.Submission.Admitted;
    Reachable(actions);
    var s := Run(INIT, actions).value;
    var b := s.submissions[k];
    Submit.SkippedExactly(b.sub, b.es);
    assert SubmittingOk(s, b);
    assert Origin(NormalizeUPN(b.sub.UPN()), b.es[0].record.value) in s.log;
  }

  /**
    * A login_bootstrap skipped as pending: a message for the UPN was accepted by the queue, and its pending write took
    * effect at a time that is not after the submitter's clock reading and less than the TTL before it.
    */
  lemma {:induction false} SyncPendingIsJustified(actions: seq<Action>, k: nat)
    requires Run(INIT, actions).Some? && k in Run(INIT, actions).value.submissions
    requires var b := Run(INIT, actions).value.submissions[k];
             b.sub.Follow(b.es) == Some(Submit.Ended(Submit.Skipped(Submit.SyncPending)))
    ensures var s := Run(INIT, actions).value;
            var b := s.submissions[k];
            exists w :: w in s.log && w.key == NormalizeUPN(b.sub.UPN()) && w.status == Pending
              && WasAccepted(s, w.key, w.source)
                        && |b.es| == 2 && b.es[1].Clock? && w.now <= b.es[1].now < w.now + b.sub.pendingTTL
  {
    hide Run, NormalizeUPN, WorkingOk, Conserved, WasProcessed, WasAccepted, WasDeadLettered,
         Submit.Submission.Follow, Submit.Submission.UPN, Submit.Submission.Admitted;
    Reachable(actions);
    var s := Run(INIT, actions).value;
    var b := s.submissions[k];
    Submit.SkippedExactly(b.sub, b.es);
    assert SubmittingOk(s, b);
    assert Origin(NormalizeUPN(b.sub.UPN()), b.es[0].record.value) in s.log;
  }
}
