/**
  * Which password the directory holds. The status store orders outcomes by enqueue time, but nothing orders the
  * processor calls of different replicas, so the last password written may be an older one than the record names.
  */
module Directory {
  import opened Prelude
  import opened SyncStatus
  import opened SyncProtocol
  import SyncRuns
  import Submit
  import WorkerSteps

  /** Password i that the directory took was that of a message of the key. */
  predicate ForKey(s: State, key: string, i: int) {
    0 <= i < |s.passwords| && s.passwords[i] in s.accepted && NormalizeUPN(s.accepted[s.passwords[i]].upn) == key
  }

  /** The enqueue time of that message. */
  function SourceAt(s: State, i: int): Instant
    requires 0 <= i < |s.passwords| && s.passwords[i] in s.accepted
  {
    s.accepted[s.passwords[i]].enqueuedAt
  }

  /** The enqueue time of the last message whose password was taken for the key, among the first n. */
  function HeldAfter(s: State, n: nat, key: string): Option<Instant>
    requires n <= |s.passwords|
  {
    if n == 0 then None
    else if ForKey(s, key, n - 1) then Some(SourceAt(s, n - 1))
    else HeldAfter(s, n - 1, key)
  }

  lemma {:induction false} HeldIsLast(s: State, n: nat, key: string)
    requires n <= |s.passwords|
    ensures HeldAfter(s, n, key).None? <==> forall i :: 0 <= i < n ==> !ForKey(s, key, i)
    ensures HeldAfter(s, n, key).Some? ==>
              exists i :: && 0 <= i < n && ForKey(s, key, i) && SourceAt(s, i) == HeldAfter(s, n, key).value
                          && forall j :: i < j < n ==> !ForKey(s, key, j)
  {
    hide NormalizeUPN;
    if n > 0 && !ForKey(s, key, n - 1) {
      HeldIsLast(s, n - 1, key);
    }
  }

  /** What the directory holds for the key. */
  function Held(s: State, key: string): Option<Instant> { HeldAfter(s, |s.passwords|, key) }

  /** The password of the newer message was taken before that of the older. */
  ghost predicate OutOfOrder(s: State, key: string, older: Instant, newer: Instant) {
    exists i, j :: i < j && ForKey(s, key, i) && ForKey(s, key, j) && SourceAt(s, i) == newer && SourceAt(s, j) == older
  }

  lemma {:induction false} ProcessedWasTaken(s: State, key: string, source: Instant) returns (i: int)
    requires WasProcessed(s, key, source) && Justified(s)
    ensures ForKey(s, key, i) && SourceAt(s, i) == source
  {
    hide NormalizeUPN;
    var id :| id in s.accepted && id in s.successes && Matches(s.accepted[id], key, source);
    i :| 0 <= i < |s.passwords| && s.passwords[i] == id;
  }

  /**
    * In every run the directory holds something for a key whose record is synced. If it is not the password the record
    * names, either an older one was taken after it, or the synced mark of a newer one has not taken effect since the
    * key's last expiry.
    */
  lemma {:induction false} DisagreementIsOneOfTwo(actions: seq<Action>, key: string, source: Instant)
    requires Run(INIT, actions).Some? && Stores(Run(INIT, actions).value, key, Synced, source)
    ensures var s := Run(INIT, actions).value;
            && LastExpiry(s, key) <= |s.log| && Held(s, key).Some?
            && (Held(s, key).value < source ==> OutOfOrder(s, key, Held(s, key).value, source))
            && (Held(s, key).value > source ==> !Written(Since(s, key), key, Synced, Held(s, key).value))
  {
    hide Run, NormalizeUPN, WasProcessed, HeldAfter;
    RecordsAreBacked(actions, key);
    StoredExactly(actions, key, Synced, source);
    var s := Run(INIT, actions).value;
    assert Justified(s) by { Reachable(actions); }
    var n := |s.passwords|;
    HeldIsLast(s, n, key);
    var a := ProcessedWasTaken(s, key, source);
    var last :| && 0 <= last < n && ForKey(s, key, last) && SourceAt(s, last) == Held(s, key).value
                && forall j :: last < j < n ==> !ForKey(s, key, j);
    if Held(s, key).value < source {
      assert a < last;
    }
  }

  /** If passwords are taken in enqueue order and all their marks took effect since the last expiry, the two agree. */
  lemma {:induction false} AgreesInOrder(actions: seq<Action>, key: string, source: Instant)
    requires Run(INIT, actions).Some? && Stores(Run(INIT, actions).value, key, Synced, source)
    requires var s := Run(INIT, actions).value;
             forall i, j :: i < j && ForKey(s, key, i) && ForKey(s, key, j) ==> SourceAt(s, i) <= SourceAt(s, j)
    requires var s := Run(INIT, actions).value;
             LastExpiry(s, key) <= |s.log| && forall i :: ForKey(s, key, i) ==>
                 Written(Since(s, key), key, Synced, SourceAt(s, i))
    ensures Held(Run(INIT, actions).value, key) == Some(source)
  {
    hide Run, NormalizeUPN, Written;
    DisagreementIsOneOfTwo(actions, key, source);
    HeldIsLast(Run(INIT, actions).value, |Run(INIT, actions).value.passwords|, key);
  }

  /** A run in which the record names the newer message while the directory holds the password of the older. */
  lemma {:induction false} OlderPasswordWins(older: Submit.Submission, newer: Submit.Submission, t: Instant, u: Instant)
    returns (actions: seq<Action>)
    requires older.Start() == Submit.Stamping && older.hasStore && newer.Start() == Submit.Stamping && newer.hasStore
    requires NormalizeUPN(older.UPN()) == NormalizeUPN(newer.UPN()) && t < u
    ensures Run(INIT, actions).Some?
    ensures var s := Run(INIT, actions).value;
            var key := NormalizeUPN(older.UPN());
            s.queue == {} && Stores(s, key, Synced, u) && Held(s, key) == Some(t)
  {
    hide NormalizeUPN, TrimSpace, Submit.Submission.Start, Submit.Submission.UPN, Submit.Submission.Follow, Run;
    SyncRuns.Beginnings(older);
    var es, w;
    actions, es := SyncRuns.SubmitsUpToMark([], 0, 0, older, t);
    actions, es := SyncRuns.SubmitsUpToMark(actions, 1, 1, newer, u);
    actions, w := SyncRuns.WorkerSyncs(INIT, actions, 1, u);
    actions, w := SyncRuns.WorkerSyncs(INIT, actions, 0, u);
    var s := Run(INIT, actions).value;
    assert s.passwords == [1, 0];
    assert ForKey(s, NormalizeUPN(older.UPN()), 1);
  }

  // ---------------------------------------------------------------------------
  // Which steps keep the record and the directory in agreement
  // ---------------------------------------------------------------------------

  /** The step is a processor call by a replica holding a message of the key, and the directory takes its password. */
  predicate Takes(s: State, a: Action, key: string) {
    && a.Works? && a.r in s.replicas && a.event.Process? && (a.event.verdict.Success? || a.applied)
    && s.replicas[a.r].id in s.accepted && NormalizeUPN(s.accepted[s.replicas[a.r].id].upn) == key
  }

  function TakenSource(s: State, a: Action, key: string): Instant
    requires Takes(s, a, key)
  {
    s.accepted[s.replicas[a.r].id].enqueuedAt
  }

  /** The step is a synced mark for the key that takes effect against the record of the moment. */
  predicate MarksSynced(s: State, a: Action, key: string) {
    && a.Works? && a.event.MarkStatus? && a.event.status == Synced && (a.event.ok || a.applied)
    && NormalizeUPN(a.event.upn) == key
    && (key in s.store ==> Below(s.store[key].source, s.store[key].status, a.event.source, Synced))
  }

  lemma {:induction false} HeldStays(s: State, t: State, n: nat, key: string)
    requires Grows(s, t) && Justified(s) && n <= |s.passwords|
    ensures n <= |t.passwords| && HeldAfter(t, n, key) == HeldAfter(s, n, key)
  {
    hide NormalizeUPN;
    if n > 0 {
      HeldStays(s, t, n - 1, key);
      assert s.passwords[n - 1] in s.passwords && t.passwords[n - 1] == s.passwords[n - 1];
    }
  }

  lemma PasswordsAfter(s: State, a: Action, t: State)
    requires Do(s, a) == Some(t)
    ensures t.passwords ==
            s.passwords + if a.Works? && a.event.Process? && (a.event.verdict.Success? || a.applied)
              then [s.replicas[a.r].id] else []
  {
    hide NormalizeUPN, Apply, Submit.Submission.Follow, Submit.Submission.UPN, WorkerSteps.Job.Step;
  }

  /** What the directory holds for the key changes exactly with the steps that take a password of the key. */
  lemma {:induction false} HeldAfterStep(s: State, a: Action, t: State, key: string)
    requires Inv(s) && Do(s, a) == Some(t)
    ensures Held(t, key) == if Takes(s, a, key) then Some(TakenSource(s, a, key)) else Held(s, key)
  {
    hide Do, NormalizeUPN, Tracked, SubmittingOk, Partitioned;
    DoGrows(s, a, t);
    DoNames(s, a);
    PasswordsAfter(s, a, t);
    HeldStays(s, t, |s.passwords|, key);
    if a.Works? {
      assert WorkingOk(s, s.replicas[a.r]);
    }
  }

  /** A synced record after a step was there before it or is what the step marked. */
  lemma RecordAfterStep(s: State, a: Action, t: State, key: string, source: Instant)
    requires Inv(s) && Do(s, a) == Some(t) && Stores(t, key, Synced, source)
    ensures if MarksSynced(s, a, key) then source == a.event.source else Stores(s, key, Synced, source)
  {
    hide NormalizeUPN, Tracked, Conserved, SubmittingOk, WorkingOk, Submit.Submission.Follow, Submit.Submission.UPN,
      WorkerSteps.Job.Step;
  }

  /**
    * Exactly when a synced record and the directory agree after a step, in every run, in terms of the state before it.
    * A processor call leaves them in agreement if and only if the message it was for is the one the record names. A
    * synced mark that takes effect does if and only if the directory holds the password it is for. Every other step
    * leaves agreement and disagreement as they are.
    */
  lemma {:induction false} AgreesExactly(actions: seq<Action>, a: Action, t: State, key: string, source: Instant)
    requires Run(INIT, actions).Some? && Do(Run(INIT, actions).value, a) == Some(t) && Stores(t, key, Synced, source)
    ensures var s := Run(INIT, actions).value;
            Held(t, key) == Some(source) <==>
            if Takes(s, a, key) then key in s.store && TakenSource(s, a, key) == s.store[key].source
            else if MarksSynced(s, a, key) then Held(s, key) == Some(a.event.source)
            else key in s.store && Held(s, key) == Some(s.store[key].source)
  {
    hide Run, Do, Inv, NormalizeUPN, HeldAfter;
    Reachable(actions);
    var s := Run(INIT, actions).value;
    HeldAfterStep(s, a, t, key);
    RecordAfterStep(s, a, t, key, source);
  }

  /** The step leaves a synced record and the directory in disagreement by itself. */
  ghost predicate Disturbs(s: State, a: Action, key: string) {
    || (Takes(s, a, key) && key in s.store && TakenSource(s, a, key) != s.store[key].source)
    || (MarksSynced(s, a, key) && Held(s, key) != Some(a.event.source))
  }

  /** Every disagreement in every run goes back to a step that disturbed the agreement. */
  lemma {:induction false} DisagreementHasCause(actions: seq<Action>, key: string, source: Instant) returns (n: nat)
    requires Run(INIT, actions).Some? && Stores(Run(INIT, actions).value, key, Synced, source)
    requires Held(Run(INIT, actions).value, key) != Some(source)
    ensures n < |actions| && Run(INIT, actions[..n]).Some? && Disturbs(Run(INIT, actions[..n]).value, actions[n], key)
  {
    hide Do, NormalizeUPN, HeldAfter, Takes, MarksSynced;
    assert actions != [] by { NothingStored(); }
    var init, last := actions[..|actions| - 1], actions[|actions| - 1];
    var s := Run(INIT, init).value;
    AgreesExactly(init, last, Run(INIT, actions).value, key, source);
    assert Inv(s) by { Reachable(init); }
    RecordAfterStep(s, last, Run(INIT, actions).value, key, source);
    TakeIsNoMark(s, last, key);
    if Disturbs(s, last, key) {
      n := |actions| - 1;
    } else {
      n := DisagreementHasCause(init, key, source);
      assert init[..n] == actions[..n] && init[n] == actions[n];
    }
  }

  lemma NothingStored()
    ensures Run(INIT, []) == Some(INIT) && INIT.store == map[]
  {
  }

  lemma TakeIsNoMark(s: State, a: Action, key: string)
    ensures !(Takes(s, a, key) && MarksSynced(s, a, key))
  {
  }
}
