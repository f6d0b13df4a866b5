/**
  * The protocol over the Redis store: the same parties, but status reads and writes go through the hashes, the string
  * guard and the server's clock. Every such run is a run of the protocol in which exactly the expired keys lapse.
  */
module RedisProtocol {
  import opened Prelude
  import opened SyncStatus
  import opened Calendar
  import opened SyncProtocol
  import RedisStatus
  import SyncRuns
  import Submit
  import WorkerSteps

  /** Everything but the store, whose place in the state is not looked at, and the Redis hashes. */
  datatype System = System(rest: State, hashes: RedisStatus.Hashes)

  datatype Ttls = Ttls(pending: int, terminal: int)

  /** A step and the reading of the server's clock at it. */
  datatype Step = Step(action: Action, serverNow: Instant)

  /** What Get answers for each key it finds. */
  function Seen(live: RedisStatus.Hashes): Records {
    map k | k in live && RedisStatus.Read(live, k).Ok? :: RedisStatus.Read(live, k).value
  }

  function Script(w: Write, ttls: Ttls, serverNow: Instant): RedisStatus.Transition {
    RedisStatus.MarkScript(w, RedisStatus.TtlFor(w.status, ttls.pending, ttls.terminal), serverNow)
  }

  /** One step: the party sees the live hashes, and a status write that takes effect runs the transition script. */
  function RedisDo(c: System, ttls: Ttls, step: Step): Option<System> {
    var live := RedisStatus.Live(c.hashes, step.serverNow);
    var t := Do(c.rest.(store := Seen(live)), step.action);
    if step.action.Lapse? || t.None? then None
    else
      var log := t.value.log;
      Some(System(t.value, if |log| <= |c.rest.log| then live
                           else Script(log[|log| - 1], ttls, step.serverNow).Run(c.hashes)))
  }

  function RedisRun(c: System, ttls: Ttls, steps: seq<Step>): Option<System> {
    if steps == [] then Some(c)
    else
      var d := RedisRun(c, ttls, steps[..|steps| - 1]);
      if d.None? then None else RedisDo(d.value, ttls, steps[|steps| - 1])
  }

  const REDIS_INIT := System(INIT, map[])

  /** The states differ at most in the store and in when keys lapsed. */
  ghost predicate Same(s: State, rest: State) {
    rest == s.(store := rest.store, lapsed := rest.lapsed)
  }

  ghost predicate Refines(s: State, c: System) {
    Same(s, c.rest) && RedisStatus.Represents(c.hashes, s.store)
  }

  /** The times of the status writes are of years 0-9999. */
  ghost predicate InRange(log: seq<Write>) {
    forall i :: 0 <= i < |log| ==> FourDigitYear(log[i].now) && FourDigitYear(log[i].source)
  }

  // ---------------------------------------------------------------------------
  // Lapses
  // ---------------------------------------------------------------------------

  /** Any set of records can lapse, one after the other, and nothing else changes. */
  lemma {:induction false} LapseAll(s: State, before: seq<Action>, keys: set<string>)
    returns (actions: seq<Action>, t: State)
    requires Run(INIT, before) == Some(s)
    ensures Run(INIT, actions) == Some(t) && t == s.(store := s.store - keys, lapsed := t.lapsed)
    ensures |before| <= |actions| && actions[..|before|] == before
    ensures forall i :: |before| <= i < |actions| ==> actions[i].Lapse? && actions[i].key in keys
    decreases keys
  {
    hide Run, Do;
    if keys == {} {
      actions, t := before, s;
      assert s.store - keys == s.store;
    } else {
      var key :| key in keys;
      var first, u := LapseAll(s, before, keys - {key});
      SyncRuns.RunOneMore(INIT, first, Lapse(key));
      LapseForgets(u, key);
      actions := first + [Lapse(key)];
      t := u.Forget(key);
      assert u.store - {key} == s.store - keys;
    }
  }

  lemma LapseForgets(s: State, key: string)
    ensures Do(s, Lapse(key)) == Some(s.Forget(key))
  {
  }

  lemma WorkIgnoresLapses(s: State, lapsed: map<string, nat>, id: Id, e: WorkerSteps.Event, applied: bool,
                          clock: Instant)
    ensures var t := WorkEffect(s, id, e, applied, clock);
            WorkEffect(s.(lapsed := lapsed), id, e, applied, clock) ==
            if t.None? then None else Some(t.value.(lapsed := lapsed))
  {
    hide NormalizeUPN, Apply;
  }

  lemma SubmitIgnoresLapses(s: State, lapsed: map<string, nat>, upn: string, e: Submit.Event, applied: bool, id: Id,
                            clock: Instant)
    ensures var t := SubmitEffect(s, upn, e, applied, id, clock);
            SubmitEffect(s.(lapsed := lapsed), upn, e, applied, id, clock) ==
            if t.None? then None else Some(t.value.(lapsed := lapsed))
  {
    hide NormalizeUPN, Apply;
  }

  /** When keys lapsed is history only: no party's step depends on it. */
  lemma DoIgnoresLapses(s: State, lapsed: map<string, nat>, a: Action)
    requires !a.Lapse?
    ensures Do(s.(lapsed := lapsed), a) == if Do(s, a).None? then None else Some(Do(s, a).value.(lapsed := lapsed))
  {
    hide Submit.Submission.Follow, Submit.Submission.UPN, WorkerSteps.Job.Step, WorkEffect, SubmitEffect;
    if a.Works? && a.r in s.replicas {
      var w := s.replicas[a.r];
      var p := w.job.Step(w.phase, a.event);
      if p.Some? {
        WorkIgnoresLapses(s.(replicas := s.replicas[a.r := w.(phase := p.value)]), lapsed, w.id, a.event, a.applied,
          a.clock);
      }
    } else if a.Submits? && a.k in s.submissions {
      var b := s.submissions[a.k];
      SubmitIgnoresLapses(s.(submissions := s.submissions[a.k := Submitting(b.sub, b.es + [a.submitEvent])]), lapsed,
        b.sub.UPN(), a.submitEvent, a.applied, a.id, a.clock);
    }
  }

  // ---------------------------------------------------------------------------
  // Writes
  // ---------------------------------------------------------------------------

  /** A step leaves store and log alone, or is one status write with an outcome. */
  ghost predicate WritesOnce(s: State, t: State) {
    || (t.log == s.log && t.store == s.store)
    || exists w: Write :: w.status != Unsynced && t.log == s.log + [w] && t.store == Apply(s.store, w)
  }

  lemma WorkWritesOnce(s: State, id: Id, e: WorkerSteps.Event, applied: bool, clock: Instant)
    requires WorkEffect(s, id, e, applied, clock).Some? && (e.MarkStatus? ==> e.status != Unsynced)
    ensures WritesOnce(s, WorkEffect(s, id, e, applied, clock).value)
  {
    hide NormalizeUPN, Apply;
    if e.MarkStatus? && (e.ok || applied) {
      var w := Write(NormalizeUPN(e.upn), e.status, e.source, clock);
      assert WorkEffect(s, id, e, applied, clock).value == s.Mark(w);
    }
  }

  lemma SubmitWritesOnce(s: State, upn: string, e: Submit.Event, applied: bool, id: Id, clock: Instant)
    requires SubmitEffect(s, upn, e, applied, id, clock).Some?
    ensures WritesOnce(s, SubmitEffect(s, upn, e, applied, id, clock).value)
  {
    hide NormalizeUPN, Apply;
    if e.MarkPending? && (e.ok || applied) {
      var w := Write(NormalizeUPN(e.upn), Pending, e.source, clock);
      assert SubmitEffect(s, upn, e, applied, id, clock).value == s.Mark(w);
    }
  }

  lemma {:induction false} DoWritesOnce(s: State, a: Action, t: State)
    requires Do(s, a) == Some(t) && !a.Lapse?
    ensures WritesOnce(s, t)
  {
    hide Submit.Submission.Follow, Submit.Submission.UPN, WorkerSteps.Job.Step, WorkEffect, SubmitEffect, Apply;
    match a
    case Works(r, e, applied, clock) =>
      var w := s.replicas[r];
      WorkerSteps.StepInto(w.job, w.phase, e);
      WorkWritesOnce(s.(replicas := s.replicas[r := w.(phase := w.job.Step(w.phase, e).value)]), w.id, e, applied,
        clock);
    case Submits(k, e, applied, id, clock) =>
      var b := s.submissions[k];
      SubmitWritesOnce(s.(submissions := s.submissions[k := Submitting(b.sub, b.es + [e])]), b.sub.UPN(), e, applied,
        id,
        clock);
    case _ =>
  }

  lemma RangeShrinks(s: State, t: State)
    requires WritesOnce(s, t) && InRange(t.log)
    ensures InRange(s.log)
  {
    hide Apply, FourDigitYear;
    assert |s.log| <= |t.log| && forall i :: 0 <= i < |s.log| ==> t.log[i] == s.log[i];
  }

  // ---------------------------------------------------------------------------
  // Refinement
  // ---------------------------------------------------------------------------

  /** Once the expired records have lapsed, a party sees exactly the records of the abstract store. */
  lemma {:induction false} SeesTheStore(h: RedisStatus.Hashes, rs: Records, serverNow: Instant)
    requires RedisStatus.Represents(h, rs)
    ensures var live := RedisStatus.Live(h, serverNow);
            var kept := rs - (rs.Keys - live.Keys);
            && RedisStatus.Represents(live, kept) && Seen(live) == kept
               && kept == RedisStatus.Unexpired(h, rs, serverNow)
  {
    hide RedisStatus.Read, RedisStatus.Denotes;
    var live := RedisStatus.Live(h, serverNow);
    var kept := rs - (rs.Keys - live.Keys);
    assert RedisStatus.Represents(live, kept);
    forall k | k in live ensures RedisStatus.Read(live, k) == Ok(kept[k]) {
      RedisStatus.ReadsBack(live, kept, k);
    }
  }

  /**
    * One step over Redis is the lapse of exactly the keys that have expired, followed by the same step of the protocol.
    */
  lemma {:induction false} StepRefines(s: State, before: seq<Action>, c: System, ttls: Ttls, step: Step)
    returns (actions: seq<Action>, t: State)
    requires Run(INIT, before) == Some(s) && Refines(s, c)
    requires RedisDo(c, ttls, step).Some? && InRange(RedisDo(c, ttls, step).value.rest.log)
    ensures Run(INIT, actions) == Some(t) && Refines(t, RedisDo(c, ttls, step).value)
    ensures |before| < |actions| && actions[..|before|] == before && actions[|actions| - 1] == step.action
    ensures forall i :: |before| <= i < |actions| - 1 ==>
                          actions[i].Lapse? && actions[i].key in s.store
                            && actions[i].key !in RedisStatus.Live(c.hashes, step.serverNow)
  {
    hide Run, Do, Apply, RedisStatus.Live, RedisStatus.Unexpired, RedisStatus.Represents, Seen, FourDigitYear;
    var live, d := RedisStatus.Live(c.hashes, step.serverNow), RedisDo(c, ttls, step).value;
    SeesTheStore(c.hashes, s.store, step.serverNow);
    var lapses, u := LapseAll(s, before, s.store.Keys - live.Keys);
    var seen := c.rest.(store := Seen(live));
    assert seen == u.(lapsed := c.rest.lapsed) && u == seen.(lapsed := u.lapsed);
    DoIgnoresLapses(seen, u.lapsed, step.action);
    SyncRuns.RunOneMore(INIT, lapses, step.action);
    actions := lapses + [step.action];
    t := d.rest.(lapsed := u.lapsed);
    DoWritesOnce(seen, step.action, d.rest);
    ScriptMatches(s, c, ttls, step);
  }

  /** After the step the hashes stand for the store of the protocol. */
  lemma ScriptMatches(s: State, c: System, ttls: Ttls, step: Step)
    requires RedisStatus.Represents(c.hashes, s.store)
    requires RedisDo(c, ttls, step).Some? && InRange(RedisDo(c, ttls, step).value.rest.log)
    requires Seen(RedisStatus.Live(c.hashes, step.serverNow)) ==
             RedisStatus.Unexpired(c.hashes, s.store, step.serverNow)
    requires RedisStatus.Represents(RedisStatus.Live(c.hashes, step.serverNow),
                                    RedisStatus.Unexpired(c.hashes, s.store, step.serverNow))
    requires WritesOnce(c.rest.(store := Seen(RedisStatus.Live(c.hashes, step.serverNow))),
             RedisDo(c, ttls, step).value.rest)
    ensures RedisStatus.Represents(RedisDo(c, ttls, step).value.hashes, RedisDo(c, ttls, step).value.rest.store)
  {
    hide Do, Apply, RedisStatus.Live, RedisStatus.Unexpired, RedisStatus.Represents, RedisStatus.Encodes, Seen,
      FourDigitYear,
      RedisStatus.MarkScript, RedisStatus.Transition.Run;
    var d := RedisDo(c, ttls, step).value;
    if d.rest.log != c.rest.log {
      var w: Write :| && w.status != Unsynced && d.rest.log == c.rest.log + [w]
               && d.rest.store == Apply(Seen(RedisStatus.Live(c.hashes, step.serverNow)), w);
      assert d.rest.log[|d.rest.log| - 1] == w;
      RedisStatus.MarkScriptEncodes(w, RedisStatus.TtlFor(w.status, ttls.pending, ttls.terminal), step.serverNow);
      ScriptTime(w, ttls, step.serverNow);
      RedisStatus.ScriptRefinesApply(c.hashes, s.store, Script(w, ttls, step.serverNow), w);
    }
  }

  lemma ScriptTime(w: Write, ttls: Ttls, serverNow: Instant)
    ensures Script(w, ttls, serverNow).serverNow == serverNow
  {
  }

  /**
    * Every run over Redis whose status writes are of years 0-9999 is a run of the protocol with lapses, in a state that
    * differs at most in how the store is represented. So what holds in every run of the protocol holds over Redis.
    */
  lemma {:induction false} RedisRefinesProtocol(ttls: Ttls, steps: seq<Step>) returns (actions: seq<Action>, s: State)
    requires RedisRun(REDIS_INIT, ttls, steps).Some? && InRange(RedisRun(REDIS_INIT, ttls, steps).value.rest.log)
    ensures Run(INIT, actions) == Some(s) && Refines(s, RedisRun(REDIS_INIT, ttls, steps).value)
  {
    hide RedisDo, Run;
    if steps == [] {
      actions, s := [], INIT;
      assert Run(INIT, []) == Some(INIT) by { RunsNothing(); }
    } else {
      var init, last := steps[..|steps| - 1], steps[|steps| - 1];
      var c := RedisRun(REDIS_INIT, ttls, init).value;
      LogGrows(c, ttls, last);
      actions, s := RedisRefinesProtocol(ttls, init);
      actions, s := StepRefines(s, actions, c, ttls, last);
    }
  }

  lemma RunsNothing()
    ensures Run(INIT, []) == Some(INIT)
  {
  }

  lemma LogGrows(c: System, ttls: Ttls, step: Step)
    requires RedisDo(c, ttls, step).Some? && InRange(RedisDo(c, ttls, step).value.rest.log)
    ensures InRange(c.rest.log)
  {
    hide Do, Seen, InRange, WritesOnce, Script, RedisStatus.Live;
    var seen := c.rest.(store := Seen(RedisStatus.Live(c.hashes, step.serverNow)));
    DoWritesOnce(seen, step.action, RedisDo(c, ttls, step).value.rest);
    RangeShrinks(seen, RedisDo(c, ttls, step).value.rest);
  }

  lemma {:induction false} StoredIsBacked(actions: seq<Action>, s: State, rest: State, key: string)
    requires Run(INIT, actions) == Some(s) && Same(s, rest) && key in s.store
    ensures Backed(rest, Origin(key, s.store[key]))
  {
    hide Run, Backed, WorkingOk, SubmittingOk, Conserved, Remembers;
    Reachable(actions);
    assert Origin(key, s.store[key]) in s.log;
    BackedGrows(s, rest, Origin(key, s.store[key]));
  }

  /** What Get answers in any run over Redis is backed, as in the protocol. */
  lemma {:induction false} RedisRecordsAreBacked(ttls: Ttls, steps: seq<Step>, key: string, serverNow: Instant)
    requires RedisRun(REDIS_INIT, ttls, steps).Some? && InRange(RedisRun(REDIS_INIT, ttls, steps).value.rest.log)
    ensures var c := RedisRun(REDIS_INIT, ttls, steps).value;
            var answer := RedisStatus.Read(RedisStatus.Live(c.hashes, serverNow), key);
            && answer.Ok? && (answer.value == NO_RECORD || Backed(c.rest, Origin(key, answer.value)))
  {
    hide RedisRun, Run, RedisStatus.Read, RedisStatus.Live, RedisStatus.Represents, RedisStatus.Unexpired, Backed, Same,
      InRange,
      Seen;
    var c := RedisRun(REDIS_INIT, ttls, steps).value;
    var actions, s := RedisRefinesProtocol(ttls, steps);
    SeesTheStore(c.hashes, s.store, serverNow);
    var live := RedisStatus.Live(c.hashes, serverNow);
    var kept := s.store - (s.store.Keys - live.Keys);
    RedisStatus.ReadsBack(live, kept, key);
    if key in kept {
      StoredIsBacked(actions, s, c.rest, key);
    }
  }
}
