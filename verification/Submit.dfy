/** The producer half of the protocol: Submit and its login_bootstrap deduplication (internal/migration/service.go). */
module Submit {
  import opened Prelude
  import opened SyncStatus
  import WorkerSteps

  /** The Unicode classes that unicode.IsLetter and unicode.IsDigit decide. */
  datatype Unicode = Unicode(letter: char -> bool, digit: char -> bool)

  datatype Identity = Unknown | StudentId | EmployeeId | ExternalEmail

  function ClassifyCN(u: Unicode, cn: string): Identity {
    var t := TrimSpace(cn);
    if t == "" then Unknown
    else if '@' in t then ExternalEmail
    else if forall i :: 0 <= i < |t| ==> u.digit(t[i]) then StudentId
    else if u.letter(t[0]) && forall i :: 0 <= i < |t| ==>
        t[i] == '-' || u.letter(t[i]) || u.digit(t[i]) then EmployeeId
    else Unknown
  }

  lemma AtStays(cn: string)
    ensures '@' in TrimSpace(cn) <==> '@' in cn
  {
    hide TrimSpace;
    var p, q := TrimSpaceParts(cn);
    assert '@' !in p && '@' !in q;
  }

  /**
    * An e-mail address is anything with an at sign. Of the rest, between white space, a student id is digits only, and
    * an employee id is letters, digits and hyphens, of which the first is a letter and not all are digits.
    */
  lemma {:induction false} ClassifiesExactly(u: Unicode, cn: string)
    ensures ClassifyCN(u, cn) == ExternalEmail <==> '@' in cn
    ensures ClassifyCN(u, cn) == StudentId <==>
            TrimSpace(cn) != "" && '@' !in cn && forall c :: c in TrimSpace(cn) ==> u.digit(c)
    ensures ClassifyCN(u, cn) == EmployeeId <==>
            && TrimSpace(cn) != "" && '@' !in cn && u.letter(TrimSpace(cn)[0])
            && (forall c :: c in TrimSpace(cn) ==> c == '-' || u.letter(c) || u.digit(c))
            && (exists c :: c in TrimSpace(cn) && !u.digit(c))
  {
    hide TrimSpace;
    AtStays(cn);
  }

  predicate Internal(identity: Identity) { identity.StudentId? || identity.EmployeeId? }

  /** The UPN of an internal identity, when a primary domain is configured; the CN is trimmed and classified again. */
  function BuildUPN(u: Unicode, cn: string, primaryDomain: string): Option<string> {
    var trimmed, domain := TrimSpace(cn), NormalizeUPN(primaryDomain);
    if trimmed == "" then None
    else if domain == "" then None
    else
      match ClassifyCN(u, trimmed)
      case StudentId | EmployeeId => Some(trimmed + "@" + domain)
      case ExternalEmail | Unknown => None
  }

  /** Classifying again changes nothing: there is a UPN exactly for the internal identities, given a domain. */
  lemma {:induction false} BuildUPNExactly(u: Unicode, cn: string, primaryDomain: string)
    ensures BuildUPN(u, cn, primaryDomain) ==
            if Internal(ClassifyCN(u, cn)) && NormalizeUPN(primaryDomain) != ""
            then Some(TrimSpace(cn) + "@" + NormalizeUPN(primaryDomain))
            else None
  {
    hide TrimSpace, NormalizeUPN, IsSpace;
    var t := TrimSpace(cn);
    assert [] + t + [] == t;
    TrimSpaceIs([], t, []);
  }

  lemma InternalHasNoAt(u: Unicode, cn: string)
    requires Internal(ClassifyCN(u, cn))
    ensures '@' !in TrimSpace(cn)
  {
  }

  lemma SplitAtAt(a: string, x: string, b: string, y: string)
    requires '@' !in a && '@' !in b && a + "@" + x == b + "@" + y
    ensures a == b && x == y
  {
    var (s, t) := (a + "@" + x, b + "@" + y);
    assert s[|a|] == '@' && t[|b|] == '@';
    assert forall i :: 0 <= i < |a| ==> s[i] == a[i] && a[i] in a;
    assert forall i :: 0 <= i < |b| ==> t[i] == b[i] && b[i] in b;
    assert |a| == |b|;
    assert a == s[..|a|] && b == t[..|b|] && x == s[|a| + 1..] && y == t[|b| + 1..];
  }

  /** The UPN of an internal identity tells which CN and which domain it was built from. */
  lemma {:induction false} UPNIdentifies(u: Unicode, cn: string, domain: string, cn': string, domain': string)
    requires Internal(ClassifyCN(u, cn)) && Internal(ClassifyCN(u, cn'))
    requires NormalizeUPN(domain) != "" && NormalizeUPN(domain') != ""
    ensures BuildUPN(u, cn, domain) == BuildUPN(u, cn', domain') <==>
            TrimSpace(cn) == TrimSpace(cn') && NormalizeUPN(domain) == NormalizeUPN(domain')
  {
    hide BuildUPN, ClassifyCN, Internal, TrimSpace, NormalizeUPN;
    BuildUPNExactly(u, cn, domain);
    BuildUPNExactly(u, cn', domain');
    InternalHasNoAt(u, cn);
    InternalHasNoAt(u, cn');
    if BuildUPN(u, cn, domain) == BuildUPN(u, cn', domain') {
      SplitAtAt(TrimSpace(cn), NormalizeUPN(domain), TrimSpace(cn'), NormalizeUPN(domain'));
    }
  }

  const LOGIN_BOOTSTRAP := "login_bootstrap"
  const PASSWORD_CHANGE := "password_change"
  const PASSWORD_RECOVERY := "password_recovery"

  predicate ValidEventType(t: string) { t == LOGIN_BOOTSTRAP || t == PASSWORD_CHANGE || t == PASSWORD_RECOVERY }

  datatype Reason = CnIsExternalEmail | AlreadySynced | SyncPending

  datatype Error =
    | InvalidEventType | UnknownIdentity | NoDomain | NoQueue | NoEncrypter
    | EncryptFailed // with the encrypter's error
    | EnqueueFailed // with the queue's error

  datatype Outcome = Enqueued | Skipped(reason: Reason) | Failure(error: Error)

  /** An effect of a submission and the answer it got. */
  datatype Event =
    | Lookup(record: Result<Record>)
    | Clock(now: Instant)
    | Encrypt(plaintext: seq<byte>, boundTo: WorkerSteps.SyncMessage, ok: bool)
    | Enqueue(message: WorkerSteps.SyncMessage, ok: bool)
    | MarkPending(upn: string, source: Instant, ok: bool)

  datatype Phase =
    | Looking                     // read the status record
    | Deciding(record: Record)    // read the clock to judge a pending record
    | Stamping                    // read the clock for the message
    | Encrypting(message: WorkerSteps.SyncMessage)
    | Enqueueing(message: WorkerSteps.SyncMessage)
    | Marking(message: WorkerSteps.SyncMessage)
    | Ended(outcome: Outcome)

  /** A request together with the service's configuration. */
  datatype Submission = Submission(unicode: Unicode, primaryDomain: string, hasStore: bool, hasQueue: bool,
                                   hasEncrypter: bool, pendingTTL: int, cn: string, eventType: string,
                                   password: seq<byte>) {
    function UPN(): string {
      var upn := BuildUPN(unicode, cn, primaryDomain);
      if upn.Some? then upn.value else ""
    }

    /** The request gets as far as the deduplication and the queue. */
    predicate Admitted() {
      ValidEventType(eventType) && Internal(ClassifyCN(unicode, cn)) && BuildUPN(unicode, cn, primaryDomain).Some?
    }

    /** The request is valid but for an identity that is not migrated. */
    predicate External() { ValidEventType(eventType) && ClassifyCN(unicode, cn).ExternalEmail? }

    function Proceed(): Phase {
      if !hasQueue then Ended(Failure(NoQueue))
      else if !hasEncrypter then Ended(Failure(NoEncrypter))
      else Stamping
    }

    function Start(): Phase {
      if !ValidEventType(eventType) then Ended(Failure(InvalidEventType))
      else if ClassifyCN(unicode, cn).ExternalEmail? then Ended(Skipped(CnIsExternalEmail))
      else if ClassifyCN(unicode, cn).Unknown? then Ended(Failure(UnknownIdentity))
      else if !Admitted() then Ended(Failure(NoDomain))
      else if eventType == LOGIN_BOOTSTRAP && hasStore then Looking
      else Proceed()
    }

    function Step(p: Phase, e: Event): Option<Phase> {
      match (p, e)
      case (Looking, Lookup(Err)) => Some(Proceed())
      case (Looking, Lookup(Ok(r))) =>
        Some(match r.status
             case Synced => Ended(Skipped(AlreadySynced))
             case Pending => Deciding(r)
             case _ => Proceed())
      case (Deciding(r), Clock(now)) =>
        Some(if r.updatedAt > now then Proceed()
             else if now < r.updatedAt + pendingTTL then Ended(Skipped(SyncPending))
             else Proceed())
      case (Stamping, Clock(now)) => Some(Encrypting(WorkerSteps.SyncMessage(TrimSpace(cn), UPN(), now)))
      case (Encrypting(m), Encrypt(plaintext, boundTo, ok)) =>
        if plaintext == password && boundTo == m then Some(if ok then Enqueueing(m) else Ended(Failure(EncryptFailed)))
        else None
      case (Enqueueing(m), Enqueue(message, ok)) =>
        if message != m then None
        else Some(if !ok then Ended(Failure(EnqueueFailed)) else if hasStore then Marking(m) else Ended(Enqueued))
      case (Marking(m), MarkPending(upn, source, _)) =>
        if upn == m.upn && source == m.enqueuedAt then Some(Ended(Enqueued)) else None
      case _ => None
    }

    function Follow(es: seq<Event>): Option<Phase> {
      if es == [] then Some(Start())
      else
        var q := Follow(es[..|es| - 1]);
        if q.None? then None else Step(q.value, es[|es| - 1])
    }
  }

  lemma OneMore(sub: Submission, es: seq<Event>, e: Event)
    ensures sub.Follow(es + [e]) == if sub.Follow(es).None? then None else sub.Step(sub.Follow(es).value, e)
  {
    assert (es + [e])[..|es|] == es;
  }

  /** The submission read a pending record that was not written in the future and is younger than the TTL. */
  predicate FreshPending(es: seq<Event>, pendingTTL: int) {
    && |es| == 2 && es[0].Lookup? && es[0].record.Ok? && es[1].Clock?
    && es[0].record.value.status == Pending
    && es[0].record.value.updatedAt <= es[1].now < es[0].record.value.updatedAt + pendingTTL
  }

  predicate ReadSynced(es: seq<Event>) {
    |es| == 1 && es[0].Lookup? && es[0].record.Ok? && es[0].record.value.status == Synced
  }

  /** Where a single step can lead: judging a record, and the two skips. */
  lemma {:induction false} StepInto(sub: Submission, p: Phase, e: Event)
    requires sub.Step(p, e).Some?
    ensures p.Looking? ==> e.Lookup?
    ensures var q := sub.Step(p, e).value;
            && !q.Looking?
            && (q.Deciding? <==> p.Looking? && e.record.Ok? && e.record.value.status == Pending)
            && (q.Deciding? ==> q.record == e.record.value)
            && (q == Ended(Skipped(AlreadySynced)) <==> p.Looking? && e.record.Ok? && e.record.value.status == Synced)
            && (q == Ended(Skipped(SyncPending)) <==>
                p.Deciding? && e.Clock? && p.record.updatedAt <= e.now < p.record.updatedAt + sub.pendingTTL)
            && q != Ended(Skipped(CnIsExternalEmail))
  {
    hide ClassifyCN, BuildUPN, NormalizeUPN, TrimSpace, Internal, ValidEventType, Submission.UPN, Submission.Admitted;
  }

  lemma StartsLooking(sub: Submission)
    ensures sub.Start() == Looking <==> sub.Admitted() && sub.eventType == LOGIN_BOOTSTRAP && sub.hasStore
    ensures !sub.Start().Deciding?
    ensures sub.Start().Ended? && sub.Start().outcome.Skipped? ==> sub.Start().outcome.reason == CnIsExternalEmail
    ensures sub.Start() == Ended(Skipped(CnIsExternalEmail)) <==> sub.External()
  {
    hide ClassifyCN, BuildUPN, NormalizeUPN, TrimSpace, Submission.UPN;
  }

  /** The record a submission is judging is the one it read, and it read it first. */
  lemma DecidingMeansRead(sub: Submission, es: seq<Event>)
    requires sub.Follow(es).Some?
    ensures sub.Follow(es).value.Looking? ==> es == []
    ensures sub.Follow(es).value.Deciding? ==> es == [Lookup(Ok(sub.Follow(es).value.record))] && sub.Start().Looking?
  {
    hide Submission.Start, Submission.Step;
    StartsLooking(sub);
    if es != [] {
      var init, last := es[..|es| - 1], es[|es| - 1];
      assert es == init + [last];
      var p := sub.Follow(init).value;
      StepInto(sub, p, last);
      DecidingMeansRead(sub, init);
    }
  }

  /** Only an admitted submission is skipped for what it read. */
  lemma SkipMeansRead(sub: Submission, es: seq<Event>)
    requires sub.Follow(es).Some?
    ensures sub.Follow(es).value == Ended(Skipped(AlreadySynced)) ==> sub.Start().Looking? && ReadSynced(es)
    ensures sub.Follow(es).value == Ended(Skipped(SyncPending)) ==>
              sub.Start().Looking? && FreshPending(es, sub.pendingTTL)
    ensures sub.Follow(es).value == Ended(Skipped(CnIsExternalEmail)) ==> es == [] && sub.External()
  {
    hide Submission.Start, Submission.Step, Submission.Admitted, Submission.External;
    StartsLooking(sub);
    if es != [] {
      var init, last := es[..|es| - 1], es[|es| - 1];
      assert es == init + [last];
      var p := sub.Follow(init).value;
      StepInto(sub, p, last);
      DecidingMeansRead(sub, init);
      if p.Deciding? {
        StepInto(sub, sub.Start(), init[0]);
      }
    }
  }

  lemma ReadMeansSkip(sub: Submission, es: seq<Event>)
    requires sub.Start().Looking? && sub.Follow(es).Some?
    ensures ReadSynced(es) ==> sub.Follow(es).value == Ended(Skipped(AlreadySynced))
    ensures FreshPending(es, sub.pendingTTL) ==> sub.Follow(es).value == Ended(Skipped(SyncPending))
  {
    hide Submission.Start, Submission.Step;
    if ReadSynced(es) {
      assert es[..0] == [];
      StepInto(sub, Looking, es[0]);
    } else if FreshPending(es, sub.pendingTTL) {
      var init := es[..1];
      assert init[..0] == [] && init[0] == es[0];
      assert sub.Follow(init).Some?;
      assert sub.Follow(init) == sub.Step(Looking, es[0]);
      StepInto(sub, Looking, es[0]);
      StepInto(sub, sub.Follow(init).value, es[1]);
    }
  }

  /**
    * A submission is skipped exactly for three reasons: it is for an external identity; or it is an admitted
    * login_bootstrap with a store and what it read was a synced record, or a pending one that is fresh. In particular
    * the other event types and store errors never skip an internal identity.
    */
  lemma {:induction false} SkippedExactly(sub: Submission, es: seq<Event>)
    requires sub.Follow(es).Some?
    ensures sub.Follow(es).value == Ended(Skipped(CnIsExternalEmail)) <==> es == [] && sub.External()
    ensures sub.Follow(es).value == Ended(Skipped(AlreadySynced)) <==>
              sub.Admitted() && sub.eventType == LOGIN_BOOTSTRAP && sub.hasStore && ReadSynced(es)
    ensures sub.Follow(es).value == Ended(Skipped(SyncPending)) <==>
              sub.Admitted() && sub.eventType == LOGIN_BOOTSTRAP && sub.hasStore && FreshPending(es, sub.pendingTTL)
  {
    hide Submission.Start, Submission.Step, Submission.Admitted, Submission.External, ReadSynced, FreshPending;
    StartsLooking(sub);
    SkipMeansRead(sub, es);
    if sub.Start().Looking? {
      ReadMeansSkip(sub, es);
    }
  }

  predicate Accepts(e: Event) { e.Enqueue? && e.ok }

  function Acceptances(es: seq<Event>): nat {
    if es == [] then 0 else Acceptances(es[..|es| - 1]) + if Accepts(es[|es| - 1]) then 1 else 0
  }

  /**
    * The queue confirmed exactly one message if the submission is marking it or reports it enqueued, and none
    * otherwise.
    */
  lemma {:induction false} EnqueuedExactly(sub: Submission, es: seq<Event>)
    requires sub.Follow(es).Some?
    ensures Acceptances(es) == if sub.Follow(es).value.Marking? || sub.Follow(es).value == Ended(Enqueued) then 1 else 0
  {
    hide ClassifyCN, BuildUPN, NormalizeUPN, TrimSpace, Internal, ValidEventType, Submission.UPN, Submission.Admitted;
    if es != [] {
      EnqueuedExactly(sub, es[..|es| - 1]);
    }
  }
}
