/** The migration service that carries out submissions (internal/migration/service.go). */
module SubmitService {
  import opened Prelude
  import opened SyncStatus
  import opened Submit
  import opened SubmitTraces
  import WorkerSteps

  method AllDigits(u: Unicode, value: string) returns (all: bool)
    ensures all <==> forall i :: 0 <= i < |value| ==> u.digit(value[i])
  {
    for k := 0 to |value|
      invariant forall i :: 0 <= i < k ==> u.digit(value[i])
    {
      if !u.digit(value[k]) {
        return false;
      }
    }
    return true;
  }

  method AllLettersDigitsOrHyphen(u: Unicode, value: string) returns (all: bool)
    ensures all <==> forall i :: 0 <= i < |value| ==> value[i] == '-' || u.letter(value[i]) || u.digit(value[i])
  {
    for k := 0 to |value|
      invariant forall i :: 0 <= i < k ==> value[i] == '-' || u.letter(value[i]) || u.digit(value[i])
    {
      if value[k] == '-' || u.letter(value[k]) || u.digit(value[k]) {
        continue;
      }
      return false;
    }
    return true;
  }

  method Classify(u: Unicode, cn: string) returns (identity: Identity)
    ensures identity == ClassifyCN(u, cn)
  {
    hide TrimSpace;
    var normalized := TrimSpace(cn);
    if normalized == "" {
      return Unknown;
    }
    if '@' in normalized {
      return ExternalEmail;
    }
    var digits := AllDigits(u, normalized);
    if digits {
      return StudentId;
    }
    var allowed := AllLettersDigitsOrHyphen(u, normalized);
    if u.letter(normalized[0]) && allowed {
      return EmployeeId;
    }
    return Unknown;
  }

  class Service {
    const unicode: Unicode
    const primaryDomain: string
    const hasStore: bool
    const hasQueue: bool
    const hasEncrypter: bool
    const pendingTTL: int
    /** The effects of the submission under way. */
    ghost var trace: seq<Event>

    constructor (unicode: Unicode, primaryDomain: string, hasStore: bool, hasQueue: bool, hasEncrypter: bool,
                 pendingTTL: int)
      ensures this.unicode == unicode && this.primaryDomain == primaryDomain
      ensures this.hasStore == hasStore && this.hasQueue == hasQueue && this.hasEncrypter == hasEncrypter
      ensures this.pendingTTL == if pendingTTL <= 0 then 300_000_000_000 else pendingTTL
    {
      this.unicode, this.primaryDomain := unicode, primaryDomain;
      this.hasStore, this.hasQueue, this.hasEncrypter := hasStore, hasQueue, hasEncrypter;
      this.pendingTTL := if pendingTTL <= 0 then 300_000_000_000 else pendingTTL;
      trace := [];
    }

    function SubmissionOf(cn: string, eventType: string, password: seq<byte>): Submission {
      Submission(unicode, primaryDomain, hasStore, hasQueue, hasEncrypter, pendingTTL, cn, eventType, password)
    }

    ghost method Emit(sub: Submission, e: Event)
      requires sub.Follow(trace).Some?
      modifies this`trace
      ensures trace == old(trace) + [e] && sub.Follow(trace) == sub.Step(old(sub.Follow(trace).value), e)
    {
      OneMore(sub, trace, e);
      trace := trace + [e];
    }

    /** The decision that goes with the outcome: what the request was classified as and the UPN that was built. */
    ghost predicate Describes(cn: string, eventType: string, identity: Option<Identity>, upn: string) {
      && identity == (if ValidEventType(eventType) then Some(ClassifyCN(unicode, cn)) else None)
      && upn == if identity.Some? && Internal(identity.value) then SubmissionOf(cn, eventType, []).UPN() else ""
    }

    /**
      * Submit: the effects follow the submission's protocol to its outcome, and the password is zeroed on every path.
      */
    method Submit(cn: string, eventType: string, password: array<byte>)
      returns (identity: Option<Identity>, upn: string, outcome: Outcome)
      modifies this, password
      ensures SubmissionOf(cn, eventType, old(password[..])).Follow(trace) == Some(Ended(outcome))
      ensures Whole(SubmissionOf(cn, eventType, old(password[..])), trace, outcome)
      ensures forall e :: e in trace && e.Encrypt? ==> e.plaintext == old(password[..])
      ensures outcome == Enqueued ==>
                exists e :: e in trace && e.Encrypt? && e.ok && e.plaintext == old(password[..])
      ensures Describes(cn, eventType, identity, upn)
      ensures AllZero(password[..])
    {
      hide Whole;
      identity, upn, outcome := SubmitBorrowed(cn, eventType, password);
      if outcome == Enqueued {
        EnqueuedWasEncrypted(SubmissionOf(cn, eventType, password[..]), trace);
      }
      ZeroBytes(password, password.Length);
    }

    /** The body that the deferred zeroing wraps. */
    method SubmitBorrowed(cn: string, eventType: string, password: array<byte>)
      returns (identity: Option<Identity>, upn: string, outcome: Outcome)
      modifies this
      ensures SubmissionOf(cn, eventType, password[..]).Follow(trace) == Some(Ended(outcome))
      ensures Whole(SubmissionOf(cn, eventType, password[..]), trace, outcome)
      ensures Encrypted(SubmissionOf(cn, eventType, password[..]), trace)
      ensures Describes(cn, eventType, identity, upn)
    {
      hide ClassifyCN, BuildUPN, NormalizeUPN, TrimSpace, Whole, Encrypted;
      ghost var sub := SubmissionOf(cn, eventType, password[..]);
      EveryOutcome(sub);
      trace := [];
      identity, upn := None, "";
      if !ValidEventType(eventType) {
        outcome := Failure(InvalidEventType);
        return;
      }
      var classified := Classify(unicode, cn);
      identity := Some(classified);
      if identity == Some(ExternalEmail) {
        outcome := Skipped(CnIsExternalEmail);
        return;
      }
      if identity == Some(Unknown) {
        outcome := Failure(UnknownIdentity);
        return;
      }
      var built := BuildUPN(unicode, cn, primaryDomain);
      if built.None? {
        outcome := Failure(NoDomain);
        return;
      }
      upn := built.value;
      if eventType == LOGIN_BOOTSTRAP && hasStore {
        var skip := SkipLoginBootstrap(sub);
        if skip.Some? {
          outcome := Skipped(skip.value);
          return;
        }
      }
      if !hasQueue {
        outcome := Failure(NoQueue);
        return;
      }
      if !hasEncrypter {
        outcome := Failure(NoEncrypter);
        return;
      }
      NotRefused(sub);
      outcome := Send(sub, TrimSpace(cn), upn, password);
    }

    /** The status store and the clock may answer anything; a store error does not skip. */
    method SkipLoginBootstrap(ghost sub: Submission) returns (skip: Option<Reason>)
      requires sub.Follow(trace) == Some(Looking) && sub.pendingTTL == pendingTTL
      modifies this`trace
      ensures sub.Follow(trace) == Some(if skip.Some? then Ended(Skipped(skip.value)) else sub.Proceed())
    {
      hide Submission.Follow, Submission.Start;
      var record: Result<Record> := *;
      Emit(sub, Lookup(record));
      match record {
        case Err => return None;
        case Ok(r) =>
          match r.status {
            case Synced => return Some(AlreadySynced);
            case Pending =>
              var now: Instant := *;
              Emit(sub, Clock(now));
              if r.updatedAt > now {
                return None;
              }
              return if now < r.updatedAt + pendingTTL then Some(SyncPending) else None;
            case _ => return None;
          }
      }
    }

    method Send(ghost sub: Submission, cn: string, upn: string, password: array<byte>) returns (outcome: Outcome)
      requires sub.Follow(trace) == Some(Stamping) && sub.password == password[..] && sub.hasStore == hasStore
      requires cn == TrimSpace(sub.cn) && upn == sub.UPN()
      requires Refusal(sub).None? && sub.hasQueue && sub.hasEncrypter
      modifies this`trace
      ensures sub.Follow(trace) == Some(Ended(outcome))
      ensures old(trace) <= trace && Sends(sub, trace[|old(trace)|..], outcome)
    {
      hide Submission.Follow, Submission.Start, Submission.UPN, TrimSpace, Refusal, MessageAt;
      var now: Instant := *;
      Emit(sub, Clock(now));
      var message := WorkerSteps.SyncMessage(cn, upn, now);
      MessageIs(sub, now);
      var ok: bool := *;
      Emit(sub, Encrypt(password[..], message, ok));
      if !ok {
        return Failure(EncryptFailed);
      }
      ok := *;
      Emit(sub, Enqueue(message, ok));
      if !ok {
        return Failure(EnqueueFailed);
      }
      if hasStore {
        ok := *;
        Emit(sub, MarkPending(upn, now, ok));
      }
      ghost var tail := trace[|old(trace)|..];
      assert tail[2..] == if hasStore then [Enqueue(message, true), MarkPending(upn, now, ok)]
             else [Enqueue(message, true)];
      return Enqueued;
    }
  }
}
