/** Runs of several service calls, one after the other (the model has no concurrency), and the
    invariants they keep. */
module CertificateTraces {
  import opened CertificateModel
  import opened CertificateStore
  import opened CertificateTransitions

  /** A call of one of the service operations. */
  datatype Action =
    | UpdateDetails(certID: Id, name: string, expiration: Time)
    | Revoke(certID: Id)
    | Delete(certID: Id)
    | TenantRequest(user: User, certType: CertificateType, reason: string)
    | Approve(reqID: Id, admin: User, now: Time)
    | Reject(reqID: Id, admin: User, reason: string, now: Time)

  /** A call together with what the store does during it: the calls that fail, the owner
      lookup's answer and the key an insert uses. */
  datatype Event = Event(action: Action, faults: Faults, pick: Option<Id>, newId: Id)

  /** The store's answers are ones it can give in tables `t`. */
  predicate Admissible(t: Tables, e: Event)
  {
    match e.action
    case TenantRequest(user, _, _) => IsOwnerPick(t.certificates, user.id, e.pick) && e.newId !in t.requests
    case Approve(_, _, _) => e.newId !in t.certificates
    case _ => true
  }

  function Apply(t: Tables, e: Event, addOneYear: Time -> Time): Tables
    requires Admissible(t, e)
  {
    match e.action
    case UpdateDetails(id, name, expiration) => UpdateDetailsStep(t, id, name, expiration, e.faults).tables
    case Revoke(id) => RevokeStep(t, id, e.faults).tables
    case Delete(id) => DeleteStep(t, id, e.faults).tables
    case TenantRequest(user, certType, reason) =>
      TenantRequestStep(t, user, certType, reason, e.pick, e.newId, e.faults).tables
    case Approve(reqID, admin, now) => ApproveStep(t, reqID, admin, now, addOneYear, e.newId, e.faults).tables
    case Reject(reqID, admin, reason, now) => RejectStep(t, reqID, admin, reason, now, e.faults).tables
  }

  predicate AdmissibleRun(t: Tables, events: seq<Event>, addOneYear: Time -> Time)
    decreases |events|
  {
    events == [] ||
    (Admissible(t, events[0]) && AdmissibleRun(Apply(t, events[0], addOneYear), events[1..], addOneYear))
  }

  function Run(t: Tables, events: seq<Event>, addOneYear: Time -> Time): Tables
    requires AdmissibleRun(t, events, addOneYear)
    decreases |events|
  {
    if events == [] then t else Run(Apply(t, events[0], addOneYear), events[1..], addOneYear)
  }

  // ---------------------------------------------------------------- at most one pending request

  /** No user has two pending requests. */
  predicate OnePendingPerUser(requests: map<Id, CertificateRequest>)
  {
    forall i, j ::
      (i in requests && j in requests && IsPending(requests[i]) && IsPending(requests[j]) &&
       requests[i].userID == requests[j].userID) ==> i == j
  }

  /** The tenant path adds a pending request only for a user without one, approve and reject only
      take requests out of pending, and the certificate operations leave requests alone. */
  lemma StepKeepsOnePendingPerUser(t: Tables, e: Event, addOneYear: Time -> Time)
    requires Admissible(t, e) && OnePendingPerUser(t.requests)
    ensures OnePendingPerUser(Apply(t, e, addOneYear).requests)
  {
    var after := Apply(t, e, addOneYear).requests;
    match e.action
    case TenantRequest(user, certType, reason) =>
      var s := TenantRequestStep(t, user, certType, reason, e.pick, e.newId, e.faults);
      if s.result.Success? {
        assert !HasPending(t.requests, user.id);
        forall i, j | i in after && j in after && IsPending(after[i]) && IsPending(after[j]) &&
                      after[i].userID == after[j].userID
          ensures i == j
        {
          if i == e.newId && j != e.newId {
            assert PendingFor(t.requests, user.id, j);
          }
        }
      }
    case Approve(reqID, admin, now) =>
      forall i, j | i in after && j in after && IsPending(after[i]) && IsPending(after[j]) &&
                    after[i].userID == after[j].userID
        ensures i == j
      {
        assert i in t.requests && after[i] == t.requests[i];
        assert j in t.requests && after[j] == t.requests[j];
      }
    case Reject(reqID, admin, reason, now) =>
      forall i, j | i in after && j in after && IsPending(after[i]) && IsPending(after[j]) &&
                    after[i].userID == after[j].userID
        ensures i == j
      {
        assert i in t.requests && after[i] == t.requests[i];
        assert j in t.requests && after[j] == t.requests[j];
      }
    case _ =>
  }

  /** Successful tenant creations never leave a user with two pending requests. */
  lemma {:induction false} RunKeepsOnePendingPerUser(t: Tables, events: seq<Event>, addOneYear: Time -> Time)
    requires AdmissibleRun(t, events, addOneYear) && OnePendingPerUser(t.requests)
    ensures OnePendingPerUser(Run(t, events, addOneYear).requests)
    decreases |events|
  {
    if events != [] {
      StepKeepsOnePendingPerUser(t, events[0], addOneYear);
      RunKeepsOnePendingPerUser(Apply(t, events[0], addOneYear), events[1..], addOneYear);
    }
  }

  /** The invariant holds over the service operations only: the admin path inserts requests through
      the store directly, with no pending check. Inserting a new pending request of a user who
      already has one, under a key the table does not contain, as `Database.CreateCertificateRequest`
      does, breaks it. */
  lemma DirectInsertMayBreakOnePendingPerUser(t: Tables, user: User, certType: CertificateType,
                                              reason: string, k: Id)
    requires HasPending(t.requests, user.id) && k !in t.requests
    ensures !OnePendingPerUser(t.requests[k := NewTenantRequest(user, certType, reason)])
  {
    var after := t.requests[k := NewTenantRequest(user, certType, reason)];
    var j: Id :| j in t.requests && PendingFor(t.requests, user.id, j);
    assert j != k && after[j] == t.requests[j];
    assert j in after && k in after && IsPending(after[j]) && IsPending(after[k]) &&
           after[j].userID == after[k].userID;
  }

  // ---------------------------------------------------------------- the request lifecycle

  /** How a request may change: not at all, or from pending to valid or to rejected. */
  predicate RequestLifecycle(before: CertificateRequest, after: CertificateRequest)
  {
    before == after || (IsPending(before) && (after.status == Valid || after.status == Rejected))
  }

  /** No operation removes a request, and each one moves a request only along the lifecycle. */
  lemma StepFollowsRequestLifecycle(t: Tables, e: Event, addOneYear: Time -> Time, id: Id)
    requires Admissible(t, e) && id in t.requests
    ensures id in Apply(t, e, addOneYear).requests
    ensures RequestLifecycle(t.requests[id], Apply(t, e, addOneYear).requests[id])
  {
  }

  /** Over any run every request that existed at the start still exists, unchanged or moved once
      out of pending to valid or rejected. */
  lemma {:induction false} RunFollowsRequestLifecycle(t: Tables, events: seq<Event>, addOneYear: Time -> Time,
                                                      id: Id)
    requires AdmissibleRun(t, events, addOneYear) && id in t.requests
    ensures id in Run(t, events, addOneYear).requests
    ensures RequestLifecycle(t.requests[id], Run(t, events, addOneYear).requests[id])
    decreases |events|
  {
    if events != [] {
      var next := Apply(t, events[0], addOneYear);
      StepFollowsRequestLifecycle(t, events[0], addOneYear, id);
      RunFollowsRequestLifecycle(next, events[1..], addOneYear, id);
    }
  }

  /** A request that has left pending is never changed again, by approve, reject or anything else. */
  lemma {:induction false} SettledRequestNeverChanges(t: Tables, events: seq<Event>, addOneYear: Time -> Time,
                                                      id: Id)
    requires AdmissibleRun(t, events, addOneYear) && id in t.requests && !IsPending(t.requests[id])
    ensures id in Run(t, events, addOneYear).requests
    ensures Run(t, events, addOneYear).requests[id] == t.requests[id]
  {
    RunFollowsRequestLifecycle(t, events, addOneYear, id);
  }

  // ---------------------------------------------------------------- certificates

  /** A certificate that survives a call keeps its type, owner, content and issue date; its status
      either stays or becomes revoked. */
  predicate CertificateChange(before: Certificate, after: Certificate)
  {
    after.certType == before.certType && after.owner == before.owner && after.ownerID == before.ownerID &&
    after.content == before.content && after.issuedDate == before.issuedDate &&
    (after.status == before.status || after.status == Revoked)
  }

  lemma StepChangesCertificatesOnlyAsAllowed(t: Tables, e: Event, addOneYear: Time -> Time, id: Id)
    requires Admissible(t, e) && id in t.certificates && id in Apply(t, e, addOneYear).certificates
    ensures CertificateChange(t.certificates[id], Apply(t, e, addOneYear).certificates[id])
  {
  }

  /** A certificate appears only by approval: the call was an approval of a pending request, the
      certificate sits under the key the insert used, and it is the one built from that request. */
  lemma StepIssuesCertificatesOnlyFromPendingRequests(t: Tables, e: Event, addOneYear: Time -> Time, id: Id)
    requires Admissible(t, e) && id !in t.certificates && id in Apply(t, e, addOneYear).certificates
    ensures e.action.Approve? && id == e.newId
    ensures e.action.reqID in t.requests && IsPending(t.requests[e.action.reqID])
    ensures Apply(t, e, addOneYear).certificates[id] ==
            IssuedFrom(t.requests[e.action.reqID], e.action.now, addOneYear)
  {
  }
}
