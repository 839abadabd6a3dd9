/** What each service operation promises, one call at a time. */
module CertificateProperties {
  import opened CertificateModel
  import opened CertificateStore
  import opened CertificateTransitions

  // ---------------------------------------------------------------- UpdateCertificateDetails

  /** For an existing id only the name and the expiration date change, to exactly the given
      values; every other field, every other certificate and the request table stay as they were. */
  lemma UpdateDetailsChangesOnlyNameAndExpiration(t: Tables, id: Id, name: string, expiration: Time,
                                                  faults: Faults)
    requires id in t.certificates
    requires ReadCertificateByID !in faults && SaveCertificate !in faults
    ensures var s := UpdateDetailsStep(t, id, name, expiration, faults);
      id in s.tables.certificates &&
      var before, after := t.certificates[id], s.tables.certificates[id];
      after.name == name && after.expirationDate == expiration &&
      after.certType == before.certType && after.status == before.status &&
      after.owner == before.owner && after.ownerID == before.ownerID &&
      after.content == before.content && after.issuedDate == before.issuedDate &&
      s.tables.certificates.Keys == t.certificates.Keys &&
      (forall k :: k in t.certificates && k != id ==> s.tables.certificates[k] == t.certificates[k]) &&
      s.tables.requests == t.requests &&
      s.result == Details(Some(after), None)
  {
  }

  /** A missing id is reported as the store's not-found error and changes nothing. */
  lemma UpdateDetailsMissingId(t: Tables, id: Id, name: string, expiration: Time, faults: Faults)
    requires id !in t.certificates && ReadCertificateByID !in faults
    ensures UpdateDetailsStep(t, id, name, expiration, faults) ==
            Step(t, Details(None, Some(Store(RecordNotFound))))
  {
  }

  /** Whenever an error is returned, the tables are untouched; a failed save still hands back
      the changed certificate next to the error. */
  lemma UpdateDetailsErrorChangesNothing(t: Tables, id: Id, name: string, expiration: Time, faults: Faults)
    ensures var s := UpdateDetailsStep(t, id, name, expiration, faults);
      (s.result.err.Some? ==> s.tables == t) &&
      (s.result.err.None? <==> ReadCertificateByID !in faults && id in t.certificates && SaveCertificate !in faults) &&
      (s.result.cert.Some? <==> ReadCertificateByID !in faults && id in t.certificates)
  {
  }

  // ---------------------------------------------------------------- RevokeCertificate

  /** For an existing id the status becomes revoked and nothing else changes. */
  lemma RevokeChangesOnlyStatus(t: Tables, id: Id, faults: Faults)
    requires id in t.certificates
    requires ReadCertificateByID !in faults && SaveCertificate !in faults
    ensures var s := RevokeStep(t, id, faults);
      s.result.None? && id in s.tables.certificates &&
      s.tables.certificates[id].status == Revoked &&
      s.tables.certificates[id].(status := t.certificates[id].status) == t.certificates[id] &&
      s.tables.certificates - {id} == t.certificates - {id} &&
      s.tables.requests == t.requests
  {
  }

  /** A missing id is an error, and every error leaves the tables as they were. */
  lemma RevokeErrorChangesNothing(t: Tables, id: Id, faults: Faults)
    ensures var s := RevokeStep(t, id, faults);
      (s.result.Some? ==> s.tables == t) &&
      (id !in t.certificates && ReadCertificateByID !in faults ==> s.result == Some(Store(RecordNotFound)))
  {
  }

  /** Revoking twice gives the same tables and the same answer as revoking once. */
  lemma RevokeIdempotent(t: Tables, id: Id, faults: Faults)
    ensures var once := RevokeStep(t, id, faults);
      RevokeStep(once.tables, id, faults) == once
  {
  }

  // ---------------------------------------------------------------- DeleteCertificate

  /** The id is absent afterwards and no other record changes; a missing id is not an error. */
  lemma DeleteRemovesOnlyThatCertificate(t: Tables, id: Id, faults: Faults)
    requires RemoveCertificate !in faults
    ensures var s := DeleteStep(t, id, faults);
      s.result.None? && id !in s.tables.certificates &&
      s.tables.certificates.Keys == t.certificates.Keys - {id} &&
      (forall k :: k in s.tables.certificates ==> s.tables.certificates[k] == t.certificates[k]) &&
      s.tables.requests == t.requests
  {
  }

  // ---------------------------------------------------------------- CreateTenantCertificateRequest

  /** The certificate check comes first: an active certificate returned by the owner lookup
      refuses the request, whatever the request table holds, and nothing changes. */
  lemma TenantRequestRefusedForActiveCertificate(t: Tables, user: User, certType: CertificateType,
                                                 reason: string, pick: Option<Id>, newId: Id, faults: Faults)
    requires IsOwnerPick(t.certificates, user.id, pick)
    requires ReadCertificateByOwner !in faults
    requires pick.Some? && IsActive(t.certificates[pick.value].status)
    ensures TenantRequestStep(t, user, certType, reason, pick, newId, faults) == Step(t, Failure(CertificateExists))
    ensures Message(CertificateExists) == "certificate already exists for user"
  {
  }

  /** Without an active certificate, a pending request of the same user refuses the request and
      nothing changes. */
  lemma TenantRequestRefusedForPendingRequest(t: Tables, user: User, certType: CertificateType,
                                              reason: string, pick: Option<Id>, newId: Id, faults: Faults)
    requires IsOwnerPick(t.certificates, user.id, pick)
    requires ReadCertificateByOwner !in faults && ReadPendingRequestByUser !in faults
    requires !(pick.Some? && IsActive(t.certificates[pick.value].status))
    requires HasPending(t.requests, user.id)
    ensures TenantRequestStep(t, user, certType, reason, pick, newId, faults) == Step(t, Failure(RequestPending))
    ensures Message(RequestPending) == "certificate request is pending for user"
  {
  }

  /** Otherwise exactly one request is added under the new key: pending, for that user, with the
      given type and reason, and nothing else changes. */
  lemma TenantRequestAddsOnePendingRequest(t: Tables, user: User, certType: CertificateType,
                                           reason: string, pick: Option<Id>, newId: Id, faults: Faults)
    requires IsOwnerPick(t.certificates, user.id, pick) && newId !in t.requests
    requires ReadCertificateByOwner !in faults && ReadPendingRequestByUser !in faults && InsertRequest !in faults
    requires !(pick.Some? && IsActive(t.certificates[pick.value].status))
    requires !HasPending(t.requests, user.id)
    ensures var s := TenantRequestStep(t, user, certType, reason, pick, newId, faults);
      s.result.Success? && s.result.value.id == newId &&
      s.tables.requests.Keys == t.requests.Keys + {newId} &&
      |s.tables.requests| == |t.requests| + 1 &&
      (forall k :: k in t.requests ==> s.tables.requests[k] == t.requests[k]) &&
      s.tables.requests[newId] == s.result.value.record &&
      var q := s.tables.requests[newId];
      q.status == Pending && q.userID == user.id && q.userName == user.username &&
      q.certType == certType && q.reason == reason &&
      q.approvedAt == None && q.rejectedAt == None &&
      s.tables.certificates == t.certificates
  {
    var s := TenantRequestStep(t, user, certType, reason, pick, newId, faults);
    assert s.tables.requests.Keys == t.requests.Keys + {newId};
    assert |t.requests.Keys + {newId}| == |t.requests.Keys| + 1;
  }

  /** Every failure of the tenant path leaves both tables as they were. */
  lemma TenantRequestErrorChangesNothing(t: Tables, user: User, certType: CertificateType,
                                         reason: string, pick: Option<Id>, newId: Id, faults: Faults)
    requires IsOwnerPick(t.certificates, user.id, pick)
    ensures var s := TenantRequestStep(t, user, certType, reason, pick, newId, faults);
      s.result.Failure? ==> s.tables == t
  {
  }

  /** A successful tenant request happens only when the user had no pending request, and leaves
      the user with exactly one: the new one. */
  lemma TenantSuccessLeavesOnePending(t: Tables, user: User, certType: CertificateType,
                                                         reason: string, faults: Faults,
                                                         s: Step<Result<Keyed<CertificateRequest>, Error>>)
    requires TenantRequestAllows(t, user, certType, reason, faults, s)
    requires s.result.Success?
    ensures !HasPending(t.requests, user.id)
    ensures forall k :: PendingFor(s.tables.requests, user.id, k) <==> k == s.result.value.id
  {
    var pick: Option<Id>, newId: Id :|
      IsOwnerPick(t.certificates, user.id, pick) && newId !in t.requests &&
      s == TenantRequestStep(t, user, certType, reason, pick, newId, faults);
    assert s.result.value.id == newId;
    forall k
      ensures PendingFor(s.tables.requests, user.id, k) <==> k == newId
    {
      if k != newId && PendingFor(s.tables.requests, user.id, k) {
        assert PendingFor(t.requests, user.id, k);
      }
    }
  }

  /** The tenant path refuses a user whose only certificate is valid or expiring, whichever answer
      the store gives. */
  lemma TenantRequestRefusedForOnlyActiveCertificate(
    t: Tables, user: User, certType: CertificateType, reason: string, faults: Faults, certID: Id,
    s: Step<Result<Keyed<CertificateRequest>, Error>>)
    requires TenantRequestAllows(t, user, certType, reason, faults, s)
    requires ReadCertificateByOwner !in faults
    requires OwnedBy(t.certificates, user.id, certID) && IsActive(t.certificates[certID].status)
    requires forall k :: OwnedBy(t.certificates, user.id, k) ==> k == certID
    ensures s == Step(t, Failure(CertificateExists))
  {
    var pick: Option<Id>, newId: Id :|
      IsOwnerPick(t.certificates, user.id, pick) && newId !in t.requests &&
      s == TenantRequestStep(t, user, certType, reason, pick, newId, faults);
    assert pick == Some(certID);
  }

  /** The outcome depends on which certificate the owner lookup returns: a user holding a revoked
      certificate and a valid one may still be granted a new request. */
  lemma OwnerLookupMayHideActiveCertificate()
    ensures var revoked := Certificate("u-a-cert", "a", Revoked, "u", 1, "", 0, 10);
      var valid := Certificate("u-a-cert", "a", Valid, "u", 1, "", 5, 15);
      var t := Tables(map[1 := revoked, 2 := valid], map[]);
      var user := User(1, "u");
      IsOwnerPick(t.certificates, user.id, Some(1)) && IsOwnerPick(t.certificates, user.id, Some(2)) &&
      TenantRequestStep(t, user, "a", "r", Some(1), 0, map[]).result.Success? &&
      TenantRequestStep(t, user, "a", "r", Some(2), 0, map[]).result == Failure(CertificateExists)
  {
    var t := Tables(map[1 := Certificate("u-a-cert", "a", Revoked, "u", 1, "", 0, 10),
                        2 := Certificate("u-a-cert", "a", Valid, "u", 1, "", 5, 15)], map[]);
    assert !HasPending(t.requests, 1);
  }

  // ---------------------------------------------------------------- ApproveAndCreateCertificate

  /** A request that is not pending is refused with its current status; no certificate is
      created and the request is left as it is. */
  lemma ApproveRefusesSettledRequest(t: Tables, reqID: Id, admin: User, now: Time,
                                     addOneYear: Time -> Time, newId: Id, faults: Faults)
    requires reqID in t.requests && !IsPending(t.requests[reqID])
    requires ReadRequestByID !in faults
    ensures var s := ApproveStep(t, reqID, admin, now, addOneYear, newId, faults);
      s.tables == t && s.result == Failure(NotPending(t.requests[reqID].status)) &&
      Message(s.result.error) == "request is not pending, current status: " + StatusName(t.requests[reqID].status)
  {
  }

  /** A pending request yields exactly one new certificate built from it, valid for one year
      from now, and the request becomes valid with the approver and the time recorded. */
  lemma ApproveIssuesOneCertificate(t: Tables, reqID: Id, admin: User, now: Time,
                                    addOneYear: Time -> Time, newId: Id, faults: Faults)
    requires reqID in t.requests && IsPending(t.requests[reqID])
    requires newId !in t.certificates
    requires ReadRequestByID !in faults && InsertCertificate !in faults && SaveRequest !in faults
    ensures var s := ApproveStep(t, reqID, admin, now, addOneYear, newId, faults);
      var q := t.requests[reqID];
      s.result.Success? && s.result.value.id == newId &&
      s.tables.certificates.Keys == t.certificates.Keys + {newId} &&
      |s.tables.certificates| == |t.certificates| + 1 &&
      (forall k :: k in t.certificates ==> s.tables.certificates[k] == t.certificates[k]) &&
      var c := s.tables.certificates[newId];
      c == s.result.value.record &&
      c.name == q.userName + "-" + q.certType + "-cert" && c.certType == q.certType &&
      c.status == Valid && c.owner == q.userName && c.ownerID == q.userID && c.content == "" &&
      c.issuedDate == now && c.expirationDate == addOneYear(now) &&
      s.tables.requests.Keys == t.requests.Keys &&
      (forall k :: k in t.requests && k != reqID ==> s.tables.requests[k] == t.requests[k]) &&
      var q' := s.tables.requests[reqID];
      q'.status == Valid && q'.approvedBy == admin.username && q'.approvedAt == Some(now) &&
      q'.(status := q.status, approvedBy := q.approvedBy, approvedAt := q.approvedAt) == q
  {
    var s := ApproveStep(t, reqID, admin, now, addOneYear, newId, faults);
    assert |t.certificates.Keys + {newId}| == |t.certificates.Keys| + 1;
  }

  /** If creating the certificate fails, nothing is written: the request stays as it was. */
  lemma ApproveInsertFailureChangesNothing(t: Tables, reqID: Id, admin: User, now: Time,
                                           addOneYear: Time -> Time, newId: Id, faults: Faults)
    requires reqID in t.requests && IsPending(t.requests[reqID])
    requires ReadRequestByID !in faults && InsertCertificate in faults
    ensures var s := ApproveStep(t, reqID, admin, now, addOneYear, newId, faults);
      s.tables == t && s.result == Failure(Wrapped(CreateCertificateContext, Failed(faults[InsertCertificate])))
  {
  }

  /** As written, the two saves are separate: when the request save fails after the certificate
      was created, the certificate stays and the request still reads as pending. */
  lemma ApproveSaveFailureLeavesRequestPending(t: Tables, reqID: Id, admin: User, now: Time,
                                               addOneYear: Time -> Time, newId: Id, faults: Faults)
    requires reqID in t.requests && IsPending(t.requests[reqID])
    requires ReadRequestByID !in faults && InsertCertificate !in faults && SaveRequest in faults
    ensures var s := ApproveStep(t, reqID, admin, now, addOneYear, newId, faults);
      s.result.Failure? &&
      s.tables.certificates == t.certificates[newId := IssuedFrom(t.requests[reqID], now, addOneYear)] &&
      s.tables.requests == t.requests && IsPending(s.tables.requests[reqID])
  {
  }

  /** So approving again after such a failure issues a second certificate for the same request. */
  lemma RetriedApprovalIssuesSecondCertificate(
    t: Tables, reqID: Id, admin: User, now: Time, later: Time, addOneYear: Time -> Time,
    firstId: Id, secondId: Id, faults: Faults)
    requires reqID in t.requests && IsPending(t.requests[reqID])
    requires ReadRequestByID !in faults && InsertCertificate !in faults && SaveRequest in faults
    requires firstId !in t.certificates && secondId !in t.certificates && firstId != secondId
    ensures var first := ApproveStep(t, reqID, admin, now, addOneYear, firstId, faults);
      var second := ApproveStep(first.tables, reqID, admin, later, addOneYear, secondId, map[]);
      second.result.Success? &&
      |second.tables.certificates| == |t.certificates| + 2 &&
      second.tables.certificates[firstId].ownerID == t.requests[reqID].userID &&
      second.tables.certificates[secondId].ownerID == t.requests[reqID].userID &&
      second.tables.certificates[firstId].status == Valid &&
      second.tables.certificates[secondId].status == Valid
  {
    var first := ApproveStep(t, reqID, admin, now, addOneYear, firstId, faults);
    ApproveSaveFailureLeavesRequestPending(t, reqID, admin, now, addOneYear, firstId, faults);
    assert firstId in first.tables.certificates && secondId !in first.tables.certificates;
    ApproveIssuesOneCertificate(first.tables, reqID, admin, later, addOneYear, secondId, map[]);
    assert |first.tables.certificates.Keys| == |t.certificates.Keys| + 1;
  }

  /** Approval either fails without writing anything, or fails in the request save with only the
      certificate written, or succeeds. */
  lemma ApproveErrorWritesAtMostTheCertificate(t: Tables, reqID: Id, admin: User, now: Time,
                                               addOneYear: Time -> Time, newId: Id, faults: Faults)
    ensures var s := ApproveStep(t, reqID, admin, now, addOneYear, newId, faults);
      s.result.Failure? && !(s.result.error.Wrapped? && s.result.error.context == UpdateRequestContext) ==>
      s.tables == t
    ensures var s := ApproveStep(t, reqID, admin, now, addOneYear, newId, faults);
      s.result.Failure? ==> s.tables.requests == t.requests
  {
  }

  // ---------------------------------------------------------------- RejectCertificateRequest

  /** A request that is not pending is refused and nothing changes. */
  lemma RejectRefusesSettledRequest(t: Tables, reqID: Id, admin: User, reason: string, now: Time,
                                    faults: Faults)
    requires reqID in t.requests && !IsPending(t.requests[reqID])
    requires ReadRequestByID !in faults
    ensures RejectStep(t, reqID, admin, reason, now, faults) ==
            Step(t, Some(NotPending(t.requests[reqID].status)))
  {
  }

  /** A pending request becomes rejected, with who rejected it, when and why; nothing else
      changes. */
  lemma RejectRecordsRejection(t: Tables, reqID: Id, admin: User, reason: string, now: Time,
                               faults: Faults)
    requires reqID in t.requests && IsPending(t.requests[reqID])
    requires ReadRequestByID !in faults && SaveRequest !in faults
    ensures var s := RejectStep(t, reqID, admin, reason, now, faults);
      var q, q' := t.requests[reqID], s.tables.requests[reqID];
      s.result.None? && reqID in s.tables.requests &&
      q'.status == Rejected && q'.rejectedBy == admin.username &&
      q'.rejectedAt == Some(now) && q'.rejectedReason == reason &&
      q'.(status := q.status, rejectedBy := q.rejectedBy, rejectedAt := q.rejectedAt,
          rejectedReason := q.rejectedReason) == q &&
      s.tables.requests - {reqID} == t.requests - {reqID} &&
      s.tables.requests.Keys == t.requests.Keys
  {
  }

  /** Rejecting never touches the certificate table, and a failed rejection changes nothing. */
  lemma RejectCreatesNoCertificate(t: Tables, reqID: Id, admin: User, reason: string, now: Time,
                                   faults: Faults)
    ensures var s := RejectStep(t, reqID, admin, reason, now, faults);
      s.tables.certificates == t.certificates && (s.result.Some? ==> s.tables == t)
  {
  }

  // ---------------------------------------------------------------- scenarios

  /** Request 7 of "alice" for a "client" certificate, approved: the certificate is called
      "alice-client-cert", is valid until one year from now, and request 7 becomes valid. */
  lemma ApproveScenario(now: Time, addOneYear: Time -> Time, admin: User, newId: Id)
    requires newId != 3
    ensures var q := CertificateRequest("alice", 1, "client", Pending, "needed", "", None, "", None, "");
      var t := Tables(map[3 := Certificate("x", "server", Revoked, "bob", 2, "", 0, 0)], map[7 := q]);
      var s := ApproveStep(t, 7, admin, now, addOneYear, newId, map[]);
      s.result.Success? && s.result.value.record.name == "alice-client-cert" &&
      s.result.value.record.status == Valid && s.result.value.record.expirationDate == addOneYear(now) &&
      s.tables.requests[7].status == Valid
  {
  }

  /** Request 8 is rejected already: approving it fails with "request is not pending, current
      status: rejected" and creates no certificate. */
  lemma ApproveRejectedScenario(now: Time, addOneYear: Time -> Time, admin: User, newId: Id)
    ensures var q := CertificateRequest("carol", 4, "client", Rejected, "r", "", None, "admin", Some(0), "no");
      var t := Tables(map[], map[8 := q]);
      var s := ApproveStep(t, 8, admin, now, addOneYear, newId, map[]);
      s.result.Failure? && Message(s.result.error) == "request is not pending, current status: rejected" &&
      s.tables.certificates == map[]
  {
  }

  /** "bob" holds one expiring certificate: his tenant request fails with "certificate already
      exists for user", whatever the store's choices. */
  lemma {:induction false} ExpiringCertificateScenario(s: Step<Result<Keyed<CertificateRequest>, Error>>)
    requires var t := Tables(map[5 := Certificate("bob-client-cert", "client", Expiring, "bob", 2, "", 0, 9)], map[]);
      TenantRequestAllows(t, User(2, "bob"), "client", "renew", map[], s)
    ensures s.result.Failure? && Message(s.result.error) == "certificate already exists for user"
    ensures s.tables.requests == map[]
  {
    var t := Tables(map[5 := Certificate("bob-client-cert", "client", Expiring, "bob", 2, "", 0, 9)], map[]);
    TenantRequestRefusedForOnlyActiveCertificate(t, User(2, "bob"), "client", "renew", map[], 5, s);
  }
}
