/** The service operations of internal/op/certificate.go over the `Database` class: each one
    reads a record, decides, changes the record in memory and writes it back. Each is proved to
    do what the matching function of CertificateTransitions says. */
module CertificateOps {
  import opened CertificateModel
  import opened CertificateStore
  import opened CertificateTransitions

  /** `GetCertificateForTenant`: a not-found from the store becomes "no certificate" without an
      error; any other store error is returned as it is; a found certificate is returned. */
  method GetCertificateForTenant(db: Database, ownerID: Id, faults: Faults)
    returns (r: Result<Option<Keyed<Certificate>>, Error>)
    ensures ReadCertificateByOwner in faults ==>
              r == Failure(Store(Failed(faults[ReadCertificateByOwner])))
    ensures r == Success(None) <==>
              ReadCertificateByOwner !in faults &&
              forall id :: id in db.certificates ==> db.certificates[id].ownerID != ownerID
    ensures r.Success? && r.value.Some? ==>
              OwnedBy(db.certificates, ownerID, r.value.value.id) &&
              r.value.value.record == db.certificates[r.value.value.id]
    ensures ReadCertificateByOwner !in faults ==> r.Success?
  {
    var found := db.GetCertificateByOwnerID(ownerID, FaultAt(faults, ReadCertificateByOwner));
    if found.Failure? {
      if found.error != RecordNotFound {
        r := Failure(Store(found.error));
      } else {
        r := Success(None);
      }
    } else {
      r := Success(Some(found.value));
    }
  }

  /** `UpdateCertificateDetails` */
  method UpdateCertificateDetails(db: Database, id: Id, name: string, expiration: Time, faults: Faults)
    returns (r: Details)
    modifies db
    ensures Step(db.State(), r) == UpdateDetailsStep(old(db.State()), id, name, expiration, faults)
  {
    var loaded := db.GetCertificateByID(id, FaultAt(faults, ReadCertificateByID));
    if loaded.Failure? {
      r := Details(None, Some(Store(loaded.error)));
    } else {
      var cert := loaded.value;
      cert := cert.(name := name);
      cert := cert.(expirationDate := expiration);
      var err := db.UpdateCertificate(id, cert, FaultAt(faults, SaveCertificate));
      r := Details(Some(cert), if err.Some? then Some(Store(err.value)) else None);
    }
  }

  /** `RevokeCertificate` */
  method RevokeCertificate(db: Database, id: Id, faults: Faults) returns (err: Option<Error>)
    modifies db
    ensures Step(db.State(), err) == RevokeStep(old(db.State()), id, faults)
  {
    var loaded := db.GetCertificateByID(id, FaultAt(faults, ReadCertificateByID));
    if loaded.Failure? {
      err := Some(Store(loaded.error));
    } else {
      var cert := loaded.value.(status := Revoked);
      var saved := db.UpdateCertificate(id, cert, FaultAt(faults, SaveCertificate));
      err := if saved.Some? then Some(Store(saved.value)) else None;
    }
  }

  /** `DeleteCertificate` */
  method DeleteCertificate(db: Database, id: Id, faults: Faults) returns (err: Option<Error>)
    modifies db
    ensures Step(db.State(), err) == DeleteStep(old(db.State()), id, faults)
  {
    var removed := db.DeleteCertificate(id, FaultAt(faults, RemoveCertificate));
    err := if removed.Some? then Some(Store(removed.value)) else None;
  }

  /** `CreateTenantCertificateRequest`: the certificate check comes before the pending check. */
  method CreateTenantCertificateRequest(db: Database, user: User, certType: CertificateType,
                                        reason: string, faults: Faults)
    returns (r: Result<Keyed<CertificateRequest>, Error>)
    modifies db
    ensures TenantRequestAllows(old(db.State()), user, certType, reason, faults, Step(db.State(), r))
  {
    ghost var before := db.State();
    var bound := KeyBound(db.requests.Keys);
    ghost var newId: Id := bound;
    var existing := db.GetCertificateByOwnerID(user.id, FaultAt(faults, ReadCertificateByOwner));
    // The answer of the lookup; when the lookup fails, any answer the store could have given.
    ghost var pick: Option<Id> := None;
    if existing.Success? {
      pick := Some(existing.value.id);
    } else if id :| id in before.certificates && OwnedBy(before.certificates, user.id, id) {
      pick := Some(id);
    }
    if existing.Failure? && existing.error != RecordNotFound {
      r := Failure(Wrapped(CheckExistingCertificate, existing.error));
    } else if existing.Success? && IsActive(existing.value.record.status) {
      r := Failure(CertificateExists);
    } else {
      var pending := db.GetPendingCertificateRequestByUserID(user.id, FaultAt(faults, ReadPendingRequestByUser));
      if pending.Failure? && pending.error != RecordNotFound {
        r := Failure(Wrapped(CheckPendingRequest, pending.error));
      } else if pending.Success? {
        r := Failure(RequestPending);
      } else {
        var request := NewTenantRequest(user, certType, reason);
        var created := db.CreateCertificateRequest(request, FaultAt(faults, InsertRequest));
        if created.Failure? {
          r := Failure(Store(created.error));
        } else {
          newId := created.value;
          r := Success(Keyed(created.value, request));
        }
      }
    }
    assert IsOwnerPick(before.certificates, user.id, pick) && newId !in before.requests;
    assert Step(db.State(), r) == TenantRequestStep(before, user, certType, reason, pick, newId, faults);
  }

  /** `ApproveAndCreateCertificate`: the certificate is saved first, then the request. */
  method ApproveAndCreateCertificate(db: Database, reqID: Id, admin: User, now: Time,
                                     addOneYear: Time -> Time, faults: Faults)
    returns (r: Result<Keyed<Certificate>, Error>)
    modifies db
    ensures ApproveAllows(old(db.State()), reqID, admin, now, addOneYear, faults, Step(db.State(), r))
  {
    ghost var before := db.State();
    var bound := KeyBound(db.certificates.Keys);
    ghost var newId: Id := bound;
    var loaded := db.GetCertificateRequestByID(reqID, FaultAt(faults, ReadRequestByID));
    if loaded.Failure? {
      r := Failure(Wrapped(GetRequest(reqID), loaded.error));
    } else if !IsPending(loaded.value) {
      r := Failure(NotPending(loaded.value.status));
    } else {
      var req := loaded.value;
      var cert := IssuedFrom(req, now, addOneYear);
      req := req.(status := Valid, approvedBy := admin.username, approvedAt := Some(now));
      var created := db.CreateCertificate(cert, FaultAt(faults, InsertCertificate));
      if created.Failure? {
        r := Failure(Wrapped(CreateCertificateContext, created.error));
      } else {
        newId := created.value;
        var saved := db.UpdateCertificateRequest(reqID, req, FaultAt(faults, SaveRequest));
        if saved.Some? {
          r := Failure(Wrapped(UpdateRequestContext, saved.value));
        } else {
          r := Success(Keyed(created.value, cert));
        }
      }
    }
    assert newId !in before.certificates;
    assert Step(db.State(), r) == ApproveStep(before, reqID, admin, now, addOneYear, newId, faults);
  }

  /** `RejectCertificateRequest` */
  method RejectCertificateRequest(db: Database, reqID: Id, admin: User, reason: string, now: Time,
                                  faults: Faults)
    returns (err: Option<Error>)
    modifies db
    ensures Step(db.State(), err) == RejectStep(old(db.State()), reqID, admin, reason, now, faults)
  {
    var loaded := db.GetCertificateRequestByID(reqID, FaultAt(faults, ReadRequestByID));
    if loaded.Failure? {
      err := Some(Wrapped(GetRequest(reqID), loaded.error));
    } else if !IsPending(loaded.value) {
      err := Some(NotPending(loaded.value.status));
    } else {
      var req := loaded.value;
      req := req.(status := Rejected);
      req := req.(rejectedBy := admin.username);
      req := req.(rejectedAt := Some(now));
      req := req.(rejectedReason := reason);
      var saved := db.UpdateCertificateRequest(reqID, req, FaultAt(faults, SaveRequest));
      err := if saved.Some? then Some(Store(saved.value)) else None;
    }
  }

  /** A caller of the operations: once a request is approved, rejecting it is refused with the
      request's new status, and the rejection writes nothing. */
  method ApproveThenReject(db: Database, reqID: Id, admin: User, now: Time, addOneYear: Time -> Time,
                           reason: string, later: Time)
    returns (approved: Result<Keyed<Certificate>, Error>, rejected: Option<Error>)
    requires reqID in db.requests && IsPending(db.requests[reqID])
    modifies db
    ensures approved.Success? && rejected == Some(NotPending(Valid))
    ensures approved.value.id in db.certificates && db.certificates[approved.value.id] == approved.value.record
    ensures reqID in db.requests && db.requests[reqID].status == Valid
    ensures db.requests[reqID].approvedBy == admin.username
    ensures db.requests == old(db.requests)[reqID := old(db.requests)[reqID].(status := Valid,
              approvedBy := admin.username, approvedAt := Some(now))]
    ensures approved.value.id !in old(db.certificates)
    ensures db.certificates == old(db.certificates)[approved.value.id := approved.value.record]
  {
    ghost var before := db.State();
    approved := ApproveAndCreateCertificate(db, reqID, admin, now, addOneYear, map[]);
    ghost var newId: Id :| newId !in before.certificates &&
      Step(db.State(), approved) == ApproveStep(before, reqID, admin, now, addOneYear, newId, map[]);
    ghost var middle := db.State();
    rejected := RejectCertificateRequest(db, reqID, admin, reason, later, map[]);
    assert db.State() == middle;
  }
}
