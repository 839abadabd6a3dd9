/** What each service operation of internal/op/certificate.go does to the two tables and what it
    returns, as functions. The answers the store chooses itself (which certificate an owner lookup
    returns, which key an insert uses) are parameters; `Admissible` in CertificateTraces says which
    answers the store can give. */
module CertificateTransitions {
  import opened CertificateModel
  import opened CertificateStore

  /** The tables after an operation, with what the operation returned. */
  datatype Step<+R> = Step(tables: Tables, result: R)

  /** `UpdateCertificateDetails` returns the certificate and the error side by side: on a failed
      save it returns the changed certificate together with the error. */
  datatype Details = Details(cert: Option<Certificate>, err: Option<Error>)

  function UpdateDetailsStep(t: Tables, id: Id, name: string, expiration: Time, faults: Faults)
    : Step<Details>
  {
    if ReadCertificateByID in faults then
      Step(t, Details(None, Some(Store(Failed(faults[ReadCertificateByID])))))
    else if id !in t.certificates then
      Step(t, Details(None, Some(Store(RecordNotFound))))
    else
      var c := t.certificates[id].(name := name, expirationDate := expiration);
      if SaveCertificate in faults then
        Step(t, Details(Some(c), Some(Store(Failed(faults[SaveCertificate])))))
      else
        Step(t.(certificates := t.certificates[id := c]), Details(Some(c), None))
  }

  function RevokeStep(t: Tables, id: Id, faults: Faults): Step<Option<Error>>
  {
    if ReadCertificateByID in faults then
      Step(t, Some(Store(Failed(faults[ReadCertificateByID]))))
    else if id !in t.certificates then
      Step(t, Some(Store(RecordNotFound)))
    else if SaveCertificate in faults then
      Step(t, Some(Store(Failed(faults[SaveCertificate]))))
    else
      Step(t.(certificates := t.certificates[id := t.certificates[id].(status := Revoked)]), None)
  }

  function DeleteStep(t: Tables, id: Id, faults: Faults): Step<Option<Error>>
  {
    if RemoveCertificate in faults then
      Step(t, Some(Store(Failed(faults[RemoveCertificate]))))
    else
      Step(t.(certificates := t.certificates - {id}), None)
  }

  /** `CreateTenantCertificateRequest`; `pick` is the owner lookup's answer, `newId` the key the
      insert uses. */
  function TenantRequestStep(t: Tables, user: User, certType: CertificateType, reason: string,
                             pick: Option<Id>, newId: Id, faults: Faults)
    : Step<Result<Keyed<CertificateRequest>, Error>>
    requires IsOwnerPick(t.certificates, user.id, pick)
  {
    if ReadCertificateByOwner in faults then
      Step(t, Failure(Wrapped(CheckExistingCertificate, Failed(faults[ReadCertificateByOwner]))))
    else if pick.Some? && IsActive(t.certificates[pick.value].status) then
      Step(t, Failure(CertificateExists))
    else if ReadPendingRequestByUser in faults then
      Step(t, Failure(Wrapped(CheckPendingRequest, Failed(faults[ReadPendingRequestByUser]))))
    else if HasPending(t.requests, user.id) then
      Step(t, Failure(RequestPending))
    else if InsertRequest in faults then
      Step(t, Failure(Store(Failed(faults[InsertRequest]))))
    else
      var q := NewTenantRequest(user, certType, reason);
      Step(t.(requests := t.requests[newId := q]), Success(Keyed(newId, q)))
  }

  /** `ApproveAndCreateCertificate`; `newId` is the key the certificate insert uses. The
      certificate is written before the request, so a failed request save leaves the new
      certificate in place and the request pending. */
  function ApproveStep(t: Tables, reqID: Id, admin: User, now: Time, addOneYear: Time -> Time,
                       newId: Id, faults: Faults)
    : Step<Result<Keyed<Certificate>, Error>>
  {
    if ReadRequestByID in faults then
      Step(t, Failure(Wrapped(GetRequest(reqID), Failed(faults[ReadRequestByID]))))
    else if reqID !in t.requests then
      Step(t, Failure(Wrapped(GetRequest(reqID), RecordNotFound)))
    else if !IsPending(t.requests[reqID]) then
      Step(t, Failure(NotPending(t.requests[reqID].status)))
    else if InsertCertificate in faults then
      Step(t, Failure(Wrapped(CreateCertificateContext, Failed(faults[InsertCertificate]))))
    else
      var q := t.requests[reqID];
      var c := IssuedFrom(q, now, addOneYear);
      var withCert := t.(certificates := t.certificates[newId := c]);
      if SaveRequest in faults then
        Step(withCert, Failure(Wrapped(UpdateRequestContext, Failed(faults[SaveRequest]))))
      else
        var approved := q.(status := Valid, approvedBy := admin.username, approvedAt := Some(now));
        Step(withCert.(requests := t.requests[reqID := approved]), Success(Keyed(newId, c)))
  }

  /** `RejectCertificateRequest` */
  function RejectStep(t: Tables, reqID: Id, admin: User, reason: string, now: Time, faults: Faults)
    : Step<Option<Error>>
  {
    if ReadRequestByID in faults then
      Step(t, Some(Wrapped(GetRequest(reqID), Failed(faults[ReadRequestByID]))))
    else if reqID !in t.requests then
      Step(t, Some(Wrapped(GetRequest(reqID), RecordNotFound)))
    else if !IsPending(t.requests[reqID]) then
      Step(t, Some(NotPending(t.requests[reqID].status)))
    else if SaveRequest in faults then
      Step(t, Some(Store(Failed(faults[SaveRequest]))))
    else
      var rejected := t.requests[reqID].(status := Rejected, rejectedBy := admin.username,
                                         rejectedAt := Some(now), rejectedReason := reason);
      Step(t.(requests := t.requests[reqID := rejected]), None)
  }

  /** The outcomes of `CreateTenantCertificateRequest` the store allows: some answer of the owner
      lookup and some key the table does not use yet. */
  ghost predicate TenantRequestAllows(t: Tables, user: User, certType: CertificateType, reason: string,
                                      faults: Faults, s: Step<Result<Keyed<CertificateRequest>, Error>>)
  {
    exists pick: Option<Id>, newId: Id ::
      IsOwnerPick(t.certificates, user.id, pick) && newId !in t.requests &&
      s == TenantRequestStep(t, user, certType, reason, pick, newId, faults)
  }

  /** The outcomes of `ApproveAndCreateCertificate` the store allows: some key the certificate
      table does not use yet. */
  ghost predicate ApproveAllows(t: Tables, reqID: Id, admin: User, now: Time, addOneYear: Time -> Time,
                                faults: Faults, s: Step<Result<Keyed<Certificate>, Error>>)
  {
    exists newId: Id ::
      newId !in t.certificates && s == ApproveStep(t, reqID, admin, now, addOneYear, newId, faults)
  }
}
