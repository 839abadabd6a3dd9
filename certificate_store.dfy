/** The database under the service, replaced by two in-memory tables keyed by id.
    Every store call may fail; which calls fail, and with what message, is an input. */
module CertificateStore {
  import opened CertificateModel

  /** The two tables, as one value. */
  datatype Tables = Tables(
    certificates: map<Id, Certificate>,
    requests: map<Id, CertificateRequest>)

  /** The store calls the service makes, one per call site kind. */
  datatype DbCall =
    | ReadCertificateByID
    | ReadCertificateByOwner
    | ReadPendingRequestByUser
    | ReadRequestByID
    | InsertCertificate
    | InsertRequest
    | SaveCertificate
    | SaveRequest
    | RemoveCertificate

  /** The calls that fail during one operation, each with the message it fails with. */
  type Faults = map<DbCall, string>

  function FaultAt(faults: Faults, call: DbCall): Option<string>
  {
    if call in faults then Some(faults[call]) else None
  }

  predicate OwnedBy(certificates: map<Id, Certificate>, ownerID: Id, id: Id)
  {
    id in certificates && certificates[id].ownerID == ownerID
  }

  /** A possible answer of `GetCertificateByOwnerID`: some certificate of that owner, or none
      only when the owner has none. Which one it is when there are several is not known. */
  predicate IsOwnerPick(certificates: map<Id, Certificate>, ownerID: Id, pick: Option<Id>)
  {
    match pick
    case Some(id) => OwnedBy(certificates, ownerID, id)
    case None => forall id :: id in certificates ==> certificates[id].ownerID != ownerID
  }

  predicate PendingFor(requests: map<Id, CertificateRequest>, userID: Id, id: Id)
  {
    id in requests && requests[id].userID == userID && IsPending(requests[id])
  }

  /** What `GetPendingCertificateRequestByUserID` finds: a pending request of that user. */
  predicate HasPending(requests: map<Id, CertificateRequest>, userID: Id)
  {
    exists id | id in requests :: PendingFor(requests, userID, id)
  }

  /** Every finite set of keys has a bound above all of its members, so a fresh key exists. */
  lemma {:induction false} KeyBound(keys: set<Id>) returns (bound: Id)
    ensures forall k :: k in keys ==> k < bound
  {
    if keys == {} {
      bound := 0;
    } else {
      var k0 :| k0 in keys;
      var rest := KeyBound(keys - {k0});
      bound := if k0 < rest then rest else k0 + 1;
      forall k | k in keys
        ensures k < bound
      {
        if k != k0 {
          assert k in keys - {k0};
        }
      }
    }
  }

  /** The database: one map field per table and one method per store primitive. */
  class Database {
    var certificates: map<Id, Certificate>
    var requests: map<Id, CertificateRequest>

    /** Both tables as one value. */
    function State(): Tables
      reads this
    {
      Tables(certificates, requests)
    }

    constructor ()
      ensures certificates == map[] && requests == map[]
    {
      certificates := map[];
      requests := map[];
    }

    /** `db.GetCertificateByID` */
    method GetCertificateByID(id: Id, fault: Option<string>) returns (r: Result<Certificate, DbError>)
      ensures fault.Some? ==> r == Failure(Failed(fault.value))
      ensures fault.None? && id in certificates ==> r == Success(certificates[id])
      ensures fault.None? && id !in certificates ==> r == Failure(RecordNotFound)
    {
      if fault.Some? {
        return Failure(Failed(fault.value));
      }
      if id !in certificates {
        return Failure(RecordNotFound);
      }
      return Success(certificates[id]);
    }

    /** `db.GetCertificateByOwnerID`: some certificate of that owner, chosen by the store. */
    method GetCertificateByOwnerID(ownerID: Id, fault: Option<string>)
      returns (r: Result<Keyed<Certificate>, DbError>)
      ensures fault.Some? ==> r == Failure(Failed(fault.value))
      ensures fault.None? ==> r.Success? || r == Failure(RecordNotFound)
      ensures r.Success? ==>
                OwnedBy(certificates, ownerID, r.value.id) && r.value.record == certificates[r.value.id]
      ensures fault.None? && r.Failure? ==>
                forall id :: id in certificates ==> certificates[id].ownerID != ownerID
    {
      if fault.Some? {
        return Failure(Failed(fault.value));
      }
      if id :| id in certificates && OwnedBy(certificates, ownerID, id) {
        return Success(Keyed(id, certificates[id]));
      }
      return Failure(RecordNotFound);
    }

    /** `db.GetPendingCertificateRequestByUserID`: some pending request of that user. */
    method GetPendingCertificateRequestByUserID(userID: Id, fault: Option<string>)
      returns (r: Result<Keyed<CertificateRequest>, DbError>)
      ensures fault.Some? ==> r == Failure(Failed(fault.value))
      ensures fault.None? ==> (r.Success? <==> HasPending(requests, userID))
      ensures fault.None? && r.Failure? ==> r.error == RecordNotFound
      ensures r.Success? ==>
                PendingFor(requests, userID, r.value.id) && r.value.record == requests[r.value.id]
    {
      if fault.Some? {
        return Failure(Failed(fault.value));
      }
      if id :| id in requests && PendingFor(requests, userID, id) {
        return Success(Keyed(id, requests[id]));
      }
      return Failure(RecordNotFound);
    }

    /** `db.GetCertificateRequestByID` */
    method GetCertificateRequestByID(id: Id, fault: Option<string>)
      returns (r: Result<CertificateRequest, DbError>)
      ensures fault.Some? ==> r == Failure(Failed(fault.value))
      ensures fault.None? && id in requests ==> r == Success(requests[id])
      ensures fault.None? && id !in requests ==> r == Failure(RecordNotFound)
    {
      if fault.Some? {
        return Failure(Failed(fault.value));
      }
      if id !in requests {
        return Failure(RecordNotFound);
      }
      return Success(requests[id]);
    }

    /** `db.CreateCertificate`: inserts under a key the table does not use yet. */
    method CreateCertificate(c: Certificate, fault: Option<string>) returns (r: Result<Id, DbError>)
      modifies this
      ensures requests == old(requests)
      ensures fault.Some? ==> r == Failure(Failed(fault.value)) && certificates == old(certificates)
      ensures fault.None? ==>
                r.Success? && r.value !in old(certificates) && certificates == old(certificates)[r.value := c]
    {
      if fault.Some? {
        return Failure(Failed(fault.value));
      }
      var bound := KeyBound(certificates.Keys);
      assert bound !in certificates;
      var id :| id !in certificates;
      certificates := certificates[id := c];
      return Success(id);
    }

    /** `db.CreateCertificateRequest`: inserts under a key the table does not use yet. */
    method CreateCertificateRequest(q: CertificateRequest, fault: Option<string>)
      returns (r: Result<Id, DbError>)
      modifies this
      ensures certificates == old(certificates)
      ensures fault.Some? ==> r == Failure(Failed(fault.value)) && requests == old(requests)
      ensures fault.None? ==>
                r.Success? && r.value !in old(requests) && requests == old(requests)[r.value := q]
    {
      if fault.Some? {
        return Failure(Failed(fault.value));
      }
      var bound := KeyBound(requests.Keys);
      assert bound !in requests;
      var id :| id !in requests;
      requests := requests[id := q];
      return Success(id);
    }

    /** `db.UpdateCertificate`: stores the record under its id. */
    method UpdateCertificate(id: Id, c: Certificate, fault: Option<string>) returns (err: Option<DbError>)
      modifies this
      ensures requests == old(requests)
      ensures fault.Some? ==> err == Some(Failed(fault.value)) && certificates == old(certificates)
      ensures fault.None? ==> err == None && certificates == old(certificates)[id := c]
    {
      if fault.Some? {
        return Some(Failed(fault.value));
      }
      certificates := certificates[id := c];
      return None;
    }

    /** `db.UpdateCertificateRequest`: stores the record under its id. */
    method UpdateCertificateRequest(id: Id, q: CertificateRequest, fault: Option<string>)
      returns (err: Option<DbError>)
      modifies this
      ensures certificates == old(certificates)
      ensures fault.Some? ==> err == Some(Failed(fault.value)) && requests == old(requests)
      ensures fault.None? ==> err == None && requests == old(requests)[id := q]
    {
      if fault.Some? {
        return Some(Failed(fault.value));
      }
      requests := requests[id := q];
      return None;
    }

    /** `db.DeleteCertificate`: removing a key that is absent is not an error. */
    method DeleteCertificate(id: Id, fault: Option<string>) returns (err: Option<DbError>)
      modifies this
      ensures requests == old(requests)
      ensures fault.Some? ==> err == Some(Failed(fault.value)) && certificates == old(certificates)
      ensures fault.None? ==> err == None && certificates == old(certificates) - {id}
    {
      if fault.Some? {
        return Some(Failed(fault.value));
      }
      certificates := certificates - {id};
      return None;
    }
  }
}
