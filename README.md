# Certificate service model

A Dafny model of the certificate service layer of the file-listing server
(`internal/op/certificate.go`). The service manages two kinds of records:

- **certificates**, with a name, a type, a status, an owner, content and issue and expiration dates;
- **certificate requests**, made by a tenant, with a type and a reason. An administrator approves
  or rejects each request.

Every operation reads a record from the database, decides, changes the record and writes it back.
The database is replaced by two in-memory tables, each a map from id to record:

- `CertificateModel` (`certificate_model.dfy`): the records, the shared status enumeration, the
  errors and their message texts. It also holds the certificate name `<user>-<type>-cert` and
  the "valid or expiring" test.
- `CertificateStore` (`certificate_store.dfy`): the class `Database`. It has the two map fields
  and one method per database primitive the service calls. Each primitive may fail with a
  message. Which calls fail is an input, `Faults`, a map from call kind to message.
- `CertificateTransitions` (`certificate_transitions.dfy`): one function per service operation.
  Each gives the tables afterwards and the returned value. The store's own choices are
  parameters:
  - which certificate the owner lookup returns when the owner has several;
  - which fresh key an insert uses.

  `TenantRequestAllows` and `ApproveAllows` quantify over the choices the store can make.
- `CertificateOps` (`certificate_ops.dfy`): the service operations as methods over a `Database`.
  Each loads a record, updates it in memory and writes it back, as the Go code does. Each of the
  six state-changing operations is proved to produce exactly the outcome of its transition
  function. The read-only `GetCertificateForTenant` is specified against the certificate table
  directly.
- `CertificateProperties` (`certificate_properties.dfy`): what each single call promises. This
  covers frame conditions, the three outcomes of tenant request creation, the approve and reject
  guards, revoke idempotence, the partial state a failed second write of approval leaves, and
  worked scenarios.
- `CertificateTraces` (`certificate_traces.dfy`): sequences of calls to the six state-changing
  service operations modelled here. Proved by induction:
  - no user gets two pending requests;
  - requests move only from pending to valid or to rejected;
  - a request that has left pending never changes again.

  Also proved: among these operations only approval adds a certificate. The admin path inserts
  through the store aliases directly (lines 17 and 63), with no guard. Those inserts are not among
  these operations and can break the first fact and the approval-only fact.

Modelling decisions:

- `time.Now()` becomes an input `now`. `AddDate(1, 0, 0)` becomes an uninterpreted function
  parameter `addOneYear`.
- `req.IsPending()` is taken to mean that the status is pending.
- The status texts are taken to be the lower-case words `valid`, `expiring`, `revoked`,
  `pending` and `rejected`. The model package that defines them is not part of this model.
- The owner lookup returns any certificate of that owner. It returns not-found only when the
  owner has none.
- Inserts use some key the table does not yet contain.
- Deleting an absent id is taken to succeed, as an ORM delete of no rows does.

The code tells a not-found apart from other store errors at lines 25, 69 and 78, and the model
does the same.

## Model

| member | source | states |
|---|---|---|
| CertificateModel.NotPendingMessageDeterminesStatus | internal/op/certificate.go:109-111 | the not-pending error text names the request's real status: equal texts mean equal statuses |
| CertificateModel.BusinessMessagesDistinct | internal/op/certificate.go:72-83 | the texts "certificate already exists for user" and "certificate request is pending for user" differ from each other and from every not-pending text |
| CertificateStore.KeyBound | internal/op/certificate.go:94 | every finite key set has a bound above all keys, so a store insert always has a fresh key |
| CertificateStore.Database.GetCertificateByID | internal/op/certificate.go:35 | the stored certificate for a present id, not-found for an absent one, the store's error when the call fails |
| CertificateStore.Database.GetCertificateByOwnerID | internal/op/certificate.go:22 | some certificate owned by that owner, as stored; not-found only when the owner has none; the store's error when the call fails |
| CertificateStore.Database.GetPendingCertificateRequestByUserID | internal/op/certificate.go:77 | succeeds exactly when the user has a pending request, and returns one of them; otherwise not-found, or the store's error |
| CertificateStore.Database.GetCertificateRequestByID | internal/op/certificate.go:103 | the stored request for a present id, not-found for an absent one, the store's error when the call fails |
| CertificateStore.Database.CreateCertificate | internal/op/certificate.go:132 | inserts the certificate under a key the table does not contain and leaves the request table alone; a failing insert changes nothing |
| CertificateStore.Database.CreateCertificateRequest | internal/op/certificate.go:94 | inserts the request under a key the table does not contain and leaves the certificate table alone; a failing insert changes nothing |
| CertificateStore.Database.UpdateCertificate | internal/op/certificate.go:41 | stores the certificate under its id; a failing save changes nothing |
| CertificateStore.Database.UpdateCertificateRequest | internal/op/certificate.go:136 | stores the request under its id; a failing save changes nothing |
| CertificateStore.Database.DeleteCertificate | internal/op/certificate.go:55 | removes the id from the certificate table and nothing else |
| CertificateOps.GetCertificateForTenant | internal/op/certificate.go:21-32 | a not-found becomes "no certificate" without an error, and only when the owner has none; any other store error is returned unchanged; a found certificate is the owner's stored record |
| CertificateOps.UpdateCertificateDetails | internal/op/certificate.go:34-43 | new tables and result are those of `UpdateDetailsStep`: load, overwrite name and expiration, save; a failed save returns the changed certificate with the error |
| CertificateOps.RevokeCertificate | internal/op/certificate.go:45-52 | new tables and result are those of `RevokeStep` |
| CertificateOps.DeleteCertificate | internal/op/certificate.go:54-56 | new tables and result are those of `DeleteStep` |
| CertificateOps.CreateTenantCertificateRequest | internal/op/certificate.go:66-98 | new tables and result are those of `TenantRequestStep` for some owner-lookup answer the store can give and some fresh key |
| CertificateOps.ApproveAndCreateCertificate | internal/op/certificate.go:101-141 | new tables and result are those of `ApproveStep` for some fresh certificate key; the certificate is saved before the request |
| CertificateOps.RejectCertificateRequest | internal/op/certificate.go:144-165 | new tables and result are those of `RejectStep` |
| CertificateOps.ApproveThenReject | internal/op/certificate.go:109-154 | after a successful approval the request is valid with the approver and time recorded and nothing else in it changed; the certificate goes under a key that was not in the table and is the only change to it; a later rejection is refused with "request is not pending, current status: valid" and writes nothing |
| CertificateProperties.UpdateDetailsChangesOnlyNameAndExpiration | internal/op/certificate.go:34-43 | for an existing id, only name and expiration change, to exactly the given values; every other field, certificate and request is unchanged |
| CertificateProperties.UpdateDetailsMissingId | internal/op/certificate.go:35-38 | a missing id returns the store's not-found error and leaves the tables untouched |
| CertificateProperties.UpdateDetailsErrorChangesNothing | internal/op/certificate.go:34-43 | any error leaves the tables untouched; success exactly when the id exists and no call fails; a certificate is returned exactly when it was loaded |
| CertificateProperties.RevokeChangesOnlyStatus | internal/op/certificate.go:45-52 | for an existing id the status becomes revoked and no other field or record changes |
| CertificateProperties.RevokeErrorChangesNothing | internal/op/certificate.go:46-49 | a missing id gives not-found; every error leaves the tables untouched |
| CertificateProperties.RevokeIdempotent | internal/op/certificate.go:45-52 | revoking twice gives the same tables and answer as revoking once |
| CertificateProperties.DeleteRemovesOnlyThatCertificate | internal/op/certificate.go:54-56 | the id is absent afterwards and every other certificate and every request is unchanged |
| CertificateProperties.TenantRequestRefusedForActiveCertificate | internal/op/certificate.go:68-74 | when the owner lookup returns a valid or expiring certificate, the request fails with "certificate already exists for user" whatever the request table holds, and nothing changes |
| CertificateProperties.TenantRequestRefusedForPendingRequest | internal/op/certificate.go:77-83 | otherwise, a pending request of the user makes it fail with "certificate request is pending for user", and nothing changes |
| CertificateProperties.TenantRequestAddsOnePendingRequest | internal/op/certificate.go:85-97 | otherwise exactly one request is added under the new key: pending, with the user's id and name and the given type and reason; nothing else changes |
| CertificateProperties.TenantRequestErrorChangesNothing | internal/op/certificate.go:66-98 | every failure of tenant request creation leaves both tables untouched |
| CertificateProperties.TenantSuccessLeavesOnePending | internal/op/certificate.go:77-97 | a successful tenant request implies the user had no pending request, and afterwards the new one is the user's only pending request |
| CertificateProperties.TenantRequestRefusedForOnlyActiveCertificate | internal/op/certificate.go:68-74 | a user whose only certificate is valid or expiring is refused with "certificate already exists for user", whatever the store chooses |
| CertificateProperties.OwnerLookupMayHideActiveCertificate | internal/op/certificate.go:68-74 | for a user holding a revoked and a valid certificate, the outcome depends on which one the lookup returns: one answer grants a new request, the other refuses it |
| CertificateProperties.ApproveRefusesSettledRequest | internal/op/certificate.go:109-111 | a request that is not pending gives "request is not pending, current status: <status>"; no certificate is created and the request is unchanged |
| CertificateProperties.ApproveIssuesOneCertificate | internal/op/certificate.go:113-130 | a pending request adds exactly one certificate: name user-type-cert, the request's type, valid, owner and owner id from the request, empty content, issued now, expiring addOneYear(now). The request becomes valid with the approver and time, other fields unchanged |
| CertificateProperties.ApproveInsertFailureChangesNothing | internal/op/certificate.go:132-134 | if creating the certificate fails, both tables are unchanged: the request stays as it was |
| CertificateProperties.ApproveSaveFailureLeavesRequestPending | internal/op/certificate.go:136-138 | if saving the request fails, the new certificate stays in the table while the request is still pending |
| CertificateProperties.RetriedApprovalIssuesSecondCertificate | internal/op/certificate.go:132-138 | after such a failure, approving again issues a second valid certificate for the same request |
| CertificateProperties.ApproveErrorWritesAtMostTheCertificate | internal/op/certificate.go:101-141 | every approval error leaves the request table untouched; every error other than the failed request save leaves both tables untouched |
| CertificateProperties.RejectRefusesSettledRequest | internal/op/certificate.go:152-154 | a request that is not pending gives the not-pending error with its status and nothing changes |
| CertificateProperties.RejectRecordsRejection | internal/op/certificate.go:156-164 | a pending request becomes rejected with the rejecter's username, now and the reason; no other field or request changes |
| CertificateProperties.RejectCreatesNoCertificate | internal/op/certificate.go:144-165 | rejection never changes the certificate table, and a failed rejection changes nothing |
| CertificateProperties.ApproveScenario | internal/op/certificate.go:113-129 | request 7 of alice for a client certificate is approved as "alice-client-cert", valid until addOneYear(now), and request 7 becomes valid |
| CertificateProperties.ApproveRejectedScenario | internal/op/certificate.go:109-111 | approving rejected request 8 fails with "request is not pending, current status: rejected" and creates no certificate |
| CertificateProperties.ExpiringCertificateScenario | internal/op/certificate.go:72-74 | bob, holding one expiring certificate, is refused with "certificate already exists for user" whatever the store chooses |
| CertificateTraces.StepKeepsOnePendingPerUser | internal/op/certificate.go:77-83 | every call to one of the six state-changing service operations keeps the invariant that no user has two pending requests |
| CertificateTraces.RunKeepsOnePendingPerUser | internal/op/certificate.go:77-83 | any sequence of calls to the six state-changing service operations keeps that invariant |
| CertificateTraces.StepFollowsRequestLifecycle | internal/op/certificate.go:109-161 | no call removes a request; each leaves it unchanged or moves it from pending to valid or rejected |
| CertificateTraces.RunFollowsRequestLifecycle | internal/op/certificate.go:109-161 | over any sequence of calls every request survives and is unchanged or moved once from pending to valid or rejected |
| CertificateTraces.SettledRequestNeverChanges | internal/op/certificate.go:109-111 | once a request has left pending, no later call changes it (the guards at lines 109 and 152) |
| CertificateTraces.StepChangesCertificatesOnlyAsAllowed | internal/op/certificate.go:34-56 | a certificate that survives a call keeps its type, owner, content and issue date; its status stays or becomes revoked |
| CertificateTraces.StepIssuesCertificatesOnlyFromPendingRequests | internal/op/certificate.go:113-132 | among the six state-changing service operations, a certificate is added only by an approval: it sits under the insert's key, the approved request was pending, and the certificate is the one built from that request (the admin path's direct insert through the alias at line 17 is not among them) |
| CertificateTraces.DirectInsertMayBreakOnePendingPerUser | internal/op/certificate.go:63 | in any tables where the user already has a pending request, inserting a new pending request of that user under a key the table does not contain fails the one-pending invariant. That insert is the post-state of `Database.CreateCertificateRequest`, which the alias calls with no pending check |

## Left out

- `server/handles/certificate.go`: HTTP binding, path-id parsing, taking the user from the request
  context and response envelopes. It adds no logic beyond calling the service.
- The handler's mapping of error texts to HTTP 400 or 500 is boundary formatting. The texts
  themselves are modelled by `Message`.
- `DownloadCertificate` in the handler returns a constant placeholder text.
- The pass-through aliases to the database (lines 15-18 and 60-63) and paginated listing. Their
  behaviour lives in the database package, which is not part of this model.
- `GetTenantCertificateRequests` is one of those aliases, so it is left out too.
- The admin path calls the `CreateCertificate` and `CreateCertificateRequest` aliases directly,
  without the service's guards. The trace invariants cover the six state-changing service
  operations only. The insert primitives are modelled as `Database` methods, and
  `DirectInsertMayBreakOnePendingPerUser` shows such an insert breaking the one-pending invariant.
- The real database and ORM are replaced by the two maps. A failing call is represented by the
  `Faults` input. `errors.Is` on the not-found error becomes a match on `RecordNotFound`.
- Concurrency is left out. Two concurrent tenant requests, or two concurrent approvals, can both
  pass their checks before either writes. The model runs calls one after another.
- `time.Now()` is called three times during one approval (lines 121, 122 and 128). The model uses
  one instant `now` for all three.
- Calendar arithmetic is not modelled: "one year later" is the uninterpreted parameter `addOneYear`.
- Records do not carry their own id field: the map key is the id. Go's `uint` width is not modelled.
- The Go code returns pointers to records it has changed in memory. The model returns the record
  values; aliasing between a returned record and the stored one is not modelled.
- CertificateProperties.TenantRequestRefusedForOnlyActiveCertificate: it assumes the user owns
  only that certificate. With several, the outcome depends on which one the store returns, as
  `OwnerLookupMayHideActiveCertificate` shows.
