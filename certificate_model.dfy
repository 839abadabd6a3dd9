/** Records, statuses and errors of the certificate service (internal/op/certificate.go). */
module CertificateModel {

  datatype Option<+T> = None | Some(value: T)

  datatype Result<+T, +E> = Success(value: T) | Failure(error: E)

  /** Primary keys of both tables (Go `uint`; the 64-bit width is not modelled). */
  type Id = nat

  /** An instant (Go `time.Time`); the model only copies and compares instants. */
  type Time = int

  /** `model.CertificateType` is a string type. */
  type CertificateType = string

  /** One status enumeration shared by certificates and requests. */
  datatype Status = Valid | Expiring | Revoked | Pending | Rejected

  function StatusName(s: Status): string
  {
    match s
    case Valid => "valid"
    case Expiring => "expiring"
    case Revoked => "revoked"
    case Pending => "pending"
    case Rejected => "rejected"
  }

  /** The user taken from the session: the tenant or the approving administrator. */
  datatype User = User(id: Id, username: string)

  datatype Certificate = Certificate(
    name: string,
    certType: CertificateType,
    status: Status,
    owner: string,
    ownerID: Id,
    content: string,
    issuedDate: Time,
    expirationDate: Time)

  datatype CertificateRequest = CertificateRequest(
    userName: string,
    userID: Id,
    certType: CertificateType,
    status: Status,
    reason: string,
    approvedBy: string,
    approvedAt: Option<Time>,
    rejectedBy: string,
    rejectedAt: Option<Time>,
    rejectedReason: string)

  /** A record together with the key the store gave it. */
  datatype Keyed<+T> = Keyed(id: Id, record: T)

  /** `req.IsPending()`, taken to mean that the status is pending. */
  predicate IsPending(q: CertificateRequest)
  {
    q.status == Pending
  }

  /** The statuses that block a tenant from asking for another certificate. */
  predicate IsActive(s: Status)
  {
    s == Valid || s == Expiring
  }

  /** `fmt.Sprintf("%s-%s-cert", userName, certType)`. */
  function CertificateName(userName: string, certType: CertificateType): string
  {
    userName + "-" + certType + "-cert"
  }

  /** A request as the tenant path creates it: pending, nothing approved or rejected yet. */
  function NewTenantRequest(user: User, certType: CertificateType, reason: string): CertificateRequest
  {
    CertificateRequest(user.username, user.id, certType, Pending, reason, "", None, "", None, "")
  }

  /** The certificate that approving `q` issues at `now`. */
  function IssuedFrom(q: CertificateRequest, now: Time, addOneYear: Time -> Time): Certificate
  {
    Certificate(CertificateName(q.userName, q.certType), q.certType, Valid,
                q.userName, q.userID, "", now, addOneYear(now))
  }

  /** What the store reports when a call fails. */
  datatype DbError = RecordNotFound | Failed(message: string)

  /** The context strings that `errors.Wrap` and `errors.Wrapf` put in front of a store error. */
  datatype WrapContext =
    | CheckExistingCertificate
    | CheckPendingRequest
    | GetRequest(requestID: Id)
    | CreateCertificateContext
    | UpdateRequestContext

  /** Errors returned by the service operations. */
  datatype Error =
    | Store(cause: DbError)
    | Wrapped(context: WrapContext, cause: DbError)
    | CertificateExists
    | RequestPending
    | NotPending(status: Status)

  function DbMessage(e: DbError): string
  {
    match e
    case RecordNotFound => "record not found"
    case Failed(m) => m
  }

  function Digit(d: nat): char
    requires d < 10
  {
    "0123456789"[d]
  }

  /** `%d` of a non-negative number. */
  function Decimal(n: nat): string
    decreases n
  {
    if n < 10 then [Digit(n)] else Decimal(n / 10) + [Digit(n % 10)]
  }

  function ContextText(c: WrapContext): string
  {
    match c
    case CheckExistingCertificate => "failed to check existing certificate"
    case CheckPendingRequest => "failed to check pending request"
    case GetRequest(id) => "failed to get request by id: " + Decimal(id)
    case CreateCertificateContext => "failed to create certificate"
    case UpdateRequestContext => "failed to update request"
  }

  /** The text of `err.Error()`; `errors.Wrap` joins the context and the cause with ": ". */
  function Message(e: Error): string
  {
    match e
    case Store(cause) => DbMessage(cause)
    case Wrapped(c, cause) => ContextText(c) + ": " + DbMessage(cause)
    case CertificateExists => "certificate already exists for user"
    case RequestPending => "certificate request is pending for user"
    case NotPending(s) => NotPendingPrefix() + StatusName(s)
  }

  function NotPendingPrefix(): string
  {
    "request is not pending, current status: "
  }

  /** Different statuses are reported under different names. */
  lemma StatusNameInjective(a: Status, b: Status)
    ensures StatusName(a) == StatusName(b) ==> a == b
  {
  }

  /** The not-pending error names the status the request really has: its message determines it. */
  lemma NotPendingMessageDeterminesStatus(a: Status, b: Status)
    ensures Message(NotPending(a)) == Message(NotPending(b)) ==> a == b
  {
    var p := NotPendingPrefix();
    if Message(NotPending(a)) == Message(NotPending(b)) {
      assert StatusName(a) == Message(NotPending(a))[|p|..];
      assert StatusName(b) == Message(NotPending(b))[|p|..];
      StatusNameInjective(a, b);
    }
  }

  /** The two business errors of the tenant path have distinct fixed texts, different from
      every not-pending message. */
  lemma BusinessMessagesDistinct(s: Status)
    ensures Message(CertificateExists) != Message(RequestPending)
    ensures Message(NotPending(s)) != Message(CertificateExists)
    ensures Message(NotPending(s)) != Message(RequestPending)
  {
    var m := Message(NotPending(s));
    assert m[0] == 'r';
    assert Message(CertificateExists)[0] == 'c';
    assert Message(RequestPending)[0] == 'c';
  }
}
