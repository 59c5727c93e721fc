/**
 * The application error type, its display text, and its conversion to a gRPC
 * status (code plus message) with the log level the conversion uses.
 */
module Errors {

  /**
   * `AppError`. For `Sqlx` and `Anyhow` the payload is the display text of the
   * wrapped library error.
   */
  datatype AppError =
    | NotFound(payload: string)
    | InvalidArgument(payload: string)
    | Internal(payload: string)
    | Unauthenticated(payload: string)
    | PermissionDenied(payload: string)
    | AlreadyExists(payload: string)
    | Sqlx(payload: string)
    | Anyhow(payload: string)

  /** The gRPC status codes the conversion produces. */
  datatype Code = NotFoundCode | InvalidArgumentCode | InternalCode | UnauthenticatedCode
                | PermissionDeniedCode | AlreadyExistsCode

  datatype Status = Status(code: Code, message: string)

  datatype LogLevel = Warn | Error

  /** The text in front of `": "` in a variant's display; `Anyhow` has none (it is transparent).
      It is never empty and holds no colon, so the first colon of a display ends it. */
  function Prefix(e: AppError): (p: string)
    requires !e.Anyhow?
    ensures p != [] && ':' !in p
  {
    match e
    case NotFound(_) => "not found"
    case InvalidArgument(_) => "invalid argument"
    case Internal(_) => "internal"
    case Unauthenticated(_) => "unauthenticated"
    case PermissionDenied(_) => "permission denied"
    case AlreadyExists(_) => "already exists"
    case Sqlx(_) => "database"
  }

  /** `Display for AppError`: `"<prefix>: <payload>"`, or the wrapped error's own text for `Anyhow`. */
  function Display(e: AppError): (s: string)
    ensures e.Anyhow? ==> s == e.payload
    ensures !e.Anyhow? ==> Prefix(e) + ": " <= s
    ensures !e.Anyhow? ==> s == Prefix(e) + ": " + e.payload
    ensures |s| >= |e.payload| && s[|s| - |e.payload|..] == e.payload
  {
    if e.Anyhow? then e.payload else Prefix(e) + ": " + e.payload
  }

  /** Errors caused by the caller are logged as warnings, the rest as errors. */
  predicate IsClientError(e: AppError) {
    e.NotFound? || e.InvalidArgument? || e.Unauthenticated? || e.PermissionDenied? || e.AlreadyExists?
  }

  /**
   * `From<AppError> for Status`: the five client variants map to the code of
   * the same name and are logged at warn level; `Internal`, `Sqlx` and
   * `Anyhow` map to `Internal` and are logged at error level. The status
   * message is always the error's display text.
   */
  function ToStatus(e: AppError): (r: (Status, LogLevel))
    ensures r.0.message == Display(e)
    ensures e.NotFound? ==> r.0.code == NotFoundCode
    ensures e.InvalidArgument? ==> r.0.code == InvalidArgumentCode
    ensures e.Unauthenticated? ==> r.0.code == UnauthenticatedCode
    ensures e.PermissionDenied? ==> r.0.code == PermissionDeniedCode
    ensures e.AlreadyExists? ==> r.0.code == AlreadyExistsCode
    ensures r.0.code == InternalCode <==> !IsClientError(e)
    ensures r.1 == Warn <==> IsClientError(e)
  {
    var text := Display(e);
    match e
    case NotFound(_) => (Status(NotFoundCode, text), Warn)
    case InvalidArgument(_) => (Status(InvalidArgumentCode, text), Warn)
    case Unauthenticated(_) => (Status(UnauthenticatedCode, text), Warn)
    case PermissionDenied(_) => (Status(PermissionDeniedCode, text), Warn)
    case AlreadyExists(_) => (Status(AlreadyExistsCode, text), Warn)
    case Internal(_) => (Status(InternalCode, text), Error)
    case Sqlx(_) => (Status(InternalCode, text), Error)
    case Anyhow(_) => (Status(InternalCode, text), Error)
  }

  /** The status message contains the error's payload (as the end of the message). */
  lemma StatusMessageEndsWithPayload(e: AppError)
    ensures Display(e) == ToStatus(e).0.message
    ensures ToStatus(e).0.message[|ToStatus(e).0.message| - |e.payload|..] == e.payload
  {
  }

  /** The error is logged at error level exactly when it surfaces as code Internal. */
  lemma ErrorLevelIffInternal(e: AppError)
    ensures ToStatus(e).1 == Error <==> ToStatus(e).0.code == InternalCode
  {
  }

  /** Index of the first `':'` in `s`, or `|s|` when there is none. */
  function FirstColon(s: string): (k: nat)
    ensures k <= |s|
    decreases |s|
  {
    if |s| == 0 || s[0] == ':' then 0 else 1 + FirstColon(s[1..])
  }

  /** In `p + ":" + t` with no colon in `p`, the first colon follows `p`. */
  lemma {:induction false} FirstColonAfter(p: string, t: string)
    requires ':' !in p
    ensures FirstColon(p + ":" + t) == |p|
    decreases |p|
  {
    if |p| > 0 {
      assert (p + ":" + t)[1..] == p[1..] + ":" + t;
      assert ':' !in p[1..];
      FirstColonAfter(p[1..], t);
    }
  }

  /** Two different variants never share a prefix. */
  lemma PrefixIdentifiesVariant(a: AppError, b: AppError)
    requires !a.Anyhow? && !b.Anyhow?
    requires Prefix(a) == Prefix(b)
    ensures a.payload == b.payload ==> a == b
  {
  }

  /** A colon-free head before the first colon is recovered exactly, and so is the tail after it. */
  lemma SplitAtFirstColon(p: string, x: string, q: string, y: string)
    requires ':' !in p && ':' !in q
    requires p + ":" + x == q + ":" + y
    ensures p == q && x == y
  {
    var s := p + ":" + x;
    FirstColonAfter(p, x);
    FirstColonAfter(q, y);
    assert p == s[..|p|] == q;
    assert x == s[|p| + 1..] == y;
  }

  /** Every prefixed display is `prefix ":" " " payload` with a colon-free prefix. */
  lemma DisplayShape(e: AppError)
    requires !e.Anyhow?
    ensures ':' !in Prefix(e)
    ensures Display(e) == Prefix(e) + ":" + (" " + e.payload)
  {
  }

  /**
   * The display text of every variant except the transparent `Anyhow`
   * determines the error: the prefix names the variant and the rest is the payload.
   */
  lemma DisplayIdentifiesError(a: AppError, b: AppError)
    requires !a.Anyhow? && !b.Anyhow?
    requires Display(a) == Display(b)
    ensures a == b
  {
    DisplayShape(a);
    DisplayShape(b);
    SplitAtFirstColon(Prefix(a), " " + a.payload, Prefix(b), " " + b.payload);
    assert a.payload == (" " + a.payload)[1..] == (" " + b.payload)[1..] == b.payload;
    PrefixIdentifiesVariant(a, b);
  }

  /** `Anyhow` is transparent: it can display exactly like a prefixed variant. */
  lemma AnyhowIsTransparent()
    ensures Display(Anyhow("not found: x")) == Display(NotFound("x"))
    ensures ToStatus(Anyhow("not found: x")).0.code != ToStatus(NotFound("x")).0.code
  {
  }
}
