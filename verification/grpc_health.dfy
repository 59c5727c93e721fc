/**
 * The gRPC `Check` handler: it defaults an absent service name to the empty
 * name, asks the registry, turns an unknown name into a NotFound error, and
 * maps the registry's answer onto the response message.
 */
module GrpcHealth {
  import opened Wrappers
  import Health
  import Errors

  /** The wire enum for a service's status. */
  datatype ServingStatus = Serving | NotServing

  datatype CheckRequest = CheckRequest(service: Option<string>)

  datatype CheckResponse = CheckResponse(
    status: ServingStatus,
    version: string,
    uptimeSeconds: int,
    message: Option<string>)

  const TwoTo63: int := 0x8000_0000_0000_0000
  const TwoTo64: int := 0x1_0000_0000_0000_0000

  type U64 = x: int | 0 <= x < 0x1_0000_0000_0000_0000

  /** The name looked up: the request's service, or the empty name when it is absent. */
  function RequestedService(req: CheckRequest): (s: string)
    ensures req.service.None? ==> s == ""
    ensures req.service.Some? ==> s == req.service.value
  {
    req.service.GetOr("")
  }

  /** The status conversion is a bijection between the registry's and the wire's two values. */
  function ToProtoStatus(s: Health.ServiceStatus): (p: ServingStatus)
    ensures p.Serving? <==> s.Serving?
    ensures p.NotServing? <==> s.NotServing?
  {
    match s
    case Serving => Serving
    case NotServing => NotServing
  }

  /** `as i64` on a `u64`: the same 64 bits read as two's complement. */
  function AsI64(u: U64): (r: int)
    ensures -TwoTo63 <= r < TwoTo63
    ensures (r - u) % TwoTo64 == 0
    ensures u < TwoTo63 ==> r == u
  {
    if u < TwoTo63 then u else u - TwoTo64
  }

  /** The `"not found: "` display prefix and the handler's text fuse into one literal. */
  lemma NotFoundText(service: string)
    ensures "not found" + ": " + ("unknown service: " + service) == "not found: unknown service: " + service
  {
    var m := "unknown service: " + service;
    calc {
      "not found" + ": " + m;
      "not found: " + m;
      "not found: unknown service: " + service;
    }
  }

  /** The error the handler raises for a name the registry does not know. */
  function UnknownService(service: string): (e: Errors.AppError)
    ensures e.NotFound?
    ensures Errors.Display(e) == "not found: unknown service: " + service
  {
    NotFoundText(service);
    Errors.NotFound("unknown service: " + service)
  }

  /** The unknown-service error surfaces as NotFound with the text "not found: unknown service: <name>". */
  lemma UnknownServiceStatus(service: string)
    ensures Errors.ToStatus(UnknownService(service)).0
         == Errors.Status(Errors.NotFoundCode, "not found: unknown service: " + service)
  {
  }

  /**
   * `HealthService::check`. The package version and the server's uptime in
   * seconds are inputs; the error side is the gRPC status the `AppError` converts to.
   */
  function HandleCheck(
    req: CheckRequest,
    registry: Health.Registry,
    order: seq<string>,
    packageVersion: string,
    uptimeSecs: U64
  ): (r: Result<CheckResponse, Errors.Status>)
    requires Health.Enumerates(order, registry.services.Keys)
    ensures r.Err? <==> RequestedService(req) != "" && RequestedService(req) !in registry.services
    ensures r.Err? ==> r.error.code == Errors.NotFoundCode
    ensures r.Err? ==> r.error.message == "not found: unknown service: " + RequestedService(req)
    ensures r.Ok? ==>
      var h := Health.Check(registry, RequestedService(req), order).value;
      && r.value.status == ToProtoStatus(h.status)
      && r.value.message == h.message
      && r.value.version == packageVersion
      && r.value.uptimeSeconds == AsI64(uptimeSecs)
  {
    var service := RequestedService(req);
    match Health.Check(registry, service, order)
    case None =>
      UnknownServiceStatus(service);
      Err(Errors.ToStatus(UnknownService(service)).0)
    case Some(health) =>
      Ok(CheckResponse(ToProtoStatus(health.status), packageVersion, AsI64(uptimeSecs), health.message))
  }

  /** An absent or empty service name always gets an answer: the registry's aggregate. */
  lemma EmptyServiceNeverNotFound(req: CheckRequest, registry: Health.Registry, order: seq<string>,
                                  packageVersion: string, uptimeSecs: U64)
    requires req.service.None? || req.service == Some("")
    requires Health.Enumerates(order, registry.services.Keys)
    ensures HandleCheck(req, registry, order, packageVersion, uptimeSecs).Ok?
    ensures var h := Health.Aggregate(registry.services, order);
            var resp := HandleCheck(req, registry, order, packageVersion, uptimeSecs).value;
            resp.status == ToProtoStatus(h.status) && resp.message == h.message
  {
  }

  /** An absent service field is treated exactly like the empty name. */
  lemma AbsentIsEmpty(registry: Health.Registry, order: seq<string>, packageVersion: string, uptimeSecs: U64)
    requires Health.Enumerates(order, registry.services.Keys)
    ensures HandleCheck(CheckRequest(None), registry, order, packageVersion, uptimeSecs)
         == HandleCheck(CheckRequest(Some("")), registry, order, packageVersion, uptimeSecs)
  {
  }

  /** The version in a response does not depend on which service was asked about. */
  lemma VersionIndependentOfService(a: CheckRequest, b: CheckRequest, registry: Health.Registry,
                                    order: seq<string>, packageVersion: string, uptimeSecs: U64)
    requires Health.Enumerates(order, registry.services.Keys)
    requires HandleCheck(a, registry, order, packageVersion, uptimeSecs).Ok?
    requires HandleCheck(b, registry, order, packageVersion, uptimeSecs).Ok?
    ensures HandleCheck(a, registry, order, packageVersion, uptimeSecs).value.version
         == HandleCheck(b, registry, order, packageVersion, uptimeSecs).value.version
  {
  }

  /** For a reachable registry, a NotServing response carries a message and a Serving one does not. */
  lemma ResponseMessageMatchesStatus(req: CheckRequest, registry: Health.Registry, order: seq<string>,
                                     packageVersion: string, uptimeSecs: U64)
    requires Health.Valid(registry)
    requires Health.Enumerates(order, registry.services.Keys)
    requires HandleCheck(req, registry, order, packageVersion, uptimeSecs).Ok?
    ensures var resp := HandleCheck(req, registry, order, packageVersion, uptimeSecs).value;
            resp.status == NotServing <==> resp.message.Some?
  {
  }
}
