/**
 The request handler: one best-effort audit write, routing to one of the five
 operations, and the top-level catch that turns every fault into a 500.
 */
module Handler {
  import opened Wrappers
  import opened Patients
  import opened Audit
  import opened Responses
  import opened Operations

  /**
   An inbound request. `patientId` is the path parameter, `limit` the already
   parsed query parameter, `body` the raw body text, and `context` the
   transport metadata (None when the request carries no caller identity).
   */
  datatype Request = Request(
    httpMethod: string,
    path: string,
    patientId: Option<string>,
    limit: Option<nat>,
    body: Option<string>,
    context: Option<Provenance>)

  /**
   Everything a request draws from outside the handler: generated identifiers,
   clock readings, whether each store call succeeds, what JSON parsing yields
   for a non-empty body (None when parsing, or reading the
   parsed value, throws), the order in which the store
   scans its items, and what the store does with an update of an absent key.
   */
  datatype Env = Env(
    auditId: string,
    auditTime: string,
    auditWriteOk: bool,
    newId: string,
    now: string,
    storeOk: bool,
    parsedBody: Option<Fields>,
    scanOrder: seq<Key>,
    absentUpdate: Option<Patient>)

  /** The response together with the two tables after the request. */
  datatype Outcome = Outcome(response: Response, store: Store, log: AuditLog)

  datatype Route =
    | GetOne(id: string)
    | ListAll
    | CreateOne
    | UpdateOne(id: string)
    | DeleteOne(id: string)
    | NoRoute

  /** A path parameter counts only when present and non-empty. */
  predicate Given(p: Option<string>) {
    p.Some? && p.value != ""
  }

  /** The routing table, a total function of the verb and the path parameter. */
  function RouteOf(httpMethod: string, patientId: Option<string>): (r: Route)
    ensures r == NoRoute <==>
      || httpMethod !in {"GET", "POST", "PUT", "DELETE"}
      || (httpMethod in {"PUT", "DELETE"} && !Given(patientId))
    ensures r.GetOne? || r.UpdateOne? || r.DeleteOne? ==> Some(r.id) == patientId && Given(patientId)
    ensures r.GetOne? <==> httpMethod == "GET" && Given(patientId)
    ensures r.ListAll? <==> httpMethod == "GET" && !Given(patientId)
    ensures r.CreateOne? <==> httpMethod == "POST"
    ensures r.UpdateOne? <==> httpMethod == "PUT" && Given(patientId)
    ensures r.DeleteOne? <==> httpMethod == "DELETE" && Given(patientId)
  {
    if httpMethod == "GET" then
      if Given(patientId) then GetOne(patientId.value) else ListAll
    else if httpMethod == "POST" then CreateOne
    else if httpMethod == "PUT" && Given(patientId) then UpdateOne(patientId.value)
    else if httpMethod == "DELETE" && Given(patientId) then DeleteOne(patientId.value)
    else NoRoute
  }

  /**
   The body as the operations see it: an absent or empty body reads as `{}`;
   any other text is parsed, and a parse that throws raises a fault.
   */
  function ParseBody(body: Option<string>, parsed: Option<Fields>): (r: Result<Fields, Fault>)
    ensures !Given(body) ==> r == Success(NoFields)
    ensures r.Failure? <==> Given(body) && parsed.None?
    ensures Given(body) && parsed.Some? ==> r == Success(parsed.value)
  {
    if !Given(body) then Success(NoFields)
    else match parsed
      case Some(f) => Success(f)
      case None => Failure(ParseFault)
  }

  /**
   The audit step. The entry is built from the transport metadata before the
   guarded write, so a request without it raises; a failed write is swallowed.
   */
  function Audited(req: Request, log: AuditLog, env: Env): (r: Result<AuditLog, Fault>)
    ensures r.Failure? <==> req.context.None?
    ensures r.Success? ==>
      r.value == LogAuditTrail(log, AuditRecord(env.auditId, env.auditTime, req.httpMethod,
                                                req.path, req.context.value), env.auditWriteOk)
  {
    match req.context
    case None => Failure(TypeFault)
    case Some(who) =>
      Success(LogAuditTrail(log, AuditRecord(env.auditId, env.auditTime, req.httpMethod, req.path, who),
                            env.auditWriteOk))
  }

  /** Runs the operation the route selects; an unmatched route is a 404, not a fault. */
  function Dispatch(req: Request, store: Store, env: Env): (r: Attempt)
    ensures RouteOf(req.httpMethod, req.patientId) == NoRoute ==> r == Success(Step(NotFound, store))
    ensures r.Success? ==> r.value.response.headers == JsonHeaders
    ensures r.Success? ==> r.value.response.statusCode in {200, 201, 404}
    ensures r.Success? && r.value.response.statusCode == 404 ==> r.value.store == store
    ensures RouteOf(req.httpMethod, req.patientId) != NoRoute && !env.storeOk ==> r.Failure?
    ensures WellKeyed(store) && r.Success? ==> WellKeyed(r.value.store)
  {
    match RouteOf(req.httpMethod, req.patientId)
    case GetOne(id) => GetPatient(store, id, env.storeOk)
    case ListAll => ListPatients(store, req.limit, env.scanOrder, env.storeOk)
    case CreateOne =>
      (match ParseBody(req.body, env.parsedBody)
       case Failure(e) => Failure(e)
       case Success(data) => CreatePatient(store, data, env.newId, env.now, env.storeOk))
    case UpdateOne(id) =>
      (match ParseBody(req.body, env.parsedBody)
       case Failure(e) => Failure(e)
       case Success(data) => UpdatePatient(store, id, data, env.now, env.storeOk, env.absentUpdate))
    case DeleteOne(id) => DeletePatient(store, id, env.now, env.storeOk)
    case NoRoute => Success(Step(NotFound, store))
  }

  /**
   Handles one request against the patient table `store` and the audit table
   `log`. No fault escapes: every path yields a JSON response.
   */
  function Handle(req: Request, store: Store, log: AuditLog, env: Env): (o: Outcome)
    ensures o.response.headers == JsonHeaders
    ensures o.response.statusCode in {200, 201, 404, 500}
    ensures o.response.statusCode == 500 ==> o.response == InternalError && o.store == store
    ensures o.response.statusCode == 404 ==> o.store == store
    ensures req.context.None? ==> o == Outcome(InternalError, store, log)
    ensures req.context.Some? ==>
      o.log == LogAuditTrail(log, AuditRecord(env.auditId, env.auditTime, req.httpMethod,
                                              req.path, req.context.value), env.auditWriteOk)
    ensures req.context.Some? && RouteOf(req.httpMethod, req.patientId) == NoRoute ==>
      o.response == NotFound
    ensures req.context.Some? && RouteOf(req.httpMethod, req.patientId) != NoRoute && !env.storeOk ==>
      o.response == InternalError
    ensures WellKeyed(store) ==> WellKeyed(o.store)
  {
    match Audited(req, log, env)
    case Failure(_) => Outcome(InternalError, store, log)
    case Success(log') =>
      match Dispatch(req, store, env)
      case Failure(_) => Outcome(InternalError, store, log')
      case Success(step) => Outcome(step.response, step.store, log')
  }
}
