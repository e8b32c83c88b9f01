/** Properties that relate several requests, or one request under different circumstances. */
module Properties {
  import opened Wrappers
  import opened Patients
  import opened Audit
  import opened Responses
  import opened Scan
  import opened Operations
  import opened Handler

  /** Whether the audit write succeeds changes neither the response nor the patient table. */
  lemma AuditFailureInvisible(req: Request, store: Store, log: AuditLog, env: Env)
    ensures Handle(req, store, log, env.(auditWriteOk := false)).response
         == Handle(req, store, log, env.(auditWriteOk := true)).response
    ensures Handle(req, store, log, env.(auditWriteOk := false)).store
         == Handle(req, store, log, env.(auditWriteOk := true)).store
    ensures Handle(req, store, log, env.(auditWriteOk := false)).log == log
  {
  }

  /** Whatever the outcome, a request with caller metadata leads to exactly one audit write attempt. */
  lemma OneAuditEntryPerRequest(req: Request, store: Store, log: AuditLog, env: Env)
    requires req.context.Some? && env.auditWriteOk
    ensures var o := Handle(req, store, log, env);
      && o.log == log + [AuditEntry(env.auditId, env.auditTime, req.httpMethod, req.path,
                                    req.context.value.sourceIp, req.context.value.userAgent,
                                    req.context.value.requestId)]
  {
  }

  /** Get and list never write to the patient table. */
  lemma ReadsDoNotWrite(req: Request, store: Store, log: AuditLog, env: Env)
    requires RouteOf(req.httpMethod, req.patientId).GetOne? || RouteOf(req.httpMethod, req.patientId).ListAll?
    ensures Handle(req, store, log, env).store == store
  {
  }

  /** A non-empty body that does not parse ends in a 500 after the audit write, with the table untouched. */
  lemma MalformedBodyIsInternalError(req: Request, store: Store, log: AuditLog, env: Env)
    requires req.context.Some?
    requires RouteOf(req.httpMethod, req.patientId).CreateOne? || RouteOf(req.httpMethod, req.patientId).UpdateOne?
    requires Given(req.body) && env.parsedBody.None?
    ensures var o := Handle(req, store, log, env);
      && o.response == InternalError
      && o.store == store
      && |o.log| == |log| + (if env.auditWriteOk then 1 else 0)
  {
  }

  /** An absent or empty body is read as `{}`: a create then stores a record with no demographic fields. */
  lemma EmptyBodyCreatesEmptyRecord(req: Request, store: Store, log: AuditLog, env: Env)
    requires req.context.Some? && RouteOf(req.httpMethod, req.patientId).CreateOne?
    requires !Given(req.body) && env.storeOk
    ensures var o := Handle(req, store, log, env);
      && o.response.statusCode == 201
      && Demographics(o.store[KeyOf(env.newId)]) == NoFields
  {
  }

  /** A create under a fresh identifier adds exactly one record and leaves every other one as it was. */
  lemma CreateAddsOneRecord(req: Request, store: Store, log: AuditLog, env: Env)
    requires req.context.Some? && RouteOf(req.httpMethod, req.patientId).CreateOne?
    requires ParseBody(req.body, env.parsedBody).Success? && env.storeOk
    requires KeyOf(env.newId) !in store
    ensures var o := Handle(req, store, log, env);
      && |o.store| == |store| + 1
      && forall k | k in store :: k in o.store && o.store[k] == store[k]
  {
  }

  /** A record created and then fetched by the returned identifier comes back as stored, at version 1. */
  lemma CreateThenGet(store: Store, log: AuditLog, post: Request, envC: Env, get: Request, envG: Env)
    requires post.context.Some? && RouteOf(post.httpMethod, post.patientId).CreateOne?
    requires envC.storeOk && ParseBody(post.body, envC.parsedBody).Success?
    requires get.context.Some? && RouteOf(get.httpMethod, get.patientId) == GetOne(envC.newId)
    requires envG.storeOk
    ensures var o1 := Handle(post, store, log, envC);
      var o2 := Handle(get, o1.store, o1.log, envG);
      && o1.response == Reply(201, Created(envC.newId, "Patient created successfully", envC.now))
      && o2.response.statusCode == 200
      && o2.response.body.PatientData?
      && Demographics(o2.response.body.patient) == ParseBody(post.body, envC.parsedBody).value
      && o2.response.body.patient.version == 1
      && o2.response.body.patient.createdAt == envC.now == o2.response.body.patient.updatedAt
      && o2.store == o1.store
  {
  }

  /** An update of an existing record raises its version by one and a later get sees the new fields. */
  lemma UpdateThenGet(store: Store, log: AuditLog, put: Request, envU: Env, get: Request, envG: Env, id: string)
    requires KeyOf(id) in store
    requires put.context.Some? && RouteOf(put.httpMethod, put.patientId) == UpdateOne(id)
    requires envU.storeOk && ParseBody(put.body, envU.parsedBody).Success?
    requires get.context.Some? && RouteOf(get.httpMethod, get.patientId) == GetOne(id)
    requires envG.storeOk
    ensures var o1 := Handle(put, store, log, envU);
      var o2 := Handle(get, o1.store, o1.log, envG);
      var old_ := store[KeyOf(id)];
      var p := o2.response.body.patient;
      && o1.response.body == Updated(id, "Patient updated successfully", envU.now, old_.version + 1)
      && o2.response.statusCode == 200
      && Demographics(p) == ParseBody(put.body, envU.parsedBody).value.(dateOfBirth := old_.dateOfBirth)
      && p.version == old_.version + 1
      && p.createdAt == old_.createdAt && p.updatedAt == envU.now
      && forall k | k in store && k != KeyOf(id) :: k in o1.store && o1.store[k] == store[k]
  {
  }

  /**
   Two updates in sequence, neither checking the version: the second caller's
   values remain and the version has risen by two.
   */
  lemma SequentialUpdates(store: Store, log: AuditLog, put1: Request, env1: Env, put2: Request, env2: Env, id: string)
    requires KeyOf(id) in store
    requires put1.context.Some? && RouteOf(put1.httpMethod, put1.patientId) == UpdateOne(id)
    requires put2.context.Some? && RouteOf(put2.httpMethod, put2.patientId) == UpdateOne(id)
    requires env1.storeOk && ParseBody(put1.body, env1.parsedBody).Success?
    requires env2.storeOk && ParseBody(put2.body, env2.parsedBody).Success?
    ensures var o1 := Handle(put1, store, log, env1);
      var o2 := Handle(put2, o1.store, o1.log, env2);
      var p := o2.store[KeyOf(id)];
      && Demographics(p) == ParseBody(put2.body, env2.parsedBody).value.(dateOfBirth := store[KeyOf(id)].dateOfBirth)
      && p.version == store[KeyOf(id)].version + 2
      && p.createdAt == store[KeyOf(id)].createdAt
      && o2.response.body.version == p.version
  {
  }

  /** Deleting twice succeeds twice, the second time changing nothing, and a later get is a 404. */
  lemma DeleteIdempotent(store: Store, log: AuditLog, del: Request, env1: Env, env2: Env,
                         get: Request, envG: Env, id: string)
    requires del.context.Some? && RouteOf(del.httpMethod, del.patientId) == DeleteOne(id)
    requires env1.storeOk && env2.storeOk
    requires get.context.Some? && RouteOf(get.httpMethod, get.patientId) == GetOne(id)
    requires envG.storeOk
    ensures var o1 := Handle(del, store, log, env1);
      var o2 := Handle(del, o1.store, o1.log, env2);
      var o3 := Handle(get, o2.store, o2.log, envG);
      && o1.response.statusCode == 200 && o2.response.statusCode == 200
      && o2.store == o1.store
      && o3.response == PatientNotFound
      && forall k | k in store && k != KeyOf(id) :: k in o2.store && o2.store[k] == store[k]
  {
  }

  /**
   Over a scan order that repeats no item, a list returns exactly the
   demographic records among the first `limit` items evaluated, each once, and
   counts them. Items past the limit are never evaluated, so a demographic
   record there is not returned even when the page held other record types.
   */
  lemma {:induction false} ListExact(store: Store, order: seq<Key>, limit: nat)
    requires Distinct(order)
    requires limit >= 1
    ensures var r := ListPatients(store, Some(limit), order, true);
      var evaluated := PatientInfoAmong(store, Elements(Page(order, limit)));
      && r.Success?
      && r.value.response.body.count == |evaluated|
      && (set p | p in r.value.response.body.patients) == (set k | k in evaluated :: store[k])
  {
    var page := Page(order, limit);
    forall i, j | 0 <= i < j < |page| ensures page[i] != page[j] {
      assert page[i] == order[i] && page[j] == order[j];
    }
    var evaluated := PatientInfoAmong(store, Elements(page));
    MatchingKeysExact(store, page);
    var ks := MatchingKeys(store, page);
    DistinctCardinality(ks);
    var ps := RecordsOf(store, ks);
    assert ListPatients(store, Some(limit), order, true) == Success(Step(Reply(200, PatientList(ps, |ps|)), store));
    forall p | p in ps ensures p in (set k | k in evaluated :: store[k]) {
      var i :| 0 <= i < |ps| && ps[i] == p;
      assert ks[i] in Elements(ks);
    }
    forall k | k in evaluated ensures store[k] in (set p | p in ps) {
      assert k in Elements(ks);
      var i :| 0 <= i < |ks| && ks[i] == k;
      assert ps[i] == store[k];
    }
  }

  /**
   A list whose limit covers the whole table returns every demographic record,
   each once, and reports their number.
   */
  lemma {:induction false} ListComplete(store: Store, order: seq<Key>, limit: nat)
    requires Enumerates(order, store)
    requires limit >= |store| && limit >= 1
    ensures var r := ListPatients(store, Some(limit), order, true);
      && r.Success?
      && r.value.response.body.count == |PatientInfoKeys(store)|
      && (set p | p in r.value.response.body.patients) == (set k | k in PatientInfoKeys(store) :: store[k])
  {
    DistinctCardinality(order);
    assert |store.Keys| == |store|;
    assert Page(order, limit) == order;
    ListExact(store, order, limit);
  }

  /**
   When the table holds only demographic records, a list returns as many as the
   limit allows.
   */
  lemma {:induction false} ListFillsLimit(store: Store, order: seq<Key>, limit: nat)
    requires Enumerates(order, store)
    requires forall k | k in store :: store[k].recordType == PatientInfo
    requires limit >= 1
    ensures var r := ListPatients(store, Some(limit), order, true);
      && r.Success?
      && r.value.response.body.count == Min(limit, |store|)
  {
    DistinctCardinality(order);
    assert |store.Keys| == |store|;
    var page := Page(order, limit);
    forall i | 0 <= i < |page| ensures page[i] in store && store[page[i]].recordType == PatientInfo {
      assert page[i] == order[i];
      assert order[i] in Elements(order);
    }
    MatchingKeysKeepsAll(store, page);
  }
}
