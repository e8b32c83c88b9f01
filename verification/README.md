# Patient-record request handler, modelled in Dafny

This project models the one component of the tech-health service with behaviour
of its own: the patient-record request handler (`lambda/patient-handler/index.ts`).
The handler takes an HTTP-style request (verb, path, `patientId` path parameter,
`limit` query parameter, JSON body, caller metadata). It then does four things:

1. It writes one best-effort entry to the audit table.
2. It routes the request to get, list, create, update or delete.
3. It runs that operation against the patient table. That table is keyed by
   (`patientId`, `recordType`) and uses the fixed record type `"PATIENT_INFO"`.
4. It answers with a JSON envelope: status 200, 201, 404 or 500, and always the headers
   `Content-Type: application/json` and `Access-Control-Allow-Origin: *`.

The handler is modelled as a pure function
`Handler.Handle(request, store, log, env) -> Outcome(response, store', log')`.
The patient table is a `map<Key, Patient>` and the audit table a `seq<AuditEntry>`.
Everything the handler draws from outside is a field of `Env`:

- the generated identifiers (`uuidv4`) and clock readings;
- whether the audit write and the single patient-table call succeed;
- what JSON parsing yields for a non-empty body (None when parsing, or reading the parsed value, throws);
- the order in which the store scans its items;
- what the store does when an update targets an absent key.

Modules, leaf first:

- `Wrappers` — `Option` and `Result`.
- `Patients` — the key, the `Patient` record, the create and update effects on one record.
- `Audit` — the audit entry and the swallowed-failure write.
- `Responses` — the envelope and the fixed headers.
- `Scan` — the filtered, limited table scan behind list.
- `Operations` — the five operations, each one store call that may raise.
- `Handler` — routing, body parsing, the audit step and the top-level catch.
- `Properties` — round trips, idempotence, audit independence and list completeness.

Behaviour worth knowing, as the code has it:

- A path parameter counts only when present and non-empty, so `GET` with an empty
  `patientId` lists, while `PUT`/`DELETE` with one is a 404.
- `PATCH` or any verb other than the four is a 404 `{"error":"Not Found"}`, after the audit write.
- Routing ignores the path. A request for a sub-resource such as
  `/patients/{id}/records` is routed on its verb and `patientId` alone.
- The audit record is built from the caller metadata before the guarded write.
  A request without that metadata therefore raises before any audit write, and the top-level catch answers 500.
- Update and delete do not check that the key exists. Delete answers 200 either way.
  Update raises the stored version by one without comparing any version the caller holds.
- The store applies a scan's `limit` to the items it evaluates, before the
  `recordType` filter. A list can therefore return fewer demographic records than
  the limit even when more exist, but only when the table also holds other record types.

Where a reader might expect otherwise, the model follows the code:

- An update or delete of an absent key is not a 404.
- A malformed `limit` does not fall back to 50; only an absent or empty one does.
- A request without caller metadata gets no audit entry.

## Model

| member | source | states |
|---|---|---|
| Patients.NewPatient | lambda/patient-handler/index.ts:124-138 | a created record carries the submitted fields unvalidated, the generated id under recordType PATIENT_INFO, createdAt = updatedAt = now, version 1 |
| Patients.ApplyUpdate | lambda/patient-handler/index.ts:163-176 | an update sets first name, last name, email, phone and updatedAt, raises version by exactly one, and keeps patientId, recordType, dateOfBirth and createdAt |
| Audit.LogAuditTrail | lambda/patient-handler/index.ts:226-235 | the audit table is only appended to: one entry when the write succeeds, nothing when it fails |
| Scan.Page | lambda/patient-handler/index.ts:106 | a scan evaluates at most `limit` items, a prefix of the store's scan order |
| Scan.MatchingKeys | lambda/patient-handler/index.ts:100-105 | the scan filter keeps only stored PATIENT_INFO records, drawn from the evaluated keys, never more than were evaluated |
| Scan.MatchingKeysExact | lambda/patient-handler/index.ts:100-105 | over non-repeating keys the filter returns every PATIENT_INFO record among them exactly once |
| Scan.MatchingKeysKeepsAll | lambda/patient-handler/index.ts:100-107 | when every evaluated item is a PATIENT_INFO record the filter drops none |
| Operations.GetPatient | lambda/patient-handler/index.ts:76-97 | get reads only key (id, PATIENT_INFO): 200 with the stored item verbatim if present, 404 "Patient not found" if absent, table unchanged, a failed read raises |
| Operations.ListPatients | lambda/patient-handler/index.ts:99-121 | list answers 200 with only PATIENT_INFO records from the table, at most `limit` (default 50) of them, count equal to the number returned, table unchanged |
| Operations.CreatePatient | lambda/patient-handler/index.ts:123-158 | create puts the new record unconditionally under (id, PATIENT_INFO), touches no other key, and answers 201 with the id and createdAt |
| Operations.UpdatePatient | lambda/patient-handler/index.ts:160-192 | update on an existing key stores the updated record, touches no other key and answers 200 with the new version; on an absent key it either raises or reports what the store then holds |
| Operations.DeletePatient | lambda/patient-handler/index.ts:194-213 | delete removes only key (id, PATIENT_INFO), leaves all other records as they were, and answers 200 whether or not the key existed |
| Handler.RouteOf | lambda/patient-handler/index.ts:34-53 | routing is total: GET with an id gets, GET without lists, POST creates, PUT/DELETE with an id update/delete, and exactly the remaining cases match no route |
| Handler.ParseBody | lambda/patient-handler/index.ts:42-45 | an absent or empty body reads as `{}`; a non-empty body that does not parse raises |
| Handler.Audited | lambda/patient-handler/index.ts:215-236 | the audit entry holds verb, path, source IP, user agent and request id; missing caller metadata raises before the write |
| Handler.Dispatch | lambda/patient-handler/index.ts:34-62 | an unmatched route is a 404 "Not Found" that touches nothing; a routed operation whose store call fails raises |
| Handler.Handle | lambda/patient-handler/index.ts:25-74 | every response has the JSON and CORS headers and status 200, 201, 404 or 500; 404 and 500 leave the table unchanged; a 500 is always "Internal Server Error"; the audit write precedes dispatch; records stay keyed by their own attributes |
| Properties.AuditFailureInvisible | lambda/patient-handler/index.ts:231-235 | a failed audit write leaves response and patient table identical to a successful one |
| Properties.OneAuditEntryPerRequest | lambda/patient-handler/index.ts:31-32 | with caller metadata and a successful audit write, every request appends exactly its own audit entry, whatever the outcome |
| Properties.ReadsDoNotWrite | lambda/patient-handler/index.ts:36-40 | get and list never modify the patient table |
| Properties.MalformedBodyIsInternalError | lambda/patient-handler/index.ts:42-72 | create or update with an unparseable body answers 500 with the table untouched, the audit write still made |
| Properties.EmptyBodyCreatesEmptyRecord | lambda/patient-handler/index.ts:42 | a create without a body stores a record with no demographic fields |
| Properties.CreateAddsOneRecord | lambda/patient-handler/index.ts:140-145 | a create under a fresh id grows the table by exactly one record and preserves all others |
| Properties.CreateThenGet | lambda/patient-handler/index.ts:76-158 | a get by the id a create returned yields the submitted fields at version 1 with both timestamps equal to the creation time |
| Properties.UpdateThenGet | lambda/patient-handler/index.ts:160-192 | after an update a get sees the new fields, the unchanged dateOfBirth and createdAt, and the version one higher, as the update response reported |
| Properties.SequentialUpdates | lambda/patient-handler/index.ts:163-178 | two unchecked updates in sequence leave the second caller's fields and a version raised by two |
| Properties.DeleteIdempotent | lambda/patient-handler/index.ts:194-213 | deleting twice succeeds twice, the second changes nothing, other records survive, and a later get is a 404 |
| Properties.ListExact | lambda/patient-handler/index.ts:99-121 | over a scan order that visits no item twice, list returns exactly the PATIENT_INFO records among the first `limit` items evaluated, each once, with count equal to their number |
| Properties.ListComplete | lambda/patient-handler/index.ts:99-121 | with a limit covering the table, list returns exactly the set of PATIENT_INFO records and counts them |
| Properties.ListFillsLimit | lambda/patient-handler/index.ts:99-107 | in a table of PATIENT_INFO records only, list returns min(limit, table size) records |

## Left out

- Asynchrony and concurrency between invocations. Each request is one function application.
  Interleavings are out of scope. Sequential effects, such as last-writer-wins, are stated over consecutive requests.
- JSON serialisation and `console.error` logging. The envelope is a datatype, not text.
- Field values other than strings. A body field is either a string or absent.
- Identifier generation and clock readings. They are inputs, and no ordering between timestamps is modelled.
  So an `updatedAt` that never goes back in time is not stated.
- Parsing of the `limit` query string (`parseInt`, NaN, negative numbers). `limit` arrives already parsed as a natural number.
  An absent or empty string is None and means 50.
- Store client specifics. The store's rejection of a `limit` below 1 is modelled as a failing call (500).
  The document client's rejection of attributes that are `undefined` is covered only by the store-failure input.
  Scan paging (a 1 MB page cap, the unread continuation key) is not modelled. One scan returns every evaluated item.
- Failures after the write. A failing store call is taken to have written nothing.
- Operations.UpdatePatient: on an absent key the model does not decide between an error and a stored item. The store's behaviour there is an input.
- Operations.ListPatients: the scan order is an input and its own contract does not rule out an order that repeats an item. Properties.ListExact states the exact result for an order that visits each item once, as a real scan does.
- Path parameters other than `patientId` and query parameters other than `limit`. The handler never reads them.
- The table names read from the environment. The two tables are the `store` and `log` arguments.
