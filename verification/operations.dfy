/**
 The five record operations. Each issues exactly one call to the patient table;
 whether that call succeeds is the input `storeOk`. A failing call raises a fault
 and leaves the table as it was; the handler turns every fault into a 500.
 */
module Operations {
  import opened Wrappers
  import opened Patients
  import opened Responses
  import opened Scan

  /** What an operation can raise. */
  datatype Fault = StoreFault | ParseFault | TypeFault

  /** A completed operation: its response and the table it leaves behind. */
  datatype Step = Step(response: Response, store: Store)

  type Attempt = Result<Step, Fault>

  /** Page size of a list without a `limit` query parameter. */
  const DefaultLimit: nat := 50

  /** Reads the demographic record of `id`; never writes. */
  function GetPatient(store: Store, id: string, storeOk: bool): (r: Attempt)
    ensures r.Success? <==> storeOk
    ensures r.Success? ==> r.value.store == store
    ensures r.Success? ==> (r.value.response.statusCode == 200 <==> KeyOf(id) in store)
    ensures r.Success? && KeyOf(id) in store ==> r.value.response.body == PatientData(store[KeyOf(id)])
    ensures r.Success? && KeyOf(id) !in store ==> r.value.response == PatientNotFound
  {
    if !storeOk then Failure(StoreFault)
    else if KeyOf(id) in store then Success(Step(Reply(200, PatientData(store[KeyOf(id)])), store))
    else Success(Step(PatientNotFound, store))
  }

  /**
   Scans the table for demographic records. `limit` is the already-parsed query
   parameter (None when absent); the store rejects a limit below 1.
   */
  function ListPatients(store: Store, limit: Option<nat>, order: seq<Key>, storeOk: bool): (r: Attempt)
    ensures r.Success? <==> storeOk && limit.GetOr(DefaultLimit) >= 1
    ensures r.Success? ==> r.value.store == store && r.value.response.statusCode == 200
    ensures r.Success? ==> r.value.response.body.PatientList?
    ensures r.Success? ==>
      var ps := r.value.response.body.patients;
      && r.value.response.body.count == |ps|
      && |ps| <= limit.GetOr(DefaultLimit)
      && forall i | 0 <= i < |ps| :: ps[i].recordType == PatientInfo && ps[i] in store.Values
  {
    var n := limit.GetOr(DefaultLimit);
    if !storeOk || n == 0 then Failure(StoreFault)
    else
      var ps := RecordsOf(store, MatchingKeys(store, Page(order, n)));
      Success(Step(Reply(200, PatientList(ps, |ps|)), store))
  }

  /**
   Stores a new demographic record under the generated identifier `id`. The put
   is unconditional: an item already under that key would be replaced.
   */
  function CreatePatient(store: Store, data: Fields, id: string, now: string, storeOk: bool): (r: Attempt)
    ensures r.Success? <==> storeOk
    ensures r.Success? ==> r.value.response == Reply(201, Created(id, "Patient created successfully", now))
    ensures r.Success? ==> r.value.store.Keys == store.Keys + {KeyOf(id)}
    ensures r.Success? ==> forall k | k in store && k != KeyOf(id) :: r.value.store[k] == store[k]
    ensures r.Success? ==> r.value.store[KeyOf(id)] == NewPatient(id, data, now)
  {
    if !storeOk then Failure(StoreFault)
    else
      Success(Step(Reply(201, Created(id, "Patient created successfully", now)),
                   store[KeyOf(id) := NewPatient(id, data, now)]))
  }

  /**
   Updates the demographic record of `id` in place and reports the new version.
   How the store treats an update of an absent key is not fixed by the handler:
   `absent` is None when the store rejects it, or the item the store then holds.
   */
  function UpdatePatient(store: Store, id: string, data: Fields, now: string, storeOk: bool,
                         absent: Option<Patient>): (r: Attempt)
    ensures r.Success? <==> storeOk && (KeyOf(id) in store || absent.Some?)
    ensures r.Success? ==> r.value.store.Keys == store.Keys + {KeyOf(id)}
    ensures r.Success? ==> forall k | k in store && k != KeyOf(id) :: r.value.store[k] == store[k]
    ensures r.Success? ==>
      r.value.response == Reply(200, Updated(id, "Patient updated successfully", now,
                                             r.value.store[KeyOf(id)].version))
    ensures r.Success? && KeyOf(id) in store ==>
      r.value.store[KeyOf(id)] == ApplyUpdate(store[KeyOf(id)], data, now)
    ensures r.Success? && WellKeyed(store) ==> WellKeyed(r.value.store)
    ensures r.Success? && KeyOf(id) !in store ==>
      (r.value.store[KeyOf(id)].patientId, r.value.store[KeyOf(id)].recordType) == KeyOf(id)
  {
    if !storeOk then Failure(StoreFault)
    else if KeyOf(id) in store then
      var p := ApplyUpdate(store[KeyOf(id)], data, now);
      Success(Step(Reply(200, Updated(id, "Patient updated successfully", now, p.version)),
                   store[KeyOf(id) := p]))
    else
      match absent
      case None => Failure(StoreFault)
      case Some(q) =>
        var p := q.(patientId := id, recordType := PatientInfo);
        Success(Step(Reply(200, Updated(id, "Patient updated successfully", now, p.version)),
                     store[KeyOf(id) := p]))
  }

  /** Deletes the demographic record of `id`; an absent key is not an error. */
  function DeletePatient(store: Store, id: string, now: string, storeOk: bool): (r: Attempt)
    ensures r.Success? <==> storeOk
    ensures r.Success? ==> r.value.response == Reply(200, Deleted(id, "Patient deleted successfully", now))
    ensures r.Success? ==> r.value.store.Keys == store.Keys - {KeyOf(id)}
    ensures r.Success? ==> forall k | k in r.value.store :: r.value.store[k] == store[k]
  {
    if !storeOk then Failure(StoreFault)
    else Success(Step(Reply(200, Deleted(id, "Patient deleted successfully", now)), store - {KeyOf(id)}))
  }
}
