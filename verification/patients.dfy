/**
 The patient table: its composite key, the demographic record stored under it,
 and the record-level effect of the create and update operations.
 */
module Patients {
  import opened Wrappers

  /** Sort-key value of the canonical demographic record. */
  const PatientInfo: string := "PATIENT_INFO"

  /** Primary key of the patient table: (patientId, recordType). */
  type Key = (string, string)

  /** The key under which the demographic record of `id` lives. */
  function KeyOf(id: string): Key {
    (id, PatientInfo)
  }

  /**
   The demographic fields of a create or update body. A JSON body is not
   validated, so each field is whatever the body carried, or None when the
   body did not carry it.
   */
  datatype Fields = Fields(
    firstName: Option<string>,
    lastName: Option<string>,
    dateOfBirth: Option<string>,
    email: Option<string>,
    phone: Option<string>)

  /** The fields of the body `{}`. */
  const NoFields: Fields := Fields(None, None, None, None, None)

  /** One item of the patient table. */
  datatype Patient = Patient(
    patientId: string,
    recordType: string,
    firstName: Option<string>,
    lastName: Option<string>,
    dateOfBirth: Option<string>,
    email: Option<string>,
    phone: Option<string>,
    createdAt: string,
    updatedAt: string,
    version: int)

  /** The patient table as a finite map from key to item. */
  type Store = map<Key, Patient>

  /** The demographic fields a record holds, in the shape of a request body. */
  function Demographics(p: Patient): Fields {
    Fields(p.firstName, p.lastName, p.dateOfBirth, p.email, p.phone)
  }

  /** Every item carries the key attributes it is stored under. */
  predicate WellKeyed(store: Store) {
    forall k | k in store :: store[k].patientId == k.0 && store[k].recordType == k.1
  }

  /**
   The record a create stores: the submitted fields copied without validation,
   a fresh identifier, both timestamps set to `now`, and the version counter at 1.
   */
  function NewPatient(id: string, data: Fields, now: string): (p: Patient)
    ensures (p.patientId, p.recordType) == KeyOf(id)
    ensures Demographics(p) == data
    ensures p.createdAt == now && p.updatedAt == now
    ensures p.version == 1
  {
    Patient(id, PatientInfo, data.firstName, data.lastName, data.dateOfBirth,
            data.email, data.phone, now, now, 1)
  }

  /**
   The record an update leaves behind: first name, last name, email and phone
   overwritten, `updatedAt` refreshed and the version raised by one, with no
   comparison against any version the caller holds.
   */
  function ApplyUpdate(p: Patient, data: Fields, now: string): (q: Patient)
    ensures Demographics(q) == data.(dateOfBirth := p.dateOfBirth)
    ensures q.updatedAt == now
    ensures q.version == p.version + 1
    ensures q.patientId == p.patientId && q.recordType == p.recordType
    ensures q.createdAt == p.createdAt
  {
    p.(firstName := data.firstName, lastName := data.lastName, email := data.email,
       phone := data.phone, updatedAt := now, version := p.version + 1)
  }
}
