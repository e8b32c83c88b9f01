/** The uniform JSON envelope every code path of the handler returns. */
module Responses {
  import opened Patients

  /** Headers carried by every response, success or failure. */
  const JsonHeaders: map<string, string> :=
    map["Content-Type" := "application/json", "Access-Control-Allow-Origin" := "*"]

  /** The JSON body: `{"error": ...}` on failure, `{"data": ...}` on success. */
  datatype Envelope =
    | Error(message: string)
    | PatientData(patient: Patient)
    | PatientList(patients: seq<Patient>, count: int)
    | Created(patientId: string, message: string, createdAt: string)
    | Updated(patientId: string, message: string, updatedAt: string, version: int)
    | Deleted(patientId: string, message: string, deletedAt: string)

  datatype Response = Response(statusCode: int, headers: map<string, string>, body: Envelope)

  /** A response with the JSON headers. */
  function Reply(statusCode: int, body: Envelope): Response {
    Response(statusCode, JsonHeaders, body)
  }

  /** The response to a request no route matches. */
  const NotFound: Response := Reply(404, Error("Not Found"))

  /** The response to any fault raised while handling a request. */
  const InternalError: Response := Reply(500, Error("Internal Server Error"))

  /** The response to a get whose key is absent. */
  const PatientNotFound: Response := Reply(404, Error("Patient not found"))
}
