/** The audit trail: one best-effort entry per inbound request. */
module Audit {
  import opened Wrappers

  /** Caller and request provenance taken from the request's transport metadata. */
  datatype Provenance = Provenance(sourceIp: string, userAgent: Option<string>, requestId: string)

  /** One item of the audit table. */
  datatype AuditEntry = AuditEntry(
    auditId: string,
    timestamp: string,
    httpMethod: string,
    path: string,
    sourceIp: string,
    userAgent: Option<string>,
    requestId: string)

  /** The audit table, in order of writing; this service only ever appends. */
  type AuditLog = seq<AuditEntry>

  /** The entry written for a request with the given verb, path and provenance. */
  function AuditRecord(auditId: string, timestamp: string, httpMethod: string, path: string,
                       who: Provenance): AuditEntry
  {
    AuditEntry(auditId, timestamp, httpMethod, path, who.sourceIp, who.userAgent, who.requestId)
  }

  /**
   One write attempt to the audit table. A failed write is swallowed: the log is
   left as it was and nothing is reported to the caller.
   */
  function LogAuditTrail(log: AuditLog, entry: AuditEntry, writeOk: bool): (log': AuditLog)
    ensures log <= log'
    ensures |log'| == |log| + (if writeOk then 1 else 0)
    ensures writeOk ==> log'[|log|] == entry
  {
    if writeOk then log + [entry] else log
  }
}
