// A check's finding, as the pipeline passes it on.

module Checks {

  datatype Status = Healthy | Degraded | Failed | Unknown | UnlistedStatus(text: string)

  datatype Severity = Critical | Warning | Info | UnlistedSeverity(text: string)

  datatype CheckResult = CheckResult(
    checkName: string,
    category: string,
    resourceRef: string,
    status: Status,
    severity: Severity,
    message: string)
}
