/** The records the service stores and returns (package com.mindex.challenge.data). */
module Data {
  import opened Wrappers

  /** An employee record. Every field may be null in Java; a direct-report
      entry is itself an (often incomplete) Employee, or null. A "stub" is an
      entry whose only populated field is its employeeId. */
  datatype Employee = Employee(
    employeeId: Option<string>,
    firstName: Option<string>,
    lastName: Option<string>,
    position: Option<string>,
    department: Option<string>,
    directReports: Option<seq<Option<Employee>>>)

  /** A subordinate reference that carries only an identifier. */
  function Stub(id: string): Employee
  {
    Employee(Some(id), None, None, None, None, None)
  }

  /** java.util.Date, kept as the milliseconds since the epoch it wraps. */
  datatype Date = Date(millis: int)

  /** A salary record attached to the employee it embeds. */
  datatype Compensation = Compensation(employee: Employee, salary: int, effectiveDate: Date)

  /** The computed, never stored, view returned by the reporting-structure query. */
  datatype ReportingStructure = ReportingStructure(employee: Employee, numberOfReports: int)

  /** The message-free counterpart of the RuntimeExceptions the service throws. */
  datatype ServiceError =
    | InvalidEmployeeId(id: string)
    | InvalidCompensationId(id: string)
}
