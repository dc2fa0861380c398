/** Failure values shared by the model.  The application reports failures through
    message boxes or uncaught Python exceptions; here they are returned as values. */
module Wrappers {

  datatype Option<+T> = None | Some(value: T)

  /** The failures the modelled code can end in. */
  datatype Error =
    | InvalidLoanType      // no active product of that name (warning box)
    | PermissionDenied     // missing Approve / Disburse permission (warning box)
    | NotFound             // IndexError: an empty fetch result indexed with [0]
    | ZeroDivision         // ZeroDivisionError: principal / months with months == 0
    | NotNullViolation     // sqlite IntegrityError: NULL written to a NOT NULL column
    | UniqueViolation      // sqlite IntegrityError: duplicate PRIMARY KEY
    | UnknownColumn        // sqlite OperationalError: no such column
    | RangeStepZero        // ValueError: range() step argument must not be zero

  datatype Result<+T> = Success(value: T) | Failure(error: Error)

  datatype Outcome = Pass | Fail(error: Error)
}
