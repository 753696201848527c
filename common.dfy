/** Shared vocabulary of the workflow backend: identifiers, optional values,
    error outcomes, the status enums as the scheduling code uses them, the
    employee record (a company membership) and the timedelta helpers.

    Timestamps and durations are whole seconds (`int`); a datetime is the
    number of seconds since some fixed epoch. */
module Common {

  /** Primary keys are auto-incremented, so they are natural numbers. */
  type Id = nat

  datatype Option<T> = None | Some(value: T) {
    function GetOr(default: T): T {
      match this
      case Some(v) => v
      case None => default
    }
  }

  /** Why a validation was refused (the messages of the serializers). */
  datatype Reason =
    | StartInPast              // start date can not be earlier than current time
    | AssigneeOtherCompany     // Assignees must be of the same company
    | AccessorOtherCompany     // Accessor must be of the same company
    | AssigneeLacksPermission  // Assignee does not have permissions to update ...
    | NewAssigneeOtherCompany  // New assignee must be of the same company
    | EmployeeOtherCompany     // Employee must be of the same company

  /** The exceptions the core can raise. */
  datatype Error =
    | ValidationError(reason: Reason)
    | DoesNotExist         // Model.objects.get found no row
    | NotFound             // get_object_or_404 found no row (an HTTP 404)
    | IndexError           // queryset[0] on an empty queryset
    | KeyError             // dict[key] with a missing key
    | ValueError           // int() of a string that is not a number
    | TypeError            // arithmetic on a None value
    | IntegrityError       // a unique or foreign-key constraint refused a row
    | ProtectedError       // deleting a row that a PROTECT foreign key still references
    | FieldDoesNotExist    // _meta.get_field with an unknown name
    | UnicodeEncodeError   // Python 2 str() of unicode text with a non-ASCII character

  datatype Result<T> = Ok(value: T) | Err(error: Error)

  /** The outcome of an operation that returns nothing but may raise. */
  datatype Outcome = Pass | Fail(error: Error)

  /** Every character of the text is in the ASCII range, so Python 2's
      `str()` of it does not raise. */
  predicate IsAscii(s: string) {
    forall k :: 0 <= k < |s| ==> s[k] as int < 128
  }

  datatype TaskStatus = Upcoming | Scheduled | Ongoing | Complete

  datatype WorkflowStatus = Initiated | Scheduled | InProgress | Complete

  datatype Permission = Read | ReadWrite

  /** A user's membership record in a company (UserCompany). */
  datatype Employee = Employee(company: Id, isAdmin: bool)

  const SecondsPerHour: int := 3600
  const SecondsPerDay: int := 86400

  /** `timedelta(hours=h)` in seconds. */
  function Hours(h: int): int {
    h * SecondsPerHour
  }

  /** The `.seconds` attribute of a timedelta of `d` seconds: Python normalises a
      timedelta so that `0 <= seconds < 86400` and the whole days go to `.days`,
      so `.seconds` drops whole days (and wraps a negative delta into the day). */
  function TimedeltaSeconds(d: int): (s: int)
    ensures 0 <= s < SecondsPerDay
    ensures 0 <= d < SecondsPerDay ==> s == d
    ensures exists days :: d == days * SecondsPerDay + s
  {
    var s := d % SecondsPerDay;
    assert d == (d / SecondsPerDay) * SecondsPerDay + s;
    s
  }
}
