/** The field validators of `ProjectCreateSchema` and `ProjectUpdateSchema`: the
    bounds on `name`, and `validate_end_date`, which runs on the raw `end_date`
    before it is parsed and compares it as a string with the already parsed
    `start_date`. Also the storage check constraint `start_date <= end_date`,
    stated as a predicate. */
module ProjectSchemas {
  import opened Wrappers
  import opened JsonValues
  import opened Dates

  // ---------------------------------------------------------------------------
  // name: Field(min_length=1, max_length=32); optional on update.

  const NameMinLength: nat := 1
  const NameMaxLength: nat := 32

  datatype NameError = NameTooShort | NameTooLong

  function ValidateName(name: string): (r: Result<string, NameError>)
    ensures r.Success? <==> NameMinLength <= |name| <= NameMaxLength
    ensures r.Success? ==> r.value == name
    ensures r == Failure(NameTooShort) <==> name == []
  {
    if |name| < NameMinLength then Failure(NameTooShort)
    else if |name| > NameMaxLength then Failure(NameTooLong)
    else Success(name)
  }

  /** The update schema's `str | None` name: `None` passes, a string is bounded
      exactly as on creation. */
  function ValidateOptionalName(name: Option<string>): (r: Result<Option<string>, NameError>)
    ensures name.None? ==> r == Success(None)
    ensures name.Some? ==> (r.Success? <==> ValidateName(name.value).Success?)
    ensures r.Success? ==> r.value == name
  {
    match name
    case None => Success(None)
    case Some(n) =>
      match ValidateName(n)
      case Success(_) => Success(name)
      case Failure(e) => Failure(e)
  }

  // ---------------------------------------------------------------------------
  // validate_end_date

  /** How `validate_end_date` can fail. Only `EndBeforeStart` is the validator's
      own `ValueError`; the other two are the exceptions Python raises while
      evaluating its condition. */
  datatype EndDateError =
    | EndBeforeStart     // ValueError("end_date must be after start_date")
    | StartDateMissing   // KeyError: values.data["start_date"] when start_date failed
    | NotComparable      // TypeError: `<` between a non-str end_date and a str

  /** Python's `v < s` for a raw JSON value and a string: defined on strings
      only. */
  function LessThanString(v: Json, s: string): (r: Result<bool, EndDateError>)
    ensures r.Failure? <==> !v.JString?
    ensures r.Failure? ==> r.error == NotComparable
    ensures r.Success? ==> (r.value <==> LexLess(v.s, s))
  {
    if v.JString? then Success(LexLess(v.s, s)) else Failure(NotComparable)
  }

  /** `ProjectCreateSchema.validate_end_date`. `start` is `values.data`'s
      "start_date": `None` when that field failed validation and is absent. */
  function ValidateEndDateOnCreate(v: Json, start: Option<Date>): (r: Result<Json, EndDateError>)
    requires start.Some? ==> Valid(start.value)
    ensures r.Success? ==> r.value == v
    ensures start.None? ==> r == Success(v)
    ensures r == Failure(EndBeforeStart) <==>
      start.Some? && v.JString? && LexLess(v.s, IsoFormat(start.value))
    ensures r.Success? <==> start.None? || (v.JString? && !LexLess(v.s, IsoFormat(start.value)))
    ensures start.Some? && !v.JString? ==> r == Failure(NotComparable)
    ensures r != Failure(StartDateMissing)
  {
    if start.None? then Success(v)
    else match LessThanString(v, IsoFormat(start.value))
      case Failure(e) => Failure(e)
      case Success(less) => if less then Failure(EndBeforeStart) else Success(v)
  }

  /** `values.data["start_date"]` as the update schema's validator sees it. */
  datatype PriorStart =
    | StartFailed           // start_date failed validation: the key is absent
    | StartNone             // omitted or null: the default None
    | StartGiven(date: Date)

  /** `ProjectUpdateSchema.validate_end_date`: skipped when start_date is None
      or end_date is falsy, otherwise the creation rule. */
  function ValidateEndDateOnUpdate(v: Json, start: PriorStart): (r: Result<Json, EndDateError>)
    requires start.StartGiven? ==> Valid(start.date)
    ensures r.Success? ==> r.value == v
    ensures start.StartFailed? ==> r == Failure(StartDateMissing)
    ensures start.StartNone? || (start.StartGiven? && !Truthy(v)) ==> r == Success(v)
    ensures start.StartGiven? && Truthy(v) ==> r == ValidateEndDateOnCreate(v, Some(start.date))
    ensures r.Success? <==>
      start.StartNone?
      || (start.StartGiven? && (!Truthy(v) || (v.JString? && !LexLess(v.s, IsoFormat(start.date)))))
  {
    match start
    case StartFailed => Failure(StartDateMissing)
    case StartNone => Success(v)
    case StartGiven(d) =>
      if !Truthy(v) then Success(v)
      else match LessThanString(v, IsoFormat(d))
        case Failure(e) => Failure(e)
        case Success(less) => if less then Failure(EndBeforeStart) else Success(v)
  }

  /** With a start date and a truthy end value, the update rule is the creation
      rule. This restates a postcondition of `ValidateEndDateOnUpdate` as a
      lemma for callers. */
  lemma UpdateAgreesWithCreate(v: Json, d: Date)
    requires Valid(d) && Truthy(v)
    ensures ValidateEndDateOnUpdate(v, StartGiven(d)) == ValidateEndDateOnCreate(v, Some(d))
  {
  }

  /** On the strings `date.isoformat()`-style clients send, the string test is
      calendar order: an end date is rejected exactly when it falls strictly
      before the start date, so equal dates pass. */
  lemma CreateIsCalendarOrder(start: Date, end: Date)
    requires Valid(start) && Valid(end)
    ensures ValidateEndDateOnCreate(JString(IsoFormat(end)), Some(start)) ==
      if Before(end, start) then Failure(EndBeforeStart) else Success(JString(IsoFormat(end)))
  {
    IsoFormatOrder(end, start);
  }

  lemma UpdateIsCalendarOrder(start: Date, end: Date)
    requires Valid(start) && Valid(end)
    ensures ValidateEndDateOnUpdate(JString(IsoFormat(end)), StartGiven(start)) ==
      if Before(end, start) then Failure(EndBeforeStart) else Success(JString(IsoFormat(end)))
  {
    IsoFormatOrder(end, start);
  }

  // ---------------------------------------------------------------------------
  // The storage layer's CheckConstraint("start_date <= end_date").

  predicate StorageAccepts(start: Date, end: Date) {
    !Before(end, start)
  }

  /** The validator and the storage constraint agree on creation: a request
      whose end date passes the validator is never refused by the constraint,
      and one the constraint would refuse is already rejected by the validator. */
  lemma CreateAgreesWithStorage(start: Date, end: Date)
    requires Valid(start) && Valid(end)
    ensures ValidateEndDateOnCreate(JString(IsoFormat(end)), Some(start)).Success?
        <==> StorageAccepts(start, end)
  {
    CreateIsCalendarOrder(start, end);
  }

  /** A partial update carrying only one of the two dates is never order
      checked: the validator lets it through even when, paired with the stored
      other date, it breaks the storage constraint. "Only a start date" is
      shown here as an explicit `"end_date": null`; when `end_date` is left out
      altogether the validator does not run at all, since Pydantic does not
      validate defaults, and the update passes just the same. */
  lemma PartialUpdateUnchecked(storedStart: Date, storedEnd: Date, newStart: Date, newEnd: Date)
    requires Valid(storedStart) && Valid(storedEnd) && Valid(newStart) && Valid(newEnd)
    ensures Before(storedEnd, newStart) ==>
      ValidateEndDateOnUpdate(JNull, StartGiven(newStart)).Success?
      && !StorageAccepts(newStart, storedEnd)
    ensures Before(newEnd, storedStart) ==>
      ValidateEndDateOnUpdate(JString(IsoFormat(newEnd)), StartNone).Success?
      && !StorageAccepts(storedStart, newEnd)
  {
  }
}
