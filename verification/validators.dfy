/** The input validators of utils/validators.py. Each one either passes or
    raises exactly one error. "Today" is a parameter instead of a clock read,
    and a missing date (Python's None) is `None`. */
module Validators {
  import opened Basics
  import opened ModelConstants

  /** The named validation errors. */
  datatype ValidationError =
    | EndDateLessThanStartDate
    | StartDateNotAdded
    | EndDateNotAdded
    | StartDateBeforeToday
    | RecipientsGreaterThan500
    | RecipientsContainDuplicates

  /** What a validator can raise: a validation error, or the type error that
      Python raises when a present end date is compared with a missing start
      date. */
  datatype Raised = Validation(error: ValidationError) | TypeError

  /** The message each validation error carries. */
  function Message(e: ValidationError): string {
    match e
    case EndDateLessThanStartDate => "end_date cannot be less than start_date"
    case StartDateNotAdded => "start_date cannot be empty"
    case EndDateNotAdded => "end_date cannot be empty"
    case StartDateBeforeToday => "start_date cannot be in the past"
    case RecipientsGreaterThan500 => "Recipients should be less than 500"
    case RecipientsContainDuplicates => "Recipients shouldn't contain duplicates"
  }

  /** Different errors carry different messages, so a caller can tell them
      apart by message alone. */
  lemma MessagesDistinct(a: ValidationError, b: ValidationError)
    requires a != b
    ensures Message(a) != Message(b)
  {
  }

  /** The start date must be present and not before today; a start date of
      today passes. */
  function StartDateAfterToday(startDate: Option<Day>, today: Day): (r: Outcome<Raised>)
    ensures r == Pass <==> startDate.Some? && today <= startDate.value
    ensures startDate.None? ==> r == Fail(Validation(StartDateNotAdded))
    ensures startDate.Some? && r.Fail? ==> r == Fail(Validation(StartDateBeforeToday))
  {
    match startDate
    case Some(d) => if d < today then Fail(Validation(StartDateBeforeToday)) else Pass
    case None => Fail(Validation(StartDateNotAdded))
  }

  /** The end date must be present and not before the start date; equal
      dates pass. A missing end date is reported whatever the start date. */
  function StartDateBeforeEndDate(startDate: Option<Day>, endDate: Option<Day>): (r: Outcome<Raised>)
    ensures endDate.None? ==> r == Fail(Validation(EndDateNotAdded))
    ensures startDate.Some? && endDate.Some? ==>
              (r == Pass <==> startDate.value <= endDate.value)
    ensures startDate.Some? && endDate.Some? && r.Fail? ==>
              r == Fail(Validation(EndDateLessThanStartDate))
    ensures startDate.None? && endDate.Some? ==> r == Fail(TypeError)
  {
    match endDate
    case Some(e) =>
      (match startDate
       case Some(s) => if e < s then Fail(Validation(EndDateLessThanStartDate)) else Pass
       case None => Fail(TypeError))
    case None => Fail(Validation(EndDateNotAdded))
  }

  /** The largest recipient list that is accepted. */
  const MaxRecipients: nat := 500

  /** A recipient list may hold at most 500 entries. */
  function RecipientsLessThan500<T>(recipients: seq<T>): (r: Outcome<Raised>)
    ensures r == Pass <==> |recipients| <= 500
    ensures r.Fail? ==> r == Fail(Validation(RecipientsGreaterThan500))
  {
    if |recipients| > MaxRecipients then Fail(Validation(RecipientsGreaterThan500)) else Pass
  }

  /** The list is scanned in order, remembering the entries seen so far; the
      first entry already seen raises the duplicates error. */
  method RecipientsNotContainsDuplicates<T(==)>(recipients: seq<T>) returns (r: Outcome<Raised>)
    ensures r == Pass <==> Distinct(recipients)
    ensures r.Fail? ==> r == Fail(Validation(RecipientsContainDuplicates))
  {
    var seen: set<T> := {};
    var i := 0;
    while i < |recipients|
      invariant 0 <= i <= |recipients|
      invariant seen == set k | 0 <= k < i :: recipients[k]
      invariant Distinct(recipients[..i])
    {
      if recipients[i] !in seen {
        seen := seen + {recipients[i]};
      } else {
        var k :| 0 <= k < i && recipients[k] == recipients[i];
        assert !Distinct(recipients) by {
          assert recipients[k] == recipients[i];
        }
        return Fail(Validation(RecipientsContainDuplicates));
      }
      i := i + 1;
    }
    assert recipients[..i] == recipients;
    return Pass;
  }

  /** The window made of today and the default end date passes both date
      validators. */
  lemma DefaultWindowIsValid(today: Day)
    ensures StartDateAfterToday(Some(today), today) == Pass
    ensures StartDateBeforeEndDate(Some(today), Some(DefaultEndDate(today))) == Pass
  {
  }

  /** 500 distinct-or-not entries pass the size check; one more fails it. */
  lemma RecipientLimitBoundary<T>(recipients: seq<T>, extra: T)
    requires |recipients| == 500
    ensures RecipientsLessThan500(recipients) == Pass
    ensures RecipientsLessThan500(recipients + [extra]) == Fail(Validation(RecipientsGreaterThan500))
  {
  }
}
