/** The schedule status enumeration, its choice list and the default end
    date (utils/models.py). */
module ModelConstants {
  import opened Basics

  /** A schedule's lifecycle state. */
  datatype Status = Active | NotAdded | Completed | Paused

  /** The two-letter code stored in the status column. */
  function Code(s: Status): string {
    match s
    case Active => "AC"
    case NotAdded => "NA"
    case Completed => "CO"
    case Paused => "PA"
  }

  /** The choice list offered for the status field: (code, human label). */
  const StatusChoices: seq<(string, string)> := [
    ("AC", "Active"),
    ("NA", "Not Added to Celery Beat"),
    ("CO", "Completed"),
    ("PA", "Paused")
  ]

  /** Reads a stored status code back; unknown codes yield None. */
  function Parse(code: string): (r: Option<Status>)
    ensures r.Some? ==> Code(r.value) == code
    ensures r.None? ==> forall s: Status :: Code(s) != code
  {
    if code == "AC" then Some(Active)
    else if code == "NA" then Some(NotAdded)
    else if code == "CO" then Some(Completed)
    else if code == "PA" then Some(Paused)
    else None
  }

  /** Distinct statuses are stored under distinct codes, and every code
      reads back as the status it came from. */
  lemma CodeRoundTrip(s: Status)
    ensures Parse(Code(s)) == Some(s)
    ensures forall t: Status :: Code(t) == Code(s) ==> t == s
  {
  }

  /** The choice list holds four entries, names every status code exactly
      once, and holds nothing but status codes. */
  lemma StatusChoicesListEachCodeOnce()
    ensures |StatusChoices| == 4
    ensures forall i, j :: 0 <= i < j < |StatusChoices| ==> StatusChoices[i].0 != StatusChoices[j].0
    ensures forall s: Status :: exists i :: 0 <= i < |StatusChoices| && StatusChoices[i].0 == Code(s)
    ensures forall i :: 0 <= i < |StatusChoices| ==> Parse(StatusChoices[i].0).Some?
  {
    assert StatusChoices[0].0 == Code(Active);
    assert StatusChoices[1].0 == Code(NotAdded);
    assert StatusChoices[2].0 == Code(Completed);
    assert StatusChoices[3].0 == Code(Paused);
  }

  /** Dates in the validators are whole day numbers. */
  type Day = int

  /** The default end date: the day after `today`. The clock is a parameter. */
  function DefaultEndDate(today: Day): (r: Day)
    ensures r > today
  {
    today + 1
  }

  /** The default end date is the earliest day strictly after `today`. */
  lemma DefaultEndDateIsNextDay(today: Day, later: Day)
    requires today < later
    ensures today < DefaultEndDate(today) <= later
  {
  }
}
