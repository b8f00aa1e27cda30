/** The records of schedules/models.py: recipients, schedules, their
    defaults, and the uniqueness rules the database enforces. A table is a
    sequence of rows in primary-key (insertion) order, which is the ordering
    both models declare. */
module Models {
  import opened Basics
  import opened ModelConstants

  type Email = string

  /** The email address a recipient gets when none is given. */
  const DefaultEmail: Email := "dummy@placeholder.com"

  /** A recipient; the email address identifies it. */
  datatype Recipient = Recipient(email: Email, name: string)

  /** A recipient built with every field left at its default. */
  const DefaultRecipient: Recipient := Recipient(DefaultEmail, "")

  /** A schedule. `recipients` is its many-to-many association, held as the
      set of associated recipients' email addresses (emails are unique, so
      they stand for the recipient rows). Dates and the frequency are on one
      integer time scale. */
  datatype Schedule = Schedule(
    subject: string,
    content: string,
    frequency: int,
    startDate: int,
    endDate: int,
    status: Status,
    recipients: set<Email>)

  /** A schedule built with every field left at its default. Both dates
      default to today's date; `today` is that date as a point on the
      schedules' time scale, the seconds the tick compares them in. */
  function DefaultSchedule(today: int): (s: Schedule)
    ensures s.content == "" && s.frequency == 0
    ensures s.recipients == {} && s.status == NotAdded
  {
    Schedule("", "", 0, today, today, NotAdded, {})
  }

  /** The rows of the recipient table, in primary-key order. */
  type RecipientTable = seq<Recipient>

  /** The schedule table, in primary-key order. */
  type ScheduleTable = seq<Schedule>

  /** The email column of a sequence of rows. */
  function Emails(rows: seq<Recipient>): (r: seq<Email>)
    ensures |r| == |rows|
    ensures forall i :: 0 <= i < |rows| ==> r[i] == rows[i].email
  {
    seq(|rows|, i requires 0 <= i < |rows| => rows[i].email)
  }

  /** The emails of two tables laid end to end. */
  lemma EmailsConcat(a: seq<Recipient>, b: seq<Recipient>)
    ensures Emails(a + b) == Emails(a) + Emails(b)
  {
    assert forall i :: 0 <= i < |a + b| ==> Emails(a + b)[i] == (Emails(a) + Emails(b))[i];
  }

  /** The unique constraint on the recipient email column. */
  predicate UniqueEmails(t: RecipientTable) {
    Distinct(Emails(t))
  }

  /** The row holding `email`, if any (the first one, should there be
      several). */
  function Find(t: RecipientTable, email: Email): (r: Option<Recipient>)
    ensures r.Some? ==> r.value in t && r.value.email == email
    ensures r.None? <==> forall i :: 0 <= i < |t| ==> t[i].email != email
  {
    if |t| == 0 then None
    else if t[0].email == email then Some(t[0])
    else Find(t[1..], email)
  }

  /** Under the unique constraint, looking a row's email up finds that very
      row. */
  lemma FindUnique(t: RecipientTable, i: nat)
    requires UniqueEmails(t)
    requires i < |t|
    ensures Find(t, t[i].email) == Some(t[i])
  {
    var r := Find(t, t[i].email);
    assert r.Some?;
    var j :| 0 <= j < |t| && t[j] == r.value;
    assert Emails(t)[j] == Emails(t)[i];
  }

  /** The uniqueness failures a model validation reports. */
  datatype UniquenessError = EmailNotUnique | ContentFrequencyNotUnique

  /** Model validation of a new recipient against the table: the email must
      not be taken. */
  function ValidateRecipientUnique(t: RecipientTable, r: Recipient): (o: Outcome<UniquenessError>)
    ensures o == Pass <==> forall i :: 0 <= i < |t| ==> t[i].email != r.email
    ensures o.Fail? ==> o.error == EmailNotUnique
  {
    if Find(t, r.email).Some? then Fail(EmailNotUnique) else Pass
  }

  /** A recipient that passes validation can be appended without breaking
      the unique constraint. */
  lemma ValidatedRecipientKeepsUnique(t: RecipientTable, r: Recipient)
    requires UniqueEmails(t)
    requires ValidateRecipientUnique(t, r) == Pass
    ensures UniqueEmails(t + [r])
  {

  }

  /** A default recipient has an empty name and the placeholder email. */
  lemma DefaultRecipientValues()
    ensures DefaultRecipient.name == "" && DefaultRecipient.email == "dummy@placeholder.com"
    ensures DefaultRecipient.email != ""
  {
  }

  /** Once a default recipient is stored, a second default recipient is
      rejected. */
  lemma SecondDefaultRecipientRejected(t: RecipientTable)
    requires DefaultRecipient in t
    ensures ValidateRecipientUnique(t, DefaultRecipient) == Fail(EmailNotUnique)
  {
  }

  /** The unique-together constraint on (content, frequency). */
  predicate UniqueContentFrequency(ss: ScheduleTable) {
    forall i, j :: 0 <= i < j < |ss| ==>
      ss[i].content != ss[j].content || ss[i].frequency != ss[j].frequency
  }

  /** Model validation of a new schedule against the table: no stored
      schedule may have the same content and frequency. */
  function ValidateScheduleUnique(ss: ScheduleTable, s: Schedule): (o: Outcome<UniquenessError>)
    ensures o == Pass <==>
      forall i :: 0 <= i < |ss| ==> ss[i].content != s.content || ss[i].frequency != s.frequency
    ensures o.Fail? ==> o.error == ContentFrequencyNotUnique
  {
    if exists i :: 0 <= i < |ss| && ss[i].content == s.content && ss[i].frequency == s.frequency
    then Fail(ContentFrequencyNotUnique)
    else Pass
  }

  /** A schedule that passes validation can be appended without breaking
      the unique-together constraint. */
  lemma ValidatedScheduleKeepsUnique(ss: ScheduleTable, s: Schedule)
    requires UniqueContentFrequency(ss)
    requires ValidateScheduleUnique(ss, s) == Pass
    ensures UniqueContentFrequency(ss + [s])
  {
  }

  /** Once a default schedule is stored, a second default schedule is
      rejected, whatever day either was built on. */
  lemma SecondDefaultScheduleRejected(ss: ScheduleTable, today: int, later: int)
    requires DefaultSchedule(today) in ss
    ensures ValidateScheduleUnique(ss, DefaultSchedule(later)) == Fail(ContentFrequencyNotUnique)
  {
  }

  /** Two schedules with the same content but different frequencies may
      both be stored, even when they share every recipient. */
  lemma SameContentOtherFrequencyCoexist(s1: Schedule, s2: Schedule)
    requires s1.content == s2.content && s1.frequency != s2.frequency
    requires s1.recipients == s2.recipients
    ensures ValidateScheduleUnique([s1], s2) == Pass
    ensures UniqueContentFrequency([s1, s2])
  {
  }

  /** The email addresses of the recipients associated with a schedule, as
      the association lists them: stored rows only, in primary-key order. */
  function RecipientEmails(t: RecipientTable, linked: set<Email>): (r: seq<Email>)
    ensures |r| <= |t|
  {
    if |t| == 0 then []
    else if t[0].email in linked then [t[0].email] + RecipientEmails(t[1..], linked)
    else RecipientEmails(t[1..], linked)
  }

  /** The association lists exactly the linked addresses that have a stored
      row. */
  lemma {:induction false} RecipientEmailsMembers(t: RecipientTable, linked: set<Email>)
    ensures forall e :: e in RecipientEmails(t, linked) <==> e in linked && e in Emails(t)
  {
    if |t| > 0 {
      RecipientEmailsMembers(t[1..], linked);
      assert Emails(t) == [t[0].email] + Emails(t[1..]);
    }
  }

  /** Under the unique constraint, no address is listed twice. */
  lemma {:induction false} RecipientEmailsDistinct(t: RecipientTable, linked: set<Email>)
    ensures UniqueEmails(t) ==> Distinct(RecipientEmails(t, linked))
  {
    if |t| > 0 && UniqueEmails(t) {
      assert Emails(t) == [t[0].email] + Emails(t[1..]);
      assert UniqueEmails(t[1..]);
      RecipientEmailsDistinct(t[1..], linked);
      RecipientEmailsMembers(t[1..], linked);
      assert t[0].email !in Emails(t[1..]);
    }
  }

  /** The association lists recipients in primary-key order: of two linked
      rows, the earlier one is listed first. The lemma returns both
      positions. */
  lemma {:induction false} RecipientEmailsInIdOrder(t: RecipientTable, linked: set<Email>, i: nat, j: nat)
    returns (a: nat, b: nat)
    requires i < j < |t|
    requires t[i].email in linked && t[j].email in linked
    ensures a < b < |RecipientEmails(t, linked)|
    ensures RecipientEmails(t, linked)[a] == t[i].email
    ensures RecipientEmails(t, linked)[b] == t[j].email
  {
    var rest := RecipientEmails(t[1..], linked);
    var off := if t[0].email in linked then 1 else 0;
    assert t[1..][j - 1] == t[j];
    if i == 0 {
      assert Emails(t[1..])[j - 1] == t[j].email;
      RecipientEmailsMembers(t[1..], linked);
      var k :| 0 <= k < |rest| && rest[k] == t[j].email;
      RecipientEmailsShift(t, linked, k);
      a, b := 0, k + 1;
    } else {
      assert t[1..][i - 1] == t[i];
      var a', b' := RecipientEmailsInIdOrder(t[1..], linked, i - 1, j - 1);
      RecipientEmailsShift(t, linked, a');
      RecipientEmailsShift(t, linked, b');
      a, b := a' + off, b' + off;
    }
  }

  /** `x` occurs in `l` at a position before one holding `y`. */
  predicate ListedBefore(l: seq<Email>, x: Email, y: Email) {
    exists a, b :: 0 <= a < b < |l| && l[a] == x && l[b] == y
  }

  /** The listing as a whole is in primary-key order: of any two linked
      rows, the earlier one is listed before the later one. */
  lemma RecipientEmailsOrdered(t: RecipientTable, linked: set<Email>)
    ensures forall i, j :: 0 <= i < j < |t| && t[i].email in linked && t[j].email in linked ==>
              ListedBefore(RecipientEmails(t, linked), t[i].email, t[j].email)
  {
    forall i, j | 0 <= i < j < |t| && t[i].email in linked && t[j].email in linked
      ensures ListedBefore(RecipientEmails(t, linked), t[i].email, t[j].email)
    {
      var a, b := RecipientEmailsInIdOrder(t, linked, i, j);
    }
  }

  /** Position `k` of the tail's listing moves one place right when the
      first row is listed, and stays put otherwise. */
  lemma RecipientEmailsShift(t: RecipientTable, linked: set<Email>, k: nat)
    requires 0 < |t|
    requires k < |RecipientEmails(t[1..], linked)|
    ensures t[0].email in linked ==> RecipientEmails(t, linked)[0] == t[0].email
    ensures t[0].email in linked ==> k + 1 < |RecipientEmails(t, linked)| && RecipientEmails(t, linked)[k + 1] == RecipientEmails(t[1..], linked)[k]
    ensures t[0].email !in linked ==> k < |RecipientEmails(t, linked)| && RecipientEmails(t, linked)[k] == RecipientEmails(t[1..], linked)[k]
  {
  }
}
