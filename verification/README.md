# mail_api core, modelled in Dafny

The mail_api service stores email *schedules*: content sent to a list of
recipients at a fixed frequency between a start and an end date. A periodic
task runner calls a dispatch task once per tick interval. That task moves
schedules through the statuses NOT_ADDED, ACTIVE and COMPLETED and sends
one email per active schedule.

This project models three small pieces of logic from that service as pure
Dafny functions over immutable values:

- the input validators: date ordering, a recipient limit, duplicate recipients;
- the per-tick dispatch step: status transitions and the send decision;
- the recipient upsert: get-or-create by email, then a batch insert and an
  association update.

The records and constants they act on are modelled too: Recipient,
Schedule, the status codes and the default end date.

Modules, one per source file:

| module | file | source |
|---|---|---|
| `Basics` | basics.dfy | shared `Option`, `Outcome`, `Result` and `Distinct` |
| `ModelConstants` | model_constants.dfy | utils/models.py |
| `Validators` | validators.dfy | utils/validators.py |
| `Models` | models.dfy | schedules/models.py |
| `RecipientUpsert` | recipient_upsert.dfy | utils/serializers.py |
| `Dispatch` | dispatch.dfy | schedules/tasks.py |

Modelling choices:

- The clock is a parameter: `today` for the validators, `now` for a tick.
  Dates are integers. The validators count in days. The dispatch task uses
  one time scale, in seconds, for `now`, the tick interval and the schedule
  dates; `DefaultSchedule` takes today's date on that scale.
- A missing value (Python's `None`) is `None`. A present date is always
  truthy in Python, so `if start_date:` means "is present".
- A table is a sequence of rows in primary-key order, because both models
  declare `ordering = ('id',)`. Unique constraints are predicates over a
  table (`UniqueEmails`, `UniqueContentFrequency`). They are not built into
  a map key, so an insert that would break one can be observed.
- A schedule's many-to-many association is the set of its recipients'
  email addresses. Emails are unique, so each email stands for one row.
- `schedule.recipients.all()` lists recipients in Recipient primary-key
  order. It does not use the order in which they were associated.
  `RecipientEmails` models this, and the mail's recipient list uses it.
- Sending an email is a returned `Mail` value. The sender address is a
  parameter.
- A schedule that completes on a tick gets no mail on that tick, even if it
  was active before. The code checks completion first, and the later send
  check then sees the completed status.
- Errors are values. Validators return `Outcome<Raised>`. The batch insert
  returns a `Result`. The recipient update returns the state it leaves
  behind, together with the error raised, if any.
- `start_date_before_end_date` with an end date but no start date compares
  a date with `None`. Python raises `TypeError` there, and the model
  returns `Raised.TypeError`.
- `get_or_create_recipient` with an entry that has no `email_address`
  filters on `None`, which matches no stored row. It then builds a
  recipient with the default email `dummy@placeholder.com`.
- With `update`, the association is cleared before the batch insert. No
  transaction is shown, so the clearing stays in effect when the insert
  raises. The batch insert is all-or-nothing.
- Schedule uniqueness is on (content, frequency) only
  (schedules/models.py:22).
- utils/validators.py has no check relating the frequency to the date
  window.
- The duplicates check (utils/validators.py:44-50) compares whole list
  entries, not their email addresses.

## Model

| member | source | states |
|---|---|---|
| ModelConstants.Parse | utils/models.py:4-7 | a stored code reads back as the status with that code; a code that no status has reads back as None |
| ModelConstants.CodeRoundTrip | utils/models.py:4-7 | the four status codes are pairwise distinct and each reads back as its own status |
| ModelConstants.StatusChoicesListEachCodeOnce | utils/models.py:9-14 | the choice list has four entries, no code twice, every status code present, and only status codes |
| ModelConstants.DefaultEndDate | utils/models.py:17-18 | the default end date is strictly after today |
| ModelConstants.DefaultEndDateIsNextDay | utils/models.py:17-18 | the default end date is the earliest day after today, which makes it exactly today plus one day |
| Validators.MessagesDistinct | utils/validators.py:6-13 | different validation errors carry different messages |
| Validators.StartDateAfterToday | utils/validators.py:16-25 | passes iff the start date is present and not before today, so today itself passes; a missing date gives "cannot be empty" and never "in the past"; a present failing date gives "in the past" |
| Validators.StartDateBeforeEndDate | utils/validators.py:28-36 | a missing end date gives the end-date-empty error whatever the start date; with both dates present it passes iff end >= start, so equal dates pass, and otherwise gives the less-than error; a present end date with a missing start date raises TypeError |
| Validators.RecipientsLessThan500 | utils/validators.py:39-41 | passes iff the list has at most 500 entries; otherwise gives the too-many error |
| Validators.RecipientLimitBoundary | utils/validators.py:39-41 | a list of exactly 500 passes and the same list with one more entry fails |
| Validators.RecipientsNotContainsDuplicates | utils/validators.py:44-50 | the in-order scan with a seen-set passes iff the entries are pairwise distinct and otherwise gives the duplicates error; the loop keeps "seen = entries scanned so far, all distinct" |
| Validators.DefaultWindowIsValid | utils/models.py:17-18 | start today with the default end date passes both date validators |
| Models.DefaultSchedule | schedules/models.py:16-19 | a default schedule has empty content, zero frequency and no recipients |
| Models.DefaultRecipientValues | schedules/tests/test_models.py:44-48 | a default recipient has name '' and email 'dummy@placeholder.com' |
| Models.Find | utils/serializers.py:9-10 | the lookup by email returns a stored row with that email, and returns None exactly when no row has it |
| Models.FindUnique | schedules/models.py:7-9 | under the unique email constraint, looking up a row's email returns that very row |
| Models.ValidateRecipientUnique | schedules/models.py:7-9 | validating a new recipient passes iff no stored row has its email |
| Models.ValidatedRecipientKeepsUnique | schedules/models.py:7-9 | appending a recipient that passed validation keeps emails unique |
| Models.SecondDefaultRecipientRejected | schedules/tests/test_models.py:54-58 | once a default recipient is stored, a second default recipient fails validation |
| Models.ValidateScheduleUnique | schedules/models.py:21-22 | validating a new schedule passes iff no stored schedule has the same content and frequency |
| Models.ValidatedScheduleKeepsUnique | schedules/models.py:21-22 | appending a schedule that passed validation keeps (content, frequency) unique |
| Models.SecondDefaultScheduleRejected | schedules/tests/test_models.py:37-41 | once a default schedule is stored, a second default schedule fails validation |
| Models.SameContentOtherFrequencyCoexist | schedules/tests/test_models.py:22-28 | schedules with the same content and different frequencies both pass, even when they share their recipients |
| Models.RecipientEmailsMembers | schedules/tasks.py:39-41 | a schedule's recipient list holds exactly the associated emails that have a stored row |
| Models.RecipientEmailsDistinct | schedules/tasks.py:39-41 | under the unique email constraint, the recipient list holds no email twice |
| Models.RecipientEmailsInIdOrder | schedules/models.py:12-13 | of two associated rows, the one with the lower primary key is listed first |
| Models.RecipientEmailsOrdered | schedules/models.py:12-13 | for every pair of associated rows at once, the one with the lower primary key is listed before the other |
| RecipientUpsert.GetOrCreateRecipient | utils/serializers.py:6-14 | the flag is false iff the input has an email that is stored; then the stored row is returned, whatever name the input carries; otherwise the recipient is built from the input with defaults for missing keys; the table is not changed |
| RecipientUpsert.GetOrCreateFindsStoredRow | utils/serializers.py:9-10 | under the unique email constraint, an existing email resolves to exactly its stored row, with flag false |
| RecipientUpsert.NewEmail | utils/serializers.py:7-13 | an entry adds a row exactly when get-or-create reports it built one, and that row's email is the given email when unstored or the default email when the key is missing |
| RecipientUpsert.CreatedPositions | utils/serializers.py:25-28 | the positions of the entries that build a new recipient: every such entry's position, no other, in strictly increasing order |
| RecipientUpsert.Resolve | utils/serializers.py:25-29 | the loop resolves every entry in order, one result per entry; it collects exactly one row per creating entry, repeats included |
| RecipientUpsert.ResolveInOrder | utils/serializers.py:25-29 | the k-th collected row is the recipient built by the k-th creating entry, so the collected rows follow input order |
| RecipientUpsert.ResolveCollectsCreated | utils/serializers.py:25-29 | every newly built recipient is collected for insertion, and every collected row was built by some entry |
| RecipientUpsert.ResolveCreatedDistinct | utils/serializers.py:25-29 | if the resolved recipients have distinct emails, so do the rows collected for insertion |
| RecipientUpsert.BulkCreate | utils/serializers.py:31 | the batch insert succeeds iff the new rows repeat no email among themselves or from the table; on a table with unique emails it succeeds iff the result has unique emails; when it succeeds, the stored rows stay as they were, in front, followed by exactly the given rows in order |
| RecipientUpsert.BulkCreateKeepsUnique | schedules/models.py:7-9 | a successful batch insert keeps emails unique |
| RecipientUpsert.StoredClash | utils/serializers.py:7-13 | a collected row repeats a stored email iff some entry has no email while a row with the default email is stored |
| RecipientUpsert.BatchClash | utils/serializers.py:25-31 | two collected rows share an email iff two entries, in input order, add rows with the same email |
| RecipientUpsert.InsertRaisesExactly | utils/serializers.py:25-31 | the batch insert of the collected rows raises iff an entry without an email meets a stored default recipient, or two entries add rows with the same email |
| RecipientUpsert.CreateOrUpdateRecipients | utils/serializers.py:17-32 | existing rows are never changed or removed, and new rows only get emails that were not stored; the update raises iff an entry without an email meets a stored default recipient or two entries add rows with the same email (the same unstored email twice, two entries without an email, or one without an email and one naming the unstored default email); on success the appended rows are exactly the collected ones, in input order, and every input email is associated; with update the association becomes exactly the resolved set, and without it the association becomes the old one united with the resolved set; on an integrity error nothing is inserted and the association is cleared if update was set, or kept otherwise |
| RecipientUpsert.RecipientUpdateKeepsUnique | utils/serializers.py:25-31 | the recipient update never breaks the unique email constraint |
| RecipientUpsert.RecipientUpdateLinksStoredRows | utils/serializers.py:31-32 | if every associated email had a stored row before the update, every associated email has one afterwards |
| RecipientUpsert.RecipientUpdateSucceedsOnDistinctEmails | utils/serializers.py:25-31 | inputs that all carry pairwise distinct emails never make the batch insert raise |
| RecipientUpsert.RepeatedNewEmailRaises | utils/serializers.py:22-31 | whatever the other entries, an unstored email given at two positions makes the update raise with the integrity error; nothing is inserted, and the association is left empty with update and unchanged without it |
| RecipientUpsert.StoredEmailResolves | utils/serializers.py:9-10 | a stored email given twice resolves both times to the same stored row holding it; under the unique constraint, to the row at the given position |
| RecipientUpsert.StoredEmailCreatesNothing | utils/serializers.py:25-28 | a stored email given twice collects no row for insertion |
| RecipientUpsert.RepeatedStoredEmailAccepted | utils/serializers.py:9-10 | a stored email given twice resolves to one stored row holding it both times, which under the unique constraint is its own row; nothing is inserted and the email is associated |
| RecipientUpsert.MissingEmailCollidesWithDefault | utils/serializers.py:7-12 | an entry without an email is built with the default email, which collides with a stored default recipient |
| RecipientUpsert.SharedEmailStoredOnce | utils/serializers.py:6-32 | two schedules naming the same new email leave one stored row, and both schedules are associated with it |
| Dispatch.SendEmailToSchedule | schedules/tasks.py:37-47 | the mail carries the schedule's subject, its content as the message, and the fixed sender; it goes to exactly the associated stored emails, with no email twice under the unique constraint, listed in recipient primary-key order |
| Dispatch.DispatchOne | schedules/tasks.py:18-34 | a schedule outside the filter (frequency equals the interval, status ACTIVE or NOT_ADDED) is left alone with no mail; only the status changes; if now + interval >= end date the schedule ends COMPLETED with no mail, even if it was ACTIVE; NOT_ADDED becomes ACTIVE iff start <= now and end > now + interval; NOT_ADDED with start > now and end beyond the limit stays NOT_ADDED with no mail; a mail goes out iff the schedule is selected and ends ACTIVE, and there is at most one; the only moves are NOT_ADDED to ACTIVE, NOT_ADDED to COMPLETED and ACTIVE to COMPLETED, and nothing enters PAUSED |
| Dispatch.DispatchFollowsTransitionTable | schedules/tasks.py:23-34 | the loop body, with its checks in code order, matches a transition table read by outcome (completion first, then active sends, then activation) on every selected schedule |
| Dispatch.CompletedIsFinal | schedules/tasks.py:18-21 | a completed schedule is left alone and gets no mail on every later tick |
| Dispatch.Tick | schedules/tasks.py:13-34 | a tick maps the loop body over every stored schedule in order, one result per schedule |
| Dispatch.SentPositions | schedules/tasks.py:22-34 | the positions of the mailed schedules: every such position, no other, in strictly increasing order |
| Dispatch.OutboxInOrder | schedules/tasks.py:22-34 | the outbox holds one mail per mailed schedule and nothing else, in schedule order: its k-th mail is the k-th mailed schedule's mail |
| Dispatch.OutboxFromDispatches | schedules/tasks.py:33-34 | every sent mail belongs to one dispatched schedule, every mailed schedule's mail is sent, and there are no more mails than schedules |
| Dispatch.TickSendsOnlyToActive | schedules/tasks.py:22-34 | every mail a tick sends is the mail of a selected schedule that ends the tick ACTIVE, and every such schedule's mail is sent; the k-th mail is the mail of the k-th such schedule, so each gets exactly one, in schedule order |
| Dispatch.TickKeepsScheduleUniqueness | schedules/tasks.py:23-31 | a tick changes statuses only, so (content, frequency) uniqueness and every schedule's recipients are kept |
| Dispatch.ActivationExample | schedules/tasks.py:28-34 | a daily NOT_ADDED schedule that started an hour ago and ends in two days becomes ACTIVE on a daily tick and gets one mail |
| Dispatch.CompletionExample | schedules/tasks.py:24-34 | a daily schedule that ends in thirty minutes becomes COMPLETED on a daily tick and gets no mail on that tick |

## Left out

- HTTP views (schedules/views.py): request and response plumbing over the web framework.
- The schedule and recipient serializer classes (schedules/serializers.py): declarative wrappers whose behaviour lives in a library.
- Migrations, Celery app bootstrapping and `discover_schedules` (utils/tasks.py): generated schema, framework set-up and a one-line query.
- `update_recipients_in_schedule` (utils/serializers.py:35-43): its body is `pass`.
- The test-data helper utils/testing.py, the browser test, and the skipped or assertion-free view and API tests: no behaviour to model.
- Email transport and task queueing: a send is returned as a `Mail` value. Send failures are not modelled, so a tick's status changes never depend on delivery. In the code the send runs in-process inside the loop (schedules/tasks.py:34), so a raising `send_mail` ends the tick: statuses already saved stay, and the schedules after it keep their status until a later tick.
- The clock: `now` and `today` are parameters.
- The settings module that defines the sender address is not part of this model. The sender is a parameter of the dispatch functions.
- The Interval model is not part of this model. The tick interval is a plain integer duration. At schedules/tasks.py:16 the code rebinds `interval` to the duration, and line 19 then reads `.interval` from that duration. As written, that duration has no `interval` attribute, so line 19 raises `AttributeError` and every tick fails before it selects any schedule. The model follows the evident intent: a schedule is selected when its frequency equals the tick's duration.
- Mixed date and datetime comparison: the dispatch task compares a timestamp with the schedule dates. With the `DateField` columns of migration 0008, the comparison at schedules/tasks.py:24 of a datetime with a date raises `TypeError` in Python, so every selected schedule would make the tick raise. The model follows the evident intent and puts both on one integer time scale.
- Persistence of a tick (`save()`) is the returned schedule value. Concurrent ticks and races between them are not modelled.
- Email address format validation (the email field type) is not modelled. An email is any string.
- The batch insert assumes the database backend returns primary keys, so freshly inserted rows can be associated straight away. With the framework version the migrations come from (Django 3.1), `bulk_create` sets no primary keys on backends such as SQLite. There the new rows are inserted, but `schedule.recipients.add(*new_recipients)` (utils/serializers.py:32) raises `ValueError` on the first row without a key, so none of the call's entries gets associated.
- Models.DefaultSchedule: the shown model declares only content, frequency and recipients. The defaults of the other fields are assumptions: subject is empty, status is NOT_ADDED, and the start and end dates are today, the `date.today` default of migration 0008. Only the content, frequency, recipients and status defaults are stated.
- Validators.RecipientsNotContainsDuplicates: the entries are assumed hashable, such as email strings. With a list of dicts, Python raises `TypeError` at the set membership test (utils/validators.py:47) on the first entry; the model has no such error.
- RecipientUpsert.GetOrCreateRecipient: an absent key and a key present with a null value are both `None`, and an entry has only the two keys. In the code a null email or name is passed on to the constructor (utils/serializers.py:12), so the built row holds a null and the batch insert fails on the NOT NULL column, and any other key makes the constructor raise `TypeError`. Neither failure is modelled, so `RecipientUpsert.CreateOrUpdateRecipients` promises its error condition only for entries with the two keys and no null values.
- Models.RecipientEmails carries only a length bound in its own contract. Its membership, distinctness and ordering are stated by the three lemmas named in the table.
