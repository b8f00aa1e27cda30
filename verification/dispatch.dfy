/** The periodic dispatch task of schedules/tasks.py. One tick carries the
    current time `now` and the tick interval, both on the integer time scale
    of the schedule dates; the sender address is a parameter. Sending is a
    returned value, not a side effect. */
module Dispatch {
  import opened Basics
  import opened ModelConstants
  import opened Models

  /** One outgoing email: subject, message body, sender, recipient list. */
  datatype Mail = Mail(subject: string, message: string, sender: Email, recipients: seq<Email>)

  /** The email for one schedule: its subject and content, from the fixed
      sender, to the addresses of its associated recipients in primary-key
      order. */
  function SendEmailToSchedule(t: RecipientTable, s: Schedule, sender: Email): (m: Mail)
    ensures m.subject == s.subject && m.message == s.content && m.sender == sender
    ensures forall e :: e in m.recipients <==> e in s.recipients && e in Emails(t)
    ensures UniqueEmails(t) ==> Distinct(m.recipients)
    ensures forall i, j :: 0 <= i < j < |t| && t[i].email in s.recipients && t[j].email in s.recipients ==>
              ListedBefore(m.recipients, t[i].email, t[j].email)
  {
    RecipientEmailsMembers(t, s.recipients);
    RecipientEmailsDistinct(t, s.recipients);
    RecipientEmailsOrdered(t, s.recipients);
    Mail(s.subject, s.content, sender, RecipientEmails(t, s.recipients))
  }

  /** The filter of a tick: the schedule's frequency equals the tick
      interval and it is active or not yet added. */
  predicate Selected(s: Schedule, interval: int) {
    s.frequency == interval && (s.status == Active || s.status == NotAdded)
  }

  /** The status changes a tick makes to a selected schedule, in code order:
      first completion when the end date falls within the coming interval,
      then activation of a not-yet-added schedule whose start has come. */
  function Transition(s: Schedule, now: int, interval: int): Schedule {
    var endLimit := now + interval;
    var s1 := if endLimit >= s.endDate then s.(status := Completed) else s;
    if s1.status == NotAdded && s1.startDate <= now && s1.endDate >= endLimit
    then s1.(status := Active)
    else s1
  }

  /** The status moves a tick may make: none, or forward along
      not added, active, completed. */
  predicate AllowedMove(from: Status, to: Status) {
    || from == to
    || (from == NotAdded && to == Active)
    || (from == NotAdded && to == Completed)
    || (from == Active && to == Completed)
  }

  /** A schedule after one tick, with the email the tick sent for it. */
  datatype Dispatched = Dispatched(schedule: Schedule, mail: Option<Mail>)

  /** One iteration of the tick's loop, applied to any stored schedule: a
      schedule outside the filter is left alone; a selected one is
      transitioned and, when its status is then active, mailed once. */
  function DispatchOne(t: RecipientTable, s: Schedule, now: int, interval: int, sender: Email): (d: Dispatched)
    ensures d.schedule == s.(status := d.schedule.status)
    ensures AllowedMove(s.status, d.schedule.status)
    ensures !Selected(s, interval) ==> d == Dispatched(s, None)
    ensures Selected(s, interval) && now + interval >= s.endDate ==>
              d.schedule.status == Completed && d.mail == None
    ensures Selected(s, interval) && s.status == NotAdded ==>
              (d.schedule.status == Active <==> s.startDate <= now && now + interval < s.endDate)
    ensures Selected(s, interval) && s.status == NotAdded && now < s.startDate && now + interval < s.endDate ==>
              d == Dispatched(s, None)
    ensures d.mail.Some? <==> Selected(s, interval) && d.schedule.status == Active
    ensures d.mail.Some? ==> d.mail.value == SendEmailToSchedule(t, s, sender)
    ensures d.schedule.status != Paused || s.status == Paused
  {
    if !Selected(s, interval) then Dispatched(s, None)
    else
      var s' := Transition(s, now, interval);
      Dispatched(s', if s'.status == Active then Some(SendEmailToSchedule(t, s', sender)) else None)
  }

  /** The tick's effect on a selected schedule as a transition table read
      by outcome: the pair is the status after the tick and whether an
      email goes out. */
  function TransitionTable(status: Status, startDate: int, endDate: int, now: int, interval: int): (Status, bool) {
    if now + interval >= endDate then (Completed, false)
    else if status == Active then (Active, true)
    else if status == NotAdded && startDate <= now then (Active, true)
    else (status, false)
  }

  /** The code-ordered loop body and the transition table agree on every
      selected schedule. */
  lemma DispatchFollowsTransitionTable(t: RecipientTable, s: Schedule, now: int, interval: int, sender: Email)
    requires Selected(s, interval)
    ensures var d := DispatchOne(t, s, now, interval, sender);
            (d.schedule.status, d.mail.Some?) == TransitionTable(s.status, s.startDate, s.endDate, now, interval)
  {
  }

  /** A completed schedule is never selected again: every later tick leaves
      it alone and sends nothing for it. */
  lemma CompletedIsFinal(t: RecipientTable, s: Schedule, now: int, interval: int, sender: Email)
    requires s.status == Completed
    ensures DispatchOne(t, s, now, interval, sender) == Dispatched(s, None)
  {
  }

  /** One tick: the loop body applied to every stored schedule in
      primary-key order. */
  function Tick(t: RecipientTable, ss: ScheduleTable, now: int, interval: int, sender: Email): (r: seq<Dispatched>)
    ensures |r| == |ss|
    ensures forall i :: 0 <= i < |ss| ==> r[i] == DispatchOne(t, ss[i], now, interval, sender)
  {
    if |ss| == 0 then []
    else [DispatchOne(t, ss[0], now, interval, sender)] + Tick(t, ss[1..], now, interval, sender)
  }

  /** The schedules after a tick, in order. */
  function Schedules(ds: seq<Dispatched>): (r: ScheduleTable)
    ensures |r| == |ds|
    ensures forall i :: 0 <= i < |ds| ==> r[i] == ds[i].schedule
  {
    seq(|ds|, i requires 0 <= i < |ds| => ds[i].schedule)
  }

  /** The emails a tick sent, in schedule order. */
  function Outbox(ds: seq<Dispatched>): seq<Mail> {
    if |ds| == 0 then []
    else
      var last := ds[|ds| - 1];
      Outbox(ds[..|ds| - 1]) + if last.mail.Some? then [last.mail.value] else []
  }

  /** The positions, in increasing order, of the dispatched schedules that
      were mailed. */
  function SentPositions(ds: seq<Dispatched>): (p: seq<nat>)
    ensures forall k :: 0 <= k < |p| ==> p[k] < |ds| && ds[p[k]].mail.Some?
    ensures forall i :: 0 <= i < |ds| && ds[i].mail.Some? ==> i in p
    ensures forall a, b :: 0 <= a < b < |p| ==> p[a] < p[b]
  {
    if |ds| == 0 then []
    else
      var prev := SentPositions(ds[..|ds| - 1]);
      if ds[|ds| - 1].mail.Some? then prev + [|ds| - 1] else prev
  }

  /** The outbox holds one email per mailed schedule and nothing else: its
      k-th email is the mail of the k-th mailed schedule. */
  lemma {:induction false} OutboxInOrder(ds: seq<Dispatched>)
    ensures |Outbox(ds)| == |SentPositions(ds)|
    ensures forall k :: 0 <= k < |Outbox(ds)| ==> Outbox(ds)[k] == ds[SentPositions(ds)[k]].mail.value
  {
    if |ds| > 0 {
      var init := ds[..|ds| - 1];
      OutboxInOrder(init);
      forall k | 0 <= k < |Outbox(init)|
        ensures Outbox(ds)[k] == ds[SentPositions(ds)[k]].mail.value
      {
        assert Outbox(ds)[k] == Outbox(init)[k];
        assert SentPositions(ds)[k] == SentPositions(init)[k];
      }
    }
  }

  /** Every sent email belongs to one dispatched schedule, no schedule
      gets more than one, and every mailed schedule's email is sent. */
  lemma OutboxFromDispatches(ds: seq<Dispatched>)
    ensures |Outbox(ds)| <= |ds|
    ensures forall m :: m in Outbox(ds) ==> exists i :: 0 <= i < |ds| && ds[i].mail == Some(m)
    ensures forall i :: 0 <= i < |ds| && ds[i].mail.Some? ==> ds[i].mail.value in Outbox(ds)
  {
    OutboxInOrder(ds);
    var p := SentPositions(ds);
    PositionsWithin(p, |ds|);
    forall m | m in Outbox(ds)
      ensures exists i :: 0 <= i < |ds| && ds[i].mail == Some(m)
    {
      var k :| 0 <= k < |Outbox(ds)| && Outbox(ds)[k] == m;
      assert ds[p[k]].mail == Some(m);
    }
    forall i | 0 <= i < |ds| && ds[i].mail.Some?
      ensures ds[i].mail.value in Outbox(ds)
    {
      var k :| 0 <= k < |p| && p[k] == i;
      assert Outbox(ds)[k] == ds[i].mail.value;
    }
  }

  /** A strictly increasing sequence of positions below n has at most n
      entries. */
  lemma {:induction false} PositionsWithin(p: seq<nat>, n: nat)
    requires forall k :: 0 <= k < |p| ==> p[k] < n
    requires forall a, b :: 0 <= a < b < |p| ==> p[a] < p[b]
    ensures |p| <= n
  {
    if |p| > 0 {
      PositionsWithin(p[..|p| - 1], p[|p| - 1]);
    }
  }

  /** Every email a tick sends goes to a selected schedule that ends the
      tick active, carrying that schedule's subject, content and recipients
      and the fixed sender; every such schedule gets its email, exactly
      once, and the emails go out in schedule order. */
  lemma TickSendsOnlyToActive(t: RecipientTable, ss: ScheduleTable, now: int, interval: int, sender: Email)
    ensures var r := Tick(t, ss, now, interval, sender);
            forall m :: m in Outbox(r) ==>
              exists i :: 0 <= i < |ss| && Selected(ss[i], interval) && r[i].schedule.status == Active
                          && m == SendEmailToSchedule(t, ss[i], sender)
    ensures |Outbox(Tick(t, ss, now, interval, sender))| <= |ss|
    ensures var r := Tick(t, ss, now, interval, sender);
            forall i :: 0 <= i < |ss| && Selected(ss[i], interval) && r[i].schedule.status == Active ==>
              SendEmailToSchedule(t, ss[i], sender) in Outbox(r)
    ensures var r := Tick(t, ss, now, interval, sender);
            && |Outbox(r)| == |SentPositions(r)|
            && forall k :: 0 <= k < |Outbox(r)| ==>
                 Outbox(r)[k] == SendEmailToSchedule(t, ss[SentPositions(r)[k]], sender)
  {
    var r := Tick(t, ss, now, interval, sender);
    OutboxFromDispatches(r);
    OutboxInOrder(r);
  }

  /** A tick changes statuses only, so the schedule table keeps its
      (content, frequency) uniqueness and every schedule keeps its
      recipients. */
  lemma TickKeepsScheduleUniqueness(t: RecipientTable, ss: ScheduleTable, now: int, interval: int, sender: Email)
    requires UniqueContentFrequency(ss)
    ensures UniqueContentFrequency(Schedules(Tick(t, ss, now, interval, sender)))
    ensures forall i :: 0 <= i < |ss| ==>
              Schedules(Tick(t, ss, now, interval, sender))[i].recipients == ss[i].recipients
  {

  }

  /** Activation on a daily tick (times in seconds): a daily schedule not
      yet added, whose start was an hour ago and whose end is two days
      away, becomes active and gets one email on that tick. */
  lemma ActivationExample(t: RecipientTable, s: Schedule, now: int, sender: Email)
    requires s.frequency == 86400 && s.status == NotAdded
    requires s.startDate == now - 3600 && s.endDate == now + 2 * 86400
    ensures DispatchOne(t, s, now, 86400, sender)
              == Dispatched(s.(status := Active), Some(SendEmailToSchedule(t, s, sender)))
  {
  }

  /** Completion on a daily tick (times in seconds): a daily schedule,
      active or not yet added, whose end is thirty minutes away falls
      within the coming interval, so it completes and gets no email on
      that tick. */
  lemma CompletionExample(t: RecipientTable, s: Schedule, now: int, sender: Email)
    requires s.frequency == 86400 && (s.status == Active || s.status == NotAdded)
    requires s.endDate == now + 1800
    ensures DispatchOne(t, s, now, 86400, sender) == Dispatched(s.(status := Completed), None)
  {
  }
}
