/** Recipient resolution and the update of a schedule's recipient
    association (utils/serializers.py). The recipient table and the
    association are values: each operation returns the new ones. */
module RecipientUpsert {
  import opened Basics
  import opened Models

  /** One entry of the input recipient list: a mapping in which either key
      may be missing. */
  datatype RecipientInput = RecipientInput(email: Option<Email>, name: Option<string>)

  /** The unsaved recipient built from an input entry; a missing key takes
      the field's default. */
  function Build(input: RecipientInput): Recipient {
    Recipient(input.email.GetOr(DefaultEmail), input.name.GetOr(""))
  }

  /** Looks the input's email up in the table. A stored row is returned as
      is, with flag false, whatever name the input carries; otherwise a new
      unsaved recipient is built from the input, with flag true. A missing
      email matches no stored row. The table is not changed. */
  function GetOrCreateRecipient(t: RecipientTable, input: RecipientInput): (r: (Recipient, bool))
    ensures !r.1 <==> input.email.Some? && input.email.value in Emails(t)
    ensures !r.1 ==> r.0 in t && r.0.email == input.email.value
    ensures r.1 ==> r.0 == Build(input)
    ensures input.email.Some? ==> r.0.email == input.email.value
    ensures input.email.None? ==> r.0.email == DefaultEmail
  {
    match input.email
    case Some(e) =>
      (match Find(t, e)
       case Some(row) => (row, false)
       case None => (Build(input), true))
    case None => (Build(input), true)
  }

  /** Under the unique constraint, an existing email resolves to the one
      row that holds it. */
  lemma GetOrCreateFindsStoredRow(t: RecipientTable, i: nat, name: Option<string>)
    requires UniqueEmails(t)
    requires i < |t|
    ensures GetOrCreateRecipient(t, RecipientInput(Some(t[i].email), name)) == (t[i], false)
  {

  }

  /** The email of the row an input entry adds to the table: the given
      email when no row holds it yet, the default email when the key is
      missing, and none when the entry resolves to a stored row. */
  function NewEmail(t: RecipientTable, input: RecipientInput): (r: Option<Email>)
    ensures r.Some? <==> GetOrCreateRecipient(t, input).1
    ensures r.Some? ==> r.value == GetOrCreateRecipient(t, input).0.email
  {
    match input.email
    case None => Some(DefaultEmail)
    case Some(e) => if e in Emails(t) then None else Some(e)
  }

  /** The positions, in increasing order, of the input entries that build a
      new recipient. */
  function CreatedPositions(t: RecipientTable, inputs: seq<RecipientInput>): (p: seq<nat>)
    ensures forall k :: 0 <= k < |p| ==> p[k] < |inputs| && GetOrCreateRecipient(t, inputs[p[k]]).1
    ensures forall i :: 0 <= i < |inputs| && GetOrCreateRecipient(t, inputs[i]).1 ==> i in p
    ensures forall a, b :: 0 <= a < b < |p| ==> p[a] < p[b]
  {
    if |inputs| == 0 then []
    else
      var prev := CreatedPositions(t, inputs[..|inputs| - 1]);
      if GetOrCreateRecipient(t, inputs[|inputs| - 1]).1 then prev + [|inputs| - 1] else prev
  }

  /** The resolution loop: every input entry in order is resolved, and the
      newly built ones are also collected, in order, for insertion. The
      first component is the resolved list, the second the rows to create:
      one per entry that built a new recipient, in input order, repeats
      included. */
  function Resolve(t: RecipientTable, inputs: seq<RecipientInput>): (r: (seq<Recipient>, seq<Recipient>))
    ensures |r.0| == |inputs|
    ensures forall i :: 0 <= i < |inputs| ==> r.0[i] == GetOrCreateRecipient(t, inputs[i]).0
    ensures |r.1| == |CreatedPositions(t, inputs)|
  {
    if |inputs| == 0 then ([], [])
    else
      var prev := Resolve(t, inputs[..|inputs| - 1]);
      var last := GetOrCreateRecipient(t, inputs[|inputs| - 1]);
      (prev.0 + [last.0], if last.1 then prev.1 + [last.0] else prev.1)
  }

  /** The rows collected for insertion are the resolved entries at the
      created positions, in order: the k-th collected row is the one the
      k-th creating entry built. */
  lemma {:induction false} ResolveInOrder(t: RecipientTable, inputs: seq<RecipientInput>)
    ensures forall k :: 0 <= k < |Resolve(t, inputs).1| ==>
              Resolve(t, inputs).1[k] == Resolve(t, inputs).0[CreatedPositions(t, inputs)[k]]
  {
    if |inputs| > 0 {
      var init := inputs[..|inputs| - 1];
      var prev := Resolve(t, init);
      var r := Resolve(t, inputs);
      var p := CreatedPositions(t, init);
      ResolveInOrder(t, init);
      assert r.0 == prev.0 + [GetOrCreateRecipient(t, inputs[|inputs| - 1]).0];
      forall k | 0 <= k < |prev.1|
        ensures r.1[k] == r.0[CreatedPositions(t, inputs)[k]]
      {
        assert r.1[k] == prev.1[k] == prev.0[p[k]];
      }
    }
  }

  /** Every entry that builds a new recipient has it collected for
      insertion, and every collected row was built by some entry. */
  lemma ResolveCollectsCreated(t: RecipientTable, inputs: seq<RecipientInput>)
    ensures forall i :: 0 <= i < |inputs| && GetOrCreateRecipient(t, inputs[i]).1 ==>
              Resolve(t, inputs).0[i] in Resolve(t, inputs).1
    ensures forall x :: x in Resolve(t, inputs).1 ==>
              exists i :: 0 <= i < |inputs| && GetOrCreateRecipient(t, inputs[i]) == (x, true)
  {
    ResolveInOrder(t, inputs);
    var r := Resolve(t, inputs);
    var p := CreatedPositions(t, inputs);
    forall i | 0 <= i < |inputs| && GetOrCreateRecipient(t, inputs[i]).1
      ensures r.0[i] in r.1
    {
      var k :| 0 <= k < |p| && p[k] == i;
      assert r.1[k] == r.0[i];
    }
    forall x | x in r.1
      ensures exists i :: 0 <= i < |inputs| && GetOrCreateRecipient(t, inputs[i]) == (x, true)
    {
      var k :| 0 <= k < |r.1| && r.1[k] == x;
      assert GetOrCreateRecipient(t, inputs[p[k]]) == (x, true);
    }
  }

  /** When the resolved entries have pairwise distinct emails, so do the
      rows collected for insertion. */
  lemma ResolveCreatedDistinct(t: RecipientTable, inputs: seq<RecipientInput>)
    requires Distinct(Emails(Resolve(t, inputs).0))
    ensures Distinct(Emails(Resolve(t, inputs).1))
  {
    ResolveInOrder(t, inputs);
    var r := Resolve(t, inputs);
    var p := CreatedPositions(t, inputs);
    forall a, b | 0 <= a < b < |r.1|
      ensures Emails(r.1)[a] != Emails(r.1)[b]
    {
      assert Emails(r.1)[a] == Emails(r.0)[p[a]];
      assert Emails(r.1)[b] == Emails(r.0)[p[b]];
    }
  }

  /** Inserts several rows at once. The unique constraint makes the whole
      insertion fail when a new row repeats an email, either one already
      stored or one earlier in the batch; nothing is inserted then. */
  function BulkCreate(t: RecipientTable, rows: seq<Recipient>): (r: Result<RecipientTable, UniquenessError>)
    ensures r.Success? ==> |r.value| == |t| + |rows| && r.value[..|t|] == t && r.value[|t|..] == rows
    ensures r.Success? <==>
      Distinct(Emails(rows)) && forall k :: 0 <= k < |rows| ==> rows[k].email !in Emails(t)
    ensures UniqueEmails(t) ==> (r.Success? <==> UniqueEmails(t + rows))
  {
    EmailsConcat(t, rows);
    DistinctConcat(Emails(t), Emails(rows));
    if Distinct(Emails(rows)) && forall k :: 0 <= k < |rows| ==> rows[k].email !in Emails(t)
    then Success(t + rows)
    else Failure(EmailNotUnique)
  }

  /** A successful bulk insertion keeps every email unique. */
  lemma BulkCreateKeepsUnique(t: RecipientTable, rows: seq<Recipient>)
    requires UniqueEmails(t)
    requires BulkCreate(t, rows).Success?
    ensures UniqueEmails(BulkCreate(t, rows).value)
  {

  }

  /** When the recipient update's batch insertion raises, stated on the
      input entries alone: an entry without an email while a row with the
      default email is stored, or two entries that would add rows with the
      same email (the same unstored email twice, or two entries without
      an email, or one without an email and one naming the default email
      while it is unstored). */
  predicate InsertRaises(t: RecipientTable, inputs: seq<RecipientInput>) {
    || (DefaultEmail in Emails(t) && exists i :: 0 <= i < |inputs| && inputs[i].email.None?)
    || exists i, j :: 0 <= i < j < |inputs| && NewEmail(t, inputs[i]).Some? && NewEmail(t, inputs[i]) == NewEmail(t, inputs[j])
  }

  /** A collected row's email is the one its entry adds. */
  lemma CreatedEmails(t: RecipientTable, inputs: seq<RecipientInput>)
    ensures forall k :: 0 <= k < |Resolve(t, inputs).1| ==>
              NewEmail(t, inputs[CreatedPositions(t, inputs)[k]]) == Some(Resolve(t, inputs).1[k].email)
  {
    ResolveInOrder(t, inputs);
    var r := Resolve(t, inputs);
    var p := CreatedPositions(t, inputs);
    forall k | 0 <= k < |r.1|
      ensures NewEmail(t, inputs[p[k]]) == Some(r.1[k].email)
    {
      assert r.1[k] == r.0[p[k]] == GetOrCreateRecipient(t, inputs[p[k]]).0;
    }
  }

  /** A collected row that repeats a stored email was built from an entry
      without an email, so it carries the default email. */
  lemma StoredClashFromEntry(t: RecipientTable, inputs: seq<RecipientInput>, k: nat)
    requires k < |Resolve(t, inputs).1| && Resolve(t, inputs).1[k].email in Emails(t)
    ensures DefaultEmail in Emails(t) && inputs[CreatedPositions(t, inputs)[k]].email.None?
  {
    CreatedEmails(t, inputs);
  }

  /** An entry without an email is collected with the default email. */
  lemma MissingEmailCollected(t: RecipientTable, inputs: seq<RecipientInput>, i: nat) returns (k: nat)
    requires i < |inputs| && inputs[i].email.None?
    ensures k < |Resolve(t, inputs).1| && Resolve(t, inputs).1[k].email == DefaultEmail
  {
    var p := CreatedPositions(t, inputs);
    assert GetOrCreateRecipient(t, inputs[i]).1;
    k :| 0 <= k < |p| && p[k] == i;
    CreatedEmails(t, inputs);
  }

  /** A collected row repeats a stored email exactly when an entry without
      an email meets a stored row with the default email. */
  lemma StoredClash(t: RecipientTable, inputs: seq<RecipientInput>)
    ensures (exists k :: 0 <= k < |Resolve(t, inputs).1| && Resolve(t, inputs).1[k].email in Emails(t))
        <==> (DefaultEmail in Emails(t) && exists i :: 0 <= i < |inputs| && inputs[i].email.None?)
  {
    var c := Resolve(t, inputs).1;
    if exists k :: 0 <= k < |c| && c[k].email in Emails(t) {
      var k :| 0 <= k < |c| && c[k].email in Emails(t);
      StoredClashFromEntry(t, inputs, k);
    }
    if DefaultEmail in Emails(t) && exists i :: 0 <= i < |inputs| && inputs[i].email.None? {
      var i :| 0 <= i < |inputs| && inputs[i].email.None?;
      var k := MissingEmailCollected(t, inputs, i);
    }
  }

  /** Two collected rows that share an email come from two entries, in
      input order, that add rows with that email. */
  lemma BatchClashFromEntries(t: RecipientTable, inputs: seq<RecipientInput>, a: nat, b: nat) returns (i: nat, j: nat)
    requires a < b < |Resolve(t, inputs).1|
    requires Resolve(t, inputs).1[a].email == Resolve(t, inputs).1[b].email
    ensures i < j < |inputs| && NewEmail(t, inputs[i]).Some? && NewEmail(t, inputs[i]) == NewEmail(t, inputs[j])
  {
    CreatedEmails(t, inputs);
    i, j := CreatedPositions(t, inputs)[a], CreatedPositions(t, inputs)[b];
  }

  /** Two entries, in input order, that add rows with the same email have
      two collected rows sharing it. */
  lemma EntriesClashInBatch(t: RecipientTable, inputs: seq<RecipientInput>, i: nat, j: nat) returns (a: nat, b: nat)
    requires i < j < |inputs| && NewEmail(t, inputs[i]).Some? && NewEmail(t, inputs[i]) == NewEmail(t, inputs[j])
    ensures a < b < |Resolve(t, inputs).1|
    ensures Resolve(t, inputs).1[a].email == Resolve(t, inputs).1[b].email
  {
    var p := CreatedPositions(t, inputs);
    a :| 0 <= a < |p| && p[a] == i;
    b :| 0 <= b < |p| && p[b] == j;
    assert a < b;
    CreatedEmails(t, inputs);
  }

  /** Two collected rows share an email exactly when two entries add rows
      with the same email. */
  lemma BatchClash(t: RecipientTable, inputs: seq<RecipientInput>)
    ensures !Distinct(Emails(Resolve(t, inputs).1)) <==>
      exists i, j :: 0 <= i < j < |inputs| && NewEmail(t, inputs[i]).Some? && NewEmail(t, inputs[i]) == NewEmail(t, inputs[j])
  {
    var c := Resolve(t, inputs).1;
    if !Distinct(Emails(c)) {
      var a, b :| 0 <= a < b < |c| && Emails(c)[a] == Emails(c)[b];
      var i, j := BatchClashFromEntries(t, inputs, a, b);
    }
    if exists i, j :: 0 <= i < j < |inputs| && NewEmail(t, inputs[i]).Some? && NewEmail(t, inputs[i]) == NewEmail(t, inputs[j]) {
      var i, j :| 0 <= i < j < |inputs| && NewEmail(t, inputs[i]).Some? && NewEmail(t, inputs[i]) == NewEmail(t, inputs[j]);
      var a, b := EntriesClashInBatch(t, inputs, i, j);
      assert Emails(c)[a] == Emails(c)[b];
    }
  }

  /** The batch of rows the resolution collects fails to insert exactly
      when the input entries say so. */
  lemma InsertRaisesExactly(t: RecipientTable, inputs: seq<RecipientInput>)
    ensures BulkCreate(t, Resolve(t, inputs).1).Failure? <==> InsertRaises(t, inputs)
  {
    StoredClash(t, inputs);
    BatchClash(t, inputs);
  }

  /** The state the recipient update leaves behind: the recipient table,
      the schedule's association, and the integrity error raised by the
      insertion, if any. */
  datatype Applied = Applied(table: RecipientTable, linked: set<Email>, error: Option<UniquenessError>)

  /** The emails the input entries resolve to. */
  function ResolvedEmails(t: RecipientTable, inputs: seq<RecipientInput>): set<Email> {
    set i | 0 <= i < |inputs| :: GetOrCreateRecipient(t, inputs[i]).0.email
  }

  /** Sets a schedule's recipients from input entries. With `update` the
      association is cleared first; then every entry is resolved, the new
      recipients are inserted in one batch, and all resolved recipients are
      added to the association. The clearing is not undone when the batch
      insertion raises. */
  function CreateOrUpdateRecipients(
    t: RecipientTable, linked: set<Email>, inputs: seq<RecipientInput>, update: bool): (r: Applied)
    ensures |t| <= |r.table| && r.table[..|t|] == t
    ensures forall k :: |t| <= k < |r.table| ==> r.table[k].email !in Emails(t)
    ensures r.error.Some? <==> InsertRaises(t, inputs)
    ensures r.error.Some? ==> r.error == Some(EmailNotUnique) && r.table == t && r.linked == (if update then {} else linked)
    ensures r.error.None? ==> r.table[|t|..] == Resolve(t, inputs).1
    ensures r.error.None? && update ==> r.linked == ResolvedEmails(t, inputs)
    ensures r.error.None? && !update ==> r.linked == linked + ResolvedEmails(t, inputs)
    ensures r.error.None? ==>
              forall i :: 0 <= i < |inputs| && inputs[i].email.Some? ==> inputs[i].email.value in r.linked
    ensures !update ==> linked <= r.linked
  {
    var cleared := if update then {} else linked;
    var resolved := Resolve(t, inputs);
    InsertRaisesExactly(t, inputs);
    match BulkCreate(t, resolved.1)
    case Failure(e) => Applied(t, cleared, Some(e))
    case Success(t') =>
      assert forall k :: |t| <= k < |t'| ==> t'[k] == resolved.1[k - |t|];
      assert ResolvedEmails(t, inputs) == set x | x in resolved.0 :: x.email;
      Applied(t', cleared + set x | x in resolved.0 :: x.email, None)
  }

  /** The recipient update never breaks the unique constraint on emails. */
  lemma RecipientUpdateKeepsUnique(t: RecipientTable, linked: set<Email>, inputs: seq<RecipientInput>, update: bool)
    requires UniqueEmails(t)
    ensures UniqueEmails(CreateOrUpdateRecipients(t, linked, inputs, update).table)
  {

  }

  /** If every associated email had a stored row before, every associated
      email has one afterwards, whether or not the insertion raised. */
  lemma RecipientUpdateLinksStoredRows(t: RecipientTable, linked: set<Email>, inputs: seq<RecipientInput>, update: bool)
    requires forall e :: e in linked ==> e in Emails(t)
    ensures forall e :: e in CreateOrUpdateRecipients(t, linked, inputs, update).linked ==>
              e in Emails(CreateOrUpdateRecipients(t, linked, inputs, update).table)
  {
    var r := CreateOrUpdateRecipients(t, linked, inputs, update);
    if r.error.None? {
      var created := Resolve(t, inputs).1;
      assert r.table == t + created;
      EmailsConcat(t, created);
      ResolveCollectsCreated(t, inputs);
      forall e | e in r.linked && e !in linked
        ensures e in Emails(r.table)
      {
        var i :| 0 <= i < |inputs| && GetOrCreateRecipient(t, inputs[i]).0.email == e;
        var x := GetOrCreateRecipient(t, inputs[i]).0;
        if GetOrCreateRecipient(t, inputs[i]).1 {
          assert x == Resolve(t, inputs).0[i];
          var k :| 0 <= k < |created| && created[k] == x;
          assert Emails(created)[k] == e;
        } else {
          var k :| 0 <= k < |t| && t[k] == x;
          assert Emails(t)[k] == e;
        }
      }
    }
  }

  /** Inputs that all carry an email, pairwise distinct, never make the
      batch insertion raise. */
  lemma RecipientUpdateSucceedsOnDistinctEmails(
    t: RecipientTable, linked: set<Email>, inputs: seq<RecipientInput>, update: bool)
    requires forall i :: 0 <= i < |inputs| ==> inputs[i].email.Some?
    requires forall i, j :: 0 <= i < j < |inputs| ==> inputs[i].email != inputs[j].email
    ensures CreateOrUpdateRecipients(t, linked, inputs, update).error.None?
  {
    var resolved := Resolve(t, inputs);
    assert Distinct(Emails(resolved.0)) by {
      forall i, j | 0 <= i < j < |resolved.0|
        ensures Emails(resolved.0)[i] != Emails(resolved.0)[j]
      {
        assert Emails(resolved.0)[i] == inputs[i].email.value;
        assert Emails(resolved.0)[j] == inputs[j].email.value;
      }
    }
    ResolveCreatedDistinct(t, inputs);
    ResolveCollectsCreated(t, inputs);
    forall k | 0 <= k < |resolved.1|
      ensures resolved.1[k].email !in Emails(t)
    {
      assert resolved.1[k] in resolved.1;
      var i :| 0 <= i < |inputs| && GetOrCreateRecipient(t, inputs[i]) == (resolved.1[k], true);
    }
  }

  /** An email that is not stored yet and occurs twice in the input is
      collected twice for insertion, so the insertion raises, whatever the
      other entries are; the table is unchanged and, with `update`, the
      association stays cleared. */
  lemma RepeatedNewEmailRaises(
    t: RecipientTable, linked: set<Email>, inputs: seq<RecipientInput>, update: bool, i: nat, j: nat)
    requires i < j < |inputs|
    requires inputs[i].email.Some? && inputs[j].email == inputs[i].email
    requires inputs[i].email.value !in Emails(t)
    ensures var r := CreateOrUpdateRecipients(t, linked, inputs, update);
            r.error == Some(EmailNotUnique) && r.table == t && r.linked == (if update then {} else linked)
  {
    assert NewEmail(t, inputs[i]) == inputs[i].email == NewEmail(t, inputs[j]);
  }

  /** An email that is already stored may occur twice in the input: it
      resolves to the stored row both times and nothing is inserted. */
  lemma RepeatedStoredEmailAccepted(t: RecipientTable, linked: set<Email>, i: nat, update: bool)
    requires i < |t|
    ensures var e := t[i].email;
            var inputs := [RecipientInput(Some(e), None), RecipientInput(Some(e), None)];
            var r := CreateOrUpdateRecipients(t, linked, inputs, update);
            r.error.None? && r.table == t && e in r.linked
    ensures var e := t[i].email;
            var resolved := Resolve(t, [RecipientInput(Some(e), None), RecipientInput(Some(e), None)]).0;
            && resolved[0] == resolved[1] && resolved[0] in t && resolved[0].email == e
            && (UniqueEmails(t) ==> resolved == [t[i], t[i]])
  {
    StoredEmailResolves(t, i);
    StoredEmailCreatesNothing(t, i);
  }

  /** A stored email given twice builds no new recipient. */
  lemma StoredEmailCreatesNothing(t: RecipientTable, i: nat)
    requires i < |t|
    ensures var e := t[i].email;
            Resolve(t, [RecipientInput(Some(e), None), RecipientInput(Some(e), None)]).1 == []
  {
    var e := t[i].email;
    var inputs := [RecipientInput(Some(e), None), RecipientInput(Some(e), None)];
    assert Emails(t)[i] == e;
    assert !GetOrCreateRecipient(t, inputs[0]).1;
    assert inputs[..1] == [inputs[0]] && [inputs[0]][..0] == [];
    assert Resolve(t, [inputs[0]]).1 == [];
  }

  /** A stored email given twice resolves to one stored row holding it,
      both times; under the unique constraint that row is the one at the
      given position. */
  lemma StoredEmailResolves(t: RecipientTable, i: nat)
    requires i < |t|
    ensures var e := t[i].email;
            var resolved := Resolve(t, [RecipientInput(Some(e), None), RecipientInput(Some(e), None)]).0;
            && resolved[0] == resolved[1] && resolved[0] in t && resolved[0].email == e
            && (UniqueEmails(t) ==> resolved == [t[i], t[i]])
  {
    var e := t[i].email;
    var input := RecipientInput(Some(e), None);
    var inputs := [input, input];
    var resolved := Resolve(t, inputs).0;
    assert Emails(t)[i] == e;
    assert |resolved| == 2;
    assert resolved[0] == GetOrCreateRecipient(t, inputs[0]).0;
    assert resolved[1] == GetOrCreateRecipient(t, inputs[1]).0;
    if UniqueEmails(t) {
      GetOrCreateFindsStoredRow(t, i, None);
      assert resolved[0] == t[i] && resolved[1] == t[i];
    }
  }

  /** An entry without an email is built with the default email; when a
      default recipient is already stored, the insertion raises. */
  lemma MissingEmailCollidesWithDefault(t: RecipientTable, linked: set<Email>, update: bool)
    requires DefaultEmail in Emails(t)
    ensures CreateOrUpdateRecipients(t, linked, [RecipientInput(None, None)], update).error == Some(EmailNotUnique)
  {

  }

  /** Two schedules naming the same new email end up with one stored row
      between them and both associated with it. */
  lemma SharedEmailStoredOnce(e: Email, name: string)
    ensures var input := [RecipientInput(Some(e), Some(name))];
            var first := CreateOrUpdateRecipients([], {}, input, false);
            var second := CreateOrUpdateRecipients(first.table, {}, input, false);
            && first.table == [Recipient(e, name)] && first.linked == {e}
            && second.table == first.table && second.linked == {e}
  {
    var input := [RecipientInput(Some(e), Some(name))];
    assert input[..0] == [];
    assert GetOrCreateRecipient([], input[0]) == (Recipient(e, name), true);
    var empty: RecipientTable := [];
    assert Resolve(empty, input[..0]) == ([], []);
    assert Resolve(empty, input).1 == [] + [Recipient(e, name)];
    var first := CreateOrUpdateRecipients([], {}, input, false);
    assert first.table == [Recipient(e, name)];
    assert Emails(first.table)[0] == e;
    assert GetOrCreateRecipient(first.table, input[0]) == (Recipient(e, name), false);
    assert Resolve(first.table, input) == ([Recipient(e, name)], []);
  }
}
