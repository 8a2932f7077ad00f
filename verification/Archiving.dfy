/** The fresh-name search, archiving round after round, and what archiving keeps of the tables. */
module Archiving {
  import opened Outcomes
  import opened Database
  import opened Text
  import opened Columns
  import opened FormStore
  import opened FormSchema
  import opened FormRegistry

  // ----- Candidate names ----------------------------------------------------------------------

  lemma CandidateInjective(original: string, j: nat, k: nat)
    requires Candidate(original, j) == Candidate(original, k)
    ensures j == k
  {
    assert Candidate(original, j)[|original| + 4..] == Decimal(j);
    assert Candidate(original, k)[|original| + 4..] == Decimal(k);
    IntTextInjective(j, k);
  }

  /** The text in front of a name and the suffix behind it have different letters, so they never
      give the same name. */
  lemma CandidateIsNoPrefixing(front: string, original: string, k: nat)
    requires 'l' !in front
    ensures front + original != Candidate(original, k)
  {
    var suffix := "_old" + Decimal(k);
    assert suffix[2] == 'l';
    assert multiset(front + original) == multiset(front) + multiset(original);
    assert multiset(original + suffix) == multiset(original) + multiset(suffix);
    assert multiset(front + original)['l'] < multiset(original + suffix)['l'];
  }

  /** A stored identifier is never a candidate name of its own stripped form. */
  lemma CandidateIsNotStripped(identifier: string, k: nat)
    ensures identifier != Candidate(Strip(identifier), k)
  {
    var x := Strip(identifier);
    var c := Candidate(x, k);
    StripEnds(identifier);
    DecimalIsDigits(k);
    assert c[|c| - 1] == Decimal(k)[|Decimal(k)| - 1];
    assert c[0] == if x == "" then '_' else x[0];
    StripKeeps(c);
    assert |c| > |x|;
  }

  lemma CreatedIsNoCandidate(identifier: string, k: nat)
    ensures CreatedName(identifier) != Candidate(Strip(identifier), k)
  {
    CandidateIsNoPrefixing(PREFIX, Strip(identifier), k);
    assert |Candidate(Strip(identifier), k)| > |Strip(identifier)|;
  }

  // ----- The search ---------------------------------------------------------------------------

  lemma {:induction false} SearchReaches(db: FormDb, original: string, faults: set<Stmt>, from: nat, k: nat)
    requires 1 <= from <= k <= LIMIT
    requires forall j: nat :: Probe(j) !in faults
    requires Free(db, Candidate(original, k)) && forall j :: from <= j < k ==> !Free(db, Candidate(original, j))
    ensures SearchFrom(db, original, faults, from) == Found(k)
    decreases k - from
  {
    if from < k { SearchReaches(db, original, faults, from + 1, k); }
  }

  lemma {:induction false} SearchExhausts(db: FormDb, original: string, faults: set<Stmt>, from: nat)
    requires 1 <= from <= LIMIT
    requires forall j: nat :: Probe(j) !in faults
    requires forall j :: from <= j <= LIMIT ==> !Free(db, Candidate(original, j))
    ensures SearchFrom(db, original, faults, from) == Exhausted
    decreases LIMIT - from
  {
    if from < LIMIT { SearchExhausts(db, original, faults, from + 1); }
  }

  /** All names the search looks at. */
  function Names(db: FormDb): set<string> {
    db.catalog.Keys + set row | row in db.forms :: row.name
  }

  function Candidates(original: string, n: nat): (s: set<string>)
    ensures forall name :: name in s <==> exists k :: 1 <= k <= n && name == Candidate(original, k)
  {
    if n == 0 then {} else
      var s := Candidates(original, n - 1) + {Candidate(original, n)};
      assert forall name :: name in s ==> exists k :: 1 <= k <= n && name == Candidate(original, k) by {
        assert Candidate(original, n) in s;
      }
      s
  }

  lemma {:induction false} CandidatesCount(original: string, n: nat)
    ensures |Candidates(original, n)| == n
  {
    if n > 0 {
      CandidatesCount(original, n - 1);
      if Candidate(original, n) in Candidates(original, n - 1) {
        var k :| 1 <= k <= n - 1 && Candidate(original, n) == Candidate(original, k);
        CandidateInjective(original, n, k);
      }
    }
  }

  lemma LeastFree(db: FormDb, original: string, n: nat) returns (k: nat)
    requires 1 <= n && Free(db, Candidate(original, n))
    ensures 1 <= k <= n && Free(db, Candidate(original, k))
    ensures forall j :: 1 <= j < k ==> !Free(db, Candidate(original, j))
  {
    k := 1;
    while !Free(db, Candidate(original, k))
      invariant 1 <= k <= n
      invariant forall j :: 1 <= j < k ==> !Free(db, Candidate(original, j))
      decreases n - k
    {
      k := k + 1;
    }
  }

  /** When no query fails, the search fails exactly when all 9999 candidates are taken, and then at
      least 9999 different names exist. */
  lemma SearchFailsIff(db: FormDb, original: string, faults: set<Stmt>)
    requires forall j: nat :: Probe(j) !in faults
    ensures SearchFrom(db, original, faults, 1).Found?
            <==> exists k :: 1 <= k <= LIMIT && Free(db, Candidate(original, k))
    ensures |Names(db)| < LIMIT ==> SearchFrom(db, original, faults, 1).Found?
  {
    if n :| 1 <= n <= LIMIT && Free(db, Candidate(original, n)) {
      var k := LeastFree(db, original, n);
      SearchReaches(db, original, faults, 1, k);
    } else {
      SearchExhausts(db, original, faults, 1);
      assert Candidates(original, LIMIT) <= Names(db);
      CandidatesCount(original, LIMIT);
      SubsetCount(Candidates(original, LIMIT), Names(db));
    }
  }

  lemma {:induction false} SubsetCount<T>(a: set<T>, b: set<T>)
    requires a <= b
    ensures |a| <= |b|
  {
    if a != {} {
      var x :| x in a;
      SubsetCount(a - {x}, b - {x});
    }
  }

  // ----- Registering and archiving in rounds ---------------------------------------------------

  /** A form is added under one identifier and then deleted. Making its table may fail in any way,
      and so may renaming it; the statements on its row go through. */
  datatype Round = Round(form: FormData, addFaults: set<Stmt>, deleteFaults: set<Stmt>)

  predicate RowGoesThrough(r: Round, identifier: string) {
    && r.form.identifier == Some(identifier) && r.form.display.Some?
    && r.addFaults !! {InsertForm, SaveForm}
    && r.deleteFaults <= {FindPhysical, RenamePhysical}
  }

  function PlayRound(db: FormDb, r: Round): FormDb {
    var added := AddForm(Tx(db, db), r.form, r.addFaults).tx.saved;
    DeleteForm(Tx(added, added), db.nextId, r.deleteFaults).tx.saved
  }

  function PlayRounds(db: FormDb, rs: seq<Round>): FormDb
    decreases |rs|
  {
    if rs == [] then db else PlayRound(PlayRounds(db, rs[..|rs| - 1]), rs[|rs| - 1])
  }

  /** Row ids are below the next identity value. */
  predicate FreshIds(db: FormDb) { forall row :: row in db.forms ==> row.id < db.nextId }

  function DisplayOf(r: Round): string { if r.form.display.Some? then r.form.display.value else "" }

  /** The rows n rounds leave behind. */
  function Archived(firstId: nat, original: string, rs: seq<Round>): seq<FormRow> {
    seq(|rs|, i requires 0 <= i < |rs| =>
      FormRow(firstId + i, Candidate(original, i + 1), DisplayOf(rs[i]), TOMBSTONE))
  }

  /** Adding commits the row whatever becomes of its table, and no catalog name but the form's own
      appears. */
  lemma AddCommitsRow(db: FormDb, form: FormData, faults: set<Stmt>)
    requires form.identifier.Some? && form.display.Some? && faults !! {InsertForm, SaveForm}
    ensures var after := AddForm(Tx(db, db), form, faults).tx.saved;
            && after.forms == WithRow(db, form).forms && after.nextId == db.nextId + 1
            && after.catalog.Keys <= db.catalog.Keys + {CreatedName(form.identifier.value)}
  {}

  lemma {:induction false} FindNewest(forms: seq<FormRow>, row: FormRow)
    requires row.mode != TOMBSTONE && forall r :: r in forms ==> r.id != row.id
    ensures FindActive(forms + [row], row.id) == Some(row)
    decreases |forms|
  {
    if forms != [] {
      assert (forms + [row])[1..] == forms[1..] + [row];
      FindNewest(forms[1..], row);
    }
  }

  lemma ArchiveNewest(forms: seq<FormRow>, row: FormRow, name: string)
    requires forall r :: r in forms ==> r.id != row.id
    ensures ArchiveRows(forms + [row], row.id, name) == forms + [row.(name := name, mode := TOMBSTONE)]
  {}

  /** The round's row is tombstoned under candidate k; nothing else changes in the registry. */
  predicate AfterRound(db: FormDb, after: FormDb, identifier: string, r: Round, k: nat) {
    && after.forms == db.forms + [FormRow(db.nextId, Candidate(Strip(identifier), k), DisplayOf(r), TOMBSTONE)]
    && after.nextId == db.nextId + 1
    && after.catalog.Keys <= db.catalog.Keys + {CreatedName(identifier), Candidate(Strip(identifier), k)}
  }

  lemma RoundArchives(db: FormDb, identifier: string, r: Round, k: nat)
    requires FreshIds(db) && RowGoesThrough(r, identifier)
    requires 1 <= k <= LIMIT
    requires Free(db, Candidate(Strip(identifier), k))
    requires forall j :: 1 <= j < k ==>
               !Free(db, Candidate(Strip(identifier), j)) && Registered(db.forms, Candidate(Strip(identifier), j))
    ensures AfterRound(db, PlayRound(db, r), identifier, r, k)
  {
    var x := Strip(identifier);
    var added := AddForm(Tx(db, db), r.form, r.addFaults).tx.saved;
    var row := FormRow(db.nextId, identifier, r.form.display.value, DEFAULT_MODE);
    AddCommitsRow(db, r.form, r.addFaults);
    FindNewest(db.forms, row);
    CandidateIsNotStripped(identifier, k);
    CreatedIsNoCandidate(identifier, k);
    assert forall name :: Registered(db.forms, name) ==> Registered(added.forms, name);
    SearchReaches(added, x, r.deleteFaults, 1, k);
    ArchiveNewest(db.forms, row, Candidate(x, k));
  }

  /** What n rounds make of the registry and the catalog. */
  predicate AfterRounds(db: FormDb, after: FormDb, identifier: string, rs: seq<Round>) {
    && after.forms == db.forms + Archived(db.nextId, Strip(identifier), rs)
    && after.nextId == db.nextId + |rs|
    && after.catalog.Keys <= db.catalog.Keys + {CreatedName(identifier)} + Candidates(Strip(identifier), |rs|)
  }

  lemma RegisteredAfter(db: FormDb, after: FormDb, identifier: string, rs: seq<Round>, k: nat)
    requires AfterRounds(db, after, identifier, rs)
    requires 1 <= k <= |rs|
    ensures Registered(after.forms, Candidate(Strip(identifier), k))
  {
    assert Archived(db.nextId, Strip(identifier), rs)[k - 1] in after.forms;
  }

  lemma NotRegisteredAfter(db: FormDb, after: FormDb, identifier: string, rs: seq<Round>, k: nat)
    requires AfterRounds(db, after, identifier, rs)
    requires k > |rs| && !Registered(db.forms, Candidate(Strip(identifier), k))
    ensures !Registered(after.forms, Candidate(Strip(identifier), k))
  {
    var x := Strip(identifier);
    var rows := Archived(db.nextId, x, rs);
    forall row | row in after.forms ensures row.name != Candidate(x, k) {
      if row !in db.forms {
        var i :| 0 <= i < |rs| && row == rows[i];
        if row.name == Candidate(x, k) { CandidateInjective(x, i + 1, k); }
      }
    }
  }

  lemma FreeAfter(db: FormDb, after: FormDb, identifier: string, rs: seq<Round>, k: nat)
    requires AfterRounds(db, after, identifier, rs)
    requires k > |rs| && Free(db, Candidate(Strip(identifier), k))
    ensures Free(after, Candidate(Strip(identifier), k))
  {
    var x := Strip(identifier);
    NotRegisteredAfter(db, after, identifier, rs, k);
    CreatedIsNoCandidate(identifier, k);
    if Candidate(x, k) in Candidates(x, |rs|) {
      var j :| 1 <= j <= |rs| && Candidate(x, k) == Candidate(x, j);
      CandidateInjective(x, j, k);
    }
  }

  lemma FreshAfter(db: FormDb, after: FormDb, identifier: string, rs: seq<Round>)
    requires AfterRounds(db, after, identifier, rs) && FreshIds(db)
    ensures FreshIds(after)
  {}

  lemma ArchivedByOne(firstId: nat, original: string, rs: seq<Round>, n: nat)
    requires |rs| == n + 1
    ensures Archived(firstId, original, rs)
            == Archived(firstId, original, rs[..n])
               + [FormRow(firstId + n, Candidate(original, n + 1), DisplayOf(rs[n]), TOMBSTONE)]
  {}

  lemma NamesByOne(start: set<string>, before: set<string>, after: set<string>, created: string, original: string,
                   n: nat)
    requires before <= start + {created} + Candidates(original, n)
    requires after <= before + {created, Candidate(original, n + 1)}
    ensures after <= start + {created} + Candidates(original, n + 1)
  {}

  lemma AppendRound(db: FormDb, before: FormDb, after: FormDb, identifier: string, rs: seq<Round>, n: nat)
    requires |rs| == n + 1 && AfterRounds(db, before, identifier, rs[..n])
    requires AfterRound(before, after, identifier, rs[n], n + 1)
    ensures AfterRounds(db, after, identifier, rs)
  {
    var x := Strip(identifier);
    ArchivedByOne(db.nextId, x, rs, n);
    var rows := Archived(db.nextId, x, rs[..n]);
    var row := FormRow(before.nextId, Candidate(x, n + 1), DisplayOf(rs[n]), TOMBSTONE);
    Associate(db.forms, rows, [row]);
    NamesByOne(db.catalog.Keys, before.catalog.Keys, after.catalog.Keys, CreatedName(identifier), x, n);
  }

  lemma NextRound(db: FormDb, before: FormDb, identifier: string, rs: seq<Round>, n: nat)
    requires |rs| == n + 1 && n < LIMIT
    requires FreshIds(db) && AfterRounds(db, before, identifier, rs[..n])
    requires RowGoesThrough(rs[n], identifier)
    requires Free(db, Candidate(Strip(identifier), n + 1))
    ensures AfterRound(before, PlayRound(before, rs[n]), identifier, rs[n], n + 1)
  {
    FreshAfter(db, before, identifier, rs[..n]);
    FreeAfter(db, before, identifier, rs[..n], n + 1);
    forall j: nat | 1 <= j < n + 1 ensures Registered(before.forms, Candidate(Strip(identifier), j)) {
      RegisteredAfter(db, before, identifier, rs[..n], j);
    }
    RoundArchives(before, identifier, rs[n], n + 1);
  }

  /** n rounds on one identifier, from a state without any of its candidate names: the registry
      keeps its rows and gains exactly the names _old1 .. _oldn, one per round, in order. */
  lemma {:induction false} RoundsArchiveInOrder(db: FormDb, identifier: string, rs: seq<Round>)
    requires FreshIds(db) && |rs| <= LIMIT
    requires forall r :: r in rs ==> RowGoesThrough(r, identifier)
    requires forall k :: k >= 1 ==> Free(db, Candidate(Strip(identifier), k))
    ensures AfterRounds(db, PlayRounds(db, rs), identifier, rs)
    decreases |rs|
  {
    if rs == [] {
      assert db.forms + Archived(db.nextId, Strip(identifier), rs) == db.forms;
    } else {
      var n := |rs| - 1;
      RoundsArchiveInOrder(db, identifier, rs[..n]);
      NextRound(db, PlayRounds(db, rs[..n]), identifier, rs, n);
      AppendRound(db, PlayRounds(db, rs[..n]), PlayRounds(db, rs), identifier, rs, n);
    }
  }

  /** No archived name is used twice and none is a name the registry had. */
  lemma ArchivedNamesDistinct(db: FormDb, identifier: string, rs: seq<Round>)
    requires FreshIds(db) && |rs| <= LIMIT
    requires forall r :: r in rs ==> RowGoesThrough(r, identifier)
    requires forall k :: k >= 1 ==> Free(db, Candidate(Strip(identifier), k))
    ensures var rows := PlayRounds(db, rs).forms;
            && |rows| == |db.forms| + |rs|
            && forall i, j :: 0 <= i < j < |rows| && j >= |db.forms| ==> rows[i].name != rows[j].name
  {
    var x := Strip(identifier);
    RoundsArchiveInOrder(db, identifier, rs);
    var rows, count := PlayRounds(db, rs).forms, |db.forms|;
    forall i, j | 0 <= i < j < |rows| && j >= count ensures rows[i].name != rows[j].name {
      var k := j - count + 1;
      assert rows[j].name == Candidate(x, k);
      if i < count {
        assert Free(db, Candidate(x, k));
        assert rows[i] in db.forms;
      } else if rows[i].name == rows[j].name {
        CandidateInjective(x, i - count + 1, k);
      }
    }
  }

  /** Once all 9999 candidates are taken, deleting fails and leaves everything as it was. */
  lemma ArchiveFull(db: FormDb, id: nat, faults: set<Stmt>)
    requires FindActive(db.forms, id).Some?
    requires forall k :: 1 <= k <= LIMIT ==> !Free(db, Candidate(Strip(FindActive(db.forms, id).value.name), k))
    ensures DeleteForm(Tx(db, db), id, faults) == Outcome(Tx(db, db), Abort(500))
  {
    var name := Strip(FindActive(db.forms, id).value.name);
    SearchNeverFinds(db, name, faults, 1);
  }

  lemma {:induction false} SearchNeverFinds(db: FormDb, original: string, faults: set<Stmt>, from: nat)
    requires 1 <= from <= LIMIT
    requires forall j :: from <= j <= LIMIT ==> !Free(db, Candidate(original, j))
    ensures !SearchFrom(db, original, faults, from).Found?
    decreases LIMIT - from
  {
    if from < LIMIT { SearchNeverFinds(db, original, faults, from + 1); }
  }
}
