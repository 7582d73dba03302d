/** The data migration that seeds the Severity table, and its reverse. */
module SeverityMigration {
  import opened Wrappers
  import opened Errors
  import opened Taxonomy
  import opened Models

  /** The rows `populate_severity_data` creates, in creation order. */
  const Seeds: seq<Row> := [
    Row(1, "small"),
    Row(3, "large"),
    Row(2, "medium"),
    Row(4, "replacement-required")
  ]

  /** The ids `reverse_severity_data` deletes, as listed there. */
  const ReverseIds: seq<int> := [1, 3, 2, 4]

  function Populate(db: Db): (r: Result<Db, Error>)
    ensures r.Success? <==> Fresh(db.severities, Seeds)
    ensures r.Failure? ==> r.error == IntegrityError
  {
    InsertRows(db, Severities, Seeds)
  }

  /** After the reverse no listed id is left in the table, and no PLDS row
      points at one. */
  function Reverse(db: Db): (r: Db)
    ensures forall i :: 0 <= i < |ReverseIds| ==> Get(r.severities, ReverseIds[i]).None?
    ensures forall k :: k in r.plds ==> k.s.None? || k.s.value !in ReverseIds
  {
    DeleteIdsKeys(db.severities, set i | i in ReverseIds);
    DeleteRows(db, Severities, set i | i in ReverseIds)
  }

  /** The seeded ids {1, 2, 3, 4} are distinct and so are their labels. */
  lemma SeedsWellFormed()
    ensures |Seeds| == 4
    ensures WellFormed(Seeds)
  {
    assert forall i :: 0 <= i < |Seeds| ==> Seeds[i].id == [1, 3, 2, 4][i];
    assert forall i :: 0 <= i < |Seeds| ==> |Seeds[i].name| == [5, 5, 6, 20][i];
  }

  /** The reverse deletes exactly the ids the populate inserts, {1, 2, 3, 4}. */
  lemma ReverseIdsAreSeedIds()
    ensures (set i | i in ReverseIds) == Ids(Seeds) == {1, 2, 3, 4}
  {
    forall x | x in Ids(Seeds) ensures x in ReverseIds {
      var k :| 0 <= k < |Seeds| && Seeds[k].id == x;
    }
    assert Seeds[0].id == 1 && Seeds[1].id == 3 && Seeds[2].id == 2 && Seeds[3].id == 4;
  }

  /** Populating succeeds iff none of the seeded ids and labels is taken. */
  lemma PopulateSucceedsIff(db: Db)
    ensures Populate(db).Success? <==> Ids(Seeds) !! Ids(db.severities) && Labels(Seeds) !! Labels(db.severities)
  {
    SeedsWellFormed();
  }

  /** After populating: 1 is 'small', 2 'medium', 3 'large', 4
      'replacement-required'; nothing but the Severity table changes. */
  lemma PopulateContents(db: Db)
    requires Valid(db)
    requires Populate(db).Success?
    ensures var t := Populate(db).value.severities;
      && Get(t, 1) == Some("small")
      && Get(t, 2) == Some("medium")
      && Get(t, 3) == Some("large")
      && Get(t, 4) == Some("replacement-required")
    ensures Populate(db).value.plds == db.plds && Populate(db).value.parts == db.parts
    ensures Populate(db).value.locations == db.locations && Populate(db).value.damageTypes == db.damageTypes
  {
    var db' := Populate(db).value;
    InsertRowsValid(db, Severities, Seeds);
    assert WellFormed(db'.TableOf(Severities));
    forall row | row in Seeds ensures Get(db'.severities, row.id) == Some(row.name) {
      assert row in db'.severities;
      GetRow(db'.severities, row);
    }
    assert Seeds[0] in Seeds && Seeds[1] in Seeds && Seeds[2] in Seeds && Seeds[3] in Seeds;
  }

  /** The reverse removes ids 1 to 4 and keeps every other row; PLDS rows
      survive unless their severity was removed (null severities stay). */
  lemma ReverseContents(db: Db)
    ensures forall row :: row in Reverse(db).severities <==> row in db.severities && row.id !in ReverseIds
    ensures Ids(Reverse(db).severities) == Ids(db.severities) - {1, 2, 3, 4}
    ensures forall k :: k in Reverse(db).plds <==> k in db.plds && !(k.s.Some? && k.s.value in ReverseIds)
    ensures Reverse(db).parts == db.parts && Reverse(db).locations == db.locations
    ensures Reverse(db).damageTypes == db.damageTypes
  {
    ReverseIdsAreSeedIds();
    DeleteIdsKeys(db.severities, set i | i in ReverseIds);
  }

  /** Populate then reverse gives back the original database. */
  lemma RoundTrip(db: Db)
    requires Valid(db)
    requires Populate(db).Success?
    ensures Reverse(Populate(db).value) == db
  {
    ReverseIdsAreSeedIds();
    DeleteUndoesInsert(db, Severities, Seeds);
  }

  /** Both directions keep the database invariant. */
  lemma MigrationValid(db: Db)
    requires Valid(db)
    ensures Populate(db).Success? ==> Valid(Populate(db).value)
    ensures Valid(Reverse(db))
  {
    if Populate(db).Success? {
      InsertRowsValid(db, Severities, Seeds);
    }
    DeleteRowsValid(db, Severities, set i | i in ReverseIds);
  }
}
