/** The data migration that seeds the Location table, and its reverse. */
module LocationMigration {
  import opened Wrappers
  import opened Errors
  import opened Taxonomy
  import opened Models

  /** The rows `populate_location_data` creates, in creation order. */
  const Seeds: seq<Row> := [
    Row(0, "all"),
    Row(4, "left-front"),
    Row(5, "left-rear"),
    Row(6, "right-front"),
    Row(7, "right-rear"),
    Row(1, "center-front"),
    Row(2, "center-rear"),
    Row(3, "left-side"),
    Row(8, "right-side"),
    Row(29, "center"),
    Row(12, "left-row3"),
    Row(13, "right-row3"),
    Row(11, "center-row3"),
    Row(32, "warning-light"),
    Row(37, "underhood")
  ]

  /** The ids `reverse_location_data` deletes, as listed there. */
  const ReverseIds: seq<int> := [0, 4, 5, 6, 7, 1, 2, 3, 8, 29, 12, 13, 11, 32, 37]

  function Populate(db: Db): (r: Result<Db, Error>)
    ensures r.Success? <==> Fresh(db.locations, Seeds)
    ensures r.Failure? ==> r.error == IntegrityError
  {
    InsertRows(db, Locations, Seeds)
  }

  /** After the reverse no listed id is left in the table, and no PLDS row
      points at one. */
  function Reverse(db: Db): (r: Db)
    ensures forall i :: 0 <= i < |ReverseIds| ==> Get(r.locations, ReverseIds[i]).None?
    ensures forall k :: k in r.plds ==> k.l !in ReverseIds
  {
    DeleteIdsKeys(db.locations, set i | i in ReverseIds);
    DeleteRows(db, Locations, set i | i in ReverseIds)
  }

  /** The position of each seeded id in the seed list. */
  function IdPosition(id: int): nat
  {
    match id
    case 0 => 0 case 4 => 1 case 5 => 2 case 6 => 3 case 7 => 4
    case 1 => 5 case 2 => 6 case 3 => 7 case 8 => 8 case 29 => 9
    case 12 => 10 case 13 => 11 case 11 => 12 case 32 => 13 case _ => 14
  }

  /** The position of each seeded label in the seed list. */
  function LabelPosition(name: string): nat
  {
    match name
    case "all" => 0 case "left-front" => 1 case "left-rear" => 2
    case "right-front" => 3 case "right-rear" => 4 case "center-front" => 5
    case "center-rear" => 6 case "left-side" => 7 case "right-side" => 8
    case "center" => 9 case "left-row3" => 10 case "right-row3" => 11
    case "center-row3" => 12 case "warning-light" => 13 case _ => 14
  }

  /** The fifteen seeded ids are distinct (they are primary keys) and so are
      the fifteen labels (the label column is unique): each id and each label
      determines its row's position. */
  lemma SeedsWellFormed()
    ensures |Seeds| == 15
    ensures WellFormed(Seeds)
  {
    assert forall i :: 0 <= i < |Seeds| ==> IdPosition(Seeds[i].id) == i;
    assert forall i :: 0 <= i < |Seeds| ==> LabelPosition(Seeds[i].name) == i;
  }

  /** The reverse deletes exactly the ids the populate inserts. */
  lemma ReverseIdsAreSeedIds()
    ensures (set i | i in ReverseIds) == Ids(Seeds)
  {
    forall x | x in Ids(Seeds) ensures x in ReverseIds {
      var k :| 0 <= k < |Seeds| && Seeds[k].id == x;
    }
    forall x | x in ReverseIds ensures x in Ids(Seeds) {
      var k :| 0 <= k < |ReverseIds| && ReverseIds[k] == x;
      assert Seeds[k].id == x;
    }
  }

  /** Populating a valid database succeeds iff none of the seeded ids and
      labels is taken. */
  lemma PopulateSucceedsIff(db: Db)
    ensures Populate(db).Success? <==> Ids(Seeds) !! Ids(db.locations) && Labels(Seeds) !! Labels(db.locations)
  {
    SeedsWellFormed();
  }

  /** After populating, every seeded id names its seeded label, for instance
      0 is 'all' and 37 is 'underhood'; nothing but the Location table changes. */
  lemma PopulateContents(db: Db)
    requires Valid(db)
    requires Populate(db).Success?
    ensures var t := Populate(db).value.locations;
      forall row :: row in Seeds ==> Get(t, row.id) == Some(row.name)
    ensures Get(Populate(db).value.locations, 0) == Some("all")
    ensures Get(Populate(db).value.locations, 37) == Some("underhood")
    ensures Populate(db).value.plds == db.plds && Populate(db).value.parts == db.parts
    ensures Populate(db).value.damageTypes == db.damageTypes && Populate(db).value.severities == db.severities
  {
    var db' := Populate(db).value;
    InsertRowsValid(db, Locations, Seeds);
    assert WellFormed(db'.TableOf(Locations));
    forall row | row in Seeds ensures Get(db'.locations, row.id) == Some(row.name) {
      assert row in db'.locations;
      GetRow(db'.locations, row);
    }
    assert Seeds[0] == Row(0, "all") && Seeds[14] == Row(37, "underhood");
  }

  /** The reverse removes every listed id and keeps every other row, in order
      and with its label; PLDS rows survive unless they point at a removed
      location. */
  lemma ReverseContents(db: Db)
    ensures forall row :: row in Reverse(db).locations <==> row in db.locations && row.id !in ReverseIds
    ensures Ids(Reverse(db).locations) == Ids(db.locations) - (set i | i in ReverseIds)
    ensures forall k :: k in Reverse(db).plds <==> k in db.plds && k.l !in ReverseIds
    ensures Reverse(db).parts == db.parts && Reverse(db).damageTypes == db.damageTypes
    ensures Reverse(db).severities == db.severities
  {
    DeleteIdsKeys(db.locations, set i | i in ReverseIds);
  }

  /** Populate then reverse gives back the original database. */
  lemma RoundTrip(db: Db)
    requires Valid(db)
    requires Populate(db).Success?
    ensures Reverse(Populate(db).value) == db
  {
    ReverseIdsAreSeedIds();
    DeleteUndoesInsert(db, Locations, Seeds);
  }

  /** Both directions keep the database invariant. */
  lemma MigrationValid(db: Db)
    requires Valid(db)
    ensures Populate(db).Success? ==> Valid(Populate(db).value)
    ensures Valid(Reverse(db))
  {
    if Populate(db).Success? {
      InsertRowsValid(db, Locations, Seeds);
    }
    DeleteRowsValid(db, Locations, set i | i in ReverseIds);
  }
}
