/** One taxonomy table (Part, Location, DamageType or Severity): rows with an
    integer primary key and a unique label, kept in the order a full scan reads
    them, which is the order they were inserted. */
module Taxonomy {
  import opened Wrappers
  import opened Errors

  datatype Row = Row(id: int, name: string)

  type Table = seq<Row>

  function Ids(t: Table): set<int>
  {
    set k | 0 <= k < |t| :: t[k].id
  }

  function Labels(t: Table): set<string>
  {
    set k | 0 <= k < |t| :: t[k].name
  }

  /** The primary key: no two rows share an id. */
  predicate UniqueIds(t: Table)
  {
    forall i, j :: 0 <= i < j < |t| ==> t[i].id != t[j].id
  }

  /** The `unique=True` label column: no two rows share a label. */
  predicate UniqueLabels(t: Table)
  {
    forall i, j :: 0 <= i < j < |t| ==> t[i].name != t[j].name
  }

  predicate WellFormed(t: Table)
  {
    UniqueIds(t) && UniqueLabels(t)
  }

  /** The name of the label column of each table. */
  function LabelColumn(c: Category): string
  {
    match c
    case Parts => "part"
    case Locations => "location"
    case DamageTypes => "type"
    case Severities => "severity"
  }

  /** `Model.objects.get(id=id)`: the label of the row with that id, if any. */
  function Get(t: Table, id: int): (r: Option<string>)
    ensures r.None? <==> id !in Ids(t)
    ensures r.Some? ==> Row(id, r.value) in t
  {
    if |t| == 0 then None
    else if t[0].id == id then Some(t[0].name)
    else
      IdsTail(t);
      Get(t[1..], id)
  }

  lemma IdsTail(t: Table)
    requires |t| > 0
    ensures Ids(t) == {t[0].id} + Ids(t[1..])
  {
    forall x | x in Ids(t) ensures x in {t[0].id} + Ids(t[1..]) {
      var k :| 0 <= k < |t| && t[k].id == x;
      if k > 0 { assert t[1..][k - 1].id == x; }
    }
    forall x | x in Ids(t[1..]) ensures x in Ids(t) {
      var k :| 0 <= k < |t[1..]| && t[1..][k].id == x;
      assert t[k + 1].id == x;
    }
  }

  lemma LabelsTail(t: Table)
    requires |t| > 0
    ensures Labels(t) == {t[0].name} + Labels(t[1..])
  {
    forall x | x in Labels(t) ensures x in {t[0].name} + Labels(t[1..]) {
      var k :| 0 <= k < |t| && t[k].name == x;
      if k > 0 { assert t[1..][k - 1].name == x; }
    }
    forall x | x in Labels(t[1..]) ensures x in Labels(t) {
      var k :| 0 <= k < |t[1..]| && t[1..][k].name == x;
      assert t[k + 1].name == x;
    }
  }

  /** In a table with a primary key, a row is found by its id. */
  lemma GetRow(t: Table, row: Row)
    requires UniqueIds(t)
    requires row in t
    ensures Get(t, row.id) == Some(row.name)
  {
    var r := Get(t, row.id);
    var k :| 0 <= k < |t| && t[k] == row;
    var m :| 0 <= m < |t| && t[m] == Row(row.id, r.value);
    assert k == m;
  }

  /** `Model.objects.create(id=..., label=...)`: an INSERT that the primary key
      and the unique label column can refuse. */
  function Insert(t: Table, row: Row): (r: Result<Table, Error>)
    ensures r.Success? <==> row.id !in Ids(t) && row.name !in Labels(t)
    ensures r.Failure? ==> r.error == IntegrityError
    ensures r.Success? ==> r.value == t + [row]
  {
    if row.id in Ids(t) || row.name in Labels(t) then
      Failure(IntegrityError)
    else
      Success(t + [row])
  }

  /** An accepted insert keeps the primary key and the label column unique. */
  lemma InsertWellFormed(t: Table, row: Row)
    requires WellFormed(t)
    requires Insert(t, row).Success?
    ensures WellFormed(Insert(t, row).value)
  {
    var t' := t + [row];
    forall i, j | 0 <= i < j < |t'|
      ensures t'[i].id != t'[j].id && t'[i].name != t'[j].name
    {
      if j == |t| {
        assert t'[i] == t[i] && t[i].id in Ids(t) && t[i].name in Labels(t);
      }
    }
  }

  /** The rows of `rows` have pairwise distinct ids and labels, none of which
      is already in `t`. */
  predicate Fresh(t: Table, rows: seq<Row>)
  {
    WellFormed(rows) && Ids(rows) !! Ids(t) && Labels(rows) !! Labels(t)
  }

  /** One `create` per row, in order; the first refusal aborts the batch and,
      the migration being atomic, nothing is kept. */
  function InsertAll(t: Table, rows: seq<Row>): (r: Result<Table, Error>)
    ensures r.Success? <==> Fresh(t, rows)
    ensures r.Success? ==> r.value == t + rows
    ensures r.Failure? ==> r.error == IntegrityError
    decreases |rows|
  {
    if |rows| == 0 then
      Success(t)
    else
      match Insert(t, rows[0])
      case Failure(e) =>
        assert rows[0].id in Ids(rows) && rows[0].name in Labels(rows);
        Failure(e)
      case Success(t1) =>
        var r := InsertAll(t1, rows[1..]);
        FreshStep(t, rows);
        assert t1 + rows[1..] == t + rows;
        r
  }

  lemma FreshStep(t: Table, rows: seq<Row>)
    requires |rows| > 0
    requires rows[0].id !in Ids(t) && rows[0].name !in Labels(t)
    ensures Fresh(t, rows) <==> Fresh(t + [rows[0]], rows[1..])
  {
    var t1 := t + [rows[0]];
    var tail := rows[1..];
    assert Ids(t1) == Ids(t) + {rows[0].id} by {
      forall x | x in Ids(t1) ensures x in Ids(t) + {rows[0].id} {
        var k :| 0 <= k < |t1| && t1[k].id == x;
        if k < |t| { assert t[k].id == x; }
      }
      forall x | x in Ids(t) ensures x in Ids(t1) {
        var k :| 0 <= k < |t| && t[k].id == x;
        assert t1[k].id == x;
      }
      assert t1[|t|].id == rows[0].id;
    }
    assert Labels(t1) == Labels(t) + {rows[0].name} by {
      forall x | x in Labels(t1) ensures x in Labels(t) + {rows[0].name} {
        var k :| 0 <= k < |t1| && t1[k].name == x;
        if k < |t| { assert t[k].name == x; }
      }
      forall x | x in Labels(t) ensures x in Labels(t1) {
        var k :| 0 <= k < |t| && t[k].name == x;
        assert t1[k].name == x;
      }
      assert t1[|t|].name == rows[0].name;
    }
    IdsTail(rows);
    LabelsTail(rows);
    if Fresh(t1, tail) {
      assert WellFormed(rows) by {
        forall j | 0 < j < |rows| ensures rows[0].id != rows[j].id && rows[0].name != rows[j].name {
          assert rows[j] == tail[j - 1];
        }
      }
    }
  }

  /** `Model.objects.filter(id__in=ids).delete()` on this table alone: every row
      whose id is listed goes, the others stay in their order. */
  function DeleteIds(t: Table, ids: set<int>): (r: Table)
    ensures forall row :: row in r <==> row in t && row.id !in ids
    ensures |r| <= |t|
  {
    if |t| == 0 then
      []
    else
      assert forall row :: row in t <==> row == t[0] || row in t[1..];
      (if t[0].id in ids then [] else [t[0]]) + DeleteIds(t[1..], ids)
  }

  /** The ids left after a delete are the old ids minus the deleted ones. */
  lemma DeleteIdsKeys(t: Table, ids: set<int>)
    ensures Ids(DeleteIds(t, ids)) == Ids(t) - ids
  {
    var r := DeleteIds(t, ids);
    forall x | x in Ids(r) ensures x in Ids(t) - ids {
      var k :| 0 <= k < |r| && r[k].id == x;
      assert r[k] in t;
      var m :| 0 <= m < |t| && t[m] == r[k];
    }
    forall x | x in Ids(t) - ids ensures x in Ids(r) {
      var k :| 0 <= k < |t| && t[k].id == x;
      assert t[k] in r;
      var m :| 0 <= m < |r| && r[m] == t[k];
    }
  }

  /** A delete keeps the primary key and the label column unique. */
  lemma {:induction false} DeleteWellFormed(t: Table, ids: set<int>)
    requires WellFormed(t)
    ensures WellFormed(DeleteIds(t, ids))
    decreases |t|
  {
    if |t| > 0 {
      var rest := DeleteIds(t[1..], ids);
      assert WellFormed(t[1..]);
      DeleteWellFormed(t[1..], ids);
      if t[0].id !in ids {
        var r := [t[0]] + rest;
        forall j | 0 < j < |r| ensures r[0].id != r[j].id && r[0].name != r[j].name {
          assert r[j] in t[1..];
          var m :| 0 <= m < |t[1..]| && t[1..][m] == r[j];
          assert t[m + 1] == r[j];
        }
      }
    }
  }

  lemma {:induction false} DeleteNone(t: Table, ids: set<int>)
    requires Ids(t) !! ids
    ensures DeleteIds(t, ids) == t
    decreases |t|
  {
    if |t| > 0 {
      assert t[0].id in Ids(t);
      IdsTail(t);
      DeleteNone(t[1..], ids);
      assert [t[0]] + t[1..] == t;
    }
  }

  lemma {:induction false} DeleteAllListed(rows: seq<Row>, ids: set<int>)
    requires Ids(rows) <= ids
    ensures DeleteIds(rows, ids) == []
    decreases |rows|
  {
    if |rows| > 0 {
      assert rows[0].id in Ids(rows);
      IdsTail(rows);
      DeleteAllListed(rows[1..], ids);
    }
  }

  /** Deleting by id undoes a batch insert of rows with exactly those ids,
      whatever their position. */
  lemma {:induction false} DeleteInserted(t: Table, rows: seq<Row>, ids: set<int>)
    requires Ids(t) !! ids
    requires Ids(rows) <= ids
    ensures DeleteIds(t + rows, ids) == t
    decreases |t|
  {
    if |t| == 0 {
      assert t + rows == rows;
      var r := DeleteIds(rows, ids);
      DeleteAllListed(rows, ids);
    } else {
      assert (t + rows)[1..] == t[1..] + rows;
      assert t[0].id in Ids(t);
      IdsTail(t);
      DeleteInserted(t[1..], rows, ids);
      assert [t[0]] + t[1..] == t;
    }
  }
}
