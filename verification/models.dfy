/** The PLDS (Part, Location, DamageType, Severity) table and its manager:
    parsing a code string, the existence test, the label projection and
    get-or-create. */
module Models {
  import opened Wrappers
  import opened Errors
  import opened Delimited
  import opened Integers
  import opened Taxonomy
  import opened Json

  /** One PLDS row, identified by its four foreign keys; severity is nullable. */
  datatype PldsKey = PldsKey(p: int, l: int, d: int, s: Option<int>)

  /** The database: the four taxonomy tables and the PLDS table. The PLDS
      table is a set, so the `unique_together` constraint holds by construction. */
  datatype Db = Db(parts: Table, locations: Table, damageTypes: Table, severities: Table,
                   plds: set<PldsKey>)
  {
    function TableOf(c: Category): Table
    {
      match c
      case Parts => parts
      case Locations => locations
      case DamageTypes => damageTypes
      case Severities => severities
    }

    function WithTable(c: Category, t: Table): (db: Db)
      ensures db.TableOf(c) == t && db.plds == plds
      ensures forall c' :: c' != c ==> db.TableOf(c') == TableOf(c')
    {
      match c
      case Parts => this.(parts := t)
      case Locations => this.(locations := t)
      case DamageTypes => this.(damageTypes := t)
      case Severities => this.(severities := t)
    }
  }

  /** Every foreign key of `k` points at an existing taxonomy row; a null
      severity points nowhere and is allowed. */
  predicate References(db: Db, k: PldsKey)
  {
    && k.p in Ids(db.parts)
    && k.l in Ids(db.locations)
    && k.d in Ids(db.damageTypes)
    && (k.s.Some? ==> k.s.value in Ids(db.severities))
  }

  /** The database invariant: primary keys and labels unique in every taxonomy
      table, and every PLDS row's foreign keys resolve. */
  predicate Valid(db: Db)
  {
    && (forall c :: WellFormed(db.TableOf(c)))
    && (forall k :: k in db.plds ==> References(db, k))
  }

  /** The ids of `k`, in code order. */
  function Ids4(k: PldsKey): seq<int>
  {
    [k.p, k.l, k.d] + (if k.s.Some? then [k.s.value] else [])
  }

  /** The tuple of three or four ids, in code order; three mean a null
      severity. */
  function KeyOf(ns: seq<int>): (k: PldsKey)
    requires |ns| == 3 || |ns| == 4
    ensures Ids4(k) == ns
  {
    var k := PldsKey(ns[0], ns[1], ns[2], if |ns| == 4 then Some(ns[3]) else None);
    assert Ids4(k) == ns;
    k
  }

  /** Why a code string does not name a tuple. */
  datatype CodeError = WrongCount | NotInteger

  /** The parse shared by `plds_exists`, `json` and `create_from`: split on
      `->`; four components are part, location, damage type and severity,
      three mean a null severity, any other count is refused; every component
      goes through `int()`. */
  function ParseCode(code: string): (r: Result<PldsKey, CodeError>)
    ensures r == Failure(WrongCount) <==> |Split(code)| != 3 && |Split(code)| != 4
    ensures r.Success? ==> (r.value.s.None? <==> |Split(code)| == 3)
    ensures r.Success? ==> forall i :: 0 <= i < |Split(code)| ==> ParseInt(Split(code)[i]).Some?
    ensures (|Split(code)| == 3 || |Split(code)| == 4) && ParseAll(Split(code)).Some? ==> r.Success?
    ensures r.Success? ==> Ids4(r.value) == ParseAll(Split(code)).value
  {
    var values := Split(code);
    if |values| != 3 && |values| != 4 then
      Failure(WrongCount)
    else
      match ParseAll(values)
      case None => Failure(NotInteger)
      case Some(ns) =>
        Success(KeyOf(ns))
  }

  /** `map(int, values)`, which raises on the first component `int` refuses. */
  function ParseAll(values: seq<string>): (r: Option<seq<int>>)
    ensures r.Some? <==> forall i :: 0 <= i < |values| ==> ParseInt(values[i]).Some?
    ensures r.Some? ==> |r.value| == |values|
    ensures r.Some? ==> forall i :: 0 <= i < |values| ==> ParseInt(values[i]) == Some(r.value[i])
  {
    if forall i :: 0 <= i < |values| ==> ParseInt(values[i]).Some? then
      Some(seq(|values|, i requires 0 <= i < |values| => ParseInt(values[i]).value))
    else
      None
  }

  /** The code string for a tuple, in the `<p>-><l>-><d>-><s>` format the
      vision model is told to emit; a null severity leaves the fourth
      component out. */
  function Encode(k: PldsKey): string
  {
    Join(Components(k))
  }

  function Components(k: PldsKey): (parts: seq<string>)
    ensures |parts| == 3 || |parts| == 4
  {
    [ShowInt(k.p), ShowInt(k.l), ShowInt(k.d)] + (if k.s.Some? then [ShowInt(k.s.value)] else [])
  }

  lemma ShowIntNoSep(n: int)
    ensures NoSep(ShowInt(n))
  {
  }

  lemma SplitEncode(k: PldsKey)
    ensures Split(Encode(k)) == Components(k)
  {
    var parts := Components(k);
    forall i | 0 <= i < |parts| ensures NoSep(parts[i]) {
      ShowIntNoSep(Ids4(k)[i]);
    }
    SplitJoin(parts);
  }

  /** `str` of each id, in order. */
  function Shows(ids: seq<int>): (r: seq<string>)
    ensures |r| == |ids|
  {
    seq(|ids|, i requires 0 <= i < |ids| => ShowInt(ids[i]))
  }

  /** `map(int, [str(n) for n in ids])` gives back `ids`. */
  lemma ParseAllShows(ids: seq<int>)
    ensures ParseAll(Shows(ids)) == Some(ids)
  {
    var parts := Shows(ids);
    forall i | 0 <= i < |ids| ensures ParseInt(parts[i]) == Some(ids[i]) {
      ParseShow(ids[i]);
    }
    assert ParseAll(parts).value == ids;
  }

  lemma ParseComponents(k: PldsKey)
    ensures ParseAll(Components(k)) == Some(Ids4(k))
  {
    assert Components(k) == Shows(Ids4(k));
    ParseAllShows(Ids4(k));
  }

  /** Decoding an encoded tuple gives the tuple back. */
  lemma ParseEncode(k: PldsKey)
    ensures ParseCode(Encode(k)) == Success(k)
  {
    SplitEncode(k);
    ParseComponents(k);
  }

  /** `PLDS.objects.plds_exists(code)`: never raises; a malformed code is
      simply not there. */
  function PldsExists(db: Db, code: string): (r: bool)
    ensures r ==> |Split(code)| == 3 || |Split(code)| == 4
    ensures r ==> forall i :: 0 <= i < |Split(code)| ==> ParseInt(Split(code)[i]).Some?
  {
    match ParseCode(code)
    case Success(k) => k in db.plds
    case Failure(_) => false
  }

  /** The exact tuple is looked up: a code names an existing row iff its
      decoded tuple is in the table, and an encoded tuple exists iff the tuple
      is in the table. */
  lemma ExistsIffInTable(db: Db, k: PldsKey)
    ensures PldsExists(db, Encode(k)) <==> k in db.plds
  {
    ParseEncode(k);
  }

  /** A three-component code asks for the row with a null severity, never for
      a row that has one. */
  lemma ThreeComponentsMeansNoSeverity(db: Db, code: string)
    requires |Split(code)| == 3
    ensures PldsExists(db, code) <==> exists p, l, d :: PldsKey(p, l, d, None) in db.plds && ParseCode(code) == Success(PldsKey(p, l, d, None))
  {
    if PldsExists(db, code) {
      var k := ParseCode(code).value;
      assert PldsKey(k.p, k.l, k.d, None) == k;
    }
  }

  /** Wrong component count or a non-integer component: false, not an error. */
  lemma ExistsFalseOnMalformed(db: Db, code: string)
    requires (|Split(code)| != 3 && |Split(code)| != 4)
          || (exists i :: 0 <= i < |Split(code)| && ParseInt(Split(code)[i]).None?)
    ensures !PldsExists(db, code)
  {
  }

  /** The entry `key` of `v` is the label of the row `id` of table `t`. */
  predicate LabelOf(v: Value, key: string, t: Table, id: int)
  {
    v.Obj? && key in v.fields && v.fields[key].Str? && Row(id, v.fields[key].s) in t
  }

  /** `v` is the label projection of `k`: each of the four keys carries the
      label of the row the matching foreign key points at. */
  predicate Projects(db: Db, k: PldsKey, v: Value)
  {
    && LabelOf(v, "part", db.parts, k.p)
    && LabelOf(v, "location", db.locations, k.l)
    && LabelOf(v, "damage_type", db.damageTypes, k.d)
    && k.s.Some? && LabelOf(v, "severity", db.severities, k.s.value)
  }

  /** `PLDS.json` of one row: the four foreign keys replaced by their labels.
      The severity is dereferenced whether or not it is null, so a row without
      severity raises `AttributeError`. */
  function RowJson(db: Db, k: PldsKey): (r: Result<Value, Error>)
    ensures Valid(db) && k in db.plds ==> (r.Success? <==> k.s.Some?)
    ensures k.s.None? ==> r.Failure?
    ensures r.Success? ==> r.value.Obj? && r.value.fields.Keys == {"part", "location", "damage_type", "severity"}
    ensures r.Success? ==> Projects(db, k, r.value)
  {
    match (Get(db.parts, k.p), Get(db.locations, k.l), Get(db.damageTypes, k.d))
    case (None, _, _) => Failure(RowDoesNotExist(Parts))
    case (_, None, _) => Failure(RowDoesNotExist(Locations))
    case (_, _, None) => Failure(RowDoesNotExist(DamageTypes))
    case (Some(part), Some(location), Some(damageType)) =>
      if k.s.None? then
        Failure(AttributeError)
      else
        match Get(db.severities, k.s.value)
        case None => Failure(RowDoesNotExist(Severities))
        case Some(severity) =>
          Success(Obj(map["part" := Str(part), "location" := Str(location),
                          "damage_type" := Str(damageType), "severity" := Str(severity)]))
  }

  /** `PLDS.objects.json(code)`: `{}` for a wrong component count; a
      non-integer component raises `ValueError` (not caught here, unlike in
      `plds_exists`); a missing row raises `DoesNotExist`. */
  function ManagerJson(db: Db, code: string): (r: Result<Value, Error>)
    ensures |Split(code)| != 3 && |Split(code)| != 4 ==> r == Success(Obj(map[]))
    ensures ParseCode(code) == Failure(NotInteger) ==> r == Failure(ValueError(NotAnInteger))
    ensures ParseCode(code).Success? && !PldsExists(db, code) ==> r == Failure(PldsDoesNotExist)
    ensures PldsExists(db, code) ==> r == RowJson(db, ParseCode(code).value)
  {
    match ParseCode(code)
    case Failure(WrongCount) => Success(Obj(map[]))
    case Failure(NotInteger) => Failure(ValueError(NotAnInteger))
    case Success(k) =>
      if k in db.plds then RowJson(db, k) else Failure(PldsDoesNotExist)
  }

  /** `PLDS.objects.create_from(code)`: validate the format, resolve the four
      references in order, then get-or-create. On failure the database is
      returned unchanged. */
  function CreateFrom(db: Db, code: string): (out: (Db, Result<PldsKey, Error>))
    ensures out.1.Failure? ==> out.0 == db
    ensures |Split(code)| != 3 && |Split(code)| != 4 ==> out.1 == Failure(ValueError(WrongComponentCount))
    ensures ParseCode(code) == Failure(NotInteger) ==> out.1 == Failure(ValueError(NotAnInteger))
    ensures out.1.Success? <==> ParseCode(code).Success? && References(db, ParseCode(code).value)
    ensures out.1.Success? ==>
      && out.1.value == ParseCode(code).value
      && out.0.plds == db.plds + {out.1.value}
      && (forall c :: out.0.TableOf(c) == db.TableOf(c))
      && PldsExists(out.0, code)
  {
    match ParseCode(code)
    case Failure(WrongCount) => (db, Failure(ValueError(WrongComponentCount)))
    case Failure(NotInteger) => (db, Failure(ValueError(NotAnInteger)))
    case Success(k) =>
      match MissingReference(db, k)
      case Some(c) => (db, Failure(ValueError(RelatedNotFound(c))))
      case None =>
        var db' := db.(plds := db.plds + {k});
        ExistsIffParsedIn(db', code);
        SameTables(db, db'.plds);
        (db', Success(k))
  }

  /** The first table, in the order part, location, damage type, severity,
      that lacks the row `k` refers to. */
  function MissingReference(db: Db, k: PldsKey): (r: Option<Category>)
    ensures r.None? <==> References(db, k)
  {
    if k.p !in Ids(db.parts) then Some(Parts)
    else if k.l !in Ids(db.locations) then Some(Locations)
    else if k.d !in Ids(db.damageTypes) then Some(DamageTypes)
    else if k.s.Some? && k.s.value !in Ids(db.severities) then Some(Severities)
    else None
  }

  /** Replacing the PLDS table leaves every taxonomy table as it was. */
  lemma SameTables(db: Db, plds: set<PldsKey>)
    ensures forall c :: db.(plds := plds).TableOf(c) == db.TableOf(c)
  {
  }

  /** `plds_exists` looks up exactly the parsed tuple. */
  lemma ExistsIffParsedIn(db: Db, code: string)
    ensures PldsExists(db, code) <==> ParseCode(code).Success? && ParseCode(code).value in db.plds
  {
  }

  /** A missing reference is reported as a `ValueError` naming the first
      table, in the order part, location, damage type, severity, that lacks it. */
  lemma CreateFromMissingReference(db: Db, code: string, k: PldsKey)
    requires ParseCode(code) == Success(k)
    ensures k.p !in Ids(db.parts) ==> CreateFrom(db, code).1 == Failure(ValueError(RelatedNotFound(Parts)))
    ensures k.p in Ids(db.parts) && k.l !in Ids(db.locations) ==>
      CreateFrom(db, code).1 == Failure(ValueError(RelatedNotFound(Locations)))
    ensures k.p in Ids(db.parts) && k.l in Ids(db.locations) && k.d !in Ids(db.damageTypes) ==>
      CreateFrom(db, code).1 == Failure(ValueError(RelatedNotFound(DamageTypes)))
    ensures References(db, PldsKey(k.p, k.l, k.d, None)) && k.s.Some? && k.s.value !in Ids(db.severities) ==>
      CreateFrom(db, code).1 == Failure(ValueError(RelatedNotFound(Severities)))
  {
  }

  /** get-or-create is idempotent: a second call with the same code returns
      the same row and changes nothing; the table grows by at most one row. */
  lemma CreateFromIdempotent(db: Db, code: string)
    ensures CreateFrom(CreateFrom(db, code).0, code) == CreateFrom(db, code)
    ensures |CreateFrom(db, code).0.plds| <= |db.plds| + 1
  {
    var (db1, r1) := CreateFrom(db, code);
    if r1.Success? {
      var k := r1.value;
      assert db1.plds + {k} == db1.plds;
      assert db1.(plds := db1.plds + {k}) == db1;
    }
  }

  /** An existing code is fetched, not created again. */
  lemma CreateFromExisting(db: Db, code: string)
    requires Valid(db)
    requires PldsExists(db, code)
    ensures CreateFrom(db, code) == (db, Success(ParseCode(code).value))
  {
    var k := ParseCode(code).value;
    assert db.plds + {k} == db.plds;
    assert db.(plds := db.plds) == db;
  }

  /** get-or-create keeps the database invariant. */
  lemma CreateFromValid(db: Db, code: string)
    requires Valid(db)
    ensures Valid(CreateFrom(db, code).0)
  {
    var (db1, r1) := CreateFrom(db, code);
    if r1.Success? {
      forall c ensures WellFormed(db1.TableOf(c)) {
        assert db1.TableOf(c) == db.TableOf(c);
      }
      forall k | k in db1.plds ensures References(db1, k) {
        assert References(db, k);
      }
    }
  }

  /** Creating a code with a severity and then decoding it gives the labels of
      the referenced rows. */
  lemma CreateThenJson(db: Db, k: PldsKey)
    requires Valid(db)
    requires CreateFrom(db, Encode(k)).1.Success?
    requires k.s.Some?
    ensures var j := ManagerJson(CreateFrom(db, Encode(k)).0, Encode(k));
      j.Success? && Projects(db, k, j.value)
  {
    ParseEncode(k);
    CreateFromValid(db, Encode(k));
  }

  /** Creating a code without a severity succeeds, but decoding it then fails. */
  lemma CreateThenJsonNoSeverity(db: Db, k: PldsKey)
    requires CreateFrom(db, Encode(k)).1.Success?
    requires k.s.None?
    ensures ManagerJson(CreateFrom(db, Encode(k)).0, Encode(k)) == Failure(AttributeError)
  {
    ParseEncode(k);
  }

  /** `k` has a foreign key into table `c` whose value is listed in `ids`. */
  predicate RefersTo(k: PldsKey, c: Category, ids: set<int>)
  {
    match c
    case Parts => k.p in ids
    case Locations => k.l in ids
    case DamageTypes => k.d in ids
    case Severities => k.s.Some? && k.s.value in ids
  }

  /** One `create` per row into table `c`, as a data migration does; the
      migration is atomic, so a refused row leaves the database as it was. */
  function InsertRows(db: Db, c: Category, rows: seq<Row>): (r: Result<Db, Error>)
    ensures r.Success? <==> Fresh(db.TableOf(c), rows)
    ensures r.Failure? ==> r.error == IntegrityError
    ensures r.Success? ==> r.value.TableOf(c) == db.TableOf(c) + rows && r.value.plds == db.plds
    ensures r.Success? ==> forall c' :: c' != c ==> r.value.TableOf(c') == db.TableOf(c')
  {
    match InsertAll(db.TableOf(c), rows)
    case Failure(e) => Failure(e)
    case Success(t) => Success(db.WithTable(c, t))
  }

  /** `filter(id__in=ids).delete()` on table `c`; the foreign keys are
      `on_delete=CASCADE`, so the PLDS rows pointing at a deleted row go too. */
  function DeleteRows(db: Db, c: Category, ids: set<int>): (r: Db)
    ensures r.TableOf(c) == DeleteIds(db.TableOf(c), ids)
    ensures forall c' :: c' != c ==> r.TableOf(c') == db.TableOf(c')
    ensures forall k :: k in r.plds <==> k in db.plds && !RefersTo(k, c, ids)
  {
    db.WithTable(c, DeleteIds(db.TableOf(c), ids)).(plds := set k | k in db.plds && !RefersTo(k, c, ids))
  }

  /** A row that does not refer to a deleted id still has all its
      references after the cascading delete. */
  lemma ReferencesIn(db: Db, k: PldsKey, c: Category, ids: set<int>)
    requires References(db, k)
    requires !RefersTo(k, c, ids)
    ensures References(DeleteRows(db, c, ids), k)
  {
    DeleteIdsKeys(db.TableOf(c), ids);
  }

  /** A cascading delete keeps the database invariant. */
  lemma DeleteRowsValid(db: Db, c: Category, ids: set<int>)
    requires Valid(db)
    ensures Valid(DeleteRows(db, c, ids))
  {
    var db' := DeleteRows(db, c, ids);
    DeleteWellFormed(db.TableOf(c), ids);
    forall c' ensures WellFormed(db'.TableOf(c')) {
      if c' != c {
        assert db'.TableOf(c') == db.TableOf(c');
      }
    }
    forall k | k in db'.plds ensures References(db', k) {
      ReferencesIn(db, k, c, ids);
    }
  }

  /** An accepted batch insert keeps the database invariant. */
  lemma InsertRowsValid(db: Db, c: Category, rows: seq<Row>)
    requires Valid(db)
    requires InsertRows(db, c, rows).Success?
    ensures Valid(InsertRows(db, c, rows).value)
  {
    var db' := InsertRows(db, c, rows).value;
    var t := db.TableOf(c);
    assert WellFormed(t);
    assert WellFormed(t + rows) by {
      forall i, j | 0 <= i < j < |t + rows|
        ensures (t + rows)[i].id != (t + rows)[j].id && (t + rows)[i].name != (t + rows)[j].name
      {
        if j < |t| {
        } else if i < |t| {
          assert t[i].id in Ids(t) && t[i].name in Labels(t);
          assert rows[j - |t|].id in Ids(rows) && rows[j - |t|].name in Labels(rows);
        } else {
          assert (t + rows)[i] == rows[i - |t|] && (t + rows)[j] == rows[j - |t|];
        }
      }
    }
    assert Ids(t) <= Ids(t + rows) by {
      forall x | x in Ids(t) ensures x in Ids(t + rows) {
        var i :| 0 <= i < |t| && t[i].id == x;
        assert (t + rows)[i].id == x;
      }
    }
    forall c' ensures WellFormed(db'.TableOf(c')) {
      if c' != c {
        assert db'.TableOf(c') == db.TableOf(c');
      }
    }
    forall k | k in db'.plds ensures References(db', k) {
      assert References(db, k);
    }
  }

  /** Deleting exactly the ids a batch insert added restores the database,
      PLDS table included: on a valid database nothing pointed at those ids. */
  lemma DeleteUndoesInsert(db: Db, c: Category, rows: seq<Row>)
    requires Valid(db)
    requires InsertRows(db, c, rows).Success?
    ensures DeleteRows(InsertRows(db, c, rows).value, c, Ids(rows)) == db
  {
    var db' := InsertRows(db, c, rows).value;
    var ids := Ids(rows);
    var t := db.TableOf(c);
    DeleteInserted(t, rows, ids);
    var r := DeleteRows(db', c, ids);
    forall k | k in db.plds ensures !RefersTo(k, c, ids) {
      assert References(db, k);
    }
    assert r.plds == db.plds;
    assert forall c' :: r.TableOf(c') == db.TableOf(c');
  }
}
