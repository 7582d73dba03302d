/** The taxonomy serializers: `all()` lists every row of one table as a
    single-entry `{str(id): label}` dictionary, wrapped under `"parts"`. */
module Serializers {
  import opened Wrappers
  import opened Errors
  import opened Integers
  import opened Taxonomy
  import opened Json
  import opened Models

  /** A serializer class is its two class attributes. */
  datatype Serializer = Serializer(model: Option<Category>, field: Option<string>)

  const AbstractSerializer := Serializer(None, None)
  const PartSerializer := Serializer(Some(Parts), Some("part"))
  const LocationSerializer := Serializer(Some(Locations), Some("location"))
  const DamageTypeSerializer := Serializer(Some(DamageTypes), Some("type"))
  const SeveritySerializer := Serializer(Some(Severities), Some("severity"))

  /** The wrapper key every serializer uses, whatever its table. */
  const WrapperKey := "parts"

  /** `getattr(row, field)` on a row of table `c`: the primary key, the label
      column, or the `name` property that returns the label. */
  function Attribute(c: Category, row: Row, field: Option<string>): (r: Result<Value, Error>)
    ensures field == Some(LabelColumn(c)) ==> r == Success(Str(row.name))
    ensures field == Some("id") ==> r == Success(Num(row.id))
  {
    match field
    case None => Failure(TypeError)
    case Some(f) =>
      if f == "id" then Success(Num(row.id))
      else if f == LabelColumn(c) || f == "name" then Success(Str(row.name))
      else Failure(AttributeError)
  }

  /** `[{str(x.id): getattr(x, field)} for x in rows]`. */
  function Entries(c: Category, field: Option<string>, rows: Table): (r: Result<seq<Value>, Error>)
    ensures r.Success? ==> |r.value| == |rows|
    ensures r.Success? ==> forall i :: 0 <= i < |rows| ==>
      && Attribute(c, rows[i], field).Success?
      && r.value[i] == Obj(map[ShowInt(rows[i].id) := Attribute(c, rows[i], field).value])
    ensures field == Some(LabelColumn(c)) ==> r.Success?
    decreases |rows|
  {
    if |rows| == 0 then
      Success([])
    else
      match Attribute(c, rows[0], field)
      case Failure(e) => Failure(e)
      case Success(v) =>
        match Entries(c, field, rows[1..])
        case Failure(e) => Failure(e)
        case Success(rest) =>
          assert forall i :: 0 < i < |rows| ==> rows[i] == rows[1..][i - 1];
          Success([Obj(map[ShowInt(rows[0].id) := v])] + rest)
  }

  /** `Serializer.all()`: `NotImplementedError` without a model, otherwise
      the rows of the model's table in scan order, under `"parts"`. */
  function All(s: Serializer, db: Db): (r: Result<Value, Error>)
    ensures s.model.None? ==> r == Failure(NotImplementedError)
    ensures r.Success? ==> r.value.Obj? && r.value.fields.Keys == {WrapperKey}
    ensures r.Success? ==>
      && r.value.fields[WrapperKey].Arr?
      && |r.value.fields[WrapperKey].items| == |db.TableOf(s.model.value)|
  {
    match s.model
    case None => Failure(NotImplementedError)
    case Some(c) =>
      match Entries(c, s.field, db.TableOf(c))
      case Failure(e) => Failure(e)
      case Success(data) => Success(Obj(map[WrapperKey := Arr(data)]))
  }

  /** The four concrete serializers. */
  predicate Concrete(s: Serializer)
  {
    s in [PartSerializer, LocationSerializer, DamageTypeSerializer, SeveritySerializer]
  }

  /** Each concrete serializer reads its own table's label column. */
  lemma ConcreteBindings(s: Serializer)
    requires Concrete(s)
    ensures s.model.Some? && s.field == Some(LabelColumn(s.model.value))
  {
  }

  /** A concrete serializer never fails: one entry per row, in scan order,
      each keyed by a decimal string that reads back as the row's id and
      holding the row's label. */
  lemma AllListsRows(s: Serializer, db: Db)
    requires Concrete(s)
    ensures All(s, db).Success?
    ensures var t := db.TableOf(s.model.value);
      var data := All(s, db).value.fields[WrapperKey].items;
      && |data| == |t|
      && forall i :: 0 <= i < |t| ==>
        && data[i].Obj? && |data[i].fields| == 1
        && data[i].fields.Keys == {ShowInt(t[i].id)}
        && ParseInt(ShowInt(t[i].id)) == Some(t[i].id)
        && data[i].fields[ShowInt(t[i].id)] == Str(t[i].name)
  {
    ConcreteBindings(s);
    var t := db.TableOf(s.model.value);
    forall i | 0 <= i < |t| ensures ParseInt(ShowInt(t[i].id)) == Some(t[i].id) {
      ParseShow(t[i].id);
    }
  }

  /** In a table with a primary key the entries' keys are pairwise distinct,
      so the listing can be read back as an id-to-label dictionary. */
  lemma AllKeysDistinct(s: Serializer, db: Db)
    requires Concrete(s)
    requires UniqueIds(db.TableOf(s.model.value))
    ensures var t := db.TableOf(s.model.value);
      var data := All(s, db).value.fields[WrapperKey].items;
      forall i, j :: 0 <= i < j < |t| ==> data[i].fields.Keys != data[j].fields.Keys
  {
    AllListsRows(s, db);
    var t := db.TableOf(s.model.value);
    forall i, j | 0 <= i < j < |t| ensures ShowInt(t[i].id) != ShowInt(t[j].id) {
      ParseShow(t[i].id);
      ParseShow(t[j].id);
    }
  }
}
