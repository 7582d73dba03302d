/** The response translator: keep the detections whose PLDS code exists and
    replace each kept code by its label projection. */
module Translator {
  import opened Wrappers
  import opened Errors
  import opened Json
  import opened Models

  /** `item["plds"]`, then the string check `.split` implies: a non-dictionary
      item raises `TypeError`, a missing key `KeyError`, a code that is not a
      string `AttributeError`. */
  function CodeOf(item: Value): (r: Result<string, Error>)
    ensures r.Success? <==> Shaped(item)
    ensures r.Success? ==> Str(r.value) == item.fields["plds"]
    ensures !item.Obj? ==> r == Failure(TypeError)
    ensures item.Obj? && "plds" !in item.fields ==> r == Failure(KeyError)
    ensures item.Obj? && "plds" in item.fields && !item.fields["plds"].Str? ==> r == Failure(AttributeError)
  {
    if !item.Obj? then Failure(TypeError)
    else if "plds" !in item.fields then Failure(KeyError)
    else if !item.fields["plds"].Str? then Failure(AttributeError)
    else Success(item.fields["plds"].s)
  }

  /** A dictionary whose `"plds"` entry is a string. */
  predicate Shaped(item: Value)
  {
    item.Obj? && "plds" in item.fields && item.fields["plds"].Str?
  }

  predicate AllShaped(items: seq<Value>)
  {
    forall i :: 0 <= i < |items| ==> Shaped(items[i])
  }

  /** The item survives the filter: its code names an existing PLDS row. */
  predicate Keep(db: Db, item: Value)
    requires Shaped(item)
  {
    PldsExists(db, item.fields["plds"].s)
  }

  /** A copy of the item whose `"plds"` entry is replaced by `json(code)`. */
  function Enrich(db: Db, item: Value): (r: Result<Value, Error>)
    requires Shaped(item)
    ensures r.Success? ==> r.value.Obj? && r.value.fields.Keys == item.fields.Keys
    ensures r.Success? ==> forall key :: key in item.fields && key != "plds" ==> r.value.fields[key] == item.fields[key]
    ensures r.Success? ==> Success(r.value.fields["plds"]) == ManagerJson(db, item.fields["plds"].s)
    ensures r.Failure? <==> ManagerJson(db, item.fields["plds"].s).Failure?
  {
    match ManagerJson(db, item.fields["plds"].s)
    case Failure(e) => Failure(e)
    case Success(j) => Success(Obj(item.fields["plds" := j]))
  }

  /** `_translate_plds(data)`, item by item: the first item that raises ends
      the whole translation with that error. */
  function Translate(db: Db, items: seq<Value>): (r: Result<seq<Value>, Error>)
    ensures r.Success? ==> AllShaped(items)
    ensures r.Success? ==> |r.value| <= |items|
    decreases |items|
  {
    if |items| == 0 then
      Success([])
    else
      match CodeOf(items[0])
      case Failure(e) => Failure(e)
      case Success(code) =>
        var rest := Translate(db, items[1..]);
        assert rest.Success? ==> AllShaped(items) by {
          if rest.Success? { ShapedCons(items); }
        }
        if !PldsExists(db, code) then
          rest
        else
          match Enrich(db, items[0])
          case Failure(e) => Failure(e)
          case Success(item) =>
            match rest
            case Failure(e) => Failure(e)
            case Success(tail) => Success([item] + tail)
  }

  lemma ShapedCons(items: seq<Value>)
    requires |items| > 0 && Shaped(items[0]) && AllShaped(items[1..])
    ensures AllShaped(items)
  {
    assert forall i :: 0 < i < |items| ==> items[i] == items[1..][i - 1];
  }

  /** The kept items, in their original order: an independent reference for
      the filtering half of `Translate`. */
  function Filter(db: Db, items: seq<Value>): (r: seq<Value>)
    requires AllShaped(items)
    ensures |r| <= |items|
    ensures AllShaped(r)
    ensures forall x :: x in r <==> x in items && Keep(db, x)
    ensures IsSubsequence(r, items)
    decreases |items|
  {
    if |items| == 0 then
      []
    else
      var rest := Filter(db, items[1..]);
      assert forall x :: x in items <==> x == items[0] || x in items[1..];
      if Keep(db, items[0]) then
        assert ([items[0]] + rest)[1..] == rest;
        [items[0]] + rest
      else
        rest
  }

  /** Every kept value occurs in the output as often as in the input:
      repeated detections are all kept. */
  lemma {:induction false} FilterCounts(db: Db, items: seq<Value>)
    requires AllShaped(items)
    ensures var r := Filter(db, items);
      forall x :: x in r ==> multiset(r)[x] == multiset(items)[x]
    decreases |items|
  {
    if |items| > 0 {
      assert AllShaped(items[1..]);
      FilterCounts(db, items[1..]);
      var rest := Filter(db, items[1..]);
      if Keep(db, items[0]) {
        CountsStep(items, rest, [items[0]] + rest);
      } else {
        CountsStep(items, rest, rest);
      }
    }
  }

  /** One step of `Filter` keeps the occurrence counts of the kept values:
      the head is either put in front or is absent from the rest. */
  lemma CountsStep(items: seq<Value>, rest: seq<Value>, r: seq<Value>)
    requires |items| > 0
    requires forall y :: y in rest ==> multiset(rest)[y] == multiset(items[1..])[y]
    requires || (r == [items[0]] + rest && (items[0] in items[1..] ==> items[0] in rest))
             || (r == rest && items[0] !in rest)
    ensures forall y :: y in r ==> multiset(r)[y] == multiset(items)[y]
  {
    assert items == [items[0]] + items[1..];
    assert multiset(items) == multiset([items[0]]) + multiset(items[1..]);
    if r == [items[0]] + rest {
      assert multiset(r) == multiset([items[0]]) + multiset(rest);
    }
  }

  /** `a` is `b` with some elements dropped and the others in their order. */
  predicate IsSubsequence<T(==)>(a: seq<T>, b: seq<T>)
    decreases |b|
  {
    |a| == 0 || (|b| > 0 && ((a[0] == b[0] && IsSubsequence(a[1..], b[1..])) || IsSubsequence(a, b[1..])))
  }

  /** `Enrich` applied to every item; the first failure wins. */
  function EnrichAll(db: Db, items: seq<Value>): (r: Result<seq<Value>, Error>)
    requires AllShaped(items)
    ensures r.Success? ==> |r.value| == |items|
    ensures r.Success? ==> forall i :: 0 <= i < |items| ==> Enrich(db, items[i]) == Success(r.value[i])
    ensures r.Failure? <==> exists i :: 0 <= i < |items| && Enrich(db, items[i]).Failure?
    decreases |items|
  {
    if |items| == 0 then
      Success([])
    else
      var rest := EnrichAll(db, items[1..]);
      assert forall i :: 0 < i < |items| ==> items[i] == items[1..][i - 1];
      match Enrich(db, items[0])
      case Failure(e) => Failure(e)
      case Success(item) =>
        match rest
        case Failure(e) =>
          var i :| 0 <= i < |items[1..]| && Enrich(db, items[1..][i]).Failure?;
          assert Enrich(db, items[i + 1]).Failure?;
          Failure(e)
        case Success(tail) => Success([item] + tail)
  }

  /** The translator is the filter followed by the map, including which error
      surfaces: when every item is a dictionary with a string code, the result
      is `EnrichAll(Filter(items))`; otherwise the translation fails. */
  lemma {:induction false} TranslateIsFilterThenMap(db: Db, items: seq<Value>)
    ensures AllShaped(items) ==> Translate(db, items) == EnrichAll(db, Filter(db, items))
    ensures !AllShaped(items) ==> Translate(db, items).Failure?
    decreases |items|
  {
    if |items| > 0 {
      TranslateIsFilterThenMap(db, items[1..]);
      if AllShaped(items) {
        assert AllShaped(items[1..]);
        var tail := Filter(db, items[1..]);
        if Keep(db, items[0]) {
          var f := [items[0]] + tail;
          assert f[1..] == tail;
        }
      } else {
        if Shaped(items[0]) {
          var i :| 0 <= i < |items| && !Shaped(items[i]);
          assert !Shaped(items[1..][i - 1]);
        }
      }
    }
  }

  /** The output holds one enriched copy of each kept item, in input order. */
  lemma TranslateKeepsExactly(db: Db, items: seq<Value>)
    requires Translate(db, items).Success?
    ensures var out := Translate(db, items).value;
      && |out| == |Filter(db, items)|
      && forall j :: 0 <= j < |out| ==> Enrich(db, Filter(db, items)[j]) == Success(out[j])
  {
    TranslateIsFilterThenMap(db, items);
  }

  /** Every kept item is in the output, and an item whose code does not exist
      is dropped. */
  lemma TranslateKeepsIff(db: Db, items: seq<Value>, x: Value)
    requires Translate(db, items).Success?
    requires x in items
    ensures Keep(db, x) <==> x in Filter(db, items)
  {
    TranslateIsFilterThenMap(db, items);
  }

  /** When every code exists, nothing is dropped. */
  lemma TranslateAllExist(db: Db, items: seq<Value>)
    requires AllShaped(items)
    requires forall i :: 0 <= i < |items| ==> Keep(db, items[i])
    ensures Filter(db, items) == items
    ensures Translate(db, items).Success? ==> |Translate(db, items).value| == |items|
  {
    FilterAllKept(db, items);
    TranslateIsFilterThenMap(db, items);
  }

  lemma {:induction false} FilterAllKept(db: Db, items: seq<Value>)
    requires AllShaped(items)
    requires forall i :: 0 <= i < |items| ==> Keep(db, items[i])
    ensures Filter(db, items) == items
    decreases |items|
  {
    if |items| > 0 {
      KeptTail(db, items);
      FilterAllKept(db, items[1..]);
      FilterKeptHead(db, items);
      assert [items[0]] + items[1..] == items;
    }
  }

  lemma KeptTail(db: Db, items: seq<Value>)
    requires |items| > 0 && AllShaped(items)
    requires forall i :: 0 <= i < |items| ==> Keep(db, items[i])
    ensures AllShaped(items[1..])
    ensures forall i :: 0 <= i < |items[1..]| ==> Keep(db, items[1..][i])
  {
    forall i | 0 <= i < |items[1..]| ensures Keep(db, items[1..][i]) {
      assert items[1..][i] == items[i + 1];
    }
  }

  lemma FilterKeptHead(db: Db, items: seq<Value>)
    requires |items| > 0 && AllShaped(items)
    requires forall i :: 0 <= i < |items| ==> Keep(db, items[i])
    ensures Filter(db, items) == [items[0]] + Filter(db, items[1..])
  {
    assert Keep(db, items[0]);
  }

  /** On a valid database a kept item fails to enrich exactly when its code
      has no severity. */
  lemma EnrichFailsIffSeverityless(db: Db, x: Value)
    requires Valid(db)
    requires Shaped(x) && Keep(db, x)
    ensures Enrich(db, x).Failure? <==> ParseCode(x.fields["plds"].s).value.s.None?
  {
    var code := x.fields["plds"].s;
    var k := ParseCode(code).value;
    assert k in db.plds;
    assert ManagerJson(db, code) == RowJson(db, k);
  }

  /** A kept item whose code has no severity. */
  predicate Severityless(db: Db, x: Value)
    requires Shaped(x)
  {
    Keep(db, x) && ParseCode(x.fields["plds"].s).value.s.None?
  }

  /** On a valid database the translation of well-formed detections fails
      exactly when a kept code has no severity: `PLDS.json` reads the
      severity's name even when it is null. */
  lemma {:induction false} TranslateFailsIffSeverityless(db: Db, items: seq<Value>)
    requires Valid(db)
    requires AllShaped(items)
    ensures Translate(db, items).Failure? <==> exists i :: 0 <= i < |items| && Severityless(db, items[i])
    decreases |items|
  {
    if |items| > 0 {
      var tail := items[1..];
      TranslateFailsIffSeverityless(db, tail);
      if Keep(db, items[0]) {
        EnrichFailsIffSeverityless(db, items[0]);
      }
      if exists i :: 0 <= i < |tail| && Severityless(db, tail[i]) {
        var i :| 0 <= i < |tail| && Severityless(db, tail[i]);
        assert items[i + 1] == tail[i];
      }
      if exists i :: 0 < i < |items| && Severityless(db, items[i]) {
        var i :| 0 < i < |items| && Severityless(db, items[i]);
        assert items[i] == tail[i - 1];
      }
    }
  }

  /** `_translate_plds(data)` on whatever the vision model's client returned:
      the decoded JSON, or an error string. `for item in data` walks a list's
      elements, a string's characters and a dictionary's keys, and refuses
      a number, a boolean or `None` with `TypeError`. A character or a key is
      a string, and `item["plds"]` on a string raises `TypeError`, so only an
      empty string or dictionary gets through, whatever the key order. */
  function TranslateData(db: Db, data: Value): (r: Result<seq<Value>, Error>)
    ensures data.Arr? ==> r == Translate(db, data.items)
    ensures data.Str? ==> r == Translate(db, Strings(Characters(data.s)))
    ensures data.Obj? ==> r == (if |data.fields| == 0 then Success([]) else Failure(TypeError))
    ensures data.Null? || data.Bool? || data.Num? ==> r == Failure(TypeError)
  {
    match data
    case Arr(items) => Translate(db, items)
    case Str(s) =>
      TranslateStrings(db, Strings(Characters(s)));
      if |s| == 0 then Success([]) else Failure(TypeError)
    case Obj(fields) => if |fields| == 0 then Success([]) else Failure(TypeError)
    case _ => Failure(TypeError)
  }

  /** The one-character strings of `s`, in order. */
  function Characters(s: string): (r: seq<string>)
    ensures |r| == |s|
  {
    seq(|s|, i requires 0 <= i < |s| => [s[i]])
  }

  function Strings(ss: seq<string>): (r: seq<Value>)
    ensures |r| == |ss|
    ensures forall i :: 0 <= i < |ss| ==> r[i] == Str(ss[i])
  {
    seq(|ss|, i requires 0 <= i < |ss| => Str(ss[i]))
  }

  /** Iterating over strings, in any order: nothing to translate, or a
      `TypeError` at the first one. */
  lemma TranslateStrings(db: Db, items: seq<Value>)
    requires forall i :: 0 <= i < |items| ==> items[i].Str?
    ensures Translate(db, items) == if |items| == 0 then Success([]) else Failure(TypeError)
  {
  }

  /** A dictionary's keys, listed in any order, translate as the dictionary
      does. */
  lemma TranslateKeys(db: Db, fields: map<string, Value>, keys: seq<string>)
    requires forall k :: k in fields <==> k in keys
    ensures Translate(db, Strings(keys)) == TranslateData(db, Obj(fields))
  {
    TranslateStrings(db, Strings(keys));
    if |keys| > 0 {
      assert keys[0] in fields;
    }
  }

  /** The loop of `_translate_plds`: copy each kept item, replace its code,
      append. */
  method TranslatePlds(db: Db, items: seq<Value>) returns (r: Result<seq<Value>, Error>)
    ensures r == Translate(db, items)
  {
    var translated: seq<Value> := [];
    var i := 0;
    assert items[i..] == items;
    PrependNothing(Translate(db, items));
    while i < |items|
      invariant 0 <= i <= |items|
      invariant Translate(db, items) == Prepend(translated, Translate(db, items[i..]))
    {
      var rest := items[i..];
      assert rest[0] == items[i] && rest[1..] == items[i + 1..];
      var code := CodeOf(items[i]);
      if code.Failure? {
        return Failure(code.error);
      }
      if !PldsExists(db, code.value) {
        i := i + 1;
        continue;
      }
      var item := Enrich(db, items[i]);
      if item.Failure? {
        return Failure(item.error);
      }
      PrependOne(translated, item.value, Translate(db, items[i + 1..]));
      translated := translated + [item.value];
      i := i + 1;
    }
    assert items[i..] == [] && translated + [] == translated;
    return Success(translated);
  }

  /** `done` in front of a result, errors passing through. */
  function Prepend(done: seq<Value>, r: Result<seq<Value>, Error>): Result<seq<Value>, Error>
  {
    match r
    case Success(rest) => Success(done + rest)
    case Failure(e) => Failure(e)
  }

  lemma PrependNothing(r: Result<seq<Value>, Error>)
    ensures Prepend([], r) == r
  {
    if r.Success? {
      assert [] + r.value == r.value;
    }
  }

  lemma PrependOne(done: seq<Value>, x: Value, r: Result<seq<Value>, Error>)
    ensures Prepend(done, Prepend([x], r)) == Prepend(done + [x], r)
  {
    if r.Success? {
      assert done + ([x] + r.value) == (done + [x]) + r.value;
    }
  }
}
