# DentsInspector PLDS model

A Dafny model of the PLDS code core of DentsInspector, a car-damage inspection
service. A vision model reports each damage it finds with a code string
`<part>-><location>-><damage type>[-><severity>]`. The code is backed by four
taxonomy tables (Part, Location, DamageType, Severity) and a PLDS table of
known combinations. The model covers:

- **Taxonomy tables** (`taxonomy.dfy`). Each table is a sequence of `Row(id, name)` in scan order.
  The id is the primary key and the label column is unique. `Get`, `Insert`, `InsertAll`
  and `DeleteIds` model `objects.get`, `create`, a batch of `create`s, and
  `filter(id__in=…).delete()`.
- **PLDS manager** (`models.dfy`). The database `Db` holds the four tables and the PLDS
  table, a set of `PldsKey(p, l, d, s)` with a nullable severity. The code parse is
  `ParseCode`, built from `Split` (`str.split('->')`, `delimited.dfy`) and `ParseInt`
  (`int()`, `integers.dfy`). The manager operations are `PldsExists`, `ManagerJson`, `RowJson`
  (the `PLDS.json` property) and `CreateFrom` (get-or-create). `Valid` is the database
  invariant: ids and labels are unique, and every foreign key resolves. `Encode` writes a tuple
  as a code and is the partner of `ParseCode`. With a severity it writes the four-component
  form that `ai/instructions.py` tells the vision model to use. With a null severity it writes
  the three-component form, which the parse in `models.py` also accepts.
- **Response translator** (`translator.dfy`). `TranslateData` models `_translate_plds` on any
  JSON value or error string the vision-model client returns. `Translate` and the loop
  `TranslatePlds` model it on a list. When every item is a dictionary with a string `"plds"`,
  both are proved equal to an independent filter-then-map reference, `EnrichAll(Filter(…))`.
  Otherwise the call fails.
- **Serializers** (`serializers.dfy`). `All` models `AbstractSerializer.all`. The five classes
  are values of `Serializer(model, field)`.
- **Seed migrations** (`location_migration.dfy`, `severity_migration.dfy`). Each has the seed rows,
  the reverse id list, `Populate`, and `Reverse` with the cascade to PLDS rows.

Behaviour kept as the code has it:

- `PLDS.json` reads `self.s.name` even when the severity is null. A PLDS row made from a
  three-component code therefore cannot be decoded: `RowJson` fails with `AttributeError`.
  `_translate_plds` fails with that error as soon as it keeps such a code
  (`TranslateFailsIffSeverityless`).
- `plds_exists` returns false on a malformed code. `json` returns `{}` on a wrong component
  count, but it lets the `ValueError` from `int()` escape.
- Every serializer wraps its list under `"parts"`, even the location, damage-type and severity
  serializers.

Exceptions are values of `Errors.Error`, returned inside `Result`. A failing call returns the
database unchanged. `CreateFrom` returns the pair (new database, result). The batch insert and delete
(`InsertRows`, `DeleteRows`) and the migrations' `Populate` and `Reverse` return the new
database. The manager's lookups, the translator and the serializers take the database as an
input and return none, so they cannot change any table. The detection items are immutable values, so the
translator's copy-and-replace cannot change its input.

`create_from` raises `ValueError` for a wrong count, a non-integer component and a missing
reference alike. `ValueReason` records which of the three it was.

## Model

| member | source | states |
|---|---|---|
| Delimited.Split | DentsInspector/models.py:55 | `split('->')` returns at least one piece. No piece contains the separator. The first piece is a prefix of the input. |
| Delimited.JoinSplit | DentsInspector/models.py:55 | Joining the pieces of a split with `->` gives back the original string. |
| Delimited.SplitJoin | DentsInspector/models.py:55 | Splitting a `->`-join of separator-free pieces gives back exactly those pieces, so the component count is preserved. |
| Integers.ParseInt | DentsInspector/models.py:89-92 | Every string `int()` accepts contains an ASCII digit, so a string without one raises `ValueError`. |
| Integers.ParseDigits | DentsInspector/models.py:89-92 | `int()` reads a bare run of ASCII digits as its decimal value. |
| Integers.ParseNegativeDigits | DentsInspector/models.py:89-92 | `int()` reads a minus sign followed by a run of digits as the negated decimal value. |
| Integers.ParsePositiveDigits | DentsInspector/models.py:89-92 | `int()` reads a plus sign followed by a run of digits as the decimal value itself, e.g. `int("+5") == 5`. |
| Integers.ParseIntForm | DentsInspector/models.py:89-92 | Whatever `int()` accepts is whitespace, an integer literal (digits, possibly after one `+` or `-`) and whitespace, and reads as that literal. So `"1a"`, `"1 2"` and `"--1"` are refused. |
| Integers.ShowInt | DentsInspector/serializers.py:12 | `str(n)` starts with `-` iff `n` is negative. It is `"0"` when it starts with a zero, and a negative rendering has no zero after its sign. |
| Integers.ShowNat | DentsInspector/serializers.py:12 | `str(n)` of a natural is a non-empty digit string whose decimal value is `n`. It has no leading zero unless `n` is 0. |
| Integers.ParseShow | DentsInspector/models.py:58 | `int(str(n)) == n` for every integer, negative ones included. |
| Integers.ParseNeedsDigit | DentsInspector/models.py:58 | `int()` refuses a string with no digit, e.g. the empty component of `1->->3`. |
| Integers.ParsePadded | DentsInspector/models.py:58 | `int()` reads any string surrounded by tabs, line breaks, form feeds, carriage returns and spaces exactly as it reads the bare string: the same integer, or the same refusal. |
| Integers.SeparatorNotSpace | DentsInspector/models.py:58 | `int()` refuses any string that starts with one of the information separators `\x1c` to `\x1f`, e.g. `"\x1c5"`: they are not whitespace to `int()`. |
| Integers.ParsePaddedExample | DentsInspector/models.py:58 | `int(" 12\n")` is 12. |
| Models.ParseCode | DentsInspector/models.py:55-64 | A code is refused for count iff it does not split into 3 or 4 pieces. It parses iff it has 3 or 4 pieces and `int()` accepts every piece. The parsed ids are then the pieces' integer values in order, and the severity is null iff there are 3 pieces. |
| Models.ParseAll | DentsInspector/models.py:58-60 | `map(int, values)` succeeds iff every component parses, and then yields each component's value at its position. |
| Models.ParseAllShows | DentsInspector/models.py:58 | `map(int, …)` over the decimal strings of any list of integers gives back that list. |
| Models.ParseEncode | DentsInspector/models.py:55-61 | Parsing the `<p>-><l>-><d>[-><s>]` encoding of any tuple gives back that tuple. This holds for negative ids too, and a null severity comes back as null. |
| Models.PldsExists | DentsInspector/models.py:53-67 | `plds_exists` never raises. It can only be true for a code with 3 or 4 integer components. |
| Models.ExistsIffInTable | DentsInspector/models.py:65 | The encoded tuple exists iff that exact tuple is in the PLDS table. |
| Models.ThreeComponentsMeansNoSeverity | DentsInspector/models.py:59-61 | A 3-component code exists iff a row with those three ids and a null severity exists. |
| Models.ExistsFalseOnMalformed | DentsInspector/models.py:62-67 | A wrong component count or a non-integer component gives false, not an error. |
| Models.RowJson | DentsInspector/models.py:134-141 | On a valid database, a row's projection succeeds iff the row has a severity. It then has exactly the keys part, location, damage_type and severity. Each key holds the label of the row its foreign key points at. A null severity always fails. |
| Models.ManagerJson | DentsInspector/models.py:69-80 | A wrong count gives `{}`. A non-integer component raises `ValueError`. A well-formed code with no row raises `DoesNotExist`. An existing code gives its row's projection. |
| Models.CreateFrom | DentsInspector/models.py:82-112 | On failure the database is unchanged. A wrong count or a non-integer component gives `ValueError`. The call succeeds iff the code parses and every reference resolves. Success returns the parsed tuple, and the PLDS table afterwards contains it and nothing else new. The taxonomy tables are unchanged, and `plds_exists(code)` now holds. |
| Models.MissingReference | DentsInspector/models.py:97-103 | No table is named iff every foreign key of the tuple resolves; a null severity needs no row. |
| Models.ExistsIffParsedIn | DentsInspector/models.py:53-67 | `plds_exists` holds iff the code parses and the parsed tuple is in the PLDS table. |
| Models.CreateFromMissingReference | DentsInspector/models.py:97-103 | A missing part, location, damage type or (given) severity raises `ValueError`. The error names the first missing one in that order. |
| Models.CreateFromIdempotent | DentsInspector/models.py:106-112 | A second call with the same code returns the same result and changes nothing. The PLDS table grows by at most one row. |
| Models.CreateFromExisting | DentsInspector/models.py:106-112 | For a code that already exists, get-or-create returns that row and leaves the database as it was. |
| Models.CreateFromValid | DentsInspector/models.py:114-124 | get-or-create preserves the invariant: unique ids and labels, and every PLDS foreign key resolves. |
| Models.CreateThenJson | DentsInspector/models.py:134-141 | Creating a code with a severity and then decoding it gives the labels of the four referenced rows. |
| Models.CreateThenJsonNoSeverity | DentsInspector/models.py:140 | Creating a code without a severity succeeds, but decoding it then raises `AttributeError`. |
| Models.InsertRows | DentsInspector/migrations/0003_populate_locations.py:30-31 | A batch of creates succeeds iff the rows' ids and labels are distinct and not yet taken. It then appends them to one table and changes no other table. |
| Models.DeleteRows | DentsInspector/models.py:115-118 | Deleting ids removes exactly those rows. Through the cascading foreign keys it also removes exactly the PLDS rows that point at them. |
| Models.DeleteRowsValid | DentsInspector/models.py:115-118 | The cascading delete preserves the invariant. |
| Models.InsertRowsValid | DentsInspector/models.py:17-18 | An accepted batch insert preserves the invariant. |
| Models.DeleteUndoesInsert | DentsInspector/migrations/0003_populate_locations.py:40-42 | Deleting the ids a batch insert added restores the whole database, PLDS table included. |
| Taxonomy.Get | DentsInspector/models.py:98-101 | `get(id=…)` finds nothing iff no row has that id. A found label belongs to a row with that id. |
| Taxonomy.GetRow | DentsInspector/models.py:6-7 | With a primary key, every stored row is found by its id. |
| Taxonomy.Insert | DentsInspector/models.py:6-7 | `create` succeeds iff the id and the label are both new, and then appends the row. Otherwise it raises `IntegrityError`. |
| Taxonomy.InsertWellFormed | DentsInspector/models.py:17-18 | An accepted insert keeps ids and labels unique. |
| Taxonomy.InsertAll | DentsInspector/migrations/0003_populate_locations.py:30-31 | Creates in order succeed iff the batch is fresh, and then append the whole batch. |
| Taxonomy.DeleteIds | DentsInspector/migrations/0003_populate_locations.py:40-42 | A row survives the delete iff its id is not listed. |
| Taxonomy.DeleteIdsKeys | DentsInspector/migrations/0003_populate_locations.py:40-42 | The ids left are the old ids minus the listed ones. |
| Taxonomy.DeleteWellFormed | DentsInspector/models.py:17-18 | A delete keeps ids and labels unique. |
| Taxonomy.DeleteNone | DentsInspector/migrations/0003_populate_locations.py:40-42 | Deleting ids that are not in the table changes nothing, order included. |
| Taxonomy.DeleteInserted | DentsInspector/migrations/0003_populate_locations.py:40-42 | Deleting by the ids of appended rows gives back the table as it was before. |
| Taxonomy.DeleteAllListed | DentsInspector/migrations/0005_populate_severity.py:29 | Deleting a superset of a table's ids empties it. |
| Translator.CodeOf | DentsInspector/tests/test_event.py:19 | `item["plds"]` used as a string succeeds iff the item is a dictionary with a string `"plds"` entry. A non-dictionary raises `TypeError`, a missing `"plds"` key `KeyError`, and a code that is not a string `AttributeError`. |
| Translator.Enrich | DentsInspector/tests/test_event.py:21-22 | The copy has the same keys, and every key other than `"plds"` has its old value. `"plds"` becomes `json(code)`. The copy fails iff `json` fails. |
| Translator.Translate | DentsInspector/tests/test_event.py:17-24 | A successful translation read every item as a dictionary with a string code. The output is no longer than the input. |
| Translator.Filter | DentsInspector/tests/test_event.py:18-20 | The kept items are a subsequence of the input, in input order. An item is kept iff its code exists. |
| Translator.FilterCounts | DentsInspector/tests/test_event.py:18-23 | Every kept value occurs in the output exactly as many times as in the input, so repeated detections are all kept. |
| Translator.EnrichAll | DentsInspector/tests/test_event.py:21-23 | Mapping the copy-and-replace over a list fails iff it fails on some element. Otherwise position `i` holds the enriched item `i`. |
| Translator.TranslateIsFilterThenMap | DentsInspector/tests/test_event.py:17-24 | The translator equals filter-then-map, error included, whenever every item is well-shaped. Otherwise it fails. |
| Translator.TranslateKeepsExactly | DentsInspector/tests/test_event.py:17-24 | A successful output has one entry per kept item, in input order, and each entry is that item enriched. |
| Translator.TranslateKeepsIff | DentsInspector/tests/test_event.py:19-20 | After a successful translation, an input item is kept iff its code exists. |
| Translator.TranslateAllExist | DentsInspector/tests/test_event.py:18-23 | When every code exists nothing is dropped, and the output is as long as the input. |
| Translator.EnrichFailsIffSeverityless | DentsInspector/models.py:140 | On a valid database, a kept item fails to enrich iff its code has no severity. |
| Translator.TranslateFailsIffSeverityless | DentsInspector/tests/test_event.py:19-22 | On a valid database, translating well-shaped detections fails iff some kept code has no severity. |
| Translator.TranslateData | DentsInspector/tests/test_event.py:15-19 | A list is translated item by item. An error string or a dictionary raises `TypeError` unless it is empty. A number, a boolean or `None` raises `TypeError`. |
| Translator.TranslateStrings | DentsInspector/tests/test_event.py:19 | Iterating over strings yields nothing, or `TypeError` at the first one. |
| Translator.TranslateKeys | DentsInspector/tests/test_event.py:18-19 | A dictionary's keys, in any order, translate as the dictionary does. |
| Translator.TranslatePlds | DentsInspector/tests/test_event.py:15-24 | The loop computes exactly the recursive translation, including the first error. |
| Serializers.Attribute | DentsInspector/serializers.py:12 | `getattr` with a table's own label column gives the label, and with `id` gives the id. |
| Serializers.Entries | DentsInspector/serializers.py:12 | There is one single-key entry per row, in row order, keyed by `str(id)`. The entries always succeed for the label column. |
| Serializers.All | DentsInspector/serializers.py:8-13 | No model raises `NotImplementedError`. Otherwise the result is a one-key dictionary under `"parts"` holding a list as long as the table. |
| Serializers.ConcreteBindings | DentsInspector/serializers.py:16-30 | Each of the four subclasses names a model and reads that model's own label column. |
| Serializers.AllListsRows | DentsInspector/serializers.py:11-13 | A concrete serializer never fails. Entry `i` maps the decimal string of row `i`'s id, which reads back as that id, to row `i`'s label. |
| Serializers.AllKeysDistinct | DentsInspector/serializers.py:12 | With a primary key, no two entries share a key. |
| LocationMigration.Populate | DentsInspector/migrations/0003_populate_locations.py:6-31 | Populating succeeds iff the seeds are fresh in the Location table. Otherwise it raises `IntegrityError`. |
| LocationMigration.SeedsWellFormed | DentsInspector/migrations/0003_populate_locations.py:13-27 | The 15 seeded ids are pairwise distinct, and so are the 15 labels. |
| LocationMigration.ReverseIdsAreSeedIds | DentsInspector/migrations/0003_populate_locations.py:40-42 | The reverse's id list is exactly the set of ids populate inserts. |
| LocationMigration.PopulateSucceedsIff | DentsInspector/migrations/0003_populate_locations.py:30-31 | Populate succeeds iff no seeded id and no seeded label is already present. |
| LocationMigration.PopulateContents | DentsInspector/migrations/0003_populate_locations.py:13-31 | After populate every seeded id maps to its label: 0 is 'all', 37 is 'underhood'. The other tables are unchanged. |
| LocationMigration.Reverse | DentsInspector/migrations/0003_populate_locations.py:34-42 | After the reverse, none of the 15 listed ids is found in the Location table, and no PLDS row points at one of them. |
| LocationMigration.ReverseContents | DentsInspector/migrations/0003_populate_locations.py:40-42 | The reverse removes exactly the listed ids and keeps every other row. A PLDS row goes iff its location was removed. |
| LocationMigration.RoundTrip | DentsInspector/migrations/0003_populate_locations.py:30-42 | On a valid database, populate then reverse gives back the original database. |
| LocationMigration.MigrationValid | DentsInspector/migrations/0003_populate_locations.py:30-42 | Both directions preserve the invariant. |
| SeverityMigration.Populate | DentsInspector/migrations/0005_populate_severity.py:6-20 | Populating succeeds iff the seeds are fresh in the Severity table. Otherwise it raises `IntegrityError`. |
| SeverityMigration.SeedsWellFormed | DentsInspector/migrations/0005_populate_severity.py:13-17 | The ids {1,2,3,4} are distinct, and so are their labels. |
| SeverityMigration.ReverseIdsAreSeedIds | DentsInspector/migrations/0005_populate_severity.py:29 | The reverse deletes exactly the ids {1,2,3,4}, the ids populate inserts. |
| SeverityMigration.PopulateSucceedsIff | DentsInspector/migrations/0005_populate_severity.py:19-20 | Populate succeeds iff no seeded id and no seeded label is already present. |
| SeverityMigration.PopulateContents | DentsInspector/migrations/0005_populate_severity.py:13-20 | After populate 1 is 'small', 2 'medium', 3 'large' and 4 'replacement-required'. The other tables are unchanged. |
| SeverityMigration.Reverse | DentsInspector/migrations/0005_populate_severity.py:23-29 | After the reverse, none of the ids 1 to 4 is found in the Severity table, and no PLDS row has one of them as its severity. |
| SeverityMigration.ReverseContents | DentsInspector/migrations/0005_populate_severity.py:29 | The reverse removes ids 1 to 4 and nothing else. A PLDS row goes iff its severity was removed, and null severities stay. |
| SeverityMigration.RoundTrip | DentsInspector/migrations/0005_populate_severity.py:19-29 | On a valid database, populate then reverse gives back the original database. |
| SeverityMigration.MigrationValid | DentsInspector/migrations/0005_populate_severity.py:19-29 | Both directions preserve the invariant. |

## Left out

- Python's `int()` is modelled as ASCII whitespace (tab to carriage return, and space), an optional sign and ASCII digits. The information separators `\x1c` to `\x1f` are not skipped, as in CPython, even though `str.strip()` removes them. Underscores between digits, non-ASCII digits and whitespace, and the 4300-digit conversion limit are not modelled.
- Integer width of the database columns: ids are unbounded integers. An id outside the storage engine's range, which the engine would refuse, is not modelled.
- The 30-character `max_length` of the label columns: not every storage engine enforces it.
- Key order inside dictionaries: JSON objects are finite maps, so the insertion order of a Python `dict` is not kept. Floating-point JSON numbers are not modelled.
- The order of a table scan is modelled as insertion order. An unordered query set has no guaranteed order, and the storage engine may return rows in another order.
- Concurrency: `get_or_create` racing against another writer is not modelled. The model is single-threaded. Because the PLDS table is a set, the model keeps one row per tuple even with a null severity, which a SQL unique constraint alone would not enforce.
- Transactions: a refused insert during a migration is modelled as rolling back the whole migration, as an atomic migration does.
- `PLDS.plds` and `PLDS.pld`: they format model instances through the default string conversion, which is not their ids. They are not an inverse of `create_from`.
- The vision-model clients, archive extraction, prompt text assembly and role names (`ai/`): I/O and third-party calls with no logic beyond concatenation.
- The test class that calls the vision model: it is network-dependent.
- The `print` in `_translate_plds`: output only.
