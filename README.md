# FlexDB schema-on-write engine, modelled in Dafny

FlexDB is a static helper over a MySQL connection that lets callers write records into
tables that do not exist yet, or that lack some of the record's fields. In elastic mode,
`insert` creates a missing table from the record, and both `insert` and `update` add the
record's missing keys as columns. Each column's type is inferred from the value by
`setsqltype`. In strict mode, the record is instead cut down to the table's existing
fields (`match`). Array values are JSON-encoded (`json`) before any write.

Two caches sit over the database:
- `$table_exists`: a list of tables seen to exist;
- `$columns`: per table, the column names last read.

This project models that engine:

- `values.dfy`: the loosely typed PHP values and ordered records.
- `sqltype.dfy`: the type inference.
- `records.dfy`: the record rewrites `array_diff_key`, `match` and `json`, and the
  scalar-to-`id` normalisation of `where` arguments.
- `ddl.dfy`: the `CREATE TABLE` and `ALTER TABLE` text that `create`, `model` and
  `alter` build. Each builder is a loop proved equal to a specification function.
- `driver.dfy`: the database, reduced to what FlexDB observes. It holds a schema map
  (table name to columns in order), a log of the statements sent, and a log of the
  writes accepted. A DDL statement either takes effect or is refused, by structural
  rules:
  - a `CREATE` with an untyped column ("`k` ,") does not parse, whether or not the
    table exists;
  - otherwise `CREATE TABLE IF NOT EXISTS` succeeds without effect on an existing table;
  - a new table needs distinct columns other than `id`;
  - `ADD` needs the table, a new name and a type;
  - a write needs the table, at least one field, and every field a column.
- `engine.dfy`: the class `FlexDB`, with the two caches and the operations `exists`,
  `fields`, `alter`, `create`, `model`, `match`, `insert` and `update`.
  - Its invariant `Valid` says the caches never claim more than the database holds.
  - Every operation preserves `Valid`.
  - Every operation states its whole new state: the schema, the statement log, the
    write log and the caches. After an elastic `insert` or `update` on an existing
    table, the column cache is what `fields` and `alter` leave (`FlexDB.ElasticCaches`),
    and a later `fields` lists every key whose value has a type.
- `tableprobe.dfy`: MySQL's `LIKE` matching as used by the existence probe (see
  Findings).

The engine's `exists` runs on the corrected probe, with `_`, `%` and backslash escaped
(`Driver.Database.HasTable`). Every engine contract therefore describes the intended
behaviour for table names that contain those characters, not the probe as written at
libraries/FlexDB.php:422-428.

Other modelling choices:
- Numbers are exact fractions. "Has a fractional part" stands for the source's
  `(float)$v != (int)$v`.
- `json_encode` is an uninterpreted function given to the `FlexDB` object.

Unlike `model`, which skips a spec named `id` (libraries/FlexDB.php:197), `create`
writes a column for every record key, `id` included (libraries/FlexDB.php:372-386).
The statement then declares `id` twice, and the store refuses it. `Engine.CreateColumnsAccepted` and `Engine.FlexDB.Create` state this:
a new table is created exactly when no key is `id` and every value has a type.

## Model

| member | source | states |
|---|---|---|
| SqlTypes.SetSqlType | libraries/FlexDB.php:440-488 | no type exactly for null. A numeric value (including a numeric string) is FLOAT exactly when it has a fractional part, otherwise INT, so it is never BOOL or VARCHAR. BOOL exactly for booleans. TEXT exactly for arrays, objects and strings longer than 255. VARCHAR(255) exactly for other strings. Each type carries the NULL / NOT NULL suffix chosen by `$null` |
| Values.HasFraction | libraries/FlexDB.php:456 | `(float)$value != (int)$value` as exact arithmetic: the denominator does not divide the numerator (its meaning is proved by Values.FractionIffTruncationDiffers) |
| Values.FractionIffTruncationDiffers | libraries/FlexDB.php:456 | a number has a fractional part exactly when it differs from its truncation toward zero, the `(int)` cast |
| SqlTypes.InferredBase | libraries/FlexDB.php:454-488 | the base type setsqltype settles on; there is one exactly for non-null values (the order of the checks is stated, class by class, by SqlTypes.SetSqlType) |
| SqlTypes.KeywordLengths | libraries/FlexDB.php:3-5 | the FLOAT, INT and VARCHAR keywords print the length constants 11, 11 and 255 in decimal |
| SqlTypes.TypeStringInjective | libraries/FlexDB.php:442-482 | two type strings are equal only when base type and null suffix are, so the type names the branch that produced it |
| SqlTypes.ColumnTypeText | libraries/FlexDB.php:345-346 | the text interpolated into DDL is empty exactly when setsqltype gives no type |
| SqlTypes.ColumnTypeTextIsSetSqlType | libraries/FlexDB.php:345-346 | the interpolated text is setsqltype's result with the default NULL suffix, or empty when it returns nothing |
| Records.DiffKeys | libraries/FlexDB.php:65 | array_diff_key: an entry is kept exactly when it is an entry of the record whose key is not a known field; never more entries than the record |
| Records.DiffKeysNames | libraries/FlexDB.php:65 | a key survives the difference exactly when the record sets it and it is not a field |
| Records.Matched | libraries/FlexDB.php:533-537 | the loop keeps exactly the fields that the data sets to a non-null value, each with the data's value |
| Values.IsSet | libraries/FlexDB.php:534 | isset($data[$key]): the key is present and its value is not null (characterised by Values.IsSetIff) |
| Values.IsSetIff | libraries/FlexDB.php:534 | isset holds exactly when the record has an entry of that key with a non-null value |
| Records.Project | libraries/FlexDB.php:529-541 | match: nothing when no field is set. Otherwise every kept key is a field set in the data, and its value is the data's value. Every set field is kept |
| Records.Json | libraries/FlexDB.php:595-609 | same keys in the same order; array entries become the string encoding; all other entries unchanged; no array remains |
| Records.EncodeEntry | libraries/FlexDB.php:599-603 | one entry of json(): the key is kept; an array value becomes its JSON text; any other entry is unchanged; no array remains |
| Records.JsonIdempotent | libraries/FlexDB.php:595-609 | encoding twice is encoding once |
| Records.JsonKeepsNames | libraries/FlexDB.php:595-609 | the key list is unchanged by encoding |
| Records.WhereConditions | libraries/FlexDB.php:697-758 | a where argument that is not an array becomes the single condition id => value; an array where is used as is |
| Records.ScalarSelectsById | libraries/FlexDB.php:755-757 | a scalar where selects exactly the rows whose id is that value |
| Ddl.ColumnDefs | libraries/FlexDB.php:372-376 | one column per record entry |
| Ddl.ColumnDefsAt | libraries/FlexDB.php:372-376 | column i is entry i's key with entry i's inferred type, so the columns follow record order |
| Ddl.ColumnDefsAppend | libraries/FlexDB.php:372-376 | the columns inferred from a concatenation are the concatenated columns |
| Ddl.ColumnDefsSplit | libraries/FlexDB.php:372-376 | the columns of a record split around entry i are the earlier entries' columns, entry i's column, then the later entries' columns |
| Ddl.RenderColumnsAppend | libraries/FlexDB.php:382-386 | the column clauses of a concatenation are the concatenated clauses |
| Ddl.CreateSqlColumnAt | libraries/FlexDB.php:378-391 | the clause "`name` type," of entry i sits after the id column and the earlier entries' clauses, and before the later entries' clauses and PRIMARY KEY |
| Ddl.BuildCreateSql | libraries/FlexDB.php:368-391 | the statement create() builds by appending equals the specification text |
| Ddl.InferColumns | libraries/FlexDB.php:372-376 | create()'s first loop builds exactly the inferred columns of the record |
| Ddl.AppendColumns | libraries/FlexDB.php:382-386 | create()'s second loop appends exactly the column clauses, in order |
| Ddl.AppendTail | libraries/FlexDB.php:388-391 | the appends after the loops add the primary key, the storage engine and the character set |
| Ddl.NullPart | libraries/FlexDB.php:213-230 | a null clause appears exactly when `null` is given and `default` is not, so never beside a default clause. It is "default NOT NULL" exactly when `null` is false |
| Ddl.RenderModelColumnsAppend | libraries/FlexDB.php:195-240 | the field clauses of a concatenation are the concatenated clauses |
| Ddl.ModelColumns | libraries/FlexDB.php:195-240 | the columns model() declares are exactly those of the specs that have a field name other than id, each with its type text, and never include id |
| Ddl.ModelColumnsAppend | libraries/FlexDB.php:195-240 | the declared columns distribute over concatenation of the specs, so they follow spec order |
| Ddl.ModelColumnsTyped | libraries/FlexDB.php:199-239 | every column model() declares has a type exactly when every spec it writes gives a 'type' |
| Ddl.ModelSkipsExcluded | libraries/FlexDB.php:195-197 | a spec without a field name, or named id, contributes nothing to the statement |
| Ddl.BuildModelSql | libraries/FlexDB.php:187-251 | the statement model() builds by appending equals the specification text |
| Ddl.AppendField | libraries/FlexDB.php:197-240 | one loop step appends exactly that spec's clause |
| Ddl.TypeText | libraries/FlexDB.php:201-235 | the type part is built in the source's order: type, length, attribute, default or null, extra |
| Driver.AddAll | libraries/FlexDB.php:343-348 | the schema after alter()'s ADDs extends the old one and has the same tables: none lost or created, every column list only grown at its end |
| Driver.AddAllFrame | libraries/FlexDB.php:343-348 | alter()'s ADDs leave every other table's columns unchanged, and the altered table gains only the record's keys |
| Driver.AddAllAddsColumns | libraries/FlexDB.php:343-348 | after alter() on an existing table, every key whose value has a type is a column of it |
| Driver.AddColumnPresent | libraries/FlexDB.php:346 | after one ADD of a typed column to an existing table, the column is there |
| Driver.Database.HasTable | libraries/FlexDB.php:422-424 | the probe, with `_` and `%` escaped, answers yes exactly for an existing table |
| Driver.Database.ColumnNames | libraries/FlexDB.php:508-514 | SHOW COLUMNS gives the table's columns in order, none for a missing table |
| Engine.AlterQueries | libraries/FlexDB.php:343-348 | alter() sends one ADD per entry, in order, with the entry's inferred type |
| Engine.CreateColumnsAccepted | libraries/FlexDB.php:372-391 | the columns built from a record all have a type exactly when no value is null; the CREATE is accepted for a new table exactly when, in addition, no key is id; the table's columns are then id followed by the record's keys |
| Engine.CreateEffect | libraries/FlexDB.php:372-393 | the store's answer to create(): on an existing table, success exactly when every value has a type, with no change; on a new table, success exactly when in addition id is absent, adding the table with id followed by the record's keys |
| Engine.ColumnDefsNames | libraries/FlexDB.php:372-376 | the columns create() declares carry the record's keys, in order |
| Engine.AlterStep | libraries/FlexDB.php:343-348 | one more ADD: the schema and the statement log after entry i follow from those before it |
| Engine.ElasticCoversKeys | libraries/FlexDB.php:61-71 | after the elastic step on an existing table, every key of a record whose values are typed is a column, whether it was known or added |
| Engine.AlterOnMissingTable | libraries/FlexDB.php:339-354 | alter() on a missing table changes no schema |
| Engine.CreatedCoversKeys | libraries/FlexDB.php:85-87 | a table created from a record has every key of the record as a column |
| Engine.JsonRowAccepted | libraries/FlexDB.php:73-75 | a non-empty encoded record whose keys are all columns is accepted by the store |
| Engine.FlexDB.KnownFields | libraries/FlexDB.php:498-518 | what fields() answers: the cached list, or the table's columns; under the invariant, only real columns |
| Engine.FlexDB.Exists | libraries/FlexDB.php:408-432 | true exactly when the table exists. A cached table answers true with no probe. A miss sends one probe and appends the name only when found. A failed probe leaves the list unchanged |
| Engine.FlexDB.Fields | libraries/FlexDB.php:498-520 | a hit returns the cached list with no probe and no change. A miss sends one SHOW COLUMNS, returns the table's columns and caches them when there are any. Afterwards fields() would answer the same list |
| Engine.FlexDB.Alter | libraries/FlexDB.php:339-356 | always true. One ADD per entry, in order. The schema becomes the ADDs' result: a missing table changes nothing, other tables keep their columns, and the table gains only the record's keys. Exactly that table's cache entry is dropped and every other entry is kept |
| Engine.FlexDB.AddEach | libraries/FlexDB.php:343-348 | the loop sends exactly the ADD statements and leaves the schema they produce |
| Engine.FlexDB.Create | libraries/FlexDB.php:368-399 | sends the built CREATE. On an existing table nothing changes, and it succeeds exactly when every value has a type (an untyped column is a syntax error). On a new one it succeeds exactly when no key is id and all values are typed, and the table then has id followed by the keys. The caches are not touched |
| Engine.FlexDB.Model | libraries/FlexDB.php:187-259 | sends the built CREATE; the schema is the store's answer to the declared columns; an existing table is left as it was, and the call succeeds on it exactly when every written spec has a 'type' |
| Engine.FlexDB.Match | libraries/FlexDB.php:529-541 | the data projected onto the fields fields() knows; the probe and the column cache are exactly those of the fields() call |
| Engine.FlexDB.AddMissingFields | libraries/FlexDB.php:61-71 | alter() is sent exactly the keys absent from fields(), and is skipped when there are none. The column cache is fields()' one, with the table's entry dropped when alter() ran. Every typed key is then a column and is listed by fields() |
| Engine.FlexDB.AlterMissing | libraries/FlexDB.php:65-71 | given the list fields() answered: alter() with the keys not in it, which drops the table's cache entry, or nothing when there are none; every typed key is then a column and listed by fields() |
| Engine.FlexDB.Payload | libraries/FlexDB.php:73-103 | the row handed to the driver: in elastic mode json($data), with the record's keys; in strict mode match() of json($data) over the known fields, or nothing when it returns null; no array values in either |
| Engine.FlexDB.PrepareInsert | libraries/FlexDB.php:59-87 | the elastic insert's schema work: on an existing table the probes the caches let through, then alter with exactly the keys absent from fields() (none when there are none); on a missing table the existence probe and the CREATE. exists() records a found table; the column cache is as fields() and alter() leave it. Afterwards every typed key is a column and listed by fields(), unless a new table would need an id column |
| Engine.FlexDB.CreateFromRecord | libraries/FlexDB.php:83-87 | on a missing table, create() with the default charset and engine is sent and the schema is the store's answer; every typed key is then a column unless a key is id |
| Engine.FlexDB.Insert | libraries/FlexDB.php:55-113 | true exactly when the store accepts the written row, which is recorded with a new id: the id counter advances by one and the returned id is its new value, so two successful inserts return different ids. Strict mode changes no schema and only fields()' cache entry. Elastic mode alters or creates as above, with the caches exists(), fields() and alter() leave. An elastic insert of a non-empty record with typed values succeeds, and leaves all its keys as columns that fields() lists, unless it must create a table from a record with an id key |
| Engine.FlexDB.InsertElastic | libraries/FlexDB.php:59-97 | the elastic branch: the JSON-encoded record is written after the schema work, with the schema, the statement log and both caches stated; a success advances the id counter by one and returns its new value |
| Engine.FlexDB.InsertEncoded | libraries/FlexDB.php:73-79 | the JSON-encoded record is written and a new id (the counter advanced by one) recorded exactly when the store accepts it, which it does once the record is non-empty and every key is a column |
| Engine.FlexDB.InsertStrict | libraries/FlexDB.php:99-111 | the strict branch: the encoded record cut down to the known fields is written, no schema changes, and the column cache is fields()' one; a success advances the id counter by one and returns its new value |
| Engine.FlexDB.InsertRow | libraries/FlexDB.php:73-79 | a write is logged, and the id counter advanced by one and its new value recorded, exactly when the store accepts it; a refusal leaves the counter and the recorded id as they were |
| Engine.FlexDB.Update | libraries/FlexDB.php:126-167 | elastic mode on a missing table writes nothing and fails. Otherwise true exactly when the store accepts the update, with the same schema work, caches and payload as insert. An elastic update on an existing table leaves every typed key listed by fields(), and with a non-empty typed record and a valid where it succeeds |
| Engine.FlexDB.UpdateElastic | libraries/FlexDB.php:130-152 | the elastic branch: on a missing table one probe, no write, no schema or cache change and failure; on an existing table the missing keys are added, the encoded record is the update, and the caches are those exists(), fields() and alter() leave |
| Engine.FlexDB.UpdateExisting | libraries/FlexDB.php:132-148 | once the table exists: alter() with the keys absent from fields(), then the update with the encoded record, accepted exactly when the store accepts it; the column cache as fields() and alter() leave it |
| Engine.FlexDB.UpdateEncoded | libraries/FlexDB.php:144-148 | the update with the JSON-encoded record is logged exactly when the store accepts it, which it does once the record is non-empty and every key and condition is a column |
| Engine.FlexDB.UpdateStrict | libraries/FlexDB.php:154-165 | the strict branch: the encoded record cut down to the known fields is the update, no schema changes, and the column cache is fields()' one |
| TableProbe.ProbeAsWrittenFalsePositive | libraries/FlexDB.php:422-424 | the probe as written reports "user_data" present when only "userxdata" exists |
| TableProbe.ProbeAsWritten | libraries/FlexDB.php:422-424 | the probe as written, the name used as a LIKE pattern; it answers exactly for existing tables when the name has no `%`, `_` or backslash |
| TableProbe.UnderscoreMatchesAnyChar | libraries/FlexDB.php:422 | an `_` in an otherwise plain name matches any one character in its place |
| TableProbe.PlainLikeIsExact | libraries/FlexDB.php:422 | a name without `%`, `_` or backslash matches only itself, so the probe is exact for such names |
| TableProbe.EscapedLikeIsExact | libraries/FlexDB.php:422 | the escaped name matches exactly the name itself |
| TableProbe.ProbeEscaped | libraries/FlexDB.php:422-428 | the escaped probe answers yes exactly for an existing table |

## Left out

- Connection handling (`instance`, `connect`) and the `$connect` parameters: there is one database.
- `__callStatic` forwarding and the result fetching of `get_row`, `get_rows`, `get_value`, `row_exists` and `id_exists`: the query builder is not part of this model. Only their where-normalisation is modelled (`Records.WhereConditions`).
- `start`, `commit`, `rollback`, `show`, `del` and `drop`: single driver calls with no logic of their own.
- `del` (libraries/FlexDB.php:300-310) and `drop` (libraries/FlexDB.php:319-329) leave `$columns` and `$table_exists` as they are. After `drop`, `exists` keeps answering true from the list, and after `del`, `fields` keeps listing the dropped column. The invariant `Engine.FlexDB.Valid` (the caches claim nothing the database lacks) holds only because no operation of the model removes a table or a column.
- `$null === true` in `setsqltype` (libraries/FlexDB.php:442): any value other than `true` selects NOT NULL. The model's `nullable` is a boolean, so those values are not represented.
- `json_encode` returning `false` (libraries/FlexDB.php:601): the model's `Str(encode(v))` always holds a string, so a value `json_encode` cannot encode is not represented.
- `$restrict === false` (libraries/FlexDB.php:59, 130): any value other than `false` (0, null, "") selects strict mode. The model's `restrict` is a boolean, so those values are not represented.
- `fields` on a missing table: the source leaves `$array` unset and returns null (libraries/FlexDB.php:508-518). The model returns an empty list. Strict `insert` and `update` do reach `fields` on a missing table through `match` (libraries/FlexDB.php:101-103, 156-158, 531). There the source's null and the model's empty list both make `match` return nothing (libraries/FlexDB.php:533-540 against `Records.Project`, which gives `None`), so the row is empty and the store refuses it.
- SQL execution: the store is a schema map with structural acceptance rules. Driver exceptions and failures other than those refusals are not modelled.
- Auto-increment ids: a single counter across all tables stands for MySQL's per-table counters.
- `is_numeric` parsing: a numeric string carries its reading. `Str` means a string that `is_numeric` rejects.
- Floating point: `(float)$v != (int)$v` is exact fraction arithmetic, so INF, NAN, rounding and integer overflow in the cast are not modelled. Nor is exponent notation under PHP before 7.1: there `(int)"1e3"` is 1, so the source sends such a numeric string to FLOAT, while the model reads it as the whole number 1000 and gives INT.
- `json_encode` internals: an uninterpreted function.
- Array keys: `Structured` holds only the items of an array, so `Json`'s encoding cannot tell `{"a":1}` from `{"b":1}` as `json_encode` does (libraries/FlexDB.php:601). No contract depends on the difference.
- SqlTypes.SetSqlType: `strlen` counts bytes, but the model counts characters, so multi-byte strings near 255 are not distinguished.
- Engine.FlexDB.Exists: a miss returns PHP null rather than false. Callers compare with `=== true`, so the two are the same here.
- Engine.FlexDB.Model: the store's answer to a statement that SQL would reject for other reasons (a bad type word, a bad default) is not modelled. Only missing types, repeated names and id are refused.
- MySQL identifier case-insensitivity and quoting: names are compared exactly and are not escaped.
- PHP's loose `in_array` comparison in `exists`: names are compared as strings.
- Concurrency on the static caches: the model is sequential.
- The `$db->insert`/`update` builders' SQL text: only the accepted writes are logged.

## Findings

| source | as written | input that shows it | evidently intended | confidence | as-written member | corrected member |
|---|---|---|---|---|---|---|
| libraries/FlexDB.php:422 | `exists` sends the table name as a `LIKE` pattern, where `_` and `%` are wildcards | `exists("user_data")` while only `userxdata` exists: the probe matches and line 426 records `user_data` as existing. An elastic `insert` then skips `create` and its write fails. Because the name stays in `$table_exists`, no later elastic `insert` ever creates the table | the probe answers yes only for a table of exactly that name (wildcards escaped) | high, not executed | TableProbe.ProbeAsWrittenFalsePositive | TableProbe.ProbeEscaped |
