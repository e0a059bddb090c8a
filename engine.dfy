/**
 * The FlexDB class: the process-wide existence and column caches over the database,
 * and the schema-on-write operations built on them.
 */
module Engine {
  import opened Wrappers
  import opened Values
  import opened SqlTypes
  import opened Records
  import opened Ddl
  import opened Driver

  /** The ADD statements alter() sends for data, one per entry, in order. */
  function AlterQueries(table: string, data: seq<Entry>): (qs: seq<Query>)
    ensures |qs| == |data|
    ensures forall i | 0 <= i < |data| :: qs[i] == Statement(AddColumnSql(table, data[i].name, ColumnTypeText(data[i].value)))
    decreases |data|
  {
    if data == [] then []
    else
      var last := data[|data| - 1];
      AlterQueries(table, data[..|data| - 1]) + [Statement(AddColumnSql(table, last.name, ColumnTypeText(last.value)))]
  }

  /**
   * The CREATE TABLE create() builds from a record is accepted exactly when no key is
   * id and every value has a type; the table then has id followed by the record's keys.
   */
  lemma CreateColumnsAccepted(data: Record)
    ensures DefNames(ColumnDefs(data)) == Names(data)
    ensures Typed(ColumnDefs(data)) <==> forall e | e in data :: !e.value.Null?
    ensures WellFormed(ColumnDefs(data)) <==> "id" !in Names(data) && forall e | e in data :: !e.value.Null?
  {
    var defs := ColumnDefs(data);
    ColumnDefsNames(data);
    assert Distinct(Names(data));
    assert Typed(defs) <==> forall e | e in data :: !e.value.Null? by {
      if forall e | e in data :: !e.value.Null? {
        forall i | 0 <= i < |defs| ensures defs[i].sqlType != "" {
          assert data[i] in data;
          ColumnDefsAt(data, i);
        }
      }
      if forall i | 0 <= i < |defs| :: defs[i].sqlType != "" {
        forall e | e in data ensures !e.value.Null? {
          var i :| 0 <= i < |data| && data[i] == e;
          assert defs[i].sqlType != "";
          ColumnDefsAt(data, i);
        }
      }
    }
  }

  /**
   * The store's answer to create()'s CREATE TABLE: on an existing table it succeeds,
   * changing nothing, exactly when every value has a type; on a new table it also needs
   * id to be absent, and then adds the table with id followed by the record's keys.
   */
  lemma CreateEffect(s: Schema, table: string, data: Record)
    ensures table in s ==>
      && (ApplyEffect(s, CreateTable(table, ColumnDefs(data))).0 <==> forall e | e in data :: !e.value.Null?)
      && ApplyEffect(s, CreateTable(table, ColumnDefs(data))).1 == s
    ensures table !in s ==>
      (ApplyEffect(s, CreateTable(table, ColumnDefs(data))).0 <==> "id" !in Names(data) && forall e | e in data :: !e.value.Null?)
    ensures table !in s && ApplyEffect(s, CreateTable(table, ColumnDefs(data))).0 ==>
      ApplyEffect(s, CreateTable(table, ColumnDefs(data))).1 == s[table := ["id"] + Names(data)]
  {
    CreateColumnsAccepted(data);
  }

  /** The columns create() declares carry the record's keys, in order. */
  lemma ColumnDefsNames(data: seq<Entry>)
    ensures DefNames(ColumnDefs(data)) == Names(data)
  {
    var defs := ColumnDefs(data);
    forall i | 0 <= i < |data| ensures DefNames(defs)[i] == Names(data)[i] {
      ColumnDefsAt(data, i);
    }
  }

  /** One more ADD: the schema and statement log of alter() after entry i. */
  lemma AlterStep(s: Schema, table: string, data: seq<Entry>, i: nat)
    requires i < |data|
    ensures AddAll(s, table, data[..i + 1])
         == ApplyEffect(AddAll(s, table, data[..i]), AddColumn(table, ColumnDef(data[i].name, ColumnTypeText(data[i].value)))).1
    ensures AlterQueries(table, data[..i + 1])
         == AlterQueries(table, data[..i]) + [Statement(AddColumnSql(table, data[i].name, ColumnTypeText(data[i].value)))]
  {
    var prefix := data[..i + 1];
    assert prefix[..i] == data[..i] && prefix[i] == data[i];
  }

  /**
   * The elastic step on an existing table leaves every key of a record whose values all
   * have a type a column of it: either the key was among the known fields, or it was in
   * the difference that alter() added.
   */
  lemma ElasticCoversKeys(s: Schema, table: string, known: ColumnList, data: Record)
    requires table in s
    requires forall c | c in known :: c in s[table]
    requires forall e | e in data :: !e.value.Null?
    ensures table in AddAll(s, table, DiffKeys(data, known))
    ensures forall e | e in data :: e.name in AddAll(s, table, DiffKeys(data, known))[table]
  {
    var diff := DiffKeys(data, known);
    var after := AddAll(s, table, diff);
    AddAllAddsColumns(s, table, diff);
    forall e | e in data ensures e.name in after[table] {
      if e.name in known {
        ExtendsKeepsColumn(s, after, table, e.name);
      } else {
        assert e in diff;
      }
    }
  }

  /**
   * alter() on a table that does not exist changes nothing: every ADD is refused.
   */
  lemma {:induction false} AlterOnMissingTable(s: Schema, table: string, data: seq<Entry>)
    requires table !in s
    ensures AddAll(s, table, data) == s
    decreases |data|
  {
    if data != [] {
      AlterOnMissingTable(s, table, data[..|data| - 1]);
    }
  }

  /**
   * The schema after the schema work of an elastic insert(): the missing keys added to an
   * existing table, or the table created from the record.
   */
  ghost function ElasticSchema(s: Schema, known: ColumnList, table: string, data: Record): Schema {
    if table in s then AddAll(s, table, DiffKeys(data, known))
    else ApplyEffect(s, CreateTable(table, ColumnDefs(data))).1
  }

  /**
   * The statements of that schema work: on an existing table, the probes the caches let
   * through and then the ADDs; on a missing one, the existence probe and the CREATE.
   */
  ghost function ElasticStatements(s: Schema, probes: seq<Query>, known: ColumnList, table: string, data: Record): seq<Query> {
    if table in s then probes + AlterQueries(table, DiffKeys(data, known))
    else [ShowTables(table), Statement(CreateSql(table, data, "utf8", "MyIsam"))]
  }

  /** A table create() made from a record has every key of the record as a column. */
  lemma CreatedCoversKeys(s: Schema, table: string, data: Record)
    requires table in s && s[table] == ["id"] + Names(data)
    ensures forall e | e in data :: e.name in s[table]
  {
    forall e | e in data ensures e.name in s[table] {
      var i :| 0 <= i < |data| && data[i] == e;
      assert s[table][i + 1] == e.name;
    }
  }

  /** A JSON-encoded record whose keys are all columns of an existing table is accepted. */
  lemma JsonRowAccepted(s: Schema, table: string, data: Record, encode: Value -> string)
    requires table in s && |data| > 0
    requires forall e | e in data :: e.name in s[table]
    ensures Accepts(s, table, Json(data, encode))
  {
    var row := Json(data, encode);
    forall e | e in row ensures e.name in s[table] {
      var i :| 0 <= i < |row| && row[i] == e;
      assert data[i] in data;
    }
  }

  class FlexDB {
    /** The connection (FlexDB::$db); connecting is not modelled. */
    const db: Database
    /** json_encode, left uninterpreted. */
    const encode: Value -> string
    /** FlexDB::$insert_id */
    var insertId: Option<nat>
    /** FlexDB::$table_exists: tables seen to exist. */
    var tableExists: seq<string>
    /** FlexDB::$columns: per table, the column names last read. */
    var columns: map<string, ColumnList>

    /**
     * The caches never claim more than the database holds: every table in the existence
     * list exists, and every cached column list is non-empty and names columns of its table.
     */
    ghost predicate Valid()
      reads this, db
    {
      && (forall t | t in tableExists :: t in db.tables)
      && (forall t | t in columns :: t in db.tables && |columns[t]| > 0)
      && (forall t, c | t in columns && c in columns[t] :: c in db.tables[t])
    }

    constructor (db: Database, encode: Value -> string)
      ensures Valid()
      ensures this.db == db && this.encode == encode
      ensures insertId == None && tableExists == [] && columns == map[]
    {
      this.db := db;
      this.encode := encode;
      insertId := None;
      tableExists := [];
      columns := map[];
    }

    /** What fields(table) returns in this state: the cached list, or else the table's columns. */
    ghost function KnownFields(table: string): (names: ColumnList)
      reads this`columns, db`tables
      ensures Valid() ==> forall c | c in names :: table in db.tables && c in db.tables[table]
    {
      if table in columns then columns[table]
      else if table in db.tables then db.tables[table]
      else []
    }

    /** The SHOW TABLES probe exists(table) sends in this state, if any. */
    ghost function ExistsProbe(table: string): seq<Query>
      reads this`tableExists
    {
      if table in tableExists then [] else [ShowTables(table)]
    }

    /** The SHOW COLUMNS probe fields(table) sends in this state, if any. */
    ghost function ColumnProbe(table: string): seq<Query>
      reads this`columns
    {
      if table in columns then [] else [ShowColumns(table)]
    }

    /** The existence list after exists(table) in this state: the name appended when a probe finds it. */
    ghost function ExistsAfter(table: string): seq<string>
      reads this`tableExists, db`tables
    {
      if table in tableExists || table !in db.tables then tableExists else tableExists + [table]
    }

    /** The column cache after fields(table) in this state: a miss caches a non-empty answer. */
    ghost function FieldsAfter(table: string): map<string, ColumnList>
      reads this`columns, db`tables
    {
      if table in columns || |KnownFields(table)| == 0 then columns else columns[table := KnownFields(table)]
    }

    /**
     * The caches after the elastic schema work of insert() or update() in this state:
     * exists() records the table when found; on an existing table fields() fills its
     * entry, and alter() drops it again when keys were missing.
     */
    ghost function ElasticCaches(table: string, data: Record): (seq<string>, map<string, ColumnList>)
      reads this`tableExists, this`columns, db`tables
    {
      (ExistsAfter(table),
       if table !in db.tables then columns
       else if DiffKeys(data, KnownFields(table)) != [] then columns - {table}
       else FieldsAfter(table))
    }

    /** Every cache stays sound when the schema only grows. */
    lemma ValidUnderGrowth(before: Schema)
      requires Extends(before, db.tables)
      requires forall t | t in tableExists :: t in before
      requires forall t | t in columns :: t in before && |columns[t]| > 0
      requires forall t, c | t in columns && c in columns[t] :: c in before[t]
      ensures Valid()
    {
      ExtendsKeepsColumns(before, db.tables);
    }

    /**
     * exists($table_name): a table already in the list answers true without a probe;
     * otherwise the database is probed and a table found is appended to the list. Only
     * tables that exist are ever recorded.
     */
    method Exists(table: string) returns (found: bool)
      requires Valid()
      modifies this`tableExists, db`queries
      ensures Valid()
      ensures found <==> table in db.tables
      ensures db.queries == old(db.queries) + old(ExistsProbe(table))
      ensures old(table in tableExists) ==> tableExists == old(tableExists)
      ensures !old(table in tableExists) ==> tableExists == if found then old(tableExists) + [table] else old(tableExists)
    {
      if table in tableExists {
        found := true;
      } else {
        found := db.HasTable(table);
        if found {
          tableExists := tableExists + [table];
        }
      }
    }

    /**
     * fields($table_name): the cached column list on a hit; otherwise the columns read from
     * the database, cached when there are any.
     */
    method Fields(table: string) returns (names: ColumnList)
      requires Valid()
      modifies this`columns, db`queries
      ensures Valid()
      ensures names == old(KnownFields(table))
      ensures forall c | c in names :: table in db.tables && c in db.tables[table]
      ensures db.queries == old(db.queries) + old(ColumnProbe(table))
      ensures old(table in columns) ==> columns == old(columns)
      ensures !old(table in columns) ==> columns == if |names| > 0 then old(columns)[table := names] else old(columns)
      ensures columns == old(FieldsAfter(table))
      ensures KnownFields(table) == names
    {
      if table in columns {
        names := columns[table];
      } else {
        names := db.ColumnNames(table);
        if |names| > 0 {
          columns := columns[table := names];
        }
      }
    }

    /**
     * alter($table_name, $array): one ADD per entry with the entry's inferred type, then
     * the table's cached column list (and only that one) is dropped. Always true.
     */
    method Alter(table: string, data: Record) returns (ok: bool)
      requires Valid()
      modifies this`columns, db`tables, db`queries
      ensures Valid()
      ensures ok
      ensures db.queries == old(db.queries) + AlterQueries(table, data)
      ensures db.tables == AddAll(old(db.tables), table, data)
      ensures old(table !in db.tables) ==> db.tables == old(db.tables)
      ensures forall t | t in old(db.tables) && t != table :: db.tables[t] == old(db.tables[t])
      ensures old(table in db.tables) ==> forall c | c in db.tables[table] :: c in old(db.tables[table]) || c in Names(data)
      ensures columns == old(columns) - {table}
    {
      AddEach(table, data);
      AddAllFrame(old(db.tables), table, data);
      if table !in old(db.tables) {
        AlterOnMissingTable(old(db.tables), table, data);
      }
      if table in columns {
        columns := columns - {table};
      }
      ValidUnderGrowth(old(db.tables));
      ok := true;
    }

    /** The loop of alter(): one ADD per entry, in order. */
    method AddEach(table: string, data: seq<Entry>)
      modifies db`tables, db`queries
      ensures db.queries == old(db.queries) + AlterQueries(table, data)
      ensures db.tables == AddAll(old(db.tables), table, data)
    {
      var i := 0;
      while i < |data|
        invariant 0 <= i <= |data|
        invariant db.queries == old(db.queries) + AlterQueries(table, data[..i])
        invariant db.tables == AddAll(old(db.tables), table, data[..i])
      {
        AlterStep(old(db.tables), table, data, i);
        var sqlType := ColumnTypeText(data[i].value);
        var sql := AddColumnSql(table, data[i].name, sqlType);
        SeqAssoc(old(db.queries), AlterQueries(table, data[..i]), [Statement(sql)]);
        var accepted := db.Execute(sql, AddColumn(table, ColumnDef(data[i].name, sqlType)));
        i := i + 1;
      }
      assert data[..|data|] == data;
    }

    /**
     * create($table_name, $data, $charset, $storage): sends the CREATE TABLE IF NOT EXISTS
     * built from the record. On an existing table it changes nothing and succeeds. The
     * caches are left alone.
     */
    method Create(table: string, data: Record, charset: string := "utf8", storage: string := "MyIsam")
      returns (ok: bool)
      requires Valid()
      modifies db`tables, db`queries
      ensures Valid()
      ensures db.queries == old(db.queries) + [Statement(CreateSql(table, data, charset, storage))]
      ensures (ok, db.tables) == ApplyEffect(old(db.tables), CreateTable(table, ColumnDefs(data)))
      ensures old(table in db.tables) ==> (ok <==> forall e | e in data :: !e.value.Null?) && db.tables == old(db.tables)
      ensures !old(table in db.tables) ==> (ok <==> "id" !in Names(data) && forall e | e in data :: !e.value.Null?)
      ensures ok && !old(table in db.tables) ==> db.tables == old(db.tables)[table := ["id"] + Names(data)]
    {
      var tbl := BuildCreateSql(table, data, charset, storage);
      CreateEffect(db.tables, table, data);
      ok := db.Execute(tbl, CreateTable(table, ColumnDefs(data)));
      ValidUnderGrowth(old(db.tables));
    }

    /**
     * model($table_name, $fields, $engine, $charset): sends the CREATE TABLE IF NOT EXISTS
     * built from explicit field specifications.
     */
    method Model(table: string, fields: seq<FieldSpec>, engine: Option<string> := Some("MyISAM"), charset: Option<string> := Some("utf8"))
      returns (ok: bool)
      requires Valid()
      modifies db`tables, db`queries
      ensures Valid()
      ensures db.queries == old(db.queries) + [Statement(ModelSql(table, fields, engine, charset))]
      ensures (ok, db.tables) == ApplyEffect(old(db.tables), CreateTable(table, ModelColumns(fields)))
      ensures old(table in db.tables) ==> (ok <==> forall f | f in fields && Included(f) :: f.sqlType.Some?) && db.tables == old(db.tables)
    {
      ModelColumnsTyped(fields);
      var tbl := BuildModelSql(table, fields, engine, charset);
      ok := db.Execute(tbl, CreateTable(table, ModelColumns(fields)));
      ValidUnderGrowth(old(db.tables));
    }

    /**
     * match($table_name, $data): the record cut down to the table's fields that data sets,
     * in field order; nothing when no field is set.
     */
    method Match(table: string, data: Record) returns (m: Option<Record>)
      requires Valid()
      modifies this`columns, db`queries
      ensures Valid()
      ensures m == Project(old(KnownFields(table)), data)
      ensures db.queries == old(db.queries) + old(ColumnProbe(table))
      ensures columns == old(FieldsAfter(table))
    {
      var fields := Fields(table);
      m := Project(fields, data);
    }

    /**
     * The elastic step shared by insert and update on an existing table: the record's keys
     * missing from fields() are added through alter(), which is skipped when none are.
     */
    method AddMissingFields(table: string, data: Record)
      requires Valid() && table in db.tables
      modifies this`columns, db`tables, db`queries
      ensures Valid()
      ensures db.tables == AddAll(old(db.tables), table, DiffKeys(data, old(KnownFields(table))))
      ensures db.queries == old(db.queries) + old(ColumnProbe(table)) + AlterQueries(table, DiffKeys(data, old(KnownFields(table))))
      ensures columns == old(ElasticCaches(table, data).1)
      ensures table in db.tables
      ensures (forall e | e in data :: !e.value.Null?) ==>
        && (forall e | e in data :: e.name in db.tables[table])
        && forall e | e in data :: e.name in KnownFields(table)
    {
      var fields := Fields(table);
      assert columns - {table} == old(columns) - {table};
      AlterMissing(table, data, fields);
    }

    /** alter() with the keys of data that fields() did not list, skipped when there are none. */
    method AlterMissing(table: string, data: Record, fields: ColumnList)
      requires Valid() && table in db.tables && fields == KnownFields(table)
      modifies this`columns, db`tables, db`queries
      ensures Valid()
      ensures db.tables == AddAll(old(db.tables), table, DiffKeys(data, fields))
      ensures db.queries == old(db.queries) + AlterQueries(table, DiffKeys(data, fields))
      ensures columns == if DiffKeys(data, fields) != [] then old(columns) - {table} else old(columns)
      ensures table in db.tables
      ensures (forall e | e in data :: !e.value.Null?) ==>
        && (forall e | e in data :: e.name in db.tables[table])
        && forall e | e in data :: e.name in KnownFields(table)
    {
      var diff := DiffKeys(data, fields);
      if |diff| > 0 {
        var altered := Alter(table, diff);
      } else {
        forall e | e in data ensures e.name in fields {
          assert e !in diff;
        }
      }
      if forall e | e in data :: !e.value.Null? {
        ElasticCoversKeys(old(db.tables), table, fields, data);
      }
    }

    /**
     * The row insert() and update() hand to the driver: the JSON-encoded record in
     * elastic mode; in strict mode that record cut down to the given fields, and nothing
     * when none of them is set.
     */
    function Payload(fields: ColumnList, data: Record, restrict: bool): (row: Record)
      ensures !restrict ==> row == Json(data, encode)
      ensures restrict ==> row == Project(fields, Json(data, encode)).GetOr([])
      ensures !restrict ==> Names(row) == Names(data)
      ensures restrict ==> forall e | e in row :: e.name in fields
      ensures forall e | e in row :: !IsArray(e.value)
    {
      var encoded := Json(data, encode);
      if restrict then
        var m := Project(fields, encoded).GetOr([]);
        assert forall e | e in m :: !IsArray(e.value) by {
          forall e | e in m ensures !IsArray(e.value) {
            GetFound(encoded, e.name);
            var i :| 0 <= i < |encoded| && encoded[i] == Entry(e.name, e.value);
          }
        }
        m
      else encoded
    }

    /**
     * The schema work of an elastic insert(): on an existing table the keys missing from
     * fields() are added; on a missing table it is created from the record.
     */
    method PrepareInsert(table: string, data: Record)
      requires Valid()
      modifies this`tableExists, this`columns, db`tables, db`queries
      ensures Valid()
      ensures db.tables == ElasticSchema(old(db.tables), old(KnownFields(table)), table, data)
      ensures db.queries == old(db.queries) + ElasticStatements(old(db.tables), old(ExistsProbe(table) + ColumnProbe(table)), old(KnownFields(table)), table, data)
      ensures (tableExists, columns) == old(ElasticCaches(table, data))
      ensures (forall e | e in data :: !e.value.Null?) && (old(table in db.tables) || "id" !in Names(data)) ==>
        && table in db.tables
        && (forall e | e in data :: e.name in db.tables[table])
        && forall e | e in data :: e.name in KnownFields(table)
    {
      ghost var probes := ExistsProbe(table) + ColumnProbe(table);
      var found := Exists(table);
      if found {
        AddMissingFields(table, data);
        SeqAssoc(old(db.queries), old(ExistsProbe(table)), old(ColumnProbe(table)));
        SeqAssoc(old(db.queries), probes, AlterQueries(table, DiffKeys(data, old(KnownFields(table)))));
      } else {
        assert table !in columns;
        CreateFromRecord(table, data);
      }
    }

    /** insert() on a missing table: create() with the defaults, its result ignored. */
    method CreateFromRecord(table: string, data: Record)
      requires Valid() && table !in db.tables
      modifies db`tables, db`queries
      ensures Valid()
      ensures db.tables == ApplyEffect(old(db.tables), CreateTable(table, ColumnDefs(data))).1
      ensures db.queries == old(db.queries) + [Statement(CreateSql(table, data, "utf8", "MyIsam"))]
      ensures (forall e | e in data :: !e.value.Null?) && "id" !in Names(data) ==>
        && table in db.tables
        && forall e | e in data :: e.name in db.tables[table]
    {
      var created := Create(table, data);
      if created && forall e | e in data :: !e.value.Null? {
        CreatedCoversKeys(db.tables, table, data);
      }
    }

    /**
     * insert($table_name, $data, $restrict). Elastic mode: on an existing table the keys
     * missing from fields() are added first; on a missing table the table is created from
     * the record (and the result of that ignored); then the JSON-encoded record is
     * written. Strict mode writes the encoded record cut down to the table's fields and
     * changes no schema. A successful write records its id.
     */
    method Insert(table: string, data: Record, restrict: bool := false) returns (ok: bool)
      requires Valid()
      modifies this`insertId, this`tableExists, this`columns, db`tables, db`queries, db`writes, db`lastId
      ensures Valid()
      ensures ok <==> Accepts(db.tables, table, Payload(old(KnownFields(table)), data, restrict))
      ensures db.writes == old(db.writes) + (if ok then [Inserted(table, Payload(old(KnownFields(table)), data, restrict))] else [])
      ensures ok ==> db.lastId == old(db.lastId) + 1 && insertId == Some(db.lastId)
      ensures !ok ==> insertId == old(insertId) && db.lastId == old(db.lastId)
      ensures restrict ==> db.tables == old(db.tables)
      ensures restrict ==> db.queries == old(db.queries) + old(ColumnProbe(table))
      ensures !restrict ==> db.tables == ElasticSchema(old(db.tables), old(KnownFields(table)), table, data)
      ensures !restrict ==> db.queries == old(db.queries) + ElasticStatements(old(db.tables), old(ExistsProbe(table) + ColumnProbe(table)), old(KnownFields(table)), table, data)
      ensures restrict ==> tableExists == old(tableExists) && columns == old(FieldsAfter(table))
      ensures !restrict ==> (tableExists, columns) == old(ElasticCaches(table, data))
      ensures !restrict && |data| > 0 && (forall e | e in data :: !e.value.Null?) && (old(table in db.tables) || "id" !in Names(data)) ==>
        && ok
        && (forall e | e in data :: e.name in db.tables[table])
        && forall e | e in data :: e.name in KnownFields(table)
    {
      if !restrict {
        ok := InsertElastic(table, data);
      } else {
        ok := InsertStrict(table, data);
      }
    }

    /** The elastic branch of insert(). */
    method InsertElastic(table: string, data: Record) returns (ok: bool)
      requires Valid()
      modifies this`insertId, this`tableExists, this`columns, db`tables, db`queries, db`writes, db`lastId
      ensures Valid()
      ensures ok <==> Accepts(db.tables, table, Json(data, encode))
      ensures db.writes == old(db.writes) + (if ok then [Inserted(table, Json(data, encode))] else [])
      ensures ok ==> db.lastId == old(db.lastId) + 1 && insertId == Some(db.lastId)
      ensures !ok ==> insertId == old(insertId) && db.lastId == old(db.lastId)
      ensures db.tables == ElasticSchema(old(db.tables), old(KnownFields(table)), table, data)
      ensures db.queries == old(db.queries) + ElasticStatements(old(db.tables), old(ExistsProbe(table) + ColumnProbe(table)), old(KnownFields(table)), table, data)
      ensures (tableExists, columns) == old(ElasticCaches(table, data))
      ensures |data| > 0 && (forall e | e in data :: !e.value.Null?) && (old(table in db.tables) || "id" !in Names(data)) ==>
        && ok
        && (forall e | e in data :: e.name in db.tables[table])
        && forall e | e in data :: e.name in KnownFields(table)
    {
      PrepareInsert(table, data);
      ok := InsertEncoded(table, data);
    }

    /** Writes the JSON-encoded record, which succeeds once every key is a column. */
    method InsertEncoded(table: string, data: Record) returns (ok: bool)
      requires Valid()
      modifies this`insertId, db`writes, db`lastId
      ensures Valid()
      ensures ok <==> Accepts(db.tables, table, Json(data, encode))
      ensures db.writes == old(db.writes) + (if ok then [Inserted(table, Json(data, encode))] else [])
      ensures ok ==> db.lastId == old(db.lastId) + 1 && insertId == Some(db.lastId)
      ensures !ok ==> insertId == old(insertId) && db.lastId == old(db.lastId)
      ensures |data| > 0 && table in db.tables && (forall e | e in data :: e.name in db.tables[table]) ==> ok
    {
      if |data| > 0 && table in db.tables && forall e | e in data :: e.name in db.tables[table] {
        JsonRowAccepted(db.tables, table, data, encode);
      }
      ok := InsertRow(table, Json(data, encode));
    }

    /** The strict branch of insert(). */
    method InsertStrict(table: string, data: Record) returns (ok: bool)
      requires Valid()
      modifies this`insertId, this`columns, db`queries, db`writes, db`lastId
      ensures Valid()
      ensures ok <==> Accepts(db.tables, table, Payload(old(KnownFields(table)), data, true))
      ensures db.writes == old(db.writes) + (if ok then [Inserted(table, Payload(old(KnownFields(table)), data, true))] else [])
      ensures ok ==> db.lastId == old(db.lastId) + 1 && insertId == Some(db.lastId)
      ensures !ok ==> insertId == old(insertId) && db.lastId == old(db.lastId)
      ensures db.queries == old(db.queries) + old(ColumnProbe(table))
      ensures columns == old(FieldsAfter(table))
    {
      var encoded := Json(data, encode);
      var matched := Match(table, encoded);
      ok := InsertRow(table, matched.GetOr([]));
    }

    /**
     * update($table_name, $data, $where, $restrict). Elastic mode on an existing table adds
     * the missing keys as insert() does and then updates with the JSON-encoded record; on a
     * missing table nothing is written and the call fails. Strict mode updates with the
     * encoded record cut down to the table's fields.
     */
    method Update(table: string, data: Record, where: Record, restrict: bool := false) returns (ok: bool)
      requires Valid()
      modifies this`tableExists, this`columns, db`tables, db`queries, db`writes
      ensures Valid()
      ensures !restrict && old(table !in db.tables) ==> !ok && db.writes == old(db.writes) && db.tables == old(db.tables)
      ensures restrict || old(table in db.tables) ==>
        && (ok <==> Accepts(db.tables, table, Payload(old(KnownFields(table)), data, restrict)) && forall e | e in where :: e.name in db.tables[table])
        && db.writes == old(db.writes) + (if ok then [Updated(table, Payload(old(KnownFields(table)), data, restrict), where)] else [])
      ensures restrict ==> db.tables == old(db.tables)
      ensures restrict ==> db.queries == old(db.queries) + old(ColumnProbe(table))
      ensures !restrict && old(table in db.tables) ==>
        && db.tables == AddAll(old(db.tables), table, DiffKeys(data, old(KnownFields(table))))
        && db.queries == old(db.queries) + old(ExistsProbe(table)) + old(ColumnProbe(table)) + AlterQueries(table, DiffKeys(data, old(KnownFields(table))))
      ensures !restrict && old(table !in db.tables) ==> db.queries == old(db.queries) + [ShowTables(table)]
      ensures restrict ==> tableExists == old(tableExists) && columns == old(FieldsAfter(table))
      ensures !restrict ==> (tableExists, columns) == old(ElasticCaches(table, data))
      ensures !restrict && old(table in db.tables) && (forall e | e in data :: !e.value.Null?) ==>
        forall e | e in data :: e.name in KnownFields(table)
      ensures !restrict && old(table in db.tables) && |data| > 0 && (forall e | e in data :: !e.value.Null?) && (forall e | e in where :: e.name in old(db.tables[table])) ==>
        && ok
        && forall e | e in data :: e.name in db.tables[table]
    {
      if !restrict {
        ok := UpdateElastic(table, data, where);
      } else {
        ok := UpdateStrict(table, data, where);
      }
    }

    /** The elastic branch of update(). */
    method UpdateElastic(table: string, data: Record, where: Record) returns (ok: bool)
      requires Valid()
      modifies this`tableExists, this`columns, db`tables, db`queries, db`writes
      ensures Valid()
      ensures old(table !in db.tables) ==>
        && !ok && db.writes == old(db.writes) && db.tables == old(db.tables)
        && db.queries == old(db.queries) + [ShowTables(table)]
      ensures old(table in db.tables) ==>
        && (ok <==> Accepts(db.tables, table, Json(data, encode)) && forall e | e in where :: e.name in db.tables[table])
        && db.writes == old(db.writes) + (if ok then [Updated(table, Json(data, encode), where)] else [])
        && db.tables == AddAll(old(db.tables), table, DiffKeys(data, old(KnownFields(table))))
        && db.queries == old(db.queries) + old(ExistsProbe(table)) + old(ColumnProbe(table)) + AlterQueries(table, DiffKeys(data, old(KnownFields(table))))
      ensures (tableExists, columns) == old(ElasticCaches(table, data))
      ensures old(table in db.tables) && (forall e | e in data :: !e.value.Null?) ==>
        forall e | e in data :: e.name in KnownFields(table)
      ensures old(table in db.tables) && |data| > 0 && (forall e | e in data :: !e.value.Null?) && (forall e | e in where :: e.name in old(db.tables[table])) ==>
        && ok
        && forall e | e in data :: e.name in db.tables[table]
    {
      var found := Exists(table);
      if found {
        ok := UpdateExisting(table, data, where);
      } else {
        ok := false;
      }
    }

    /** update() in elastic mode once the table is known to exist. */
    method UpdateExisting(table: string, data: Record, where: Record) returns (ok: bool)
      requires Valid() && table in db.tables
      modifies this`columns, db`tables, db`queries, db`writes
      ensures Valid()
      ensures ok <==> Accepts(db.tables, table, Json(data, encode)) && forall e | e in where :: e.name in db.tables[table]
      ensures db.writes == old(db.writes) + (if ok then [Updated(table, Json(data, encode), where)] else [])
      ensures db.tables == AddAll(old(db.tables), table, DiffKeys(data, old(KnownFields(table))))
      ensures db.queries == old(db.queries) + old(ColumnProbe(table)) + AlterQueries(table, DiffKeys(data, old(KnownFields(table))))
      ensures columns == old(ElasticCaches(table, data).1)
      ensures (forall e | e in data :: !e.value.Null?) ==> forall e | e in data :: e.name in KnownFields(table)
      ensures |data| > 0 && (forall e | e in data :: !e.value.Null?) && (forall e | e in where :: e.name in old(db.tables[table])) ==>
        && ok
        && forall e | e in data :: e.name in db.tables[table]
    {
      AddMissingFields(table, data);
      ExtendsKeepsColumns(old(db.tables), db.tables);
      ok := UpdateEncoded(table, data, where);
    }

    /** Updates with the JSON-encoded record, which succeeds once every key and every condition is a column. */
    method UpdateEncoded(table: string, data: Record, where: Record) returns (ok: bool)
      modifies db`writes
      ensures ok <==> Accepts(db.tables, table, Json(data, encode)) && forall e | e in where :: e.name in db.tables[table]
      ensures db.writes == old(db.writes) + (if ok then [Updated(table, Json(data, encode), where)] else [])
      ensures |data| > 0 && table in db.tables && (forall e | e in data :: e.name in db.tables[table]) && (forall e | e in where :: e.name in db.tables[table]) ==> ok
    {
      if |data| > 0 && table in db.tables && forall e | e in data :: e.name in db.tables[table] {
        JsonRowAccepted(db.tables, table, data, encode);
      }
      var row := Json(data, encode);
      ok := db.Update(table, row, where);
    }

    /** The strict branch of update(). */
    method UpdateStrict(table: string, data: Record, where: Record) returns (ok: bool)
      requires Valid()
      modifies this`columns, db`queries, db`writes
      ensures Valid()
      ensures ok <==> Accepts(db.tables, table, Payload(old(KnownFields(table)), data, true)) && forall e | e in where :: e.name in db.tables[table]
      ensures db.writes == old(db.writes) + (if ok then [Updated(table, Payload(old(KnownFields(table)), data, true), where)] else [])
      ensures db.queries == old(db.queries) + old(ColumnProbe(table))
      ensures columns == old(FieldsAfter(table))
    {
      var encoded := Json(data, encode);
      var matched := Match(table, encoded);
      ok := db.Update(table, matched.GetOr([]), where);
    }

    /** Writes one row and records its id, as every branch of insert() does. */
    method InsertRow(table: string, row: Record) returns (ok: bool)
      requires Valid()
      modifies this`insertId, db`writes, db`lastId
      ensures Valid()
      ensures ok <==> Accepts(db.tables, table, row)
      ensures db.writes == old(db.writes) + (if ok then [Inserted(table, row)] else [])
      ensures ok ==> db.lastId == old(db.lastId) + 1 && insertId == Some(db.lastId)
      ensures !ok ==> insertId == old(insertId) && db.lastId == old(db.lastId)
    {
      var id := db.Insert(table, row);
      ok := id.Some?;
      if ok {
        insertId := id;
      }
    }
  }
}
