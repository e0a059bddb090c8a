/**
 * The database FlexDB talks to, reduced to what the engine can observe: which tables
 * exist with which columns, the statements sent through query(), and the rows the
 * insert and update builders write. Every statement either takes effect whole or is
 * refused; there is no other failure.
 */
module Driver {
  import opened Wrappers
  import opened Values
  import opened SqlTypes
  import opened Ddl
  import opened TableProbe

  /** A statement sent through the connection. */
  datatype Query = Statement(sql: string) | ShowTables(table: string) | ShowColumns(table: string)

  /** What a DDL statement asks of the schema. */
  datatype Effect =
    | CreateTable(table: string, columns: seq<ColumnDef>)
    | AddColumn(table: string, column: ColumnDef)

  /** A write the store accepted. */
  datatype Write =
    | Inserted(table: string, row: Record)
    | Updated(table: string, changes: Record, where: Record)

  /** Table name to its columns, in definition order. */
  type Schema = map<string, ColumnList>

  /** t keeps every table of s, and each of its column lists as a prefix. */
  ghost predicate Extends(s: Schema, t: Schema) {
    forall k | k in s :: k in t && s[k] <= t[k]
  }

  lemma ExtendsTransitive(s: Schema, t: Schema, u: Schema)
    requires Extends(s, t) && Extends(t, u)
    ensures Extends(s, u)
  {
    forall k | k in s ensures k in u && s[k] <= u[k] {
      assert t[k] <= u[k];
    }
  }

  /** A column of s is still a column of every extension of s. */
  lemma ExtendsKeepsColumn(s: Schema, t: Schema, table: string, c: string)
    requires Extends(s, t) && table in s && c in s[table]
    ensures table in t && c in t[table]
  {
    var i :| 0 <= i < |s[table]| && s[table][i] == c;
    assert t[table][i] == c;
  }

  /** Every column of s is still a column of an extension of s. */
  lemma ExtendsKeepsColumns(s: Schema, t: Schema)
    requires Extends(s, t)
    ensures forall k, c | k in s && c in s[k] :: k in t && c in t[k]
  {
    forall k, c | k in s && c in s[k] ensures k in t && c in t[k] {
      ExtendsKeepsColumn(s, t, k, c);
    }
  }

  function DefNames(defs: seq<ColumnDef>): seq<string> {
    seq(|defs|, i requires 0 <= i < |defs| => defs[i].name)
  }

  /** Every column has a type: a column without one ("`k` ,") is a syntax error. */
  predicate Typed(defs: seq<ColumnDef>) {
    forall i | 0 <= i < |defs| :: defs[i].sqlType != ""
  }

  /** Column definitions the store accepts after the id column: distinct names other than id, each with a type. */
  predicate WellFormed(defs: seq<ColumnDef>) {
    && Distinct(DefNames(defs))
    && "id" !in DefNames(defs)
    && Typed(defs)
  }

  /**
   * Whether the store accepts a DDL statement, and the schema after it. A CREATE with an
   * untyped column does not parse, whether or not the table exists; otherwise CREATE
   * TABLE IF NOT EXISTS succeeds without effect on an existing table. ADD fails on a
   * missing table, an existing column or a column without a type.
   */
  function ApplyEffect(s: Schema, e: Effect): (r: (bool, Schema))
    ensures Extends(s, r.1)
    ensures !r.0 ==> r.1 == s
  {
    match e
    case CreateTable(table, columns) =>
      if !Typed(columns) then (false, s)
      else if table in s then (true, s)
      else if WellFormed(columns) then
        var names: ColumnList := ["id"] + DefNames(columns);
        (true, s[table := names])
      else (false, s)
    case AddColumn(table, column) =>
      if table in s && column.name !in s[table] && column.sqlType != "" then
        var names: ColumnList := s[table] + [column.name];
        (true, s[table := names])
      else (false, s)
  }

  /** The schema after alter() sends one ADD per entry of data, in order. */
  function AddAll(s: Schema, table: string, data: seq<Entry>): (r: Schema)
    ensures Extends(s, r)
    ensures r.Keys == s.Keys
    decreases |data|
  {
    if data == [] then s
    else
      var last := data[|data| - 1];
      var before := AddAll(s, table, data[..|data| - 1]);
      var after := ApplyEffect(before, AddColumn(table, ColumnDef(last.name, ColumnTypeText(last.value)))).1;
      ExtendsTransitive(s, before, after);
      after
  }

  /**
   * alter() touches only its own table, and that table gains only data's keys: every
   * other table keeps its columns.
   */
  lemma {:induction false} AddAllFrame(s: Schema, table: string, data: seq<Entry>)
    ensures forall t | t in s && t != table :: AddAll(s, table, data)[t] == s[t]
    ensures table in s ==> forall c | c in AddAll(s, table, data)[table] :: c in s[table] || c in Names(data)
    decreases |data|
  {
    if data != [] {
      var init := data[..|data| - 1];
      AddAllFrame(s, table, init);
      forall c | c in Names(init) ensures c in Names(data) {
        var i :| 0 <= i < |init| && Names(init)[i] == c;
        assert Names(data)[i] == c;
      }
      assert Names(data)[|data| - 1] == data[|data| - 1].name;
    }
  }

  /**
   * Adding entries whose values all have a type to an existing table leaves every one of
   * their names a column of it: added now, or there already.
   */
  lemma {:induction false} AddAllAddsColumns(s: Schema, table: string, data: seq<Entry>)
    requires table in s
    requires forall e | e in data :: !e.value.Null?
    ensures table in AddAll(s, table, data)
    ensures forall e | e in data :: e.name in AddAll(s, table, data)[table]
    decreases |data|
  {
    if data != [] {
      var init, last := data[..|data| - 1], data[|data| - 1];
      assert data == init + [last];
      assert last in data;
      AddAllAddsColumns(s, table, init);
      var before := AddAll(s, table, init);
      var column := ColumnDef(last.name, ColumnTypeText(last.value));
      var after := ApplyEffect(before, AddColumn(table, column)).1;
      assert after == AddAll(s, table, data);
      AddColumnPresent(before, table, column);
      forall e | e in data ensures e.name in after[table] {
        if e != last {
          assert e in init;
          ExtendsKeepsColumn(before, after, table, e.name);
        }
      }
    }
  }

  /** After an ADD of a typed column to an existing table, the column is there. */
  lemma AddColumnPresent(s: Schema, table: string, column: ColumnDef)
    requires table in s && column.sqlType != ""
    ensures table in ApplyEffect(s, AddColumn(table, column)).1
    ensures column.name in ApplyEffect(s, AddColumn(table, column)).1[table]
  {
    var t := ApplyEffect(s, AddColumn(table, column)).1;
    if column.name in s[table] {
      ExtendsKeepsColumn(s, t, table, column.name);
    } else {
      assert t[table] == s[table] + [column.name];
    }
  }

  /** A write is accepted when the table exists, it sets some field, and every field is a column. */
  predicate Accepts(s: Schema, table: string, row: seq<Entry>) {
    table in s && |row| > 0 && forall e | e in row :: e.name in s[table]
  }

  class Database {
    var tables: Schema
    var queries: seq<Query>
    var writes: seq<Write>
    var lastId: nat

    constructor (existing: Schema)
      ensures tables == existing && queries == [] && writes == [] && lastId == 0
    {
      tables := existing;
      queries := [];
      writes := [];
      lastId := 0;
    }

    /** query($sql) for a DDL statement with the given effect. */
    method Execute(sql: string, effect: Effect) returns (ok: bool)
      modifies this`tables, this`queries
      ensures (ok, tables) == ApplyEffect(old(tables), effect)
      ensures queries == old(queries) + [Statement(sql)]
    {
      var r := ApplyEffect(tables, effect);
      ok, tables := r.0, r.1;
      queries := queries + [Statement(sql)];
    }

    /**
     * The SHOW TABLES LIKE probe with the name escaped, so that `_` and `%` in it are
     * literal: whether a table of exactly this name exists.
     */
    method HasTable(table: string) returns (found: bool)
      modifies this`queries
      ensures found <==> table in tables
      ensures queries == old(queries) + [ShowTables(table)]
    {
      found := ProbeEscaped(tables.Keys, table);
      queries := queries + [ShowTables(table)];
    }

    /** SHOW COLUMNS FROM `table`: the column names, none for a missing table. */
    method ColumnNames(table: string) returns (names: ColumnList)
      modifies this`queries
      ensures names == if table in tables then tables[table] else []
      ensures queries == old(queries) + [ShowColumns(table)]
    {
      names := if table in tables then tables[table] else [];
      queries := queries + [ShowColumns(table)];
    }

    /** The insert builder: the new row's auto-increment id, or nothing when refused. */
    method Insert(table: string, row: Record) returns (id: Option<nat>)
      modifies this`writes, this`lastId
      ensures id.Some? <==> Accepts(tables, table, row)
      ensures writes == old(writes) + (if id.Some? then [Inserted(table, row)] else [])
      ensures lastId == if id.Some? then old(lastId) + 1 else old(lastId)
      ensures id.Some? ==> id.value == lastId
    {
      if Accepts(tables, table, row) {
        lastId := lastId + 1;
        writes := writes + [Inserted(table, row)];
        id := Some(lastId);
      } else {
        id := None;
      }
    }

    /** The update builder: whether the store accepted the update. */
    method Update(table: string, changes: Record, where: Record) returns (ok: bool)
      modifies this`writes
      ensures ok <==> Accepts(tables, table, changes) && forall e | e in where :: e.name in tables[table]
      ensures writes == old(writes) + (if ok then [Updated(table, changes, where)] else [])
    {
      ok := Accepts(tables, table, changes) && forall e | e in where :: e.name in tables[table];
      if ok {
        writes := writes + [Updated(table, changes, where)];
      }
    }
  }
}
