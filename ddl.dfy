/**
 * The CREATE TABLE and ALTER TABLE text FlexDB builds: from a sample record with
 * inferred types (FlexDB::create, FlexDB::alter) and from an explicit field
 * specification list (FlexDB::model). Each builder method appends to the statement
 * piece by piece, as the source does, and is proved equal to a specification function.
 */
module Ddl {
  import opened Wrappers
  import opened Values
  import opened SqlTypes

  /** A column name with the type text that follows it in the DDL. */
  datatype ColumnDef = ColumnDef(name: string, sqlType: string)

  /** create()'s first loop: each record entry paired with its inferred type text. */
  function ColumnDefs(data: seq<Entry>): (defs: seq<ColumnDef>)
    ensures |defs| == |data|
    decreases |data|
  {
    if data == [] then []
    else ColumnDefs(data[..|data| - 1]) + [ColumnDef(data[|data| - 1].name, ColumnTypeText(data[|data| - 1].value))]
  }

  /** "`name` type," */
  function ColumnClause(c: ColumnDef): string {
    "`" + c.name + "` " + c.sqlType + ","
  }

  /** create()'s second loop: the column clauses, one after the other. */
  function RenderColumns(defs: seq<ColumnDef>): string
    decreases |defs|
  {
    if defs == [] then ""
    else RenderColumns(defs[..|defs| - 1]) + ColumnClause(defs[|defs| - 1])
  }

  lemma {:induction false} RenderColumnsAppend(a: seq<ColumnDef>, b: seq<ColumnDef>)
    ensures RenderColumns(a + b) == RenderColumns(a) + RenderColumns(b)
    decreases |b|
  {
    if b == [] {
      assert a + b == a;
    } else {
      var b', last := b[..|b| - 1], b[|b| - 1];
      assert (a + b)[..|a + b| - 1] == a + b';
      RenderColumnsAppend(a, b');
      var x, y, z := RenderColumns(a), RenderColumns(b'), ColumnClause(last);
      calc {
        RenderColumns(a + b);
        RenderColumns(a + b') + z;
        (x + y) + z;
        { SeqAssoc(x, y, z); }
        x + (y + z);
        RenderColumns(a) + RenderColumns(b);
      }
    }
  }

  lemma SplitAt<T>(s: seq<T>, i: nat)
    requires i < |s|
    ensures s == s[..i] + [s[i]] + s[i + 1..]
  {
  }

  lemma SeqAssoc<T>(x: seq<T>, y: seq<T>, z: seq<T>)
    ensures (x + y) + z == x + (y + z)
  {
  }

  const CreateKeyword: string := "CREATE TABLE IF NOT EXISTS `"
  const IdColumnLead: string := "`id` int("
  const IdColumnRest: string := ") unsigned NOT NULL auto_increment,"
  const PrimaryKeyClause: string := "PRIMARY KEY  (`id`)"

  /** The statement up to and including the auto-increment id column. */
  function CreateHead(table: string): string {
    CreateKeyword + table + "`" + "("
    + (IdColumnLead + DecimalString(IntLength) + IdColumnRest)
  }

  /**
   * The statement create($table_name, $data, $charset, $storage) sends: the head, one
   * column clause per entry, then primary key, storage engine and character set.
   */
  function CreateSql(table: string, data: seq<Entry>, charset: string, storage: string): string {
    CreateHead(table) + RenderColumns(ColumnDefs(data)) + CreateTail(charset, storage)
  }

  /** The statement after the column clauses: primary key, storage engine, character set. */
  function CreateTail(charset: string, storage: string): string {
    PrimaryKeyClause + ")" + ("ENGINE=" + storage + " ") + ("DEFAULT CHARSET=" + charset)
  }

  /**
   * The clause of entry i sits after the clauses of the entries before it and before
   * those of the entries after it, between the id column and the primary key.
   */
  lemma CreateSqlColumnAt(table: string, data: Record, charset: string, storage: string, i: nat)
    requires i < |data|
    ensures CreateSql(table, data, charset, storage)
         == CreateHead(table) + RenderColumns(ColumnDefs(data[..i]))
            + ColumnClause(ColumnDef(data[i].name, ColumnTypeText(data[i].value)))
            + RenderColumns(ColumnDefs(data[i + 1..]))
            + CreateTail(charset, storage)
  {
    var c := ColumnDef(data[i].name, ColumnTypeText(data[i].value));
    var before, after := ColumnDefs(data[..i]), ColumnDefs(data[i + 1..]);
    ColumnDefsSplit(data, i);
    RenderColumnsAppend(before + [c], after);
    assert (before + [c])[..|before|] == before;
    var h, rb, cc, ra := CreateHead(table), RenderColumns(before), ColumnClause(c), RenderColumns(after);
    assert RenderColumns(ColumnDefs(data)) == (rb + cc) + ra;
    calc {
      h + ((rb + cc) + ra);
      { SeqAssoc(h, rb + cc, ra); }
      (h + (rb + cc)) + ra;
      { SeqAssoc(h, rb, cc); }
      ((h + rb) + cc) + ra;
    }
  }

  /** Column i is entry i's name with entry i's inferred type. */
  lemma {:induction false} ColumnDefsAt(data: seq<Entry>, i: nat)
    requires i < |data|
    ensures ColumnDefs(data)[i] == ColumnDef(data[i].name, ColumnTypeText(data[i].value))
    decreases |data|
  {
    if i < |data| - 1 {
      var init := data[..|data| - 1];
      assert init[i] == data[i];
      ColumnDefsAt(init, i);
    }
  }

  /** The inferred columns of a concatenation are the concatenated inferred columns. */
  lemma {:induction false} ColumnDefsAppend(a: seq<Entry>, b: seq<Entry>)
    ensures ColumnDefs(a + b) == ColumnDefs(a) + ColumnDefs(b)
    decreases |b|
  {
    if b == [] {
      assert a + b == a;
    } else {
      var init, last := b[..|b| - 1], b[|b| - 1];
      assert (a + b)[..|a + b| - 1] == a + init;
      assert (a + b)[|a + b| - 1] == last;
      ColumnDefsAppend(a, init);
      SeqAssoc(ColumnDefs(a), ColumnDefs(init), [ColumnDef(last.name, ColumnTypeText(last.value))]);
    }
  }

  /** The inferred columns of a record split around entry i. */
  lemma ColumnDefsSplit(data: seq<Entry>, i: nat)
    requires i < |data|
    ensures ColumnDefs(data) == ColumnDefs(data[..i]) + [ColumnDef(data[i].name, ColumnTypeText(data[i].value))] + ColumnDefs(data[i + 1..])
  {
    var pre, mid, post := data[..i], [data[i]], data[i + 1..];
    var c := ColumnDef(data[i].name, ColumnTypeText(data[i].value));
    assert ColumnDefs(mid) == [c] by {
      assert mid[..0] == [];
    }
    calc {
      ColumnDefs(data);
      { SplitAt(data, i); }
      ColumnDefs(pre + mid + post);
      { ColumnDefsAppend(pre + mid, post); }
      ColumnDefs(pre + mid) + ColumnDefs(post);
      { ColumnDefsAppend(pre, mid); }
      ColumnDefs(pre) + [c] + ColumnDefs(post);
    }
  }

  /** FlexDB::create's string building: the two loops and the appends around them. */
  method BuildCreateSql(table: string, data: Record, charset: string := "utf8", storage: string := "MyIsam")
    returns (tbl: string)
    ensures tbl == CreateSql(table, data, charset, storage)
  {
    var field := InferColumns(data);
    tbl := "CREATE TABLE IF NOT EXISTS `" + table + "`";
    tbl := tbl + "(";
    tbl := tbl + ("`id` int(" + DecimalString(IntLength) + ") unsigned NOT NULL auto_increment,");
    assert tbl == CreateHead(table);
    tbl := AppendColumns(tbl, field);
    tbl := AppendTail(tbl, charset, storage);
  }

  /** The appends after create()'s second loop. */
  method AppendTail(head: string, charset: string, storage: string) returns (tbl: string)
    ensures tbl == head + CreateTail(charset, storage)
  {
    var key, close, engine, chars := "PRIMARY KEY  (`id`)", ")", "ENGINE=" + storage + " ", "DEFAULT CHARSET=" + charset;
    tbl := head + key;
    tbl := tbl + close;
    SeqAssoc(head, key, close);
    tbl := tbl + engine;
    SeqAssoc(head, key + close, engine);
    tbl := tbl + chars;
    SeqAssoc(head, key + close + engine, chars);
  }

  /** create()'s first loop: the inferred type of every entry, in record order. */
  method InferColumns(data: Record) returns (field: seq<ColumnDef>)
    ensures field == ColumnDefs(data)
  {
    field := [];
    var i := 0;
    while i < |data|
      invariant 0 <= i <= |data|
      invariant field == ColumnDefs(data[..i])
    {
      assert data[..i + 1][..i] == data[..i];
      field := field + [ColumnDef(data[i].name, ColumnTypeText(data[i].value))];
      i := i + 1;
    }
    assert data[..|data|] == data;
  }

  /** create()'s second loop: one column clause appended per column. */
  method AppendColumns(head: string, field: seq<ColumnDef>) returns (tbl: string)
    ensures tbl == head + RenderColumns(field)
  {
    tbl := head;
    var j := 0;
    while j < |field|
      invariant 0 <= j <= |field|
      invariant tbl == head + RenderColumns(field[..j])
    {
      assert field[..j + 1][..j] == field[..j];
      SeqAssoc(head, RenderColumns(field[..j]), ColumnClause(field[j]));
      tbl := tbl + ("`" + field[j].name + "` " + field[j].sqlType + ",");
      j := j + 1;
    }
    assert field[..|field|] == field;
  }

  /** "ALTER TABLE `table` ADD `name` type", one per column alter() adds. */
  function AddColumnSql(table: string, name: string, sqlType: string): string {
    "ALTER TABLE `" + table + "` ADD `" + name + "` " + sqlType
  }

  /**
   * One element of model()'s $fields argument; each key may be missing (None).
   * nullFlag stands for whether 'null' is present and identical to false.
   */
  datatype FieldSpec = FieldSpec(
    field: Option<string>,
    sqlType: Option<string>,
    length: Option<string>,
    attribute: Option<string>,
    defaultValue: Option<string>,
    nullFlag: Option<bool>,
    extra: Option<string>)

  /** model() writes a column only for a spec that names a field other than id. */
  predicate Included(f: FieldSpec) {
    f.field.Some? && f.field.value != "id"
  }

  function DefaultPart(f: FieldSpec): string {
    if f.defaultValue.Some? then "default " + f.defaultValue.value + " " else ""
  }

  /** The null clause: only when 'null' is given and no default is. */
  function NullPart(f: FieldSpec): (r: string)
    ensures r != "" ==> DefaultPart(f) == ""
    ensures r != "" <==> f.nullFlag.Some? && f.defaultValue.None?
    ensures r == "default NOT NULL " <==> f.nullFlag == Some(false) && f.defaultValue.None?
  {
    if f.nullFlag.Some? && f.defaultValue.None? then
      if f.nullFlag.value == false then "default NOT NULL " else "default NULL "
    else ""
  }

  function LengthPart(f: FieldSpec): string {
    if f.length.Some? then "(" + f.length.value + ") " else ""
  }

  function AttributePart(f: FieldSpec): string {
    if f.attribute.Some? then f.attribute.value + " " else ""
  }

  function ExtraPart(f: FieldSpec): string {
    if f.extra.Some? then f.extra.value + " " else ""
  }

  /** What model() writes after the column name: empty when no 'type' is given. */
  function TypePart(f: FieldSpec): string {
    if f.sqlType.Some? then
      f.sqlType.value + " " + LengthPart(f) + AttributePart(f) + DefaultPart(f) + NullPart(f) + ExtraPart(f)
    else ""
  }

  /** The text model() appends for one spec. */
  function ModelClause(f: FieldSpec): string {
    if Included(f) then "`" + f.field.value + "` " + TypePart(f) + ", " else ""
  }

  function RenderModelColumns(fields: seq<FieldSpec>): string
    decreases |fields|
  {
    if fields == [] then ""
    else RenderModelColumns(fields[..|fields| - 1]) + ModelClause(fields[|fields| - 1])
  }

  lemma {:induction false} RenderModelColumnsAppend(a: seq<FieldSpec>, b: seq<FieldSpec>)
    ensures RenderModelColumns(a + b) == RenderModelColumns(a) + RenderModelColumns(b)
    decreases |b|
  {
    if b == [] {
      assert a + b == a;
    } else {
      var b', last := b[..|b| - 1], b[|b| - 1];
      assert (a + b)[..|a + b| - 1] == a + b';
      RenderModelColumnsAppend(a, b');
      var x, y, z := RenderModelColumns(a), RenderModelColumns(b'), ModelClause(last);
      calc {
        RenderModelColumns(a + b);
        RenderModelColumns(a + b') + z;
        (x + y) + z;
        { SeqAssoc(x, y, z); }
        x + (y + z);
        RenderModelColumns(a) + RenderModelColumns(b);
      }
    }
  }

  /** The columns model() asks for: every included spec, in order, with its type text. */
  function ModelColumns(fields: seq<FieldSpec>): (cols: seq<ColumnDef>)
    ensures forall c | c in cols :: c.name != "id"
    ensures forall f | f in fields && Included(f) :: ColumnDef(f.field.value, TypePart(f)) in cols
    ensures forall c | c in cols :: exists f | f in fields && Included(f) :: c == ColumnDef(f.field.value, TypePart(f))
    ensures |cols| <= |fields|
    decreases |fields|
  {
    if fields == [] then []
    else
      var f := fields[|fields| - 1];
      var init := fields[..|fields| - 1];
      assert forall g | g in fields :: g in init || g == f;
      ModelColumns(init) + (if Included(f) then [ColumnDef(f.field.value, TypePart(f))] else [])
  }

  /**
   * The declared columns distribute over concatenation of the specs, so they follow the
   * specs' order.
   */
  lemma {:induction false} ModelColumnsAppend(a: seq<FieldSpec>, b: seq<FieldSpec>)
    ensures ModelColumns(a + b) == ModelColumns(a) + ModelColumns(b)
    decreases |b|
  {
    if b == [] {
      assert a + b == a;
    } else {
      var b', last := b[..|b| - 1], b[|b| - 1];
      assert (a + b)[..|a + b| - 1] == a + b';
      ModelColumnsAppend(a, b');
    }
  }

  /** Every column model() declares has a type exactly when every included spec gives one. */
  lemma ModelColumnsTyped(fields: seq<FieldSpec>)
    ensures (forall c | c in ModelColumns(fields) :: c.sqlType != "")
        <==> forall f | f in fields && Included(f) :: f.sqlType.Some?
  {
    // Name the columns so that ModelColumns' contract is instantiated for them.
    var cols := ModelColumns(fields);
    forall f | f in fields ensures TypePart(f) != "" <==> f.sqlType.Some? {
      if f.sqlType.Some? {
        assert |TypePart(f)| > 0;
      }
    }
  }

  function ModelHead(table: string): string {
    "CREATE TABLE IF NOT EXISTS `" + table + "`" + "(" + "`id` int(11) unsigned NOT NULL auto_increment, "
  }

  function EnginePart(engine: Option<string>): string {
    if engine.Some? then "ENGINE=" + engine.value + " " else ""
  }

  function CharsetPart(charset: Option<string>): string {
    if charset.Some? then "DEFAULT CHARSET=" + charset.value + " " else ""
  }

  /** The statement model($table_name, $fields, $engine, $charset) sends. */
  function ModelSql(table: string, fields: seq<FieldSpec>, engine: Option<string>, charset: Option<string>): string {
    ModelHead(table) + RenderModelColumns(fields) + "PRIMARY KEY (`id`)" + ") " + EnginePart(engine) + CharsetPart(charset)
  }

  /**
   * A spec without a field name, or naming id, leaves the statement exactly as if it
   * were not in the list.
   */
  lemma ModelSkipsExcluded(table: string, fields: seq<FieldSpec>, engine: Option<string>, charset: Option<string>, i: nat)
    requires i < |fields| && !Included(fields[i])
    ensures ModelSql(table, fields, engine, charset) == ModelSql(table, fields[..i] + fields[i + 1..], engine, charset)
  {
    var before, f, after := fields[..i], fields[i], fields[i + 1..];
    assert fields == before + [f] + after;
    RenderModelColumnsAppend(before + [f], after);
    RenderModelColumnsAppend(before, [f]);
    RenderModelColumnsAppend(before, after);
    assert [f][..0] == [];
    var x, y := RenderModelColumns(before), RenderModelColumns(after);
    calc {
      RenderModelColumns(fields);
      RenderModelColumns(before + [f]) + y;
      (x + RenderModelColumns([f])) + y;
      { assert RenderModelColumns([f]) == RenderModelColumns([]) + ModelClause(f); }
      (x + "") + y;
      { assert x + "" == x; }
      x + y;
      RenderModelColumns(before + after);
    }
  }

  /** FlexDB::model's string building. */
  method BuildModelSql(table: string, fields: seq<FieldSpec>, engine: Option<string> := Some("MyISAM"), charset: Option<string> := Some("utf8"))
    returns (tbl: string)
    ensures tbl == ModelSql(table, fields, engine, charset)
  {
    tbl := "CREATE TABLE IF NOT EXISTS `" + table + "`";
    tbl := tbl + "(";
    tbl := tbl + "`id` int(11) unsigned NOT NULL auto_increment, ";
    var i := 0;
    while i < |fields|
      invariant 0 <= i <= |fields|
      invariant tbl == ModelHead(table) + RenderModelColumns(fields[..i])
    {
      assert fields[..i + 1][..i] == fields[..i];
      SeqAssoc(ModelHead(table), RenderModelColumns(fields[..i]), ModelClause(fields[i]));
      tbl := AppendField(tbl, fields[i]);
      i := i + 1;
    }
    assert fields[..|fields|] == fields;
    tbl := tbl + "PRIMARY KEY (`id`)";
    tbl := tbl + ") ";
    if engine.Some? {
      tbl := tbl + ("ENGINE=" + engine.value + " ");
    }
    assert tbl == ModelHead(table) + RenderModelColumns(fields) + "PRIMARY KEY (`id`)" + ") " + EnginePart(engine);
    if charset.Some? {
      tbl := tbl + ("DEFAULT CHARSET=" + charset.value + " ");
    }
  }

  /** One pass of model()'s loop: what it appends to the statement for one spec. */
  method AppendField(tbl: string, field: FieldSpec) returns (out: string)
    ensures out == tbl + ModelClause(field)
  {
    out := tbl;
    if field.field.Some? && field.field.value != "id" {
      out := out + ("`" + field.field.value + "` ");
      var typ := TypeText(field);
      out := out + typ;
      out := out + ", ";
      SeqAssoc(tbl, "`" + field.field.value + "` ", typ);
      SeqAssoc(tbl, "`" + field.field.value + "` " + typ, ", ");
    }
  }

  /** The type part of one spec, appended piece by piece as model() does. */
  method TypeText(field: FieldSpec) returns (typ: string)
    ensures typ == TypePart(field)
  {
    typ := "";
    if field.sqlType.Some? {
      typ := field.sqlType.value + " ";
      ghost var head := typ;
      if field.length.Some? {
        typ := typ + ("(" + field.length.value + ") ");
      }
      assert typ == head + LengthPart(field);
      head := typ;
      if field.attribute.Some? {
        typ := typ + (field.attribute.value + " ");
      }
      assert typ == head + AttributePart(field);
      head := typ;
      if field.defaultValue.Some? {
        typ := typ + ("default " + field.defaultValue.value + " ");
      }
      assert typ == head + DefaultPart(field);
      head := typ;
      if field.nullFlag.Some? && field.defaultValue.None? {
        if field.nullFlag.value == false {
          typ := typ + "default NOT NULL ";
        } else {
          typ := typ + "default NULL ";
        }
      }
      assert typ == head + NullPart(field);
      head := typ;
      if field.extra.Some? {
        typ := typ + (field.extra.value + " ");
      }
      assert typ == head + ExtraPart(field);
    }
  }
}
