/**
 * Pure rewrites of a record: the key difference against a table's fields
 * (array_diff_key), the strict-mode projection (FlexDB::match), JSON encoding of
 * nested arrays (FlexDB::json) and the scalar where shorthand of the row readers.
 */
module Records {
  import opened Wrappers
  import opened Values

  /**
   * array_diff_key($data, $fields): the entries of data whose key is not a field name,
   * in record order.
   */
  function DiffKeys(data: Record, fields: seq<string>): (d: Record)
    ensures forall e :: e in d <==> e in data && e.name !in fields
    ensures |d| <= |data|
    decreases |data|
  {
    if data == [] then []
    else
      var init: Record := data[..|data| - 1];
      var last := data[|data| - 1];
      var rest := DiffKeys(init, fields);
      if last.name in fields then rest
      else
        assert forall e | e in rest :: e.name != last.name by {
          forall e | e in rest ensures e.name != last.name {
            var i :| 0 <= i < |init| && init[i] == e;
            assert data[i] == e;
          }
        }
        rest + [last]
  }

  /** The keys DiffKeys keeps are exactly the record's keys that are not field names. */
  lemma DiffKeysNames(data: Record, fields: seq<string>, k: string)
    ensures k in Names(DiffKeys(data, fields)) <==> k in Names(data) && k !in fields
  {
    var d := DiffKeys(data, fields);
    if k in Names(d) {
      var i :| 0 <= i < |d| && Names(d)[i] == k;
      assert d[i] in data;
      var j :| 0 <= j < |data| && data[j] == d[i];
      assert Names(data)[j] == k;
    }
    if k in Names(data) && k !in fields {
      var j :| 0 <= j < |data| && Names(data)[j] == k;
      assert data[j] in d;
      var i :| 0 <= i < |d| && d[i] == data[j];
      assert Names(d)[i] == k;
    }
  }

  /**
   * The loop of FlexDB::match: walking the table's fields in order, keep each field
   * that is set in data, with data's value.
   */
  function Matched(fields: ColumnList, data: Record): (m: Record)
    ensures forall e :: e in m <==> e.name in fields && IsSet(data, e.name) && Get(data, e.name) == Some(e.value)
    ensures |m| <= |fields|
    decreases |fields|
  {
    if fields == [] then []
    else
      var init: ColumnList := fields[..|fields| - 1];
      var k := fields[|fields| - 1];
      var rest := Matched(init, data);
      if IsSet(data, k) then
        assert k !in init;
        Matched(init, data) + [Entry(k, Get(data, k).value)]
      else
        rest
  }

  /**
   * FlexDB::match on the fields of the table: the matched record, or nothing when no
   * field of the table is set in data.
   */
  function Project(fields: ColumnList, data: Record): (m: Option<Record>)
    ensures m.None? <==> forall k | k in fields :: !IsSet(data, k)
    ensures m.Some? ==> forall e | e in m.value :: e.name in fields && !e.value.Null? && Get(data, e.name) == Some(e.value)
    ensures m.Some? ==> forall k | k in fields && IsSet(data, k) :: Get(m.value, k) == Get(data, k)
  {
    var kept := Matched(fields, data);
    assert forall k | k in fields && IsSet(data, k) :: Entry(k, Get(data, k).value) in kept;
    if kept == [] then
      None
    else
      assert forall k | k in fields && IsSet(data, k) :: Get(kept, k) == Get(data, k) by {
        forall k | k in fields && IsSet(data, k) ensures Get(kept, k) == Get(data, k) {
          var e := Entry(k, Get(data, k).value);
          assert e in kept;
          var i :| 0 <= i < |kept| && kept[i] == e;
          GetEntry(kept, i);
        }
      }
      assert kept[0] in kept;
      assert kept[0].name in fields && IsSet(data, kept[0].name);
      Some(kept)
  }

  /** The entry FlexDB::json writes back: arrays become their JSON text. */
  function EncodeEntry(e: Entry, encode: Value -> string): (r: Entry)
    ensures r.name == e.name
    ensures !IsArray(r.value)
    ensures IsArray(e.value) ==> r.value == Str(encode(e.value))
    ensures !IsArray(e.value) ==> r == e
  {
    if IsArray(e.value) then Entry(e.name, Str(encode(e.value))) else e
  }

  /**
   * FlexDB::json($data): every array-valued entry replaced by its JSON encoding, every
   * other entry and the order of the keys left as they are.
   */
  function Json(data: Record, encode: Value -> string): (r: Record)
    ensures |r| == |data|
    ensures forall i | 0 <= i < |r| :: r[i].name == data[i].name
    ensures forall i | 0 <= i < |r| :: !IsArray(r[i].value)
    ensures forall i | 0 <= i < |r| :: !IsArray(data[i].value) ==> r[i] == data[i]
    ensures forall i | 0 <= i < |r| :: IsArray(data[i].value) ==> r[i].value == Str(encode(data[i].value))
    decreases |data|
  {
    if data == [] then []
    else
      var init: Record := data[..|data| - 1];
      Json(init, encode) + [EncodeEntry(data[|data| - 1], encode)]
  }

  /** Encoding twice changes nothing more than encoding once. */
  lemma JsonIdempotent(data: Record, encode: Value -> string)
    ensures Json(Json(data, encode), encode) == Json(data, encode)
  {
    var once := Json(data, encode);
    var twice := Json(once, encode);
    assert |twice| == |once|;
    forall i | 0 <= i < |once| ensures twice[i] == once[i] {
      assert !IsArray(once[i].value);
    }
  }

  /** JSON encoding keeps the record's keys and their order. */
  lemma JsonKeepsNames(data: Record, encode: Value -> string)
    ensures Names(Json(data, encode)) == Names(data)
  {
    var r := Json(data, encode);
    assert |Names(r)| == |Names(data)|;
    forall i | 0 <= i < |r| ensures Names(r)[i] == Names(data)[i] {
    }
  }

  /** Any value is_array rejects: a scalar, null or an object. */
  type NonArray = v: Value | !IsArray(v) witness Null

  /** The where argument of the row readers: a condition array, or any other value. */
  datatype WhereArg = Conditions(conds: Record) | Scalar(v: NonArray)

  /** A non-array where argument stands for the condition id = value. */
  function WhereConditions(w: WhereArg): (r: Record)
    ensures w.Conditions? ==> r == w.conds
    ensures w.Scalar? ==> Names(r) == ["id"] && Get(r, "id") == Some(w.v)
  {
    match w
    case Conditions(c) => c
    case Scalar(v) => [Entry("id", v)]
  }

  /** A row satisfies a condition array when it holds every condition's value. */
  predicate RowMatches(row: Record, conds: Record) {
    forall i | 0 <= i < |conds| :: Get(row, conds[i].name) == Some(conds[i].value)
  }

  /** A scalar where argument selects exactly the rows whose id is that value. */
  lemma ScalarSelectsById(row: Record, v: NonArray)
    ensures RowMatches(row, WhereConditions(Scalar(v))) <==> Get(row, "id") == Some(v)
  {
    var c := WhereConditions(Scalar(v));
    assert c[0] == Entry("id", v);
  }
}
