/**
 * The loosely typed values FlexDB receives, as a closed tagged variant, and the ordered
 * records (PHP associative arrays) that carry them.
 */
module Values {
  import opened Wrappers

  type Positive = n: int | n > 0 witness 1

  /** A number read exactly, as the fraction num/den. */
  datatype Number = Number(num: int, den: Positive)

  /** The two kinds of structured PHP value. */
  datatype Container = PhpArray | PhpObject

  /**
   * A PHP value. Int and Decimal are PHP integers and floats; NumericString is a string
   * that is_numeric accepts, with the number it reads as; Str is a string is_numeric
   * rejects; Structured is an array or an object.
   */
  datatype Value =
    | Int(i: int)
    | Decimal(x: Number)
    | NumericString(text: string, reading: Number)
    | Bool(b: bool)
    | Structured(kind: Container, items: seq<Value>)
    | Str(s: string)
    | Null

  /** is_numeric($value) */
  predicate IsNumeric(v: Value) {
    v.Int? || v.Decimal? || v.NumericString?
  }

  /** The number a numeric value reads as. */
  function Reading(v: Value): Number
    requires IsNumeric(v)
  {
    match v
    case Int(i) => Number(i, 1)
    case Decimal(x) => x
    case NumericString(_, x) => x
  }

  /**
   * (float)$value != (int)$value: the value differs from its truncation toward zero
   * exactly when the denominator does not divide the numerator.
   */
  predicate HasFraction(n: Number) {
    n.num % n.den != 0
  }

  /** (int)$value: the number truncated toward zero. */
  function Truncate(n: Number): int {
    if n.num >= 0 then n.num / n.den else -((-n.num) / n.den)
  }

  /** Euclidean division is unique: a quotient and a remainder in range are the ones / and % give. */
  lemma DivModUnique(x: int, d: int, a: int, b: int)
    requires d > 0 && 0 <= b < d && x == a * d + b
    ensures x / d == a && x % d == b
  {
    var q, r := x / d, x % d;
    assert (a - q) * d == r - b;
    if a != q {
      var k := if a > q then a - q else q - a;
      ProductAtLeast(k, d);
      assert false;
    }
  }

  lemma ProductAtLeast(k: int, d: int)
    requires k >= 1 && d > 0
    ensures k * d >= d
  {
    assert k * d == (k - 1) * d + d;
  }

  /** A number has a fractional part exactly when it differs from its truncation toward zero. */
  lemma FractionIffTruncationDiffers(n: Number)
    ensures HasFraction(n) <==> Truncate(n) * n.den != n.num
  {
    var d := n.den;
    if n.num >= 0 {
      DivModUnique(n.num, d, n.num / d, n.num % d);
    } else {
      var m := -n.num;
      var q, r := m / d, m % d;
      assert m == q * d + r;
      assert Truncate(n) == -q;
      assert Truncate(n) * d == -(q * d);
      if r == 0 {
        DivModUnique(n.num, d, -q, 0);
      } else {
        DivModUnique(n.num, d, -q - 1, d - r);
      }
    }
  }

  /** is_array($value) */
  predicate IsArray(v: Value) {
    v.Structured? && v.kind == PhpArray
  }

  /** One key => value pair of a record. */
  datatype Entry = Entry(name: string, value: Value)

  predicate DistinctNames(r: seq<Entry>) {
    forall i, j | 0 <= i < j < |r| :: r[i].name != r[j].name
  }

  /** An ordered record: a PHP array from field name to value (keys are unique). */
  type Record = r: seq<Entry> | DistinctNames(r)

  predicate Distinct(s: seq<string>) {
    forall i, j | 0 <= i < j < |s| :: s[i] != s[j]
  }

  /** An ordered list of column names of one table. */
  type ColumnList = s: seq<string> | Distinct(s)

  /** The keys of a record, in order. */
  function Names(r: seq<Entry>): seq<string> {
    seq(|r|, i requires 0 <= i < |r| => r[i].name)
  }

  /** $data[$key], or None when the key is absent. */
  function Get(r: seq<Entry>, k: string): Option<Value> {
    if r == [] then None
    else if r[0].name == k then Some(r[0].value)
    else Get(r[1..], k)
  }

  /** isset($data[$key]): the key is present and its value is not null. */
  predicate IsSet(r: seq<Entry>, k: string) {
    Get(r, k).Some? && !Get(r, k).value.Null?
  }

  /** isset($data[$key]) holds exactly when the record has an entry of that key with a non-null value. */
  lemma IsSetIff(r: Record, k: string)
    ensures IsSet(r, k) <==> exists e | e in r :: e.name == k && !e.value.Null?
  {
    GetFound(r, k);
    if exists e | e in r :: e.name == k && !e.value.Null? {
      var e :| e in r && e.name == k && !e.value.Null?;
      var i :| 0 <= i < |r| && r[i] == e;
      GetEntry(r, i);
    }
  }

  /** Looking up the name of an entry of a record yields that entry's value. */
  lemma {:induction false} GetEntry(r: Record, i: nat)
    requires i < |r|
    ensures Get(r, r[i].name) == Some(r[i].value)
  {
    if i > 0 {
      assert r[0].name != r[i].name;
      var rest: Record := r[1..];
      assert rest[i - 1] == r[i];
      GetEntry(rest, i - 1);
    }
  }

  /** A lookup succeeds exactly for the record's keys, and finds an entry of the record. */
  lemma {:induction false} GetFound(r: seq<Entry>, k: string)
    ensures Get(r, k).Some? <==> k in Names(r)
    ensures Get(r, k).Some? ==> Entry(k, Get(r, k).value) in r
  {
    if r != [] {
      GetFound(r[1..], k);
      if r[0].name != k {
        if k in Names(r) {
          var i :| 0 <= i < |r| && Names(r)[i] == k;
          assert Names(r[1..])[i - 1] == k;
        }
        if k in Names(r[1..]) {
          var i :| 0 <= i < |r| - 1 && Names(r[1..])[i] == k;
          assert Names(r)[i + 1] == k;
        }
      } else {
        assert Names(r)[0] == k;
      }
    }
  }
}
