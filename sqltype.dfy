/**
 * Type inference: the MySQL column type FlexDB chooses for a sample value
 * (FlexDB::setsqltype and the length constants it uses).
 */
module SqlTypes {
  import opened Wrappers
  import opened Values

  const FloatLength: nat := 11
  const IntLength: nat := 11
  const VarcharLength: nat := 255

  /** The decimal digits of n, as PHP prints an integer into a string. */
  function DecimalString(n: nat): string
    decreases n
  {
    if n < 10 then ["0123456789"[n]]
    else DecimalString(n / 10) + ["0123456789"[n % 10]]
  }

  /** The nullability clause appended to every inferred type. */
  function NullClause(nullable: bool): string {
    if nullable then "NULL" else "NOT NULL"
  }

  /** The five column types type inference can choose. */
  datatype BaseType = FloatType | IntType | BoolType | TextType | VarcharType

  /** The type keyword, with the length constant printed into it where it has one. */
  function Keyword(b: BaseType): string {
    match b
    case FloatType => "FLOAT(11)"
    case IntType => "INT(11)"
    case BoolType => "BOOL"
    case TextType => "TEXT"
    case VarcharType => "VARCHAR(255)"
  }

  /** The keywords print the length constants in decimal. */
  lemma KeywordLengths()
    ensures Keyword(FloatType) == "FLOAT(" + DecimalString(FloatLength) + ")"
    ensures Keyword(IntType) == "INT(" + DecimalString(IntLength) + ")"
    ensures Keyword(VarcharType) == "VARCHAR(" + DecimalString(VarcharLength) + ")"
  {
    assert DecimalString(FloatLength) == "11";
    assert DecimalString(VarcharLength) == "255";
  }

  /** A column type expression: keyword, a space, then the nullability clause. */
  function TypeString(b: BaseType, nullable: bool): string {
    Keyword(b) + " " + NullClause(nullable)
  }

  /** A type expression determines both its base type and its nullability. */
  lemma TypeStringInjective(b1: BaseType, n1: bool, b2: BaseType, n2: bool)
    requires TypeString(b1, n1) == TypeString(b2, n2)
    ensures b1 == b2 && n1 == n2
  {
    assert TypeString(b1, n1)[0] == Keyword(b1)[0];
    assert TypeString(b2, n2)[0] == Keyword(b2)[0];
    assert |TypeString(b1, n1)| == |Keyword(b1)| + 1 + |NullClause(n1)|;
  }

  /**
   * The base type setsqltype settles on, by its order of checks: numeric values first
   * (FLOAT when the value has a fractional part, INT otherwise), then booleans, then
   * arrays and objects, then strings by length; any other value (null) has none.
   */
  function InferredBase(v: Value): (r: Option<BaseType>)
    ensures r.None? <==> v.Null?
  {
    if IsNumeric(v) then
      if HasFraction(Reading(v)) then Some(FloatType) else Some(IntType)
    else if v.Bool? then Some(BoolType)
    else if v.Structured? then Some(TextType)
    else if v.Str? then
      if |v.s| <= VarcharLength then Some(VarcharType) else Some(TextType)
    else None
  }

  /**
   * setsqltype($value, $null): the inferred base type's keyword followed by the
   * nullability clause. Each type string arises from exactly one class of values.
   */
  function SetSqlType(v: Value, nullable: bool := true): (r: Option<string>)
    ensures r.None? <==> v.Null?
    ensures r.Some? ==> exists b :: r.value == TypeString(b, nullable)
    ensures r == Some(TypeString(FloatType, nullable)) <==> IsNumeric(v) && HasFraction(Reading(v))
    ensures r == Some(TypeString(IntType, nullable)) <==> IsNumeric(v) && !HasFraction(Reading(v))
    ensures r == Some(TypeString(BoolType, nullable)) <==> v.Bool?
    ensures r == Some(TypeString(TextType, nullable)) <==> v.Structured? || (v.Str? && |v.s| > VarcharLength)
    ensures r == Some(TypeString(VarcharType, nullable)) <==> v.Str? && |v.s| <= VarcharLength
  {
    match InferredBase(v)
    case None => None
    case Some(b) => Picks(b, nullable)
  }

  /** The type string of base type b, which is the string of b and of no other base type. */
  function Picks(b: BaseType, nullable: bool): (r: Option<string>)
    ensures r == Some(TypeString(b, nullable))
    ensures forall b' :: r == Some(TypeString(b', nullable)) <==> b' == b
  {
    assert forall b' :: TypeString(b', nullable) == TypeString(b, nullable) ==> b' == b by {
      forall b' | TypeString(b', nullable) == TypeString(b, nullable) { TypeStringInjective(b', nullable, b, nullable); }
    }
    Some(TypeString(b, nullable))
  }

  /**
   * The type text create() and alter() interpolate: the inferred type with the default
   * NULL clause, or the empty string when setsqltype returns nothing.
   */
  function ColumnTypeText(v: Value): (t: string)
    ensures t == "" <==> v.Null?
  {
    match InferredBase(v)
    case None => ""
    case Some(b) => TypeString(b, true)
  }

  /** The interpolated text is what setsqltype returns, or empty when it returns nothing. */
  lemma ColumnTypeTextIsSetSqlType(v: Value)
    ensures ColumnTypeText(v) == SetSqlType(v).GetOr("")
  {
  }
}
