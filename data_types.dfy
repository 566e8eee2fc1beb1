/** The value kinds of the filter engine and the operator kinds it reports.
    The source's DataType and ExpressionType enumerations are not part of this
    model; only the constants the greater-than operator names are listed, plus
    the null kind.  Any further kind of the source behaves, for this operator,
    like BooleanType: it falls to the default branch of the comparison switch. */
module DataTypes {

  /** A value kind.  Each kind has a precedence rank; the rank table is not part
      of this model and is passed to the operator as a function. */
  datatype DataType =
    | StringType
    | DoubleType
    | IntegerType
    | TimestampType
    | LongType
    | DecimalType
    | BooleanType
    | NullType

  /** The kinds for which the comparison switch has a case. */
  predicate IsOrdered(t: DataType) {
    t.StringType? || t.DoubleType? || t.IntegerType? || t.TimestampType? || t.LongType? || t.DecimalType?
  }

  /** The stable operator classification exposed for filter pushdown. */
  datatype ExpressionType =
    | Equals
    | NotEquals
    | GreaterThan
    | GreaterThanEqualTo
    | LessThan
    | LessThanEqualTo
    | And
    | Or
    | Not
    | Literal
    | Unknown

  /** Java `int` and `long`: two's-complement 32- and 64-bit signed integers. */
  newtype Int32 = x: int | -0x8000_0000 <= x < 0x8000_0000
  newtype Int64 = x: int | -0x8000_0000_0000_0000 <= x < 0x8000_0000_0000_0000
}
