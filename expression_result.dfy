/** The mutable result cell that expression nodes return, and the typed
    accessors through which operators read it. */
module ExpressionResults {
  import opened DataTypes
  import opened JavaStrings
  import opened JavaDoubles

  /** The Java object a result cell holds; `NullValue` is Java `null`. */
  datatype Payload =
    | NullValue
    | BooleanValue(b: bool)
    | IntegerValue(i: Int32)
    | LongValue(l: Int64)
    | DoubleValue(d: Bits64)
    | DecimalValue(dec: real)
    | StringValue(s: JString)
    | TimestampValue(millis: Int64)

  /** The state of a result cell at one moment: its tag and its payload. */
  datatype Snapshot = Snapshot(dataType: DataType, value: Payload) {
    /** A cell is null when its payload is Java `null`, whatever its tag. */
    predicate IsNull() { value.NullValue? }
  }

  /** The frame-typed accessors (`getString`, `getInt`, `getLong`, `getTime`,
      `getDouble`, `getDecimal`).  Each may be applied to a cell whose tag
      differs from the accessor's type; the conversion it then performs is not
      part of this model, so every accessor is an arbitrary function of the
      cell's state.  Decimals are exact rationals: `BigDecimal.compareTo`
      ignores the scale, so only the numeric value matters. */
  datatype Accessors = Accessors(
    getString: Snapshot -> JString,
    getInt: Snapshot -> Int32,
    getLong: Snapshot -> Int64,
    getTime: Snapshot -> Int64,
    getDouble: Snapshot -> Bits64,
    getDecimal: Snapshot -> real)

  /** A result cell: one tag and one payload, overwritten in place by `Set`. */
  class ExpressionResult {
    var dataType: DataType
    var value: Payload

    constructor (dataType: DataType, value: Payload)
      ensures this.dataType == dataType && this.value == value
    {
      this.dataType := dataType;
      this.value := value;
    }

    function State(): Snapshot
      reads this
    {
      Snapshot(dataType, value)
    }

    predicate IsNull()
      reads this
    {
      value.NullValue?
    }

    /** Retag and overwrite the cell. */
    method Set(dataType: DataType, value: Payload)
      modifies this
      ensures this.dataType == dataType && this.value == value
    {
      this.dataType := dataType;
      this.value := value;
    }
  }
}
