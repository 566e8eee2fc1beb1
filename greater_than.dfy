/** The evaluation rule of the binary "greater than" filter predicate, once
    both children have produced their result cells: null collapse, choice of
    the comparison frame and of the output cell, the strict `>` test in that
    frame, and the in-place write of the Boolean outcome. */
module GreaterThanExpression {
  import opened DataTypes
  import opened ExpressionResults
  import JavaStrings
  import JavaDoubles

  /** Which operand's result cell is meant. */
  datatype Side = LeftOperand | RightOperand

  /** The cell whose tag becomes the comparison frame and that receives the
      outcome: the right one only when the tags differ and the right tag has
      strictly higher precedence.  The tag test is implied by the rank test:
      the right cell is chosen exactly when its tag ranks strictly higher. */
  function Container(left: DataType, right: DataType, precedence: DataType -> int): (s: Side)
    ensures s == RightOperand <==> precedence(left) < precedence(right)
  {
    if left != right && precedence(left) < precedence(right) then RightOperand else LeftOperand
  }

  /** The comparison frame: the tag of the container.  It is one of the two
      tags, ranks at least as high as both, and is the left tag on a rank tie
      (in particular when the tags are equal). */
  function Frame(left: DataType, right: DataType, precedence: DataType -> int): (f: DataType)
    ensures f == left || f == right
    ensures precedence(f) >= precedence(left) && precedence(f) >= precedence(right)
    ensures precedence(left) == precedence(right) ==> f == left
  {
    if Container(left, right, precedence) == RightOperand then right else left
  }

  /** The strict `>` test in a frame, both operands read through the frame's
      accessor; any frame without a case yields false. */
  predicate FrameGreater(frame: DataType, acc: Accessors, left: Snapshot, right: Snapshot)
    ensures FrameGreater(frame, acc, left, right) ==> IsOrdered(frame)
  {
    match frame
    case StringType => JavaStrings.CompareTo(acc.getString(left), acc.getString(right)) > 0
    case DoubleType => JavaDoubles.Greater(acc.getDouble(left), acc.getDouble(right))
    case IntegerType => acc.getInt(left) > acc.getInt(right)
    case TimestampType => acc.getTime(left) > acc.getTime(right)
    case LongType => acc.getLong(left) > acc.getLong(right)
    case DecimalType => acc.getDecimal(left) > acc.getDecimal(right)
    case _ => false
  }

  /** What one evaluation decides: the cell that is overwritten and returned,
      and the Boolean written into it. */
  datatype Verdict = Verdict(container: Side, outcome: bool)

  /** The decision, as a function of the two operand cells' states before the
      write.  A true outcome needs two non-null operands and a frame with a
      case in the switch; the right cell is overwritten only when both
      operands are non-null and its tag ranks strictly higher. */
  function Decide(left: Snapshot, right: Snapshot, precedence: DataType -> int, acc: Accessors): (v: Verdict)
    ensures v.outcome ==> !left.IsNull() && !right.IsNull() && IsOrdered(Frame(left.dataType, right.dataType, precedence))
    ensures v.container == RightOperand ==>
              !left.IsNull() && !right.IsNull() && precedence(left.dataType) < precedence(right.dataType)
  {
    if left.IsNull() || right.IsNull() then Verdict(LeftOperand, false)
    else
      var frame := Frame(left.dataType, right.dataType, precedence);
      Verdict(Container(left.dataType, right.dataType, precedence), FrameGreater(frame, acc, left, right))
  }

  /** The operand-level part of `evaluate`: given the left and the right
      child's result cells, write the outcome into one of them and return it. */
  method Apply(leftRes: ExpressionResult, rightRes: ExpressionResult, precedence: DataType -> int, acc: Accessors)
    returns (res: ExpressionResult)
    modifies leftRes, rightRes
    ensures var v := Decide(old(leftRes.State()), old(rightRes.State()), precedence, acc);
            && res == (if v.container == LeftOperand then leftRes else rightRes)
            && res.State() == Snapshot(BooleanType, BooleanValue(v.outcome))
    ensures leftRes != rightRes && res == leftRes ==> rightRes.State() == old(rightRes.State())
    ensures leftRes != rightRes && res == rightRes ==> leftRes.State() == old(leftRes.State())
  {
    var val1 := leftRes;
    if leftRes.IsNull() || rightRes.IsNull() {
      leftRes.Set(BooleanType, BooleanValue(false));
      return leftRes;
    }
    if leftRes.dataType != rightRes.dataType {
      if precedence(leftRes.dataType) < precedence(rightRes.dataType) {
        val1 := rightRes;
      }
    }
    var l, r := leftRes.State(), rightRes.State();
    var result := false;
    match val1.dataType {
      case StringType =>
        result := JavaStrings.CompareTo(acc.getString(l), acc.getString(r)) > 0;
      case DoubleType =>
        result := JavaDoubles.Greater(acc.getDouble(l), acc.getDouble(r));
      case IntegerType =>
        result := acc.getInt(l) > acc.getInt(r);
      case TimestampType =>
        result := acc.getTime(l) > acc.getTime(r);
      case LongType =>
        result := acc.getLong(l) > acc.getLong(r);
      case DecimalType =>
        result := acc.getDecimal(l) > acc.getDecimal(r);
      case _ =>
    }
    val1.Set(BooleanType, BooleanValue(result));
    res := val1;
  }

  // ---------------------------------------------------------------------------
  // Null collapse

  /** A null operand gives false in the left cell, whatever the other operand. */
  lemma NullCollapse(left: Snapshot, right: Snapshot, precedence: DataType -> int, acc: Accessors)
    requires left.IsNull() || right.IsNull()
    ensures Decide(left, right, precedence, acc) == Verdict(LeftOperand, false)
  {
  }

  // ---------------------------------------------------------------------------
  // Frame and container selection

  /** Unless two different tags share a rank, the frame does not depend on
      the order of the operands. */
  lemma FrameSymmetric(left: DataType, right: DataType, precedence: DataType -> int)
    requires left == right || precedence(left) != precedence(right)
    ensures Frame(left, right, precedence) == Frame(right, left, precedence)
  {
  }

  /** When two different tags share a rank, each operand order reads both
      operands through its own left tag. */
  lemma FrameTieDependsOnOrder(left: DataType, right: DataType, precedence: DataType -> int)
    requires left != right && precedence(left) == precedence(right)
    ensures Frame(left, right, precedence) == left && Frame(right, left, precedence) == right
  {
  }

  // ---------------------------------------------------------------------------
  // The comparison is a strict order in every frame

  /** The two operands read the same in the frame (for decimals: the same
      number).  Frames without a case have nothing to read. */
  predicate SameInFrame(frame: DataType, acc: Accessors, left: Snapshot, right: Snapshot) {
    match frame
    case StringType => acc.getString(left) == acc.getString(right)
    case DoubleType => acc.getDouble(left) == acc.getDouble(right)
    case IntegerType => acc.getInt(left) == acc.getInt(right)
    case TimestampType => acc.getTime(left) == acc.getTime(right)
    case LongType => acc.getLong(left) == acc.getLong(right)
    case DecimalType => acc.getDecimal(left) == acc.getDecimal(right)
    case _ => true
  }

  /** Irreflexive: operands that read the same are never greater. */
  lemma FrameIrreflexive(frame: DataType, acc: Accessors, left: Snapshot, right: Snapshot)
    requires SameInFrame(frame, acc, left, right)
    ensures !FrameGreater(frame, acc, left, right)
  {
    if frame.StringType? {
      JavaStrings.CompareToZero(acc.getString(left), acc.getString(right));
    }
  }

  /** Asymmetric: at most one operand order yields true. */
  lemma FrameAsymmetric(frame: DataType, acc: Accessors, left: Snapshot, right: Snapshot)
    ensures !(FrameGreater(frame, acc, left, right) && FrameGreater(frame, acc, right, left))
  {
    if frame.StringType? {
      JavaStrings.CompareToAntisymmetric(acc.getString(left), acc.getString(right));
    }
  }

  /** Transitive in every frame. */
  lemma FrameTransitive(frame: DataType, acc: Accessors, a: Snapshot, b: Snapshot, c: Snapshot)
    requires FrameGreater(frame, acc, a, b) && FrameGreater(frame, acc, b, c)
    ensures FrameGreater(frame, acc, a, c)
  {
    if frame.StringType? {
      JavaStrings.CompareToTransitive(acc.getString(a), acc.getString(b), acc.getString(c));
    }
  }

  /** Operands that read the same in their frame give false; in particular
      `x > x` is false for every cell state. */
  lemma DecideIrreflexive(left: Snapshot, right: Snapshot, precedence: DataType -> int, acc: Accessors)
    requires SameInFrame(Frame(left.dataType, right.dataType, precedence), acc, left, right)
    ensures !Decide(left, right, precedence, acc).outcome
    ensures !Decide(left, left, precedence, acc).outcome
  {
    FrameIrreflexive(Frame(left.dataType, right.dataType, precedence), acc, left, right);
    FrameIrreflexive(left.dataType, acc, left, left);
  }

  /** `a > b` and `b > a` are never both true, unless two different tags
      share a rank. */
  lemma DecideAsymmetric(left: Snapshot, right: Snapshot, precedence: DataType -> int, acc: Accessors)
    requires left.dataType == right.dataType || precedence(left.dataType) != precedence(right.dataType)
    ensures !(Decide(left, right, precedence, acc).outcome && Decide(right, left, precedence, acc).outcome)
  {
    FrameSymmetric(left.dataType, right.dataType, precedence);
    FrameAsymmetric(Frame(left.dataType, right.dataType, precedence), acc, left, right);
  }

  /** With one tag shared by all three operands, `>` is transitive. */
  lemma DecideTransitive(a: Snapshot, b: Snapshot, c: Snapshot, precedence: DataType -> int, acc: Accessors)
    requires a.dataType == b.dataType == c.dataType
    requires Decide(a, b, precedence, acc).outcome && Decide(b, c, precedence, acc).outcome
    ensures Decide(a, c, precedence, acc).outcome
  {
    FrameTransitive(a.dataType, acc, a, b, c);
  }

  /** Two cells of different tags with the same rank can each be greater than
      the other, because each order reads through its own left tag. */
  lemma TieBreakBreaksAsymmetry()
    ensures exists left: Snapshot, right: Snapshot, precedence: DataType -> int, acc: Accessors ::
              Decide(left, right, precedence, acc).outcome && Decide(right, left, precedence, acc).outcome
  {
    var left := Snapshot(StringType, StringValue([2]));
    var right := Snapshot(IntegerType, IntegerValue(5));
    var precedence := (t: DataType) => 0;
    var acc := Accessors(
      (s: Snapshot) => if s.value.StringValue? then s.value.s else [],
      (s: Snapshot) => if s.value.IntegerValue? then s.value.i else 0,
      (s: Snapshot) => 0, (s: Snapshot) => 0, (s: Snapshot) => 0, (s: Snapshot) => 0.0);
    assert JavaStrings.CompareTo([2], []) > 0;
    assert Decide(left, right, precedence, acc).outcome;
    assert Decide(right, left, precedence, acc).outcome;
  }

  // ---------------------------------------------------------------------------
  // What the test means in each frame

  /** String frame: true exactly when the left string is lexicographically
      after the right one, compared by UTF-16 code units. */
  lemma StringFrameIsLexicographic(left: Snapshot, right: Snapshot, precedence: DataType -> int, acc: Accessors)
    requires !left.IsNull() && !right.IsNull()
    requires Frame(left.dataType, right.dataType, precedence) == StringType
    ensures Decide(left, right, precedence, acc).outcome <==> JavaStrings.LexGreater(acc.getString(left), acc.getString(right))
  {
    JavaStrings.CompareToPositive(acc.getString(left), acc.getString(right));
  }

  /** Double frame: on finite values, true exactly when the left IEEE value is
      the larger real number; false whenever either operand is NaN. */
  lemma DoubleFrameIsIeee(left: Snapshot, right: Snapshot, precedence: DataType -> int, acc: Accessors)
    requires !left.IsNull() && !right.IsNull()
    requires Frame(left.dataType, right.dataType, precedence) == DoubleType
    ensures var x, y := acc.getDouble(left), acc.getDouble(right);
            && (JavaDoubles.IsFinite(x) && JavaDoubles.IsFinite(y) ==>
                  (Decide(left, right, precedence, acc).outcome <==> JavaDoubles.ScaledValue(x) > JavaDoubles.ScaledValue(y)))
            && (JavaDoubles.IsNaN(x) || JavaDoubles.IsNaN(y) ==> !Decide(left, right, precedence, acc).outcome)
  {
    var x, y := acc.getDouble(left), acc.getDouble(right);
    if JavaDoubles.IsFinite(x) && JavaDoubles.IsFinite(y) {
      JavaDoubles.GreaterMatchesValue(x, y);
    }
  }

  /** Integer, Long and Timestamp frames compare signed integers (Timestamp by
      its millisecond instant); the Decimal frame compares exact numbers. */
  lemma NumericFrames(left: Snapshot, right: Snapshot, precedence: DataType -> int, acc: Accessors)
    requires !left.IsNull() && !right.IsNull()
    ensures var f, v := Frame(left.dataType, right.dataType, precedence), Decide(left, right, precedence, acc).outcome;
            && (f == IntegerType ==> (v <==> acc.getInt(left) as int > acc.getInt(right) as int))
            && (f == LongType ==> (v <==> acc.getLong(left) as int > acc.getLong(right) as int))
            && (f == TimestampType ==> (v <==> acc.getTime(left) as int > acc.getTime(right) as int))
            && (f == DecimalType ==> (v <==> acc.getDecimal(left) > acc.getDecimal(right)))
  {
  }

  /** A frame without a case (Boolean, Null, ...) gives false, never a failure. */
  lemma UnorderedFrameIsFalse(left: Snapshot, right: Snapshot, precedence: DataType -> int, acc: Accessors)
    requires !IsOrdered(Frame(left.dataType, right.dataType, precedence))
    ensures !Decide(left, right, precedence, acc).outcome
  {
  }

  /** An instance of the Decimal case of `NumericFrames`: 0.30 is not greater
      than 0.1 + 0.2, and the left cell receives the outcome. */
  lemma DecimalIsExact(left: Snapshot, right: Snapshot, precedence: DataType -> int, acc: Accessors)
    requires left.dataType == DecimalType && right.dataType == DecimalType
    requires !left.IsNull() && !right.IsNull()
    requires acc.getDecimal(left) == 0.30 && acc.getDecimal(right) == 0.1 + 0.2
    ensures Decide(left, right, precedence, acc) == Verdict(LeftOperand, false)
  {
    NumericFrames(left, right, precedence, acc);
  }
}
