/** A filter tree built from greater-than nodes over leaf expressions.  The
    leaves (column references, literals) are not part of this model: each
    leaf is an opaque value of type L, and what it evaluates to against the
    current row is given as a function.  The model assumes that a leaf's
    evaluation allocates a fresh result cell. */
module Expressions {
  import opened DataTypes
  import opened ExpressionResults
  import opened GreaterThanExpression

  datatype Expr<L> = Leaf(leaf: L) | Greater(left: Expr<L>, right: Expr<L>)

  /** The leaves of a tree, left subtree first. */
  function Leaves<L>(e: Expr<L>): seq<L> {
    match e
    case Leaf(x) => [x]
    case Greater(l, r) => Leaves(l) + Leaves(r)
  }

  /** The state of the cell that evaluating `e` returns, for leaves that
      evaluate to `leafResult` on the current row.  A greater-than node always
      yields a non-null Boolean. */
  function Denotation<L>(e: Expr<L>, leafResult: L -> Snapshot, precedence: DataType -> int, acc: Accessors): (s: Snapshot)
    ensures e.Greater? ==> s.dataType == BooleanType && !s.IsNull()
  {
    match e
    case Leaf(x) => leafResult(x)
    case Greater(l, r) =>
      var v := Decide(Denotation(l, leafResult, precedence, acc), Denotation(r, leafResult, precedence, acc), precedence, acc);
      Snapshot(BooleanType, BooleanValue(v.outcome))
  }

  /** The row a tree is evaluated against, as its leaves see it: what each leaf
      evaluates to, and the leaves evaluated so far, in order. */
  class Row<L> {
    const leafResult: L -> Snapshot
    var trace: seq<L>

    constructor (leafResult: L -> Snapshot)
      ensures this.leafResult == leafResult && trace == []
    {
      this.leafResult := leafResult;
      trace := [];
    }

    /** `leaf.evaluate(row)`: a freshly allocated cell holding the leaf's value
        on this row.  The evaluation is recorded in the trace. */
    method EvaluateLeaf(x: L) returns (res: ExpressionResult)
      modifies this
      ensures trace == old(trace) + [x]
      ensures fresh(res) && res.State() == leafResult(x)
    {
      res := new ExpressionResult(leafResult(x).dataType, leafResult(x).value);
      trace := trace + [x];
    }
  }

  /** `evaluate(row)`: evaluate the left child, then the right child (both,
      whatever their results), then apply the greater-than rule to the two
      cells.  The row's trace grows by the tree's leaves, left subtree first. */
  method Evaluate<L>(e: Expr<L>, row: Row<L>, precedence: DataType -> int, acc: Accessors)
    returns (res: ExpressionResult)
    modifies row
    ensures row.trace == old(row.trace) + Leaves(e)
    ensures fresh(res)
    ensures res.State() == Denotation(e, row.leafResult, precedence, acc)
    decreases e
  {
    match e
    case Leaf(x) =>
      res := row.EvaluateLeaf(x);
    case Greater(l, r) =>
      var exprLeftRes := Evaluate(l, row, precedence, acc);
      var exprRightRes := Evaluate(r, row, precedence, acc);
      res := Apply(exprLeftRes, exprRightRes, precedence, acc);
  }

  /** Provided every leaf evaluation allocates a fresh cell, evaluating the
      same tree twice against the same row gives the same result, and each
      evaluation reads every leaf once, in order. */
  method EvaluateIsRepeatable<L>(e: Expr<L>, leafResult: L -> Snapshot, precedence: DataType -> int, acc: Accessors)
    returns (first: Snapshot, second: Snapshot, trace: seq<L>)
    ensures first == second
    ensures trace == Leaves(e) + Leaves(e)
  {
    var row := new Row(leafResult);
    var r1 := Evaluate(e, row, precedence, acc);
    first := r1.State();
    var r2 := Evaluate(e, row, precedence, acc);
    second := r2.State();
    trace := row.trace;
  }

  /** The result of a tree depends only on what its own leaves evaluate to. */
  lemma {:induction false} DenotationDependsOnLeaves<L>(e: Expr<L>, f: L -> Snapshot, g: L -> Snapshot,
                                                        precedence: DataType -> int, acc: Accessors)
    requires forall i :: 0 <= i < |Leaves(e)| ==> f(Leaves(e)[i]) == g(Leaves(e)[i])
    ensures Denotation(e, f, precedence, acc) == Denotation(e, g, precedence, acc)
    decreases e
  {
    match e
    case Leaf(x) =>
      assert Leaves(e)[0] == x;
    case Greater(l, r) =>
      forall i | 0 <= i < |Leaves(l)| ensures f(Leaves(l)[i]) == g(Leaves(l)[i]) {
        assert Leaves(e)[i] == Leaves(l)[i];
      }
      forall i | 0 <= i < |Leaves(r)| ensures f(Leaves(r)[i]) == g(Leaves(r)[i]) {
        assert Leaves(e)[|Leaves(l)| + i] == Leaves(r)[i];
      }
      DenotationDependsOnLeaves(l, f, g, precedence, acc);
      DenotationDependsOnLeaves(r, f, g, precedence, acc);
  }

  /** A leaf that hands out one persistent cell on every call, instead of a
      fresh one, is overwritten whenever it is the container: after `lit >
      column` with both operands non-null and the literal's cell keeping the
      frame, that cell is a Boolean, and the next evaluation is handed the
      Boolean instead of the literal's value. */
  method PersistentLeftCell(lit: ExpressionResult, column: ExpressionResult, precedence: DataType -> int, acc: Accessors)
    returns (res: ExpressionResult)
    requires !lit.IsNull() && !column.IsNull()
    requires Container(lit.dataType, column.dataType, precedence) == LeftOperand
    modifies lit, column
    ensures res == lit && lit.dataType == BooleanType
  {
    res := Apply(lit, column, precedence, acc);
  }

  /** Comparing two comparisons is always false: the frame is Boolean, which
      has no case in the comparison switch. */
  lemma NestedComparisonIsFalse<L>(a: Expr<L>, b: Expr<L>, c: Expr<L>, d: Expr<L>,
                                   leafResult: L -> Snapshot, precedence: DataType -> int, acc: Accessors)
    ensures Denotation(Greater(Greater(a, b), Greater(c, d)), leafResult, precedence, acc)
            == Snapshot(BooleanType, BooleanValue(false))
  {
    var left := Denotation(Greater(a, b), leafResult, precedence, acc);
    var right := Denotation(Greater(c, d), leafResult, precedence, acc);
    UnorderedFrameIsFalse(left, right, precedence, acc);
  }

  /** `getFilterExpressionType`: a greater-than node reports GreaterThan;
      leaves report whatever their own kind is. */
  function FilterExpressionType<L>(e: Expr<L>, leafKind: L -> ExpressionType): (k: ExpressionType)
    ensures e.Greater? ==> k == ExpressionType.GreaterThan
  {
    match e
    case Leaf(x) => leafKind(x)
    case Greater(_, _) => ExpressionType.GreaterThan
  }

  /** When no leaf kind is GreaterThan, the kind identifies greater-than
      nodes exactly. */
  lemma FilterExpressionTypeIdentifies<L>(e: Expr<L>, leafKind: L -> ExpressionType)
    requires forall x :: leafKind(x) != ExpressionType.GreaterThan
    ensures FilterExpressionType(e, leafKind) == ExpressionType.GreaterThan <==> e.Greater?
  {
  }

  /** `getString`: a greater-than node renders as
      `GreaterThan(<left>,<right>)`; leaves render as `leafText` says.  A node's
      rendering opens with `GreaterThan(` and closes with `)`, and each of the
      tree's nodes adds fourteen fixed characters. */
  function GetString<L>(e: Expr<L>, leafText: L -> string): (r: string)
    ensures e.Greater? ==> |r| >= 14 && r[..12] == "GreaterThan(" && r[|r| - 1] == ')'
    ensures |r| >= 14 * (|Leaves(e)| - 1)
  {
    match e
    case Leaf(x) => leafText(x)
    case Greater(l, r) => "GreaterThan(" + GetString(l, leafText) + "," + GetString(r, leafText) + ")"
  }

  // ---------------------------------------------------------------------------
  // An end-to-end scenario: column 0 compared with the integer literal 100

  datatype ScenarioLeaf = ColumnZero | Literal100

  function ScenarioRow(column0: Payload): ScenarioLeaf -> Snapshot {
    (x: ScenarioLeaf) =>
      match x
      case ColumnZero => Snapshot(IntegerType, column0)
      case Literal100 => Snapshot(IntegerType, IntegerValue(100))
  }

  /** Rows 150, 50 and null give true, false and false, provided `getInt`
      returns the stored integer of an Integer cell. */
  lemma ScenarioColumnAgainstLiteral(precedence: DataType -> int, acc: Accessors)
    requires acc.getInt(Snapshot(IntegerType, IntegerValue(150))) == 150
    requires acc.getInt(Snapshot(IntegerType, IntegerValue(50))) == 50
    requires acc.getInt(Snapshot(IntegerType, IntegerValue(100))) == 100
    ensures var tree := Greater(Leaf(ColumnZero), Leaf(Literal100));
            && Denotation(tree, ScenarioRow(IntegerValue(150)), precedence, acc).value == BooleanValue(true)
            && Denotation(tree, ScenarioRow(IntegerValue(50)), precedence, acc).value == BooleanValue(false)
            && Denotation(tree, ScenarioRow(NullValue), precedence, acc).value == BooleanValue(false)
  {
  }
}
