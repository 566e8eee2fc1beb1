# GreaterThanExpression: a verified model

This project models the evaluation rule of the binary "greater than" filter
predicate of the Molap query engine (`GreaterThanExpression`). For one row, the
node evaluates its left child and then its right child. A null operand makes the
result Boolean `false`. Otherwise the node picks a comparison frame: the
operand tag of strictly higher precedence, else the left tag. It runs a strict
`>` test in that frame and writes the Boolean outcome in place into one of the
two operand result cells, which it returns.

Modules, one file each:

- `DataTypes` (`data_types.dfy`): the value kinds, the operator kinds, and
  Java `int`/`long` as `Int32`/`Int64`.
- `JavaStrings` (`java_strings.dfy`): strings as UTF-16 code units, and
  `String.compareTo` with its lexicographic meaning.
- `JavaDoubles` (`java_doubles.dfy`): doubles as 64-bit IEEE 754 patterns.
  Java's `>` on doubles is defined on the pattern. On finite values it is
  proved to agree with the order of the real IEEE values; infinities and NaN
  have lemmas of their own.
- `ExpressionResults` (`expression_result.dfy`): the mutable result cell
  (`ExpressionResult` class with `Set`), its state as a value (`Snapshot`),
  and the frame-typed accessors.
- `GreaterThanExpression` (`greater_than.dfy`): frame and container choice,
  the per-frame test, the pure decision `Decide`, and the in-place `Apply`.
  Also the lemmas on null collapse, frame choice and strict ordering.
- `Expressions` (`expressions.dfy`): a filter tree of greater-than nodes over
  opaque leaves, and the row they are evaluated against (`Row`, whose trace
  records the leaves evaluated, in order). It holds `evaluate` as a recursive
  method that allocates and mutates cells, plus `getFilterExpressionType` and
  `getString`.
- `Descriptions` (`descriptions.dfy`): what the rendering from `getString`
  determines. It parses back when leaf texts hold no `(`, `,` or `)`, and is
  ambiguous otherwise.

Parameters of the model, standing for code that is not part of it:

- `precedence: DataType -> int` is the precedence table. The operator uses
  only its strict `<`.
- `Accessors` holds `getString`, `getInt`, `getLong`, `getTime`,
  `getDouble` and `getDecimal`. Each is an arbitrary function of a cell's
  tag and payload, because the source reads an operand through the frame's
  accessor even when the operand's own tag differs.
- `Row.leafResult`, `leafKind` and `leafText` give what leaf expressions
  (column references, literals) evaluate to on the current row, report as
  their kind, and render as.

The source's `isNull()` is taken to mean "the payload is Java `null`".
Writing `Boolean(false)` therefore makes a null cell non-null.

## Model

| member | source | states |
|---|---|---|
| `GreaterThanExpression.Apply` | Molap/Molap-Engine/src/com/huawei/unibi/molap/engine/expression/conditional/GreaterThanExpression.java:43-81 | Returns the left cell when either operand is null or when the left cell keeps the frame, else the right cell. The returned cell is now tagged BooleanType and holds the outcome that `Decide` computes from both cells' states before the write. When the two cells are distinct objects, the other keeps its tag and payload. |
| `Expressions.Evaluate` | Molap/Molap-Engine/src/com/huawei/unibi/molap/engine/expression/conditional/GreaterThanExpression.java:39-82 | Evaluates the left subtree, then the right subtree, always both, even when the left result is null: the row's trace grows by exactly the tree's leaves in left-to-right order. Returns a freshly allocated cell whose state is the denotation of the tree. |
| `Expressions.EvaluateIsRepeatable` | Molap/Molap-Engine/src/com/huawei/unibi/molap/engine/expression/conditional/GreaterThanExpression.java:39-82 | Provided every leaf evaluation allocates a fresh cell, two evaluations of the same tree against the same row give the same cell state, and each reads every leaf once, in order. |
| `Expressions.Denotation` | Molap/Molap-Engine/src/com/huawei/unibi/molap/engine/expression/conditional/GreaterThanExpression.java:39-82 | The value a tree evaluates to on a row; a greater-than node always yields a non-null BooleanType cell. |
| `Expressions.DenotationDependsOnLeaves` | Molap/Molap-Engine/src/com/huawei/unibi/molap/engine/expression/conditional/GreaterThanExpression.java:39-82 | A tree's result depends only on what its own leaves evaluate to on the row. |
| `Expressions.PersistentLeftCell` | Molap/Molap-Engine/src/com/huawei/unibi/molap/engine/expression/conditional/GreaterThanExpression.java:43-81 | If a leaf hands out one persistent cell instead of a fresh one, and that cell keeps the frame against a non-null operand, the evaluation overwrites it with a Boolean: the next evaluation is handed the Boolean, not the leaf's value. |
| `GreaterThanExpression.NullCollapse` | Molap/Molap-Engine/src/com/huawei/unibi/molap/engine/expression/conditional/GreaterThanExpression.java:44-47 | If either operand is null, the outcome is false and the left cell is the container, whatever the other operand holds. |
| `GreaterThanExpression.Decide` | Molap/Molap-Engine/src/com/huawei/unibi/molap/engine/expression/conditional/GreaterThanExpression.java:44-79 | A true outcome needs two non-null operands and a frame with a case in the switch. The right cell receives the outcome only when both operands are non-null and its tag ranks strictly higher. |
| `GreaterThanExpression.Container` | Molap/Molap-Engine/src/com/huawei/unibi/molap/engine/expression/conditional/GreaterThanExpression.java:43-55 | The right cell is the container exactly when its tag ranks strictly higher; the tag-inequality test of line 48 adds nothing to the rank test. |
| `GreaterThanExpression.Frame` | Molap/Molap-Engine/src/com/huawei/unibi/molap/engine/expression/conditional/GreaterThanExpression.java:48-57 | The frame is one of the two tags and ranks at least as high as both. On a rank tie, including equal tags, it is the left tag. |
| `GreaterThanExpression.FrameGreater` | Molap/Molap-Engine/src/com/huawei/unibi/molap/engine/expression/conditional/GreaterThanExpression.java:57-79 | Only a frame with a case in the switch (String, Double, Integer, Timestamp, Long, Decimal) can yield true. |
| `GreaterThanExpression.FrameSymmetric` | Molap/Molap-Engine/src/com/huawei/unibi/molap/engine/expression/conditional/GreaterThanExpression.java:48-55 | Unless two different tags share a rank, swapping the operands does not change the frame. |
| `GreaterThanExpression.FrameTieDependsOnOrder` | Molap/Molap-Engine/src/com/huawei/unibi/molap/engine/expression/conditional/GreaterThanExpression.java:48-55 | When two different tags share a rank, each operand order uses its own left tag as the frame. |
| `GreaterThanExpression.TieBreakBreaksAsymmetry` | Molap/Molap-Engine/src/com/huawei/unibi/molap/engine/expression/conditional/GreaterThanExpression.java:48-79 | Exhibits two cells with different tags of equal rank, each of which is "greater than" the other. |
| `GreaterThanExpression.FrameIrreflexive` | Molap/Molap-Engine/src/com/huawei/unibi/molap/engine/expression/conditional/GreaterThanExpression.java:57-79 | In every frame, operands that read the same through the frame's accessor are never greater. |
| `GreaterThanExpression.FrameAsymmetric` | Molap/Molap-Engine/src/com/huawei/unibi/molap/engine/expression/conditional/GreaterThanExpression.java:57-79 | In every frame, at most one operand order yields true. |
| `GreaterThanExpression.FrameTransitive` | Molap/Molap-Engine/src/com/huawei/unibi/molap/engine/expression/conditional/GreaterThanExpression.java:57-79 | In every frame, the test is transitive. |
| `GreaterThanExpression.DecideIrreflexive` | Molap/Molap-Engine/src/com/huawei/unibi/molap/engine/expression/conditional/GreaterThanExpression.java:43-81 | Operands equal in their frame give false. In particular a cell is never greater than itself. |
| `GreaterThanExpression.DecideAsymmetric` | Molap/Molap-Engine/src/com/huawei/unibi/molap/engine/expression/conditional/GreaterThanExpression.java:43-81 | `a > b` and `b > a` are never both true, unless two different tags share a rank. |
| `GreaterThanExpression.DecideTransitive` | Molap/Molap-Engine/src/com/huawei/unibi/molap/engine/expression/conditional/GreaterThanExpression.java:43-81 | Over operands of one tag, `a > b` and `b > c` give `a > c`. |
| `GreaterThanExpression.StringFrameIsLexicographic` | Molap/Molap-Engine/src/com/huawei/unibi/molap/engine/expression/conditional/GreaterThanExpression.java:59-61 | In the String frame, the outcome is true exactly when the left string is lexicographically after the right one, by UTF-16 code units. |
| `GreaterThanExpression.DoubleFrameIsIeee` | Molap/Molap-Engine/src/com/huawei/unibi/molap/engine/expression/conditional/GreaterThanExpression.java:62-64 | In the Double frame on finite values, the outcome is true exactly when the left IEEE value is the larger real number. It is false whenever either value is NaN. |
| `GreaterThanExpression.NumericFrames` | Molap/Molap-Engine/src/com/huawei/unibi/molap/engine/expression/conditional/GreaterThanExpression.java:65-76 | Integer, Long and Timestamp frames use signed integer `>` on the frame-read values; Timestamp reads the millisecond instant. The Decimal frame uses exact numeric `>`. |
| `GreaterThanExpression.UnorderedFrameIsFalse` | Molap/Molap-Engine/src/com/huawei/unibi/molap/engine/expression/conditional/GreaterThanExpression.java:56-79 | A frame with no case in the switch (Boolean, Null) gives false and no failure. |
| `GreaterThanExpression.DecimalIsExact` | Molap/Molap-Engine/src/com/huawei/unibi/molap/engine/expression/conditional/GreaterThanExpression.java:74-76 | An instance of the Decimal case of `NumericFrames`: decimal 0.30 is not greater than 0.1 + 0.2, and the left cell receives `false`. |
| `Expressions.NestedComparisonIsFalse` | Molap/Molap-Engine/src/com/huawei/unibi/molap/engine/expression/conditional/GreaterThanExpression.java:57-80 | Comparing two comparisons is always false, because the Boolean frame has no case. |
| `Expressions.ScenarioColumnAgainstLiteral` | Molap/Molap-Engine/src/com/huawei/unibi/molap/engine/expression/conditional/GreaterThanExpression.java:39-82 | For `column0 > 100`, rows 150, 50 and null give true, false and false, provided `getInt` returns an Integer cell's stored value. |
| `Expressions.FilterExpressionType` | Molap/Molap-Engine/src/com/huawei/unibi/molap/engine/expression/conditional/GreaterThanExpression.java:85-88 | A greater-than node reports the GreaterThan kind. |
| `Expressions.FilterExpressionTypeIdentifies` | Molap/Molap-Engine/src/com/huawei/unibi/molap/engine/expression/conditional/GreaterThanExpression.java:85-88 | When no leaf reports GreaterThan, the GreaterThan kind is reported exactly by greater-than nodes. |
| `Expressions.GetString` | Molap/Molap-Engine/src/com/huawei/unibi/molap/engine/expression/conditional/GreaterThanExpression.java:91-94 | A node's rendering starts with `GreaterThan(` and ends with `)`, and a tree with n leaves renders to at least 14(n-1) characters (fourteen fixed characters per node). Its round trip is `Descriptions.ParseGetString`. |
| `Descriptions.ParsePrefixOfGetString` | Molap/Molap-Engine/src/com/huawei/unibi/molap/engine/expression/conditional/GreaterThanExpression.java:91-94 | A rendering followed by a comma, a closing parenthesis or nothing parses back to the tree's shape and leaves the follower intact. This needs leaf texts without `(`, `,` or `)`. |
| `Descriptions.ParseGetString` | Molap/Molap-Engine/src/com/huawei/unibi/molap/engine/expression/conditional/GreaterThanExpression.java:91-94 | Under the same condition on leaf texts, the whole rendering parses back to the tree's shape. |
| `Descriptions.ShapeOfInjective` | Molap/Molap-Engine/src/com/huawei/unibi/molap/engine/expression/conditional/GreaterThanExpression.java:91-94 | With distinct leaf texts, the shape determines the tree. |
| `Descriptions.GetStringDeterminesTree` | Molap/Molap-Engine/src/com/huawei/unibi/molap/engine/expression/conditional/GreaterThanExpression.java:91-94 | Two trees whose leaf texts are plain and distinct and that render alike are equal. |
| `Descriptions.GetStringAmbiguous` | Molap/Molap-Engine/src/com/huawei/unibi/molap/engine/expression/conditional/GreaterThanExpression.java:91-94 | A comma inside a leaf text makes two different trees render identically, so the rendering is not parseable in general. |
| `JavaStrings.CompareTo` | Molap/Molap-Engine/src/com/huawei/unibi/molap/engine/expression/conditional/GreaterThanExpression.java:60 | `String.compareTo`: the result is either the length difference or a nonzero difference of two UTF-16 code units. |
| `JavaStrings.CompareToPositive` | Molap/Molap-Engine/src/com/huawei/unibi/molap/engine/expression/conditional/GreaterThanExpression.java:60 | `compareTo > 0` holds exactly when the left string is lexicographically greater: first differing code unit larger, or the right string a proper prefix. |
| `JavaStrings.CompareToAntisymmetric` | Molap/Molap-Engine/src/com/huawei/unibi/molap/engine/expression/conditional/GreaterThanExpression.java:60 | Swapping the strings negates `compareTo`. |
| `JavaStrings.CompareToZero` | Molap/Molap-Engine/src/com/huawei/unibi/molap/engine/expression/conditional/GreaterThanExpression.java:60 | `compareTo` is zero exactly on equal strings. |
| `JavaStrings.CompareToTransitive` | Molap/Molap-Engine/src/com/huawei/unibi/molap/engine/expression/conditional/GreaterThanExpression.java:60 | `compareTo > 0` is transitive. |
| `JavaDoubles.Greater` | Molap/Molap-Engine/src/com/huawei/unibi/molap/engine/expression/conditional/GreaterThanExpression.java:63 | Java `>` on doubles (section 5.11 of IEEE 754-2008): no pattern is greater than itself. |
| `JavaDoubles.GreaterMatchesValue` | Molap/Molap-Engine/src/com/huawei/unibi/molap/engine/expression/conditional/GreaterThanExpression.java:63 | On finite doubles, `>` on bit patterns (via the sign-magnitude key) is the order of the real IEEE values. |
| `JavaDoubles.InfinityAboveFinite` | Molap/Molap-Engine/src/com/huawei/unibi/molap/engine/expression/conditional/GreaterThanExpression.java:63 | Positive infinity is greater than every finite double, and no finite double is greater than it. |
| `JavaDoubles.NegativeInfinityBelowFinite` | Molap/Molap-Engine/src/com/huawei/unibi/molap/engine/expression/conditional/GreaterThanExpression.java:63 | Negative infinity is below every finite double, and no finite double is below it. |
| `JavaDoubles.NonNegativeAboveNegative` | Molap/Molap-Engine/src/com/huawei/unibi/molap/engine/expression/conditional/GreaterThanExpression.java:63 | A non-NaN value with the sign bit clear is greater than a non-NaN value with the sign bit set, unless both are zeros. |
| `JavaDoubles.ZerosEqual` | Molap/Molap-Engine/src/com/huawei/unibi/molap/engine/expression/conditional/GreaterThanExpression.java:63 | Neither zero is greater than the other. |
| `JavaDoubles.NaNUnordered` | Molap/Molap-Engine/src/com/huawei/unibi/molap/engine/expression/conditional/GreaterThanExpression.java:63 | A NaN operand makes `>` false in both operand orders. |
| `ExpressionResults.ExpressionResult.Set` | Molap/Molap-Engine/src/com/huawei/unibi/molap/engine/expression/conditional/GreaterThanExpression.java:45 | Overwrites exactly the cell's tag and payload. |
| `Expressions.Row.EvaluateLeaf` | Molap/Molap-Engine/src/com/huawei/unibi/molap/engine/expression/conditional/GreaterThanExpression.java:41-42 | A child leaf's evaluation, as the operator sees it (under the fresh-cell assumption): a freshly allocated cell holding the leaf's value on the row, with the leaf appended to the row's trace. |

## Left out

- Java serialisation (`serialVersionUID`, line 31) has no behaviour. The constructor (lines 32-36) only stores the two children, which is the `Expressions.Greater` constructor.
- `FilterUnsupportedException` from children or accessors, and Java exceptions inside accessors (for example unboxing a null `Integer`), are not modelled. No throw site is visible in this file. Every accessor is total here.
- The conversions inside the typed accessors and the precedence table are not part of this model. Both are parameters, constrained only where a lemma says so.
- The source's DataType and ExpressionType enumerations are not part of this model. Only the kinds the operator names are declared, plus NullType and the comparison and logical operator kinds.
- The rows (`RowIntf`) and the concrete leaf expressions are not part of this model. A leaf is opaque, and what it evaluates to on the row is the parameter `Row.leafResult`. `Expressions.Evaluate` assumes that every leaf evaluation allocates a fresh cell, and each statement about `Evaluate` and `EvaluateIsRepeatable` holds only under that assumption. A leaf that returns one persistent cell on every call is overwritten whenever it is the container; `PersistentLeftCell` states that step. If two children shared one cell, `Apply`'s contract still holds but says nothing about the "other" cell.
- `getString` and the rendering lemmas use Dafny's `string`, while `String.compareTo` works on UTF-16 code units (`JString`). The rendering only concatenates texts and never compares them, so the choice of character unit does not affect what is proved about it.
- `BigDecimal` values are exact rationals (`real`). `compareTo` ignores the scale, so the scale is not represented.
- Other operators (equals, less than, logical combinators) are not part of this model.
- Concurrency and shared trees are not modelled. The code has no locking. Evaluations cannot interfere as long as each call mutates only cells allocated within it. That holds under the fresh-cell assumption above, and fails for a leaf that returns a persistent cell.
- Three behaviours of the code are easy to misread, and the model follows the code in each. Both children are evaluated before the null test; there is no short-circuit. An operand is read through the frame's accessor even when its own tag differs. When different tags share a rank, the frame is the left tag, so it depends on operand order.
