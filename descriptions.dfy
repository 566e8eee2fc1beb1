/** What the textual form of a filter tree determines.  `getString` is for
    logging and is not guaranteed parseable: a leaf whose own text contains a
    comma makes two different trees render alike.  When no leaf text contains
    `(`, `,` or `)`, the rendering can be parsed back, so it determines the
    tree's shape, and with distinct leaf texts the tree itself. */
module Descriptions {
  import opened Expressions

  datatype Option<T> = None | Some(value: T)

  /** A tree with its leaves replaced by their texts. */
  datatype Shape = Text(text: string) | Node(left: Shape, right: Shape)

  function ShapeOf<L>(e: Expr<L>, leafText: L -> string): Shape {
    match e
    case Leaf(x) => Text(leafText(x))
    case Greater(l, r) => Node(ShapeOf(l, leafText), ShapeOf(r, leafText))
  }

  predicate IsDelimiter(c: char) { c == '(' || c == ',' || c == ')' }

  predicate Plain(t: string) { forall i :: 0 <= i < |t| ==> !IsDelimiter(t[i]) }

  predicate PlainLeaves<L>(e: Expr<L>, leafText: L -> string) {
    match e
    case Leaf(x) => Plain(leafText(x))
    case Greater(l, r) => PlainLeaves(l, leafText) && PlainLeaves(r, leafText)
  }

  const Opening: string := "GreaterThan("

  /** The length of the longest prefix without a delimiter. */
  function Span(s: string): (n: nat)
    ensures n <= |s|
  {
    if |s| == 0 || IsDelimiter(s[0]) then 0 else 1 + Span(s[1..])
  }

  /** Parse one rendered tree at the front of `s`; return its shape and the
      text after it. */
  function ParsePrefix(s: string): (r: Option<(Shape, string)>)
    ensures r.Some? ==> |r.value.1| <= |s|
    decreases |s|
  {
    if |s| >= |Opening| && s[..|Opening|] == Opening then
      match ParsePrefix(s[|Opening|..])
      case None => None
      case Some((a, rest1)) =>
        if |rest1| > 0 && rest1[0] == ',' then
          match ParsePrefix(rest1[1..])
          case None => None
          case Some((b, rest2)) =>
            if |rest2| > 0 && rest2[0] == ')' then Some((Node(a, b), rest2[1..])) else None
        else None
    else
      var n := Span(s);
      Some((Text(s[..n]), s[n..]))
  }

  /** Parse a whole rendering. */
  function Parse(s: string): Option<Shape> {
    match ParsePrefix(s)
    case None => None
    case Some((sh, rest)) => if rest == [] then Some(sh) else None
  }

  lemma {:induction false} SpanOfPlain(t: string, rest: string)
    requires Plain(t)
    requires rest == [] || IsDelimiter(rest[0])
    ensures Span(t + rest) == |t|
    decreases |t|
  {
    if |t| == 0 {
      assert t + rest == rest;
    } else {
      assert (t + rest)[1..] == t[1..] + rest;
      SpanOfPlain(t[1..], rest);
    }
  }

  /** A plain text followed by a delimiter or nothing is not read as the
      start of a greater-than node. */
  lemma PlainIsNotOpening(t: string, rest: string)
    requires Plain(t)
    requires rest == [] || rest[0] == ',' || rest[0] == ')'
    ensures !(|t + rest| >= |Opening| && (t + rest)[..|Opening|] == Opening)
  {
    var s := t + rest;
    if |s| >= |Opening| {
      var k := if |t| >= |Opening| then |Opening| - 1 else |t|;
      assert s[..|Opening|][k] == s[k];
      if |t| >= |Opening| {
        assert s[k] == t[k] && !IsDelimiter(t[k]);
      } else {
        assert s[k] == rest[0];
      }
      assert s[k] != Opening[k];
    }
  }

  /** How `ParsePrefix` reads one node. */
  lemma ParseNodeUnfold(s: string, a: Shape, rest1: string, b: Shape, rest2: string)
    requires |s| >= |Opening| && s[..|Opening|] == Opening
    requires ParsePrefix(s[|Opening|..]) == Some((a, rest1))
    requires |rest1| > 0 && rest1[0] == ','
    requires ParsePrefix(rest1[1..]) == Some((b, rest2))
    requires |rest2| > 0 && rest2[0] == ')'
    ensures ParsePrefix(s) == Some((Node(a, b), rest2[1..]))
  {
  }

  /** The pieces of a rendered node, as `ParsePrefix` cuts them. */
  lemma NodeTextPieces(left: string, right: string, rest: string)
    ensures var s := Opening + left + "," + right + ")" + rest;
            var rest1 := "," + right + ")" + rest;
            && |s| >= |Opening| && s[..|Opening|] == Opening && s[|Opening|..] == left + rest1
            && |rest1| > 0 && rest1[0] == ',' && rest1[1..] == right + (")" + rest)
  {
    var s := Opening + left + "," + right + ")" + rest;
    assert s == Opening + (left + ("," + right + ")" + rest));
  }

  /** One node: the opening, the left child, a comma, the right child and a
      closing parenthesis. */
  lemma ParseNodeStep(left: string, right: string, rest: string, a: Shape, b: Shape)
    requires ParsePrefix(left + ("," + right + ")" + rest)) == Some((a, "," + right + ")" + rest))
    requires ParsePrefix(right + (")" + rest)) == Some((b, ")" + rest))
    ensures ParsePrefix(Opening + left + "," + right + ")" + rest) == Some((Node(a, b), rest))
  {
    NodeTextPieces(left, right, rest);
    var rest2 := ")" + rest;
    assert rest2[1..] == rest;
    ParseNodeUnfold(Opening + left + "," + right + ")" + rest, a, "," + right + ")" + rest, b, rest2);
  }

  /** A rendering followed by a comma, a closing parenthesis or nothing parses
      back to the tree's shape and leaves the follower untouched. */
  lemma {:induction false} ParsePrefixOfGetString<L>(e: Expr<L>, leafText: L -> string, rest: string)
    requires PlainLeaves(e, leafText)
    requires rest == [] || rest[0] == ',' || rest[0] == ')'
    ensures ParsePrefix(GetString(e, leafText) + rest) == Some((ShapeOf(e, leafText), rest))
    decreases e
  {
    var s := GetString(e, leafText) + rest;
    match e
    case Leaf(x) =>
      var t := leafText(x);
      PlainIsNotOpening(t, rest);
      SpanOfPlain(t, rest);
      assert s[..|t|] == t && s[|t|..] == rest;
    case Greater(l, r) =>
      var left, right := GetString(l, leafText), GetString(r, leafText);
      ParsePrefixOfGetString(l, leafText, "," + right + ")" + rest);
      ParsePrefixOfGetString(r, leafText, ")" + rest);
      ParseNodeStep(left, right, rest, ShapeOf(l, leafText), ShapeOf(r, leafText));
  }

  /** The rendering of a tree with plain leaf texts parses back to its shape. */
  lemma ParseGetString<L>(e: Expr<L>, leafText: L -> string)
    requires PlainLeaves(e, leafText)
    ensures Parse(GetString(e, leafText)) == Some(ShapeOf(e, leafText))
  {
    assert GetString(e, leafText) + [] == GetString(e, leafText);
    ParsePrefixOfGetString(e, leafText, []);
  }

  /** With distinct leaf texts, the shape determines the tree. */
  lemma {:induction false} ShapeOfInjective<L>(a: Expr<L>, b: Expr<L>, leafText: L -> string)
    requires forall x, y :: leafText(x) == leafText(y) ==> x == y
    requires ShapeOf(a, leafText) == ShapeOf(b, leafText)
    ensures a == b
    decreases a
  {
    match a
    case Leaf(x) =>
    case Greater(l, r) =>
      ShapeOfInjective(l, b.left, leafText);
      ShapeOfInjective(r, b.right, leafText);
  }

  /** Trees with plain, distinct leaf texts that render alike are equal. */
  lemma GetStringDeterminesTree<L>(a: Expr<L>, b: Expr<L>, leafText: L -> string)
    requires forall x, y :: leafText(x) == leafText(y) ==> x == y
    requires PlainLeaves(a, leafText) && PlainLeaves(b, leafText)
    requires GetString(a, leafText) == GetString(b, leafText)
    ensures a == b
  {
    ParseGetString(a, leafText);
    ParseGetString(b, leafText);
    ShapeOfInjective(a, b, leafText);
  }

  /** A comma inside a leaf text makes two different trees render alike. */
  lemma GetStringAmbiguous()
    ensures var a, b := Greater(Leaf("a,b"), Leaf("c")), Greater(Leaf("a"), Leaf("b,c"));
            a != b && GetString(a, (x: string) => x) == GetString(b, (x: string) => x)
  {
    assert Leaf("a,b") != Leaf("a");
  }
}
