/**
 Nodes of a parsed visibility expression: how they compare, what term a node
 names, how a tree is evaluated, and the offset-free expression (`Expr`) a
 tree stands for.
 */
module VisibilityTree {
  import opened Wrappers
  import opened Bytes

  const QUOTE: Byte := 34
  const AMP: Byte := 38
  const OPEN: Byte := 40
  const CLOSE: Byte := 41
  const BACKSLASH: Byte := 92
  const BAR: Byte := 124

  datatype Reason =
    | CannotMix | NeedsOperator | Unbalanced | Unclosed | MissingTerm | EmptyTerm
    | InvalidEscape | UnclosedQuote | BadCharacter(b: Byte)
    | OutsideExpression | TooFewChildren | NoSuchType | WrongExpression

  /** Why an expression was rejected, and the byte offset it stopped at. */
  datatype ParseError = ParseError(reason: Reason, offset: int)

  /** `Empty` is the zero node, recognised by carrying no expression. */
  datatype Node =
    | Empty
    | Term(expression: Row, start: int, end: int)
    | Op(isAnd: bool, expression: Row, start: int, end: int, children: seq<Node>)

  /** Node types in their declared order: EMPTY, TERM, OR, AND. */
  function TypeRank(n: Node): int {
    match n
    case Empty => 0
    case Term(_, _, _) => 1
    case Op(isAnd, _, _, _, _) => if isAnd then 3 else 2
  }

  /** The raw span of a node, quotes and escapes included. */
  function TermBytes(n: Node): Row {
    if n.Empty? || n.start < 0 || n.end > |n.expression| || n.end < n.start then [] else n.expression[n.start..n.end]
  }

  /** Orders by type, then by raw span for terms, then by child count and children. */
  function CompareNodes(left: Node, right: Node): int
    decreases left
  {
    if TypeRank(left) != TypeRank(right) then TypeRank(left) - TypeRank(right)
    else if left.Empty? then 0
    else if left.Term? then Compare(TermBytes(left), TermBytes(right))
    else if |left.children| != |right.children| then |left.children| - |right.children|
    else CompareChildren(left.children, right.children)
  }

  function CompareChildren(left: seq<Node>, right: seq<Node>): int
    requires |left| == |right|
    decreases left
  {
    if left == [] then 0
    else
      var diff := CompareNodes(left[0], right[0]);
      if diff != 0 then diff else CompareChildren(left[1..], right[1..])
  }

  // ---- Terms ----

  /** Removes the escapes from the inside of a quoted term. */
  function Unescape(quoted: Row): Option<Row> {
    if quoted == [] then Some([])
    else if quoted[0] != BACKSLASH then
      match Unescape(quoted[1..])
      case None => None
      case Some(rest) => Some([quoted[0]] + rest)
    else if |quoted| < 2 || (quoted[1] != BACKSLASH && quoted[1] != QUOTE) then None
    else
      match Unescape(quoted[2..])
      case None => None
      case Some(rest) => Some([quoted[1]] + rest)
  }

  /** `unescapeVisibilityTerm`: the loop with its look-ahead index. */
  method UnescapeTerm(quoted: Row) returns (r: Option<Row>)
    ensures r == Unescape(quoted)
  {
    var out: Row := [];
    var index := 0;
    assert quoted[0..] == quoted;
    PrependNothing(Unescape(quoted));
    while index < |quoted|
      invariant 0 <= index <= |quoted|
      invariant Unescape(quoted) == Prepend(out, Unescape(quoted[index..]))
    {
      if quoted[index] != BACKSLASH {
        assert quoted[index..][1..] == quoted[index + 1..];
        PrependByte(out, quoted[index], Unescape(quoted[index + 1..]));
        out := out + [quoted[index]];
        index := index + 1;
      } else {
        var rest := quoted[index..];
        if index + 1 >= |quoted| || (quoted[index + 1] != BACKSLASH && quoted[index + 1] != QUOTE) {
          return None;
        }
        assert rest[2..] == quoted[index + 2..] && rest[1] == quoted[index + 1];
        PrependByte(out, quoted[index + 1], Unescape(quoted[index + 2..]));
        out := out + [quoted[index + 1]];
        index := index + 2;
      }
    }
    assert out + [] == out;
    return Some(out);
  }

  ghost function Prepend(prefix: Row, rest: Option<Row>): Option<Row> {
    match rest
    case None => None
    case Some(r) => Some(prefix + r)
  }

  lemma PrependNothing(rest: Option<Row>)
    ensures Prepend([], rest) == rest
  {
    assert rest.Some? ==> [] + rest.value == rest.value;
  }

  lemma PrependByte(prefix: Row, b: Byte, rest: Option<Row>)
    ensures Prepend(prefix, Prepend([b], rest)) == Prepend(prefix + [b], rest)
  {
    assert rest.Some? ==> prefix + ([b] + rest.value) == (prefix + [b]) + rest.value;
  }

  predicate IsQuotedSpan(span: Row) {
    |span| >= 2 && span[0] == QUOTE && span[|span| - 1] == QUOTE
  }

  /** The label a raw span names: unquoted and unescaped. */
  function LabelOf(span: Row): Option<Row> {
    if IsQuotedSpan(span) then Unescape(span[1..|span| - 1]) else Some(span)
  }

  /** `VisibilityNode.Term`: the label a term node names inside `expression`. */
  function TermLabel(n: Node, expression: Row): Result<Row, ParseError> {
    if !n.Term? then Err(ParseError(NoSuchType, 0))
    else if n.start < 0 || n.end > |expression| || n.end < n.start then
      Err(ParseError(OutsideExpression, n.start))
    else
      match LabelOf(expression[n.start..n.end])
      case None => Err(ParseError(InvalidEscape, n.start))
      case Some(name) => Ok(name)
  }

  // ---- Evaluation ----

  /** `evaluateVisibilityNode`, with the labels held as a set. */
  function Evaluate(expression: Row, root: Node, auths: set<Row>): Result<bool, ParseError>
    decreases root
  {
    match root
    case Empty => Err(ParseError(NoSuchType, 0))
    case Term(_, _, _) =>
      var name :- TermLabel(root, expression);
      Ok(name in auths)
    case Op(isAnd, _, start, _, children) =>
      if |children| < 2 then Err(ParseError(TooFewChildren, start))
      else EvaluateChildren(expression, isAnd, children, auths)
  }

  function EvaluateChildren(expression: Row, isAnd: bool, children: seq<Node>, auths: set<Row>)
    : Result<bool, ParseError>
    decreases children
  {
    if children == [] then Ok(isAnd)
    else
      var satisfied :- Evaluate(expression, children[0], auths);
      if satisfied == !isAnd then Ok(satisfied)
      else EvaluateChildren(expression, isAnd, children[1..], auths)
  }

  // ---- The expression a tree stands for ----

  datatype Expr = Nothing | Leaf(raw: Row) | Join(isAnd: bool, kids: seq<Expr>)

  /** Forgets offsets: a term keeps its raw span, an operator its children. */
  function Shape(n: Node): Expr {
    match n
    case Empty => Nothing
    case Term(_, _, _) => Leaf(TermBytes(n))
    case Op(isAnd, _, _, _, children) =>
      Join(isAnd, seq(|children|, i requires 0 <= i < |children| => Shape(children[i])))
  }

  function Shapes(ns: seq<Node>): seq<Expr> {
    seq(|ns|, i requires 0 <= i < |ns| => Shape(ns[i]))
  }

  /** Every node of the tree was cut out of `e`, in bounds. */
  predicate Spanned(e: Row, n: Node) {
    match n
    case Empty => true
    case Term(x, start, end) => x == e && 0 <= start < end <= |e|
    case Op(_, x, _, _, children) => x == e && forall i | 0 <= i < |children| :: Spanned(e, children[i])
  }

  predicate AllSpanned(e: Row, ns: seq<Node>) { forall i | 0 <= i < |ns| :: Spanned(e, ns[i]) }

  /** The bytes allowed in an unquoted term. */
  predicate ValidTermByte(b: Byte) {
    97 <= b <= 122 || 65 <= b <= 90 || 48 <= b <= 57 || b == 95 || b == 45 || b == 58 || b == 46 || b == 47
  }

  predicate IsWord(w: Row) { w != [] && forall i | 0 <= i < |w| :: ValidTermByte(w[i]) }

  /** Every quote escaped, every escape one of the two legal ones. */
  predicate WellEscaped(body: Row) {
    body == [] ||
    (body[0] != QUOTE &&
     if body[0] == BACKSLASH then
       |body| >= 2 && (body[1] == BACKSLASH || body[1] == QUOTE) && WellEscaped(body[2..])
     else WellEscaped(body[1..]))
  }

  predicate IsQuoted(raw: Row) { |raw| > 2 && IsQuotedSpan(raw) && WellEscaped(raw[1..|raw| - 1]) }

  /** What the parser builds: legal leaves, at least two children per operator. */
  predicate ValidExpr(t: Expr) {
    match t
    case Nothing => false
    case Leaf(raw) => IsWord(raw) || IsQuoted(raw)
    case Join(_, kids) => |kids| >= 2 && forall i | 0 <= i < |kids| :: ValidExpr(kids[i])
  }

  /** The meaning of an expression: labels held, all of, any of. */
  predicate Holds(t: Expr, auths: set<Row>) {
    match t
    case Nothing => false
    case Leaf(raw) => LabelOf(raw).Some? && LabelOf(raw).value in auths
    case Join(isAnd, kids) =>
      if isAnd then forall i | 0 <= i < |kids| :: Holds(kids[i], auths)
      else exists i | 0 <= i < |kids| :: Holds(kids[i], auths)
  }

  lemma {:induction false} WellEscapedUnescapes(body: Row)
    requires WellEscaped(body)
    ensures Unescape(body).Some?
  {
    if body != [] {
      WellEscapedUnescapes(if body[0] == BACKSLASH then body[2..] else body[1..]);
    }
  }

  /** A label as it is written between quotes: a backslash before each backslash and each quote. */
  function Escape(name: Row): Row {
    if name == [] then []
    else (if name[0] == BACKSLASH || name[0] == QUOTE then [BACKSLASH] else []) + [name[0]] + Escape(name[1..])
  }

  /** Every label can be written, and is read back as itself. */
  lemma {:induction false} UnescapeEscape(name: Row)
    ensures WellEscaped(Escape(name)) && Unescape(Escape(name)) == Some(name)
    ensures name != [] ==> Escape(name) != []
  {
    if name != [] {
      hide Escape, Unescape, WellEscaped;
      UnescapeEscape(name[1..]);
      EscapeFirst(name);
      UnescapeFirst(name[0], Escape(name[1..]));
      assert name == [name[0]] + name[1..];
    }
  }

  function Escaped(b: Byte): Row { if b == BACKSLASH || b == QUOTE then [BACKSLASH, b] else [b] }

  lemma EscapeFirst(name: Row)
    requires name != []
    ensures Escape(name) == Escaped(name[0]) + Escape(name[1..])
  {
  }

  lemma UnescapeFirst(b: Byte, rest: Row)
    requires WellEscaped(rest) && Unescape(rest).Some?
    ensures WellEscaped(Escaped(b) + rest) && Unescape(Escaped(b) + rest) == Some([b] + Unescape(rest).value)
  {
    var all := Escaped(b) + rest;
    if b == BACKSLASH || b == QUOTE {
      assert all[2..] == rest;
    } else {
      assert all[1..] == rest;
    }
  }

  /** A well-escaped body is the only way to write the label it names. */
  lemma {:induction false} EscapeUnescape(body: Row)
    requires WellEscaped(body)
    ensures Unescape(body).Some? && Escape(Unescape(body).value) == body
  {
    if body != [] {
      if body[0] == BACKSLASH {
        EscapeUnescape(body[2..]);
        assert body == [body[0], body[1]] + body[2..];
      } else {
        EscapeUnescape(body[1..]);
        assert body == [body[0]] + body[1..];
      }
      var name := Unescape(body).value;
      assert name[1..] == Unescape(if body[0] == BACKSLASH then body[2..] else body[1..]).value;
    }
  }

  /** A legal leaf always names a label; a word names itself. */
  lemma LeafHasLabel(raw: Row)
    requires IsWord(raw) || IsQuoted(raw)
    ensures LabelOf(raw).Some?
    ensures IsWord(raw) ==> LabelOf(raw) == Some(raw)
  {
    if IsQuoted(raw) {
      WellEscapedUnescapes(raw[1..|raw| - 1]);
    }
    if IsWord(raw) {
      assert ValidTermByte(raw[0]);
    }
  }

  /** Evaluating an in-bounds, well-formed tree never errs and gives the meaning. */
  lemma {:induction false} EvaluateIsHolds(e: Row, n: Node, auths: set<Row>)
    requires Spanned(e, n) && ValidExpr(Shape(n))
    ensures Evaluate(e, n, auths) == Ok(Holds(Shape(n), auths))
    decreases n, 1
  {
    match n
    case Term(_, start, end) =>
      LeafHasLabel(TermBytes(n));
    case Op(isAnd, _, _, _, children) =>
      assert Shape(n).kids == Shapes(children);
      assert forall i | 0 <= i < |children| :: ValidExpr(Shape(children[i])) by {
        forall i | 0 <= i < |children| ensures ValidExpr(Shape(children[i])) {
          assert Shape(n).kids[i] == Shape(children[i]);
        }
      }
      EvaluateChildrenIsHolds(e, isAnd, children, auths);
  }

  lemma {:induction false} EvaluateChildrenIsHolds(e: Row, isAnd: bool, children: seq<Node>, auths: set<Row>)
    requires AllSpanned(e, children)
    requires forall i | 0 <= i < |children| :: ValidExpr(Shape(children[i]))
    ensures EvaluateChildren(e, isAnd, children, auths) == Ok(Holds(Join(isAnd, Shapes(children)), auths))
    decreases children, 0
  {
    if children != [] {
      EvaluateIsHolds(e, children[0], auths);
      EvaluateChildrenIsHolds(e, isAnd, children[1..], auths);
      var all, rest := Shapes(children), Shapes(children[1..]);
      assert all[0] == Shape(children[0]) && all[1..] == rest;
      HoldsCons(isAnd, all, auths);
    }
  }

  lemma HoldsCons(isAnd: bool, kids: seq<Expr>, auths: set<Row>)
    requires kids != []
    ensures isAnd ==> (Holds(Join(true, kids), auths) <==> Holds(kids[0], auths) && Holds(Join(true, kids[1..]), auths))
    ensures !isAnd ==>
              (Holds(Join(false, kids), auths) <==> Holds(kids[0], auths) || Holds(Join(false, kids[1..]), auths))
  {
    var rest := kids[1..];
    assert forall i | 0 <= i < |rest| :: rest[i] == kids[i + 1];
    assert forall i | 1 <= i < |kids| :: kids[i] == rest[i - 1];
  }

  /** More labels never hide a cell. */
  lemma {:induction false} HoldsMonotone(t: Expr, fewer: set<Row>, more: set<Row>)
    requires fewer <= more && Holds(t, fewer)
    ensures Holds(t, more)
  {
    match t
    case Leaf(_) =>
    case Join(isAnd, kids) =>
      if isAnd {
        forall i | 0 <= i < |kids| ensures Holds(kids[i], more) {
          HoldsMonotone(kids[i], fewer, more);
        }
      } else {
        var i :| 0 <= i < |kids| && Holds(kids[i], fewer);
        HoldsMonotone(kids[i], fewer, more);
      }
  }
}
