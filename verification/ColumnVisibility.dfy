/**
 `ColumnVisibility`: normalizing and flattening a parsed expression, and the
 theorem that the parser and the printer undo each other.
 */
module ColumnVisibility {
  import opened Wrappers
  import opened Bytes
  import opened VisibilityTree
  import opened VisibilityParser
  import opened VisibilityGrammar
  import opened VisibilityNormal

  // ---- Normalization as the source runs it ----

  /** `sort.SliceStable` by `CompareNodes`. */
  function SortNodes(s: seq<Node>): seq<Node> {
    if s == [] then [] else InsertNode(s[|s| - 1], SortNodes(s[..|s| - 1]))
  }

  function InsertNode(x: Node, s: seq<Node>): seq<Node> {
    if s == [] || CompareNodes(s[|s| - 1], x) <= 0 then s + [x]
    else InsertNode(x, s[..|s| - 1]) + [s[|s| - 1]]
  }

  predicate Among(a: seq<Node>, b: seq<Node>) { forall i | 0 <= i < |a| :: a[i] in b }

  lemma {:induction false} InsertNodeShape(x: Node, s: seq<Node>)
    ensures Shapes(InsertNode(x, s)) == Insert(Shape(x), Shapes(s))
    ensures Among(InsertNode(x, s), s + [x])
  {
    ShapesConcat(s, [x]);
    if s != [] {
      var last, front := s[|s| - 1], s[..|s| - 1];
      CompareIsOrder(last, x);
      InsertNodeShape(x, front);
      ShapesConcat(InsertNode(x, front), [last]);
      assert Shapes(s)[..|s| - 1] == Shapes(front);
    }
  }

  lemma {:induction false} SortNodesShape(s: seq<Node>)
    ensures Shapes(SortNodes(s)) == Sort(Shapes(s)) && Among(SortNodes(s), s)
  {
    if s != [] {
      var last, front := s[|s| - 1], s[..|s| - 1];
      SortNodesShape(front);
      InsertNodeShape(last, SortNodes(front));
      assert Shapes(s)[..|s| - 1] == Shapes(front);
    }
  }

  /** Drops a node equal to the last one kept. */
  function DedupNodes(s: seq<Node>): seq<Node> {
    if s == [] then []
    else
      var kept := DedupNodes(s[..|s| - 1]);
      if kept != [] && CompareNodes(kept[|kept| - 1], s[|s| - 1]) == 0 then kept else kept + [s[|s| - 1]]
  }

  lemma {:induction false} DedupNodesShape(s: seq<Node>)
    ensures Shapes(DedupNodes(s)) == Dedup(Shapes(s)) && Among(DedupNodes(s), s)
  {
    hide Order, CompareNodes, Shape;
    if s != [] {
      var last, front := s[|s| - 1], s[..|s| - 1];
      DedupNodesShape(front);
      var kept := DedupNodes(front);
      ShapesConcat(kept, [last]);
      assert Shapes(s)[..|s| - 1] == Shapes(front);
      if kept != [] {
        CompareIsOrder(kept[|kept| - 1], last);
      }
    }
  }

  lemma DedupNothing()
    ensures DedupNodes([]) == []
  {
  }

  lemma DedupStep(s: seq<Node>, index: nat)
    requires index < |s|
    ensures var kept := DedupNodes(s[..index]);
            DedupNodes(s[..index + 1]) ==
            if kept != [] && CompareNodes(kept[|kept| - 1], s[index]) == 0 then kept else kept + [s[index]]
  {
    assert s[..index + 1][..index] == s[..index];
  }

  /** Keeps the first of each run of equal nodes, in the front of the same array. */
  method DedupInPlace(a: array<Node>) returns (kept: nat)
    modifies a
    ensures kept <= a.Length && a[..kept] == DedupNodes(old(a[..]))
  {
    hide CompareNodes, DedupNodes;
    ghost var before := a[..];
    kept := 0;
    assert before[..0] == [];
    DedupNothing();
    for index := 0 to a.Length
      invariant kept <= index && (index > 0 ==> kept > 0)
      invariant a[index..] == before[index..]
      invariant a[..kept] == DedupNodes(before[..index])
    {
      var node := a[index];
      assert node == a[index..][0] == before[index];
      DedupStep(before, index);
      if index == 0 || CompareNodes(a[kept - 1], node) != 0 {
        a[kept] := node;
        kept := kept + 1;
      }
    }
    assert before[..a.Length] == before;
  }

  lemma RolledStep(isAnd: bool, kids: seq<Expr>, index: nat)
    requires index < |kids|
    ensures Rolled(isAnd, kids[..index + 1]) == Rolled(isAnd, kids[..index]) + Spread(isAnd, Normal(kids[index]))
  {
    assert kids[..index + 1][..index] == kids[..index];
  }

  lemma RollUpShape(isAnd: bool, rolled: seq<Node>, node: Node)
    ensures var more := if node.Op? && node.isAnd == isAnd then node.children else [node];
            Shapes(rolled + more) == Shapes(rolled) + Spread(isAnd, Shape(node))
  {
    if node.Op? && node.isAnd == isAnd {
      ShapesConcat(rolled, node.children);
      assert Shape(node).kids == Shapes(node.children);
    } else {
      ShapesConcat(rolled, [node]);
    }
  }

  /** `normalizeVisibilityNode`: the normal form of the tree, cut from the same expression. */
  method NormalizeNode(e: Row, node: Node) returns (r: Node)
    requires Spanned(e, node)
    ensures Shape(r) == Normal(Shape(node)) && Spanned(e, r)
    decreases node
  {
    hide Canon, Collapse, Spread;
    if node.Term? || node.Empty? {
      return node;
    }
    var isAnd, rolled := node.isAnd, [];
    ghost var shapes := Shapes(node.children);
    for index := 0 to |node.children|
      invariant Shapes(rolled) == Rolled(isAnd, shapes[..index])
      invariant AllSpanned(e, rolled)
    {
      var child := node.children[index];
      var normalized := NormalizeNode(e, child);
      RolledStep(isAnd, shapes, index);
      RollUpShape(isAnd, rolled, normalized);
      if normalized.Op? && normalized.isAnd == isAnd {
        rolled := rolled + normalized.children;
      } else {
        rolled := rolled + [normalized];
      }
    }
    assert shapes[..|node.children|] == shapes == Shape(node).kids;
    r := FinishNode(e, node, rolled);
  }

  method FinishNode(e: Row, node: Node, rolled: seq<Node>) returns (r: Node)
    requires node.Op? && node.expression == e && AllSpanned(e, rolled)
    ensures Shape(r) == Collapse(node.isAnd, Canon(Shapes(rolled))) && Spanned(e, r)
  {
    var sorted := SortNodes(rolled);
    SortNodesShape(rolled);
    var a := new Node[|sorted|](i requires 0 <= i < |sorted| => sorted[i]);
    assert a[..] == sorted;
    var kept := DedupInPlace(a);
    var deduped := a[..kept];
    DedupNodesShape(sorted);
    assert AllSpanned(e, deduped);
    if |deduped| == 1 {
      assert Shapes(deduped) == [Shape(deduped[0])];
      return deduped[0];
    }
    r := node.(children := deduped);
    assert Shape(r).kids == Shapes(deduped);
  }

  // ---- Printing ----

  predicate Parenthesized(isAnd: bool, kid: Expr) { !kid.Leaf? && !(kid.Join? && kid.isAnd == isAnd) }

  function Flat(t: Expr): Row
    decreases t, 0
  {
    match t
    case Nothing => []
    case Leaf(raw) => raw
    case Join(isAnd, kids) => FlatKids(isAnd, kids)
  }

  /** A child as its parent prints it. */
  function FlatKid(isAnd: bool, kid: Expr): Row
    decreases kid, 1
  {
    if Parenthesized(isAnd, kid) then [OPEN] + Flat(kid) + [CLOSE] else Flat(kid)
  }

  function FlatKids(isAnd: bool, kids: seq<Expr>): Row
    decreases kids, 0
  {
    if kids == [] then []
    else
      var front, last := kids[..|kids| - 1], kids[|kids| - 1];
      FlatKids(isAnd, front) + (if front == [] then [] else [Sign(isAnd)]) + FlatKid(isAnd, last)
  }

  /** `flattenVisibilityNode`: appends to the buffer, separators before all but the first child. */
  method FlattenNode(node: Node, buffer: Row) returns (out: Row)
    ensures out == buffer + Flat(Shape(node))
    decreases node, 0
  {
    if node.Term? {
      return buffer + TermBytes(node);
    }
    if node.Empty? {
      return buffer;
    }
    assert Shape(node).kids == Shapes(node.children);
    out := FlattenChildren(node.isAnd, node.children, buffer);
  }

  method FlattenChildren(isAnd: bool, children: seq<Node>, buffer: Row) returns (out: Row)
    ensures out == buffer + FlatKids(isAnd, Shapes(children))
    decreases children, 0
  {
    out := buffer;
    var separator: Row := [];
    ghost var shapes := Shapes(children);
    for index := 0 to |children|
      invariant separator == if index == 0 then [] else [Sign(isAnd)]
      invariant out == buffer + FlatKids(isAnd, shapes[..index])
    {
      FlatKidsStep(isAnd, shapes, index);
      Regroup(buffer, FlatKids(isAnd, shapes[..index]), separator, FlatKid(isAnd, shapes[index]));
      out := FlattenChild(isAnd, children[index], out + separator);
      separator := [Sign(isAnd)];
    }
    assert shapes[..|children|] == shapes;
  }

  lemma Regroup(a: Row, b: Row, c: Row, d: Row)
    ensures (a + b + c) + d == a + (b + c + d)
  {
  }

  method FlattenChild(isAnd: bool, child: Node, buffer: Row) returns (out: Row)
    ensures out == buffer + FlatKid(isAnd, Shape(child))
    decreases child, 1
  {
    var parenthesize := !child.Term? && !(child.Op? && child.isAnd == isAnd);
    if parenthesize {
      out := FlattenNode(child, buffer + [OPEN]);
      out := out + [CLOSE];
    } else {
      out := FlattenNode(child, buffer);
    }
  }

  lemma FlatKidsStep(isAnd: bool, kids: seq<Expr>, index: nat)
    requires index < |kids|
    ensures FlatKids(isAnd, kids[..index + 1]) ==
            FlatKids(isAnd, kids[..index]) + (if index == 0 then [] else [Sign(isAnd)]) + FlatKid(isAnd, kids[index])
  {
    assert kids[..index + 1][..index] == kids[..index];
  }

  /** `Flatten` of a parsed expression. */
  method Flatten(e: Row, root: Node) returns (out: Row)
    requires Spanned(e, root)
    ensures out == Flat(Normal(Shape(root)))
  {
    if root.Empty? {
      return [];
    }
    var normalized := NormalizeNode(e, root);
    out := FlattenNode(normalized, []);
  }

  // ---- Printer and parser undo each other ----

  /** The syntax a tree in normal form prints as. */
  function Unparse(t: Expr): Syntax
    decreases t
  {
    match t
    case Nothing => Word([])
    case Leaf(raw) => if IsQuotedSpan(raw) then Quoted(raw[1..|raw| - 1]) else Word(raw)
    case Join(isAnd, kids) =>
      Chain(isAnd, seq(|kids|, i requires 0 <= i < |kids| =>
        if kids[i].Leaf? then Unparse(kids[i]) else Paren(Unparse(kids[i]))))
  }

  function UnparseKid(kid: Expr): Syntax { if kid.Leaf? then Unparse(kid) else Paren(Unparse(kid)) }

  function UnparseKids(kids: seq<Expr>): seq<Syntax> {
    seq(|kids|, i requires 0 <= i < |kids| => UnparseKid(kids[i]))
  }

  lemma {:induction false} UnparseWellFormed(t: Expr)
    requires NormalForm(t) && ValidExpr(t)
    ensures WellFormed(Unparse(t)) && (t.Join? <==> Unparse(t).Chain?)
  {
    match t
    case Leaf(raw) =>
      if IsWord(raw) { assert ValidTermByte(raw[0]); }
    case Join(isAnd, kids) =>
      var ops := Unparse(t).operands;
      forall i | 0 <= i < |ops| ensures !ops[i].Chain? && WellFormed(ops[i]) {
        UnparseWellFormed(kids[i]);
      }
  }

  /** Parsing the printed syntax builds the tree again; there is nothing left to roll up. */
  lemma {:induction false} UnparseTree(t: Expr, inParen: bool)
    requires NormalForm(t) && ValidExpr(t)
    ensures Tree(Unparse(t), inParen) == t
  {
    hide StrictlyAscending;
    match t
    case Leaf(raw) =>
      if IsQuotedSpan(raw) { assert raw == [QUOTE] + raw[1..|raw| - 1] + [QUOTE]; }
    case Join(isAnd, kids) =>
      var ops := Unparse(t).operands;
      forall i | 0 <= i < |ops| ensures Tree(ops[i], false) == kids[i] {
        UnparseTree(kids[i], !kids[i].Leaf?);
      }
      assert Trees(ops) == kids;
      assert kids == kids[..|kids| - 1] + [kids[|kids| - 1]];
  }

  lemma {:induction false} UnparseRenders(t: Expr)
    requires NormalForm(t) && ValidExpr(t)
    ensures Render(Unparse(t)) == Flat(t)
    decreases t, 1
  {
    match t
    case Leaf(raw) =>
      if IsQuotedSpan(raw) { assert raw == [QUOTE] + raw[1..|raw| - 1] + [QUOTE]; }
    case Join(isAnd, kids) =>
      UnparseKidsRender(isAnd, kids);
      assert Unparse(t).operands == UnparseKids(kids);
  }

  lemma {:induction false} UnparseKidsRender(isAnd: bool, kids: seq<Expr>)
    requires kids != []
    requires forall i | 0 <= i < |kids| :: RolledChild(isAnd, kids[i])
    ensures RenderChain(isAnd, UnparseKids(kids)) == FlatKids(isAnd, kids)
    decreases kids, 0
  {
    var front, last := kids[..|kids| - 1], kids[|kids| - 1];
    UnparseRenders(last);
    var ops := UnparseKids(front);
    assert UnparseKids(kids) == ops + [UnparseKid(last)];
    RenderSnoc(isAnd, ops, UnparseKid(last));
    if front != [] {
      UnparseKidsRender(isAnd, front);
      var mid := ops[..|ops| - 1];
      assert ops == mid + [ops[|ops| - 1]];
      RenderSnoc(isAnd, mid, ops[|ops| - 1]);
      PrefixSnoc(isAnd, mid, ops[|ops| - 1]);
    }
  }

  /**
   Parsing the flattened form of any accepted expression succeeds, gives a tree
   with exactly the normalized expression (so one that compares equal to any
   normalized tree), and flattening it again gives the same bytes.
   */
  lemma FlattenThenParse(e: Row)
    requires e != [] && Parse(e).Ok?
    ensures var t := Normal(Shape(Parse(e).value));
            && Flat(t) != [] && Parse(Flat(t)).Ok? && Shape(Parse(Flat(t)).value) == t
            && Flat(Normal(Shape(Parse(Flat(t)).value))) == Flat(t)
    ensures forall m: Node | Shape(m) == Normal(Shape(Parse(e).value)) ::
              CompareNodes(Parse(Flat(Normal(Shape(Parse(e).value)))).value, m) == 0
  {
    var c := ParsedSyntax(e);
    var t := Normal(Shape(Parse(e).value));
    NormalReachesNormalForm(Shape(Parse(e).value));
    UnparseWellFormed(t);
    UnparseTree(t, false);
    UnparseRenders(t);
    var n := ParseRendered(Unparse(t));
    NormalFixesNormalForm(t);
    forall m: Node | Shape(m) == t ensures CompareNodes(n, m) == 0 {
      CompareIsOrder(n, m);
      OrderEqual(t, t);
    }
  }

  /** The flattened expression means what the original meant, for every authorization set. */
  lemma FlattenKeepsMeaning(e: Row, auths: set<Row>)
    requires e != [] && Parse(e).Ok?
    ensures var s := Flat(Normal(Shape(Parse(e).value)));
            && Parse(s).Ok?
            && Evaluate(s, Parse(s).value, auths) == Evaluate(e, Parse(e).value, auths)
            && Evaluate(e, Parse(e).value, auths).Ok?
  {
    var c := ParsedSyntax(e);
    FlattenThenParse(e);
    var s := Flat(Normal(Shape(Parse(e).value)));
    var d := ParsedSyntax(s);
    EvaluateIsHolds(e, Parse(e).value, auths);
    EvaluateIsHolds(s, Parse(s).value, auths);
    NormalKeepsMeaning(Shape(Parse(e).value), auths);
  }

  /** Two expressions flatten to the same bytes exactly when their normal forms are the same. */
  lemma FlattenIsCanonical(a: Row, b: Row)
    requires a != [] && b != [] && Parse(a).Ok? && Parse(b).Ok?
    ensures var ta, tb := Normal(Shape(Parse(a).value)), Normal(Shape(Parse(b).value));
            Flat(ta) == Flat(tb) <==> ta == tb
  {
    FlattenThenParse(a);
    FlattenThenParse(b);
  }

  // ---- What the flattened text looks like ----

  /** Two different terms are printed in byte order, whichever came first. */
  lemma FlattenSorts(isAnd: bool, a: Row, b: Row)
    requires IsWord(a) && IsWord(b) && Less(a, b)
    ensures var e := b + [Sign(isAnd)] + a;
            Parse(e).Ok? && Flat(Normal(Shape(Parse(e).value))) == a + [Sign(isAnd)] + b
    ensures var e := a + [Sign(isAnd)] + b;
            Parse(e).Ok? && Flat(Normal(Shape(Parse(e).value))) == a + [Sign(isAnd)] + b
  {
    WrittenAs(isAnd, b, a);
    WrittenAs(isAnd, a, b);
    CompareAntisymmetric(a, b);
    PairInOrder(isAnd, Leaf(a), Leaf(b));
    PairInOrder(isAnd, Leaf(b), Leaf(a));
    FlatPair(isAnd, a, b);
  }

  lemma WrittenAs(isAnd: bool, a: Row, b: Row)
    requires IsWord(a) && IsWord(b)
    ensures var e := a + [Sign(isAnd)] + b;
            Parse(e).Ok? && Shape(Parse(e).value) == Join(isAnd, [Leaf(a), Leaf(b)])
  {
    var c := Chain(isAnd, [Word(a), Word(b)]);
    assert c.operands[1..] == [Word(b)];
    assert RenderChain(isAnd, [Word(b)]) == Render(Word(b)) == b;
    assert Render(Word(a)) == a;
    assert RenderChain(isAnd, c.operands) == Render(Word(a)) + [Sign(isAnd)] + RenderChain(isAnd, [Word(b)]);
    assert Render(c) == RenderChain(isAnd, c.operands);
    var n := ParseRendered(c);
    assert Tree(c, false).kids == [Leaf(a), Leaf(b)];
  }

  lemma FlatPair(isAnd: bool, a: Row, b: Row)
    ensures Flat(Join(isAnd, [Leaf(a), Leaf(b)])) == a + [Sign(isAnd)] + b
  {
    var kids := [Leaf(a), Leaf(b)];
    assert kids[..1] == [Leaf(a)] && [Leaf(a)][..0] == [];
    assert Flat(Leaf(a)) == a && FlatKid(isAnd, Leaf(a)) == a && FlatKid(isAnd, Leaf(b)) == b;
    assert FlatKids(isAnd, []) == [];
    calc {
      FlatKids(isAnd, [Leaf(a)]);
      FlatKids(isAnd, []) + [] + FlatKid(isAnd, Leaf(a));
      a;
    }
  }

  lemma PairInOrder(isAnd: bool, x: Expr, y: Expr)
    requires x.Leaf? && y.Leaf? && x != y
    ensures Normal(Join(isAnd, [x, y])) == Join(isAnd, if Order(x, y) < 0 then [x, y] else [y, x])
  {
    var pair := if Order(x, y) < 0 then [x, y] else [y, x];
    OrderEqual(x, y);
    OrderAntisymmetric(x, y);
    assert NormalForm(Join(isAnd, pair));
    NormalFixesNormalForm(Join(isAnd, pair));
    SameChildrenRearranged(isAnd, [x, y], pair);
    NormalIgnoresOrderAndRepeats(Join(isAnd, [x, y]), Join(isAnd, pair));
  }

  /** The bytes of the terms alone. */
  function TermsLength(t: Expr): nat
    decreases t, 0
  {
    match t
    case Nothing => 0
    case Leaf(raw) => |raw|
    case Join(_, kids) => KidsTerms(kids)
  }

  function KidsTerms(kids: seq<Expr>): nat
    decreases kids, 0
  {
    if kids == [] then 0 else KidsTerms(kids[..|kids| - 1]) + TermsLength(kids[|kids| - 1])
  }

  /** One operator between neighbours, and two parentheses around a child that is neither a term nor of its kind. */
  function SignsLength(t: Expr): nat
    decreases t, 0
  {
    match t
    case Nothing => 0
    case Leaf(_) => 0
    case Join(isAnd, kids) => (if kids == [] then 0 else |kids| - 1) + KidsSigns(isAnd, kids)
  }

  function KidsSigns(isAnd: bool, kids: seq<Expr>): nat
    decreases kids, 0
  {
    if kids == [] then 0
    else
      var last := kids[|kids| - 1];
      KidsSigns(isAnd, kids[..|kids| - 1]) + SignsLength(last) +
      (if last.Leaf? || (last.Join? && last.isAnd == isAnd) then 0 else 2)
  }

  /** The text holds nothing but the terms and those signs: no parenthesis is printed that is not needed. */
  lemma {:induction false} FlatLength(t: Expr)
    ensures |Flat(t)| == TermsLength(t) + SignsLength(t)
    decreases t, 0
  {
    if t.Join? { FlatKidsLength(t.isAnd, t.kids); }
  }

  lemma {:induction false} FlatKidsLength(isAnd: bool, kids: seq<Expr>)
    ensures |FlatKids(isAnd, kids)| ==
            KidsTerms(kids) + KidsSigns(isAnd, kids) + (if kids == [] then 0 else |kids| - 1)
    decreases kids, 0
  {
    if kids != [] {
      FlatKidsLength(isAnd, kids[..|kids| - 1]);
      FlatLength(kids[|kids| - 1]);
    }
  }
}
