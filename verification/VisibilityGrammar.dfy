/**
 The parser accepts exactly the grammar, builds the tree of the syntax it
 read, and that tree evaluates to the grammar's denotation.
 */
module VisibilityGrammar {
  import opened Wrappers
  import opened Bytes
  import opened VisibilityTree
  import opened VisibilityParser

  predicate Operand(c: Syntax) { !c.Chain? && WellFormed(c) }

  predicate Operands(ops: seq<Syntax>) { forall i | 0 <= i < |ops| :: Operand(ops[i]) }

  /** Operands each followed by the operator: a chain still waiting for its last. */
  function Prefix(isAnd: bool, ops: seq<Syntax>): Row {
    if ops == [] then []
    else Prefix(isAnd, ops[..|ops| - 1]) + Render(ops[|ops| - 1]) + [Sign(isAnd)]
  }

  lemma {:induction false} RenderSnoc(isAnd: bool, ops: seq<Syntax>, last: Syntax)
    ensures RenderChain(isAnd, ops + [last]) == Prefix(isAnd, ops) + Render(last)
  {
    if ops == [] {
      assert ops + [last] == [last];
    } else {
      var all := ops + [last];
      assert all[1..] == ops[1..] + [last];
      RenderSnoc(isAnd, ops[1..], last);
      PrefixCons(isAnd, ops);
    }
  }

  lemma {:induction false} PrefixCons(isAnd: bool, ops: seq<Syntax>)
    requires ops != []
    ensures Prefix(isAnd, ops) == Render(ops[0]) + [Sign(isAnd)] + Prefix(isAnd, ops[1..])
  {
    if |ops| > 1 {
      var front := ops[..|ops| - 1];
      PrefixCons(isAnd, front);
      assert front[1..] == ops[1..][..|ops| - 2];
    }
  }

  // ---- Soundness: what is accepted is in the grammar ----

  /** The bytes since the last operator or group: a whole quoted term, or part of a word. */
  predicate Pending(t: Row, complete: bool) {
    if complete then IsQuoted(t) else forall i | 0 <= i < |t| :: ValidTermByte(t[i])
  }

  /** `done` and `group` are the syntax read so far on this level. */
  ghost predicate Reads(e: Row, st: State, done: seq<Syntax>, group: Option<Syntax>) {
    && st.whole <= st.sub <= st.index <= |e|
    && BuiltOperands(e, st.result, done) && BuiltGroup(e, st.current, group)
    && e[st.whole..st.sub] == Prefix(UsesAnd(st), done) + GroupText(group)
    && Pending(e[st.sub..st.index], st.complete)
  }

  /** The operator node holds the trees of the operands read. */
  ghost predicate BuiltOperands(e: Row, result: Node, done: seq<Syntax>) {
    && !result.Term? && (result.Op? <==> done != [])
    && (result.Op? ==> Shapes(result.children) == Trees(done))
    && Operands(done) && Spanned(e, result)
  }

  /** The current node is the group read in this slot, if any. */
  ghost predicate BuiltGroup(e: Row, current: Node, group: Option<Syntax>) {
    && (current.Empty? <==> group.None?) && Spanned(e, current)
    && (group.Some? ==> Operand(group.value) && Shape(current) == Tree(group.value, false))
  }

  function UsesAnd(st: State): bool { st.result.Op? && st.result.isAnd }

  function GroupText(group: Option<Syntax>): Row { if group.Some? then Render(group.value) else [] }

  lemma {:induction false} QuotedSound(e: Row, index: nat, start: nat)
    requires index <= |e| && ConsumeQuoted(e, index, start).Ok?
    ensures var stop := ConsumeQuoted(e, index, start).value;
            e[stop - 1] == QUOTE && WellEscaped(e[index..stop - 1]) && stop - 1 != start + 1
    decreases |e| - index
  {
    var stop := ConsumeQuoted(e, index, start).value;
    if e[index] == BACKSLASH {
      QuotedSound(e, index + 2, start);
      assert e[index..stop - 1][2..] == e[index + 2..stop - 1];
    } else if e[index] != QUOTE {
      QuotedSound(e, index + 1, start);
      assert e[index..stop - 1][1..] == e[index + 1..stop - 1];
    }
  }

  /** The bytes of a word or of a complete quoted term are an operand. */
  lemma TermSound(e: Row, start: nat, end: nat, complete: bool) returns (c: Syntax)
    requires start < end <= |e| && Pending(e[start..end], complete)
    ensures Operand(c) && Render(c) == e[start..end] && Tree(c, false) == Leaf(e[start..end])
  {
    var t := e[start..end];
    if complete {
      c := Quoted(t[1..|t| - 1]);
      assert t == [QUOTE] + t[1..|t| - 1] + [QUOTE];
    } else {
      c := Word(t);
    }
  }

  /** The operand that ends where the parser stands. */
  lemma OperandSound(e: Row, st: State, done: seq<Syntax>, group: Option<Syntax>) returns (c: Syntax)
    requires Reads(e, st, done, group)
    requires ProcessTerm(e, st.sub, st.index, st.current).Ok?
    ensures Operand(c)
    ensures e[st.whole..st.index] == Prefix(UsesAnd(st), done) + Render(c)
    ensures var n := ProcessTerm(e, st.sub, st.index, st.current).value;
            Shape(n) == Tree(c, false) && Spanned(e, n) && !n.Empty?
  {
    if st.sub == st.index {
      c := group.value;
    } else {
      c := TermSound(e, st.sub, st.index, st.complete);
      SplitAt(e, st.whole, st.sub, st.index);
    }
  }

  lemma SliceSnoc(e: Row, i: nat, j: nat)
    requires i <= j < |e|
    ensures e[i..j + 1] == e[i..j] + [e[j]]
  {
  }

  lemma SplitAt(e: Row, i: nat, j: nat, k: nat)
    requires i <= j <= k <= |e|
    ensures e[i..k] == e[i..j] + e[j..k]
  {
  }

  lemma {:induction false} TreeValid(c: Syntax, inParen: bool)
    requires WellFormed(c)
    ensures ValidExpr(Tree(c, inParen))
  {
    match c
    case Word(_) =>
    case Quoted(body) =>
      var raw := [QUOTE] + body + [QUOTE];
      assert raw[1..|raw| - 1] == body;
    case Paren(inner) => TreeValid(inner, true);
    case Chain(isAnd, ops) =>
      forall i | 0 <= i < |ops| ensures ValidExpr(Trees(ops)[i]) {
        TreeValid(ops[i], false);
      }
      var kids := Trees(ops);
      assert Tree(c, false).kids == kids;
      assert kids == kids[..|kids| - 1] + [kids[|kids| - 1]];
  }

  /** Closing a level: the syntax of the whole level and the node built for it. */
  lemma CloseSound(e: Row, st: State, done: seq<Syntax>, last: Syntax, child: Node, inParen: bool) returns (c: Syntax)
    requires BuiltOperands(e, st.result, done)
    requires Operand(last) && Shape(child) == Tree(last, false) && Spanned(e, child) && !child.Empty?
    requires if inParen then CloseGroup(st, child).Ok? else CloseInput(st, child).Ok?
    ensures WellFormed(c) && Render(c) == Prefix(UsesAnd(st), done) + Render(last)
    ensures var n := if inParen then CloseGroup(st, child).value else CloseInput(st, child).value;
            Shape(n) == Tree(c, inParen) && Spanned(e, n) && !n.Empty?
  {
    if done == [] {
      c := last;
      assert [] + Render(last) == Render(last);
    } else {
      var ops := done + [last];
      c := Chain(st.result.isAnd, ops);
      RenderSnoc(st.result.isAnd, done, last);
      CloseShape(st, done, last, child, inParen);
    }
  }

  lemma CloseShape(st: State, done: seq<Syntax>, last: Syntax, child: Node, inParen: bool)
    requires st.result.Op? && done != [] && Shapes(st.result.children) == Trees(done)
    requires Operand(last) && Shape(child) == Tree(last, false) && !child.Empty?
    ensures var n := if inParen then CloseGroup(st, child) else CloseInput(st, child);
            n.Ok? && Shape(n.value) == Tree(Chain(st.result.isAnd, done + [last]), inParen)
  {
    hide Render, WellFormed;
    var ops := done + [last];
    TreeValid(last, false);
    assert |st.result.children| == |Shapes(st.result.children)| == |done|;
    assert Trees(ops) == Trees(done) + [Tree(last, false)];
    assert Tree(Chain(st.result.isAnd, ops), false).kids == Trees(ops);
    if inParen {
      if child.Op? && child.isAnd == st.result.isAnd {
        ShapesConcat(st.result.children, child.children);
        assert Shape(child).kids == Shapes(child.children);
      } else {
        ShapesConcat(st.result.children, [child]);
      }
    } else {
      ShapesConcat(st.result.children, [child]);
    }
  }

  lemma ShapesConcat(a: seq<Node>, b: seq<Node>)
    ensures Shapes(a + b) == Shapes(a) + Shapes(b)
  {
  }

  /** Adding an operand to the operator node. */
  lemma AddOperandShape(e: Row, st: State, done: seq<Syntax>, c: Syntax, term: Node, isAnd: bool)
    requires st.result.Op? <==> done != []
    requires st.result.Op? ==> Shapes(st.result.children) == Trees(done)
    requires Shape(term) == Tree(c, false)
    ensures AddOperand(e, st, isAnd, term).Op?
    ensures Shapes(AddOperand(e, st, isAnd, term).children) == Trees(done + [c])
  {
    if st.result.Op? {
      ShapesConcat(st.result.children, [term]);
    }
    assert Trees(done + [c]) == Trees(done) + [Tree(c, false)];
  }

  lemma AddOperandBuilt(e: Row, st: State, done: seq<Syntax>, c: Syntax, term: Node, isAnd: bool)
    requires BuiltOperands(e, st.result, done)
    requires Operand(c) && Shape(term) == Tree(c, false) && Spanned(e, term)
    ensures BuiltOperands(e, AddOperand(e, st, isAnd, term), done + [c])
  {
    AddOperandShape(e, st, done, c, term, isAnd);
  }

  lemma PrefixSnoc(isAnd: bool, done: seq<Syntax>, c: Syntax)
    ensures Prefix(isAnd, done + [c]) == Prefix(isAnd, done) + Render(c) + [Sign(isAnd)]
  {
    assert (done + [c])[..|done|] == done;
  }

  /** Reading an operator keeps the account of what was read. */
  lemma OperatorStep(e: Row, st: State, done: seq<Syntax>, c: Syntax, result: Node, isAnd: bool)
    requires st.whole <= st.sub <= st.index < |e| && e[st.index] == Sign(isAnd)
    requires done == [] || UsesAnd(st) == isAnd
    requires BuiltOperands(e, result, done + [c]) && result.Op? && result.isAnd == isAnd
    requires e[st.whole..st.index] == Prefix(UsesAnd(st), done) + Render(c)
    ensures Reads(e, State(st.index + 1, st.whole, st.index + 1, false, result, Empty), done + [c], None)
  {
    hide Render, Tree, Shape, Shapes, Trees;
    var next := st.index + 1;
    SliceSnoc(e, st.whole, st.index);
    assert Prefix(UsesAnd(st), done) == Prefix(isAnd, done);
    PrefixSnoc(isAnd, done, c);
    assert e[next..next] == [];
  }

  /** So does a parenthesised group. */
  lemma GroupStep(e: Row, st: State, done: seq<Syntax>, inner: Syntax, node: Node, stop: nat)
    requires st.whole <= st.sub == st.index < stop - 1 < |e|
    requires BuiltOperands(e, st.result, done) && e[st.whole..st.sub] == Prefix(UsesAnd(st), done)
    requires e[st.index] == OPEN && e[stop - 1] == CLOSE && e[st.index + 1..stop - 1] == Render(inner)
    requires WellFormed(inner) && Shape(node) == Tree(inner, true) && Spanned(e, node) && !node.Empty?
    ensures Reads(e, State(stop, st.whole, stop, false, st.result, node), done, Some(Paren(inner)))
  {
    var group := Some(Paren(inner));
    Around(e, st.index, stop);
    assert GroupText(group) == e[st.index..stop];
    SplitAt(e, st.whole, st.index, stop);
    GroupBuilt(e, node, inner);
    assert e[stop..stop] == [];
  }

  lemma Around(e: Row, i: nat, stop: nat)
    requires i < stop - 1 < |e|
    ensures e[i..stop] == [e[i]] + e[i + 1..stop - 1] + [e[stop - 1]]
  {
  }

  lemma GroupBuilt(e: Row, node: Node, inner: Syntax)
    requires WellFormed(inner) && Shape(node) == Tree(inner, true) && Spanned(e, node) && !node.Empty?
    ensures BuiltGroup(e, node, Some(Paren(inner)))
  {
  }

  /** So does a quoted term. */
  lemma QuoteStep(e: Row, sub: nat, stop: nat)
    requires sub < |e| && e[sub] == QUOTE && ConsumeQuoted(e, sub + 1, sub) == Ok(stop)
    ensures Pending(e[sub..stop], true)
  {
    hide WellEscaped, ConsumeQuoted;
    QuotedSound(e, sub + 1, sub);
    var t := e[sub..stop];
    assert t[1..|t| - 1] == e[sub + 1..stop - 1];
  }

  /** `c` is the syntax of the level from `whole` to where it closed, and `n` its node. */
  ghost predicate ReadsLevel(e: Row, inParen: bool, whole: nat, n: Node, stop: nat, c: Syntax)
    requires stop <= |e|
  {
    && WellFormed(c) && Shape(n) == Tree(c, inParen) && Spanned(e, n) && !n.Empty?
    && (if inParen then whole < stop && e[stop - 1] == CLOSE && e[whole..stop - 1] == Render(c)
        else whole <= stop == |e| && e[whole..] == Render(c))
  }

  lemma EnterReads(e: Row, i: nat)
    requires i <= |e|
    ensures Reads(e, Enter(i), [], None)
  {
    assert e[i..i] == [];
    assert Trees([]) == [];
  }

  /** What a level that closes here returned. */
  lemma LoopClosed(e: Row, depth: nat, st: State, n: Node, stop: nat) returns (child: Node)
    requires st.index == |e| || (st.index < |e| && e[st.index] == CLOSE)
    requires Loop(e, depth, st) == Ok((n, stop))
    ensures ProcessTerm(e, st.sub, st.index, st.current) == Ok(child)
    ensures if depth > 0 then st.index < |e| && stop == st.index + 1 && CloseGroup(st, child) == Ok(n)
            else stop == st.index == |e| && CloseInput(st, child) == Ok(n)
  {
    child := ProcessTerm(e, st.sub, st.index, st.current).value;
  }

  /** An accepted level read some well-formed syntax, and built its tree. */
  lemma {:induction false} LoopSound(
    e: Row, depth: nat, st: State, done: seq<Syntax>, group: Option<Syntax>, n: Node, stop: nat)
    returns (c: Syntax)
    requires Reads(e, st, done, group) && Loop(e, depth, st) == Ok((n, stop))
    ensures stop <= |e| && ReadsLevel(e, depth > 0, st.whole, n, stop, c)
    decreases |e| - st.index
  {
    hide ReadsLevel, BuiltOperands, Prefix, GroupText, Render, Tree, Shape, Spanned, WellFormed;
    if st.index == |e| || e[st.index] == CLOSE {
      c := LevelSound(e, depth, st, done, group, n, stop);
    } else if e[st.index] == AMP || e[st.index] == BAR {
      c := OperatorSound(e, depth, st, done, group, n, stop);
    } else if e[st.index] == OPEN {
      c := GroupSound(e, depth, st, done, n, stop);
    } else if e[st.index] == QUOTE {
      var after := ConsumeQuoted(e, st.index + 1, st.sub).value;
      QuoteStep(e, st.sub, after);
      c := LoopSound(e, depth, st.(index := after, complete := true), done, group, n, stop);
    } else {
      WordStep(e, st.sub, st.index);
      c := LoopSound(e, depth, st.(index := st.index + 1), done, group, n, stop);
    }
  }

  lemma LevelSound(e: Row, depth: nat, st: State, done: seq<Syntax>, group: Option<Syntax>, n: Node, stop: nat)
    returns (c: Syntax)
    requires Reads(e, st, done, group) && (st.index == |e| || (st.index < |e| && e[st.index] == CLOSE))
    requires Loop(e, depth, st) == Ok((n, stop))
    ensures stop <= |e| && ReadsLevel(e, depth > 0, st.whole, n, stop, c)
  {
    hide Loop, Tree, Shape, Prefix, Spanned, WellFormed;
    var child := LoopClosed(e, depth, st, n, stop);
    var operand := OperandSound(e, st, done, group);
    c := CloseSound(e, st, done, operand, child, depth > 0);
  }

  lemma WordStep(e: Row, sub: nat, index: nat)
    requires sub <= index < |e| && Pending(e[sub..index], false) && ValidTermByte(e[index])
    ensures Pending(e[sub..index + 1], false)
  {
    SliceSnoc(e, sub, index);
  }

  lemma {:induction false} OperatorSound(
    e: Row, depth: nat, st: State, done: seq<Syntax>, group: Option<Syntax>, n: Node, stop: nat)
    returns (c: Syntax)
    requires Reads(e, st, done, group) && st.index < |e| && (e[st.index] == AMP || e[st.index] == BAR)
    requires Loop(e, depth, st) == Ok((n, stop))
    ensures stop <= |e| && ReadsLevel(e, depth > 0, st.whole, n, stop, c)
    decreases |e| - st.index, 0
  {
    hide ReadsLevel, BuiltGroup, Prefix, GroupText, Render, Tree, Shape, Spanned;
    var operand := OperandSound(e, st, done, group);
    var term := ProcessTerm(e, st.sub, st.index, st.current).value;
    var isAnd, next := e[st.index] == AMP, st.index + 1;
    var result := AddOperand(e, st, isAnd, term);
    AddOperandBuilt(e, st, done, operand, term, isAnd);
    OperatorStep(e, st, done, operand, result, isAnd);
    c := LoopSound(e, depth, State(next, st.whole, next, false, result, Empty), done + [operand], None, n, stop);
  }

  lemma {:induction false} GroupSound(
    e: Row, depth: nat, st: State, done: seq<Syntax>, n: Node, stop: nat)
    returns (c: Syntax)
    requires Reads(e, st, done, None) && st.sub == st.index < |e| && e[st.index] == OPEN
    requires Loop(e, depth, st) == Ok((n, stop))
    ensures stop <= |e| && ReadsLevel(e, depth > 0, st.whole, n, stop, c)
    decreases |e| - st.index, 0
  {
    hide Tree, Shape, WellFormed, Spanned, Prefix, Render, BuiltOperands;
    EnterReads(e, st.index + 1);
    var (node, after) := Loop(e, depth + 1, Enter(st.index + 1)).value;
    var inner := LoopSound(e, depth + 1, Enter(st.index + 1), [], None, node, after);
    assert e[st.whole..st.sub] == Prefix(UsesAnd(st), done) + [];
    GroupStep(e, st, done, inner, node, after);
    c := LoopSound(e, depth, State(after, st.whole, after, false, st.result, node), done, Some(Paren(inner)), n, stop);
  }

  // ---- Completeness: what is in the grammar is accepted ----

  /** Where an operand may end. */
  predicate Stops(e: Row, j: nat) { j == |e| || (j < |e| && e[j] in {AMP, BAR, CLOSE}) }

  predicate TextAt(e: Row, i: nat, text: Row) { i + |text| <= |e| && e[i..i + |text|] == text }

  lemma {:induction false} QuotedComplete(e: Row, index: nat, end: nat, start: nat)
    requires index <= end < |e| && e[end] == QUOTE && WellEscaped(e[index..end]) && end != start + 1
    ensures ConsumeQuoted(e, index, start) == Ok(end + 1)
    decreases end - index
  {
    var body := e[index..end];
    if index < end {
      if body[0] == BACKSLASH {
        assert body[2..] == e[index + 2..end] && body[1] == e[index + 1];
        QuotedComplete(e, index + 2, end, start);
      } else {
        assert body[1..] == e[index + 1..end];
        QuotedComplete(e, index + 1, end, start);
      }
    }
  }

  lemma {:induction false} WordComplete(e: Row, depth: nat, st: State, end: nat)
    requires st.index <= end <= |e| && !st.complete
    requires forall i | st.index <= i < end :: ValidTermByte(e[i])
    ensures Loop(e, depth, st) == Loop(e, depth, st.(index := end))
    decreases end - st.index
  {
    if st.index < end {
      WordComplete(e, depth, st.(index := st.index + 1), end);
    }
  }

  /** Cutting a text that stands in `e`. */
  lemma CutText(e: Row, i: nat, text: Row, k: nat)
    requires TextAt(e, i, text) && k <= |text|
    ensures e[i..i + k] == text[..k] && e[i + k..i + |text|] == text[k..] && (k < |text| ==> e[i + k] == text[k])
  {
    var whole := e[i..i + |text|];
    assert whole[..k] == e[i..i + k] && whole[k..] == e[i + k..i + |text|];
    if k < |text| { assert whole[k] == e[i + k]; }
  }

  lemma InsideOf(e: Row, i: nat, first: Byte, body: Row, last: Byte)
    requires TextAt(e, i, [first] + body + [last])
    ensures var end := i + |body| + 2;
            e[i] == first && e[end - 1] == last && e[i + 1..end - 1] == body
  {
    var text := [first] + body + [last];
    CutText(e, i, text, 1);
    CutText(e, i, text, |body| + 1);
    assert text[1..] == body + [last] && text[..|body| + 1] == [first] + body;
    assert e[i + 1..i + |body| + 1] == e[i..i + |body| + 1][1..];
  }

  /** A chain's text: its first operand, the operator, the rest. */
  lemma ChainText(e: Row, i: nat, isAnd: bool, ops: seq<Syntax>)
    requires ops != [] && TextAt(e, i, RenderChain(isAnd, ops))
    ensures TextAt(e, i, Render(ops[0]))
    ensures |ops| > 1 ==> var mid := i + |Render(ops[0])|;
            && mid < |e| && e[mid] == Sign(isAnd) && TextAt(e, mid + 1, RenderChain(isAnd, ops[1..]))
            && mid + 1 + |RenderChain(isAnd, ops[1..])| == i + |RenderChain(isAnd, ops)|
  {
    if |ops| > 1 {
      JoinedText(e, i, Render(ops[0]), Sign(isAnd), RenderChain(isAnd, ops[1..]));
    }
  }

  lemma JoinedText(e: Row, i: nat, first: Row, sign: Byte, rest: Row)
    requires TextAt(e, i, first + [sign] + rest)
    ensures TextAt(e, i, first) && e[i + |first|] == sign && TextAt(e, i + |first| + 1, rest)
  {
    var text := first + [sign] + rest;
    CutText(e, i, text, |first|);
    CutText(e, i, text, |first| + 1);
    assert text[..|first|] == first && text[|first|] == sign && text[|first| + 1..] == rest;
  }

  /** From the start of an operand the loop runs to its end and holds its tree. */
  lemma {:induction false} OperandComplete(e: Row, depth: nat, st: State, c: Syntax) returns (st': State)
    requires st.index <= |e| && st.sub == st.index && st.current.Empty? && !st.complete
    requires Operand(c) && TextAt(e, st.index, Render(c)) && Stops(e, st.index + |Render(c)|)
    ensures st'.index == st.index + |Render(c)| && st'.whole == st.whole && st'.result == st.result
    ensures Loop(e, depth, st) == Loop(e, depth, st')
    ensures var term := ProcessTerm(e, st'.sub, st'.index, st'.current);
            term.Ok? && !term.value.Empty? && Shape(term.value) == Tree(c, false)
    decreases c, 1
  {
    hide Loop, Shape;
    match c
    case Word(w) => st' := WordOperand(e, depth, st, w);
    case Quoted(body) => st' := QuotedOperand(e, depth, st, body);
    case Paren(inner) =>
      InsideOf(e, st.index, OPEN, Render(inner), CLOSE);
      var end := st.index + |Render(c)|;
      var node := LevelComplete(e, depth + 1, st.index + 1, inner);
      st' := State(end, st.whole, end, false, st.result, node);
      LoopGroup(e, depth, st, node, end);
  }

  lemma WordOperand(e: Row, depth: nat, st: State, w: Row) returns (st': State)
    requires st.index <= |e| && st.sub == st.index && st.current.Empty? && !st.complete
    requires IsWord(w) && TextAt(e, st.index, w)
    ensures st'.index == st.index + |w| && st'.whole == st.whole && st'.result == st.result
    ensures Loop(e, depth, st) == Loop(e, depth, st')
    ensures ProcessTerm(e, st'.sub, st'.index, st'.current) == Ok(Term(e, st.index, st'.index))
    ensures Shape(Term(e, st.index, st'.index)) == Leaf(w)
  {
    hide Loop;
    var end := st.index + |w|;
    assert forall i | st.index <= i < end :: e[i] == w[i - st.index];
    WordComplete(e, depth, st, end);
    st' := st.(index := end);
  }

  lemma QuotedOperand(e: Row, depth: nat, st: State, body: Row) returns (st': State)
    requires st.index <= |e| && st.sub == st.index && st.current.Empty? && !st.complete
    requires body != [] && WellEscaped(body) && TextAt(e, st.index, [QUOTE] + body + [QUOTE])
    ensures st'.index == st.index + |body| + 2 && st'.whole == st.whole && st'.result == st.result
    ensures Loop(e, depth, st) == Loop(e, depth, st')
    ensures ProcessTerm(e, st'.sub, st'.index, st'.current) == Ok(Term(e, st.index, st'.index))
    ensures Shape(Term(e, st.index, st'.index)) == Leaf([QUOTE] + body + [QUOTE])
  {
    hide WellEscaped, ConsumeQuoted;
    var end := st.index + |body| + 2;
    InsideOf(e, st.index, QUOTE, body, QUOTE);
    QuotedComplete(e, st.index + 1, end - 1, st.sub);
    st' := st.(index := end, complete := true);
  }

  lemma LoopGroup(e: Row, depth: nat, st: State, node: Node, stop: nat)
    requires st.index < stop <= |e| && st.sub == st.index && st.current.Empty? && e[st.index] == OPEN
    requires Loop(e, depth + 1, Enter(st.index + 1)) == Ok((node, stop))
    ensures Loop(e, depth, st) == Loop(e, depth, State(stop, st.whole, stop, false, st.result, node))
  {
  }

  /** Where a level closes: before ')' inside parentheses, at the end of the input outside. */
  predicate Closes(e: Row, inParen: bool, end: nat) {
    if inParen then end < |e| && e[end] == CLOSE else end == |e|
  }

  lemma ChildCount(n: Node)
    requires ValidExpr(Shape(n))
    ensures !n.Empty? && (n.Op? ==> |n.children| >= 2)
  {
    if n.Op? { assert |Shape(n).kids| == |n.children|; }
  }

  lemma LoopCloses(e: Row, depth: nat, st: State, child: Node, n: Node)
    requires st.index <= |e| && Closes(e, depth > 0, st.index)
    requires ProcessTerm(e, st.sub, st.index, st.current) == Ok(child)
    requires (if depth > 0 then CloseGroup(st, child) else CloseInput(st, child)) == Ok(n)
    ensures Loop(e, depth, st) == Ok((n, if depth > 0 then st.index + 1 else st.index))
  {
  }

  lemma LoopOperator(e: Row, depth: nat, st: State, term: Node, isAnd: bool)
    requires st.index < |e| && e[st.index] == Sign(isAnd) && (st.result.Op? ==> st.result.isAnd == isAnd)
    requires ProcessTerm(e, st.sub, st.index, st.current) == Ok(term)
    ensures var next := st.index + 1;
            Loop(e, depth, st) ==
            Loop(e, depth, State(next, st.whole, next, false, AddOperand(e, st, isAnd, term), Empty))
  {
  }

  /** A whole level, up to its closing parenthesis or the end of the input. */
  lemma {:induction false} LevelComplete(e: Row, depth: nat, i: nat, c: Syntax) returns (n: Node)
    requires i <= |e| && WellFormed(c) && TextAt(e, i, Render(c))
    requires Closes(e, depth > 0, i + |Render(c)|)
    ensures var end := i + |Render(c)|;
            Loop(e, depth, Enter(i)) == Ok((n, if depth > 0 then end + 1 else end))
    ensures Shape(n) == Tree(c, depth > 0) && !n.Empty?
    decreases c, 2
  {
    hide Shape, Loop;
    if c.Chain? {
      assert c.operands[0..] == c.operands;
      n := ChainComplete(e, depth, Enter(i), c, 0, i + |Render(c)|);
    } else {
      var st := OperandComplete(e, depth, Enter(i), c);
      n := ProcessTerm(e, st.sub, st.index, st.current).value;
      TreeValid(c, false);
      ChildCount(n);
      LoopCloses(e, depth, st, n, n);
    }
  }

  /** The loop stands at the start of operand `k` of a chain, holding the ones before it. */
  ghost predicate AtOperand(e: Row, st: State, isAnd: bool, ops: seq<Syntax>, k: nat, end: nat)
    requires k < |ops|
  {
    && st.index <= |e| && st.sub == st.index && st.current.Empty? && !st.complete
    && !st.result.Term? && (st.result.Op? <==> k > 0)
    && (st.result.Op? ==> st.result.isAnd == isAnd && Shapes(st.result.children) == Trees(ops[..k]))
    && TextAt(e, st.index, RenderChain(isAnd, ops[k..])) && st.index + |RenderChain(isAnd, ops[k..])| == end
  }

  lemma {:induction false} ChainComplete(e: Row, depth: nat, st: State, parent: Syntax, k: nat, end: nat)
    returns (n: Node)
    requires WellFormed(parent) && parent.Chain? && k < |parent.operands|
    requires AtOperand(e, st, parent.isAnd, parent.operands, k, end) && Closes(e, depth > 0, end)
    ensures Loop(e, depth, st) == Ok((n, if depth > 0 then end + 1 else end))
    ensures Shape(n) == Tree(parent, depth > 0) && !n.Empty?
    decreases parent, 0, |parent.operands| - k
  {
    hide Render, RenderChain, Loop, Shape;
    var isAnd, ops := parent.isAnd, parent.operands;
    ChainText(e, st.index, isAnd, ops[k..]);
    OperandStops(e, depth, st, isAnd, ops, k, end);
    var st' := OperandComplete(e, depth, st, ops[k]);
    var term := ProcessTerm(e, st'.sub, st'.index, st'.current).value;
    if k + 1 == |ops| {
      assert ops[..k] + [ops[k]] == ops;
      n := LastComplete(e, depth, st', ops[..k], ops[k], term);
    } else {
      var next := NextOperand(e, depth, st', isAnd, ops, k, end, term);
      n := ChainComplete(e, depth, next, parent, k + 1, end);
    }
  }

  lemma OperandStops(e: Row, depth: nat, st: State, isAnd: bool, ops: seq<Syntax>, k: nat, end: nat)
    requires k < |ops| && AtOperand(e, st, isAnd, ops, k, end) && Closes(e, depth > 0, end)
    ensures TextAt(e, st.index, Render(ops[k])) && Stops(e, st.index + |Render(ops[k])|)
    ensures k + 1 == |ops| ==> st.index + |Render(ops[k])| == end
  {
    ChainText(e, st.index, isAnd, ops[k..]);
  }

  lemma NextOperand(
    e: Row, depth: nat, st: State, isAnd: bool, ops: seq<Syntax>, k: nat, end: nat, term: Node) returns (next: State)
    requires k + 1 < |ops| && |Render(ops[k])| <= st.index <= |e|
    requires var from := st.index - |Render(ops[k])|;
             TextAt(e, from, RenderChain(isAnd, ops[k..])) && from + |RenderChain(isAnd, ops[k..])| == end
    requires !st.result.Term? && (st.result.Op? <==> k > 0)
    requires st.result.Op? ==> st.result.isAnd == isAnd && Shapes(st.result.children) == Trees(ops[..k])
    requires ProcessTerm(e, st.sub, st.index, st.current) == Ok(term) && Shape(term) == Tree(ops[k], false)
    ensures AtOperand(e, next, isAnd, ops, k + 1, end) && Loop(e, depth, st) == Loop(e, depth, next)
  {
    hide Render, RenderChain, Loop, Shape, Tree, Shapes, Trees;
    ChainText(e, st.index - |Render(ops[k])|, isAnd, ops[k..]);
    assert ops[k..][1..] == ops[k + 1..];
    assert ops[..k] + [ops[k]] == ops[..k + 1];
    next := OperatorComplete(e, depth, st, isAnd, ops[..k], ops[k], term);
  }

  lemma LastComplete(e: Row, depth: nat, st: State, done: seq<Syntax>, c: Syntax, term: Node) returns (n: Node)
    requires st.index <= |e| && Closes(e, depth > 0, st.index)
    requires st.result.Op? && done != [] && Shapes(st.result.children) == Trees(done)
    requires ProcessTerm(e, st.sub, st.index, st.current) == Ok(term)
    requires Operand(c) && Shape(term) == Tree(c, false) && !term.Empty?
    ensures Loop(e, depth, st) == Ok((n, if depth > 0 then st.index + 1 else st.index))
    ensures Shape(n) == Tree(Chain(st.result.isAnd, done + [c]), depth > 0) && !n.Empty?
  {
    CloseShape(st, done, c, term, depth > 0);
    n := if depth > 0 then CloseGroup(st, term).value else CloseInput(st, term).value;
    LoopCloses(e, depth, st, term, n);
  }

  lemma OperatorComplete(
    e: Row, depth: nat, st: State, isAnd: bool, done: seq<Syntax>, c: Syntax, term: Node) returns (next: State)
    requires st.index < |e| && e[st.index] == Sign(isAnd)
    requires !st.result.Term? && (st.result.Op? <==> done != [])
    requires st.result.Op? ==> st.result.isAnd == isAnd && Shapes(st.result.children) == Trees(done)
    requires ProcessTerm(e, st.sub, st.index, st.current) == Ok(term) && Shape(term) == Tree(c, false)
    ensures next.index == next.sub == st.index + 1 && next.current.Empty? && !next.complete
    ensures next.result.Op? && next.result.isAnd == isAnd && Shapes(next.result.children) == Trees(done + [c])
    ensures Loop(e, depth, st) == Loop(e, depth, next)
  {
    next := State(st.index + 1, st.whole, st.index + 1, false, AddOperand(e, st, isAnd, term), Empty);
    AddOperandShape(e, st, done, c, term, isAnd);
    LoopOperator(e, depth, st, term, isAnd);
  }

  // ---- The theorems ----

  lemma TreeDenotes(c: Syntax, inParen: bool, auths: set<Row>)
    requires WellFormed(c)
    ensures Holds(Tree(c, inParen), auths) <==> Denotes(c, auths)
  {
    match c
    case Word(w) => LeafHasLabel(w);
    case Quoted(body) =>
      var raw := [QUOTE] + body + [QUOTE];
      assert raw[1..|raw| - 1] == body;
    case Paren(inner) => TreeDenotes(inner, true, auths);
    case Chain(isAnd, ops) =>
      var kids := Trees(ops);
      forall i | 0 <= i < |ops| ensures Holds(kids[i], auths) <==> Denotes(ops[i], auths) {
        TreeDenotes(ops[i], false, auths);
      }
      assert Tree(c, false).kids == kids;
      RollUpHolds(isAnd, kids[..|kids| - 1], kids[|kids| - 1], auths);
      assert kids == kids[..|kids| - 1] + [kids[|kids| - 1]];
  }

  lemma RollUpHolds(isAnd: bool, front: seq<Expr>, last: Expr, auths: set<Row>)
    ensures Holds(RollUp(isAnd, front, last), auths) <==> Holds(Join(isAnd, front + [last]), auths)
  {
    var plain := front + [last];
    assert plain[|front|] == last;
    if last.Join? && last.isAnd == isAnd {
      var rolled := front + last.kids;
      assert forall i | 0 <= i < |front| :: rolled[i] == front[i] == plain[i];
      assert forall i | 0 <= i < |last.kids| :: rolled[|front| + i] == last.kids[i];
    }
  }

  /** A non-empty expression is accepted exactly when it is in the grammar. */
  lemma ParserAcceptsExactlyTheGrammar(e: Row)
    requires e != []
    ensures Parse(e).Ok? <==> exists c :: WellFormed(c) && Render(c) == e
  {
    if Parse(e).Ok? {
      var c := ParsedSyntax(e);
    }
    if c :| WellFormed(c) && Render(c) == e {
      var _ := ParseRendered(c);
    }
  }

  /** An accepted expression is the rendering of a syntax tree, whose tree was built in bounds. */
  lemma ParsedSyntax(e: Row) returns (c: Syntax)
    requires e != [] && Parse(e).Ok?
    ensures WellFormed(c) && Render(c) == e
    ensures Shape(Parse(e).value) == Tree(c, false) && ValidExpr(Shape(Parse(e).value)) && Spanned(e, Parse(e).value)
  {
    EnterReads(e, 0);
    var (n, stop) := Loop(e, 0, Enter(0)).value;
    c := LoopSound(e, 0, Enter(0), [], None, n, stop);
    TreeValid(c, false);
    assert e[0..] == e;
  }

  lemma ParseRendered(c: Syntax) returns (n: Node)
    requires WellFormed(c)
    ensures Render(c) != [] && Parse(Render(c)) == Ok(n) && Shape(n) == Tree(c, false)
  {
    var e := Render(c);
    assert e[0..0 + |e|] == e;
    n := LevelComplete(e, 0, 0, c);
  }

  /** The parsed tree of any grammatical expression evaluates, without error, to its denotation. */
  lemma EvaluationIsDenotation(c: Syntax, auths: set<Row>)
    requires WellFormed(c)
    ensures Parse(Render(c)).Ok?
    ensures Evaluate(Render(c), Parse(Render(c)).value, auths) == Ok(Denotes(c, auths))
  {
    var n := ParseRendered(c);
    var _ := ParsedSyntax(Render(c));
    EvaluateIsHolds(Render(c), n, auths);
    TreeDenotes(c, false, auths);
  }
}
