/**
 The visibility parser: the loop with its moving index, and the grammar it is
 proved to accept. The grammar is given by `Render`, which prints a syntax
 tree, so "in the grammar" means "some well-formed tree prints as these bytes".
 */
module VisibilityParser {
  import opened Wrappers
  import opened Bytes
  import opened VisibilityTree

  // ---- The grammar ----

  datatype Syntax =
    | Word(word: Row)
    | Quoted(body: Row)
    | Paren(inner: Syntax)
    | Chain(isAnd: bool, operands: seq<Syntax>)

  /** Non-empty words, non-empty well-escaped quotes, one operator per level. */
  predicate WellFormed(c: Syntax) {
    match c
    case Word(w) => IsWord(w)
    case Quoted(body) => body != [] && WellEscaped(body)
    case Paren(inner) => WellFormed(inner)
    case Chain(_, ops) => |ops| >= 2 && forall i | 0 <= i < |ops| :: !ops[i].Chain? && WellFormed(ops[i])
  }

  function Sign(isAnd: bool): Byte { if isAnd then AMP else BAR }

  function Render(c: Syntax): Row
    decreases c
  {
    match c
    case Word(w) => w
    case Quoted(body) => [QUOTE] + body + [QUOTE]
    case Paren(inner) => [OPEN] + Render(inner) + [CLOSE]
    case Chain(isAnd, ops) => RenderChain(isAnd, ops)
  }

  function RenderChain(isAnd: bool, ops: seq<Syntax>): Row
    decreases ops
  {
    if ops == [] then []
    else if |ops| == 1 then Render(ops[0])
    else Render(ops[0]) + [Sign(isAnd)] + RenderChain(isAnd, ops[1..])
  }

  /** What a well-formed tree means, independently of any parser. */
  predicate Denotes(c: Syntax, auths: set<Row>) {
    match c
    case Word(w) => w in auths
    case Quoted(body) => Unescape(body).Some? && Unescape(body).value in auths
    case Paren(inner) => Denotes(inner, auths)
    case Chain(isAnd, ops) =>
      if isAnd then forall i | 0 <= i < |ops| :: Denotes(ops[i], auths)
      else exists i | 0 <= i < |ops| :: Denotes(ops[i], auths)
  }

  /**
   The tree the parser builds. Only a chain closed by ')' rolls its last
   operand up into itself when both use the same operator.
   */
  function Tree(c: Syntax, inParen: bool): Expr
    decreases c
  {
    match c
    case Word(w) => Leaf(w)
    case Quoted(body) => Leaf([QUOTE] + body + [QUOTE])
    case Paren(inner) => Tree(inner, true)
    case Chain(isAnd, ops) =>
      var kids := seq(|ops|, i requires 0 <= i < |ops| => Tree(ops[i], false));
      if inParen && ops != [] then RollUp(isAnd, kids[..|kids| - 1], kids[|kids| - 1]) else Join(isAnd, kids)
  }

  function Trees(ops: seq<Syntax>): seq<Expr> {
    seq(|ops|, i requires 0 <= i < |ops| => Tree(ops[i], false))
  }

  function RollUp(isAnd: bool, front: seq<Expr>, last: Expr): Expr {
    if last.Join? && last.isAnd == isAnd then Join(isAnd, front + last.kids) else Join(isAnd, front + [last])
  }

  // ---- The parser ----

  type Parsed = Result<(Node, nat), ParseError>

  /** The locals of one `parse` call, and the shared index. */
  datatype State = State(index: nat, whole: nat, sub: nat, complete: bool, result: Node, current: Node)

  function Enter(index: nat): State { State(index, index, index, false, Empty, Empty) }

  /** The bytes since `start` as a term, or the group already parsed for that slot. */
  function ProcessTerm(e: Row, start: nat, end: nat, current: Node): Result<Node, ParseError> {
    if start != end then
      if !current.Empty? then Err(ParseError(NeedsOperator, start)) else Ok(Term(e, start, end))
    else if current.Empty? then Err(ParseError(EmptyTerm, start))
    else Ok(current)
  }

  /** Advances past a quoted term that opened at `start`. */
  function ConsumeQuoted(e: Row, index: nat, start: nat): (r: Result<nat, ParseError>)
    requires index <= |e|
    ensures r.Ok? ==> index < r.value <= |e|
    decreases |e| - index
  {
    if index == |e| then Err(ParseError(UnclosedQuote, index))
    else if e[index] == QUOTE then
      if start + 1 == index then Err(ParseError(EmptyTerm, start)) else Ok(index + 1)
    else if e[index] == BACKSLASH then
      if index + 1 == |e| || (e[index + 1] != BACKSLASH && e[index + 1] != QUOTE) then
        Err(ParseError(InvalidEscape, index + 1))
      else ConsumeQuoted(e, index + 2, start)
    else ConsumeQuoted(e, index + 1, start)
  }

  function AddOperand(e: Row, st: State, isAnd: bool, term: Node): Node {
    if st.result.Op? then st.result.(children := st.result.children + [term])
    else Op(isAnd, e, st.whole, st.whole + 1, [term])
  }

  /** What `parse` returns at ')', rolling up a last child of the same type. */
  function CloseGroup(st: State, child: Node): Result<Node, ParseError> {
    if !st.result.Op? then Ok(child)
    else
      var rolled := if child.Op? && child.isAnd == st.result.isAnd then child.children else [child];
      var r := st.result.(children := st.result.children + rolled, end := st.index);
      if |r.children| < 2 then Err(ParseError(MissingTerm, st.index)) else Ok(r)
  }

  /** What `parse` returns at the end of the input, with no roll-up. */
  function CloseInput(st: State, child: Node): Result<Node, ParseError> {
    var r := if !st.result.Op? then child
             else st.result.(children := st.result.children + [child], end := st.index);
    if !r.Term? && (!r.Op? || |r.children| < 2) then Err(ParseError(MissingTerm, st.index)) else Ok(r)
  }

  /** `parse` from the top of its loop: the node and the index it stops at. */
  function Loop(e: Row, depth: nat, st: State): (r: Parsed)
    requires st.index <= |e|
    ensures r.Ok? ==> st.index <= r.value.1 <= |e|
    decreases |e| - st.index
  {
    if st.index == |e| then
      if depth > 0 then Err(ParseError(Unclosed, st.index))
      else
        var child :- ProcessTerm(e, st.sub, st.index, st.current);
        var root :- CloseInput(st, child);
        Ok((root, st.index))
    else
      var ch, next := e[st.index], st.index + 1;
      if ch == AMP || ch == BAR then
        var term :- ProcessTerm(e, st.sub, st.index, st.current);
        if st.result.Op? && st.result.isAnd != (ch == AMP) then Err(ParseError(CannotMix, st.index))
        else Loop(e, depth, State(next, st.whole, next, false, AddOperand(e, st, ch == AMP, term), Empty))
      else if ch == OPEN then
        if st.sub != st.index || !st.current.Empty? then Err(ParseError(NeedsOperator, st.index))
        else
          var (inner, stop) :- Loop(e, depth + 1, Enter(next));
          Loop(e, depth, State(stop, st.whole, stop, false, st.result, inner))
      else if ch == CLOSE then
        if depth == 0 then Err(ParseError(Unbalanced, st.index))
        else
          var child :- ProcessTerm(e, st.sub, st.index, st.current);
          var group :- CloseGroup(st, child);
          Ok((group, next))
      else if ch == QUOTE then
        if st.sub != st.index then Err(ParseError(NeedsOperator, st.index))
        else
          var stop :- ConsumeQuoted(e, next, st.sub);
          Loop(e, depth, st.(index := stop, complete := true))
      else if st.complete then Err(ParseError(NeedsOperator, st.index))
      else if !ValidTermByte(ch) then Err(ParseError(BadCharacter(ch), st.index))
      else Loop(e, depth, st.(index := next))
  }

  /** `NewColumnVisibility`: the root, which is `Empty` for the empty expression. */
  function Parse(e: Row): Result<Node, ParseError> {
    if e == [] then Ok(Empty)
    else
      var (root, stop) :- Loop(e, 0, Enter(0));
      if stop != |e| then Err(ParseError(Unbalanced, stop)) else Ok(root)
  }

  /** The parser as the source runs it: one shared index that every call moves. */
  class Parser {
    const expression: Row
    var index: nat

    constructor (e: Row)
      ensures expression == e && index == 0
    {
      expression := e;
      index := 0;
    }

    method ConsumeQuotedTerm(start: nat) returns (r: Result<(), ParseError>)
      requires index <= |expression|
      modifies this
      ensures r.Ok? <==> ConsumeQuoted(expression, old(index), start).Ok?
      ensures r.Ok? ==> index == ConsumeQuoted(expression, old(index), start).value
      ensures r.Err? ==> r.error == ConsumeQuoted(expression, old(index), start).error
      ensures index <= |expression|
    {
      while index < |expression| && expression[index] != QUOTE
        invariant index <= |expression|
        invariant ConsumeQuoted(expression, old(index), start) == ConsumeQuoted(expression, index, start)
        decreases |expression| - index
      {
        if expression[index] == BACKSLASH {
          if index + 1 == |expression| || (expression[index + 1] != BACKSLASH && expression[index + 1] != QUOTE) {
            index := index + 1;
            return Err(ParseError(InvalidEscape, index));
          }
          index := index + 1;
        }
        index := index + 1;
      }
      if index == |expression| {
        return Err(ParseError(UnclosedQuote, index));
      }
      if start + 1 == index {
        return Err(ParseError(EmptyTerm, start));
      }
      index := index + 1;
      r := Ok(());
    }

    method ParseLevel(depth: nat) returns (r: Result<Node, ParseError>)
      requires index <= |expression|
      modifies this
      ensures index <= |expression|
      ensures var spec := Loop(expression, depth, Enter(old(index)));
              match spec
              case Ok(pair) => r == Ok(pair.0) && index == pair.1
              case Err(error) => r == Err(error)
      decreases |expression| - index
    {
      hide AddOperand, CloseGroup, CloseInput, ProcessTerm, ValidTermByte;
      var result, current := Empty, Empty;
      var whole, sub, complete := index, index, false;
      ghost var spec := Loop(expression, depth, Enter(index));
      while index < |expression|
        invariant old(index) <= index <= |expression|
        invariant spec == Loop(expression, depth, State(index, whole, sub, complete, result, current))
        decreases |expression| - index
      {
        var st := State(index, whole, sub, complete, result, current);
        var character := expression[index];
        index := index + 1;
        if character == AMP || character == BAR {
          var term :- ProcessTerm(expression, sub, index - 1, current);
          if result.Op? && result.isAnd != (character == AMP) {
            return Err(ParseError(CannotMix, index - 1));
          }
          result := AddOperand(expression, st, character == AMP, term);
          current := Empty;
          sub, complete := index, false;
        } else if character == OPEN {
          if sub != index - 1 || !current.Empty? {
            return Err(ParseError(NeedsOperator, index - 1));
          }
          current :- ParseLevel(depth + 1);
          sub, complete := index, false;
        } else if character == CLOSE {
          if depth == 0 {
            return Err(ParseError(Unbalanced, index - 1));
          }
          var child :- ProcessTerm(expression, sub, index - 1, current);
          return CloseGroup(st, child);
        } else if character == QUOTE {
          if sub != index - 1 {
            return Err(ParseError(NeedsOperator, index - 1));
          }
          var consumed := ConsumeQuotedTerm(sub);
          if consumed.Err? {
            return Err(consumed.error);
          }
          complete := true;
        } else {
          if complete {
            return Err(ParseError(NeedsOperator, index - 1));
          }
          if !ValidTermByte(character) {
            return Err(ParseError(BadCharacter(character), index - 1));
          }
        }
      }
      if depth > 0 {
        return Err(ParseError(Unclosed, index));
      }
      var child :- ProcessTerm(expression, sub, index, current);
      return CloseInput(State(index, whole, sub, complete, result, current), child);
    }
  }

  method NewColumnVisibility(expression: Row) returns (r: Result<Node, ParseError>)
    ensures r == Parse(expression)
  {
    if expression == [] {
      return Ok(Empty);
    }
    var parser := new Parser(expression);
    var root :- parser.ParseLevel(0);
    if parser.index != |expression| {
      return Err(ParseError(Unbalanced, parser.index));
    }
    return Ok(root);
  }
}
