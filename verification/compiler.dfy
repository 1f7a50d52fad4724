/** The parser of src/compiler.rs: a dual-stack operator-precedence parser that turns
    the token sequence into one syntax tree, interning variable names on the way. */
module Compiler {
  import opened Util
  import opened Scanner

  /** The operation a node performs, also the instruction set of the flat program. */
  datatype NodeOperation =
    | BinaryOperation(op: OperatorType)
    | UnaryOperation(op: OperatorType)
    | VariableDeref(location: nat)
    | Literal(value: bool)
    | Subexpression
    | IndexedSubexpression(index: nat)

  /** A syntax-tree node. The source stores an operation and two optional children;
      the parser only ever builds the five shapes below (a binary node with both
      children, a unary node and a subexpression with a left child only, and
      childless variable and literal leaves), so the model keeps exactly those. */
  datatype AstNode =
    | BinaryNode(op: OperatorType, left: AstNode, right: AstNode)
    | UnaryNode(op: OperatorType, left: AstNode)
    | VariableNode(location: nat)
    | LiteralNode(value: bool)
    | SubexpressionNode(left: AstNode)
  {
    /** The node's own operation (the source's `node.op`). */
    function Op(): NodeOperation
    {
      match this
      case BinaryNode(op, _, _) => BinaryOperation(op)
      case UnaryNode(op, _) => UnaryOperation(op)
      case VariableNode(location) => VariableDeref(location)
      case LiteralNode(value) => NodeOperation.Literal(value)
      case SubexpressionNode(_) => Subexpression
    }

    /** The node's children, left before right. */
    function Children(): seq<AstNode>
    {
      match this
      case BinaryNode(_, left, right) => [left, right]
      case UnaryNode(_, left) => [left]
      case SubexpressionNode(left) => [left]
      case _ => []
    }
  }

  /** The operators the parser gives a priority and an arity to. */
  predicate IsCoreOperator(op: OperatorType)
  {
    op == And || op == Or || op == Not
  }

  /** A tree the evaluator can run: AND/OR only in binary nodes, NOT only in unary
      nodes, and every variable location inside a table of `varCount` names. */
  predicate WellFormed(a: AstNode, varCount: nat)
  {
    match a
    case BinaryNode(op, left, right) => (op == And || op == Or) && WellFormed(left, varCount) && WellFormed(right, varCount)
    case UnaryNode(op, left) => op == Not && WellFormed(left, varCount)
    case VariableNode(location) => location < varCount
    case LiteralNode(_) => true
    case SubexpressionNode(left) => WellFormed(left, varCount)
  }

  /** Tokens of a stream that reaches the parser: conditional operators are only
      recognised by the lexer and have no priority, so they are excluded. */
  predicate CoreTokens(tokens: seq<Token>)
  {
    forall k :: 0 <= k < |tokens| && tokens[k].tokenType.Operator? ==> IsCoreOperator(tokens[k].tokenType.op)
  }

  /** The pending operators of an operator stack are all core operators. */
  predicate CoreOperators(stack: seq<TokenType>)
  {
    forall k :: 0 <= k < |stack| && stack[k].Operator? ==> IsCoreOperator(stack[k].op)
  }

  function Priority(op: OperatorType): nat
    requires IsCoreOperator(op)
  {
    match op
    case Not => 6
    case And => 4
    case Or => 2
  }

  /** Whether the pending operator `target` must be reduced before `current` is
      pushed: only when it binds strictly tighter, i.e. NOT before AND and OR, and
      AND before OR. Equal operators are not reduced, so chains nest to the right. */
  function StashPrevOp(current: OperatorType, target: OperatorType): (r: bool)
    requires IsCoreOperator(current) && IsCoreOperator(target)
    ensures r <==> (target == Not && current != Not) || (target == And && current == Or)
    ensures r ==> current != target
  {
    Priority(current) < Priority(target)
  }

  function Arity(op: OperatorType): nat
    requires IsCoreOperator(op)
  {
    if op == Not then 1 else 2
  }

  /** Pops the operands of `op` (the right one first) and builds its node. Fails
      exactly when the stack holds fewer operands than the operator needs; on
      success the popped nodes become the node's children, in stack order. */
  function CreateOperationNode(nodeStack: seq<AstNode>, op: OperatorType): (r: Option<(AstNode, seq<AstNode>)>)
    requires IsCoreOperator(op)
    ensures r.Some? <==> |nodeStack| >= Arity(op)
    ensures r.Some? ==> r.value.1 + r.value.0.Children() == nodeStack
    ensures r.Some? ==> r.value.0.Op() == (if op == Not then UnaryOperation(op) else BinaryOperation(op))
  {
    if op == Not then
      if |nodeStack| < 1 then None
      else Some((UnaryNode(op, nodeStack[|nodeStack| - 1]), nodeStack[..|nodeStack| - 1]))
    else
      if |nodeStack| < 2 then None
      else
        var right := nodeStack[|nodeStack| - 1];
        var left := nodeStack[|nodeStack| - 2];
        Some((BinaryNode(op, left, right), nodeStack[..|nodeStack| - 2]))
  }

  /** First position of `name` in `names`. */
  function Position(names: seq<string>, name: string): (r: Option<nat>)
    ensures r.None? <==> name !in names
    ensures r.Some? ==> r.value < |names| && names[r.value] == name
    ensures r.Some? ==> forall k :: 0 <= k < r.value ==> names[k] != name
  {
    if names == [] then None
    else if names[0] == name then Some(0)
    else match Position(names[1..], name)
      case None => None
      case Some(i) => Some(i + 1)
  }

  /** Interns a variable name: its existing slot, or a new slot at the end. */
  function Intern(variables: seq<string>, name: string): (r: (seq<string>, nat))
    ensures r.1 < |r.0| && r.0[r.1] == name
    ensures name in variables ==> r.0 == variables
    ensures name !in variables ==> r.0 == variables + [name]
  {
    match Position(variables, name)
    case Some(location) => (variables, location)
    case None => (variables + [name], |variables|)
  }

  /** The parser's working state: the node stack, the operator stack (pending
      operators and the `(` / `{` markers) and the variable table. Stack tops are
      the last elements. */
  datatype ParseState = ParseState(nodeStack: seq<AstNode>, operatorStack: seq<TokenType>, variables: seq<string>)

  const InitialState := ParseState([], [], [])

  /** Before pushing `current`, reduces the pending operators on top of the operator
      stack that bind strictly tighter than it. Fails when an operator lacks
      operands. */
  function ReduceTighter(st: ParseState, current: OperatorType): (r: Option<ParseState>)
    requires IsCoreOperator(current) && CoreOperators(st.operatorStack)
    ensures r.Some? ==> r.value.variables == st.variables && CoreOperators(r.value.operatorStack)
    decreases |st.operatorStack|
  {
    if |st.operatorStack| == 0 then Some(st)
    else
      var top := st.operatorStack[|st.operatorStack| - 1];
      if !top.Operator? then Some(st)
      else if !StashPrevOp(current, top.op) then Some(st)
      else match CreateOperationNode(st.nodeStack, top.op)
        case None => None
        case Some((node, rest)) =>
          ReduceTighter(ParseState(rest + [node], st.operatorStack[..|st.operatorStack| - 1], st.variables), current)
  }

  /** The closing pass run for `)`, `}` and the end of input: reduces operators
      until an opener is on top. A `(` closed by `)` is discarded; a `{` closed by
      `}` is discarded and the top node wrapped in a subexpression, unless there is
      no node or the top node already is a subexpression; any other opener is an
      error. An operator stack emptied without meeting an opener is accepted. */
  function CloseGroup(st: ParseState, closer: TokenType): (r: Option<ParseState>)
    requires closer == RightParen || closer == RightBrace || closer == EOF
    requires CoreOperators(st.operatorStack)
    ensures r.Some? ==> r.value.variables == st.variables && CoreOperators(r.value.operatorStack)
    decreases |st.operatorStack|
  {
    if |st.operatorStack| == 0 then Some(st)
    else
      var top := st.operatorStack[|st.operatorStack| - 1];
      var popped := st.operatorStack[..|st.operatorStack| - 1];
      var parenClosing := closer == RightParen && top == LeftParen;
      var braceClosing := closer == RightBrace && top == LeftBrace;
      if top.Operator? then
        match CreateOperationNode(st.nodeStack, top.op)
        case None => None
        case Some((node, rest)) => CloseGroup(ParseState(rest + [node], popped, st.variables), closer)
      else if parenClosing then
        Some(st.(operatorStack := popped))
      else if braceClosing then
        var nodes := st.nodeStack;
        if |nodes| > 0 && nodes[|nodes| - 1].Op() != Subexpression then
          Some(ParseState(nodes[..|nodes| - 1] + [SubexpressionNode(nodes[|nodes| - 1])], popped, st.variables))
        else
          Some(st.(operatorStack := popped))
      else
        None
  }

  /** The token kinds at which the parser can stop with an error: an error token, an
      operator whose reductions lack operands, and the closers. */
  predicate CanFailAt(t: TokenType)
  {
    t.Error? || t.Operator? || t.RightParen? || t.RightBrace? || t.EOF?
  }

  /** One token of the parser loop; `None` is a syntax error at that token. */
  function Step(st: ParseState, token: Token): (r: Option<ParseState>)
    requires CoreOperators(st.operatorStack)
    requires token.tokenType.Operator? ==> IsCoreOperator(token.tokenType.op)
    ensures r.Some? ==> CoreOperators(r.value.operatorStack)
    ensures r.Some? && !token.tokenType.Variable? ==> r.value.variables == st.variables
    ensures r.None? ==> CanFailAt(token.tokenType)
  {
    match token.tokenType
    case Error => None
    case LeftParen => Some(st.(operatorStack := st.operatorStack + [LeftParen]))
    case LeftBrace => Some(st.(operatorStack := st.operatorStack + [LeftBrace]))
    case Variable =>
      var (variables, location) := Intern(st.variables, token.lexeme);
      Some(ParseState(st.nodeStack + [VariableNode(location)], st.operatorStack, variables))
    case Literal(value) => Some(st.(nodeStack := st.nodeStack + [LiteralNode(value)]))
    case Operator(op) =>
      (match ReduceTighter(st, op)
       case None => None
       case Some(reduced) => Some(reduced.(operatorStack := reduced.operatorStack + [Operator(op)])))
    case RightParen => CloseGroup(st, token.tokenType)
    case RightBrace => CloseGroup(st, token.tokenType)
    case EOF => CloseGroup(st, token.tokenType)
  }

  /** Result of compilation: an error token, or a root, and the variable table. */
  datatype CompiledSyntaxTree = CompiledSyntaxTree(errorToken: Option<Token>, root: Option<AstNode>, variables: seq<string>)

  /** The end-of-loop check: success needs an empty operator stack and exactly one
      node; every other final state is an error at a synthetic end-of-input token. */
  function Finish(st: ParseState): (r: CompiledSyntaxTree)
    ensures r.variables == st.variables
    ensures r.root.Some? <==> |st.operatorStack| == 0 && |st.nodeStack| == 1
    ensures r.root.Some? ==> r.root.value == st.nodeStack[0]
    ensures r.errorToken.Some? <==> r.root.None?
    ensures r.errorToken.Some? ==> r.errorToken.value == EofToken
  {
    if |st.operatorStack| == 0 && |st.nodeStack| == 1 then
      CompiledSyntaxTree(None, Some(st.nodeStack[0]), st.variables)
    else
      CompiledSyntaxTree(Some(EofToken), None, st.variables)
  }

  /** The parser loop from token `i` on. */
  function CompileFrom(tokens: seq<Token>, i: nat, st: ParseState): (r: CompiledSyntaxTree)
    requires i <= |tokens| && CoreTokens(tokens) && CoreOperators(st.operatorStack)
    requires Distinct(st.variables)
    ensures r.errorToken.Some? <==> r.root.None?
    ensures Distinct(r.variables)
    ensures r.errorToken.Some? ==> r.errorToken.value == EofToken || r.errorToken.value in tokens[i..]
    ensures r.errorToken.Some? ==> CanFailAt(r.errorToken.value.tokenType)
    decreases |tokens| - i
  {
    if i == |tokens| then Finish(st)
    else match Step(st, tokens[i])
      case None => CompiledSyntaxTree(Some(tokens[i]), None, st.variables)
      case Some(next) =>
        assert Distinct(next.variables) by {
          if tokens[i].tokenType.Variable? {
            var (_, _) := Intern(st.variables, tokens[i].lexeme);
          }
        }
        CompileFrom(tokens, i + 1, next)
  }

  /** Compiles a token stream. The source reads `tokens[0]` up front, so the stream
      must not be empty. Exactly one of the error token and the root is present, the
      variable table holds no name twice, and a reported error is one of the input
      tokens or the end-of-input token, of a kind that can trigger a failure (never
      an operand or an opener). */
  function Compile(tokens: seq<Token>): (r: CompiledSyntaxTree)
    requires |tokens| > 0 && CoreTokens(tokens)
    ensures r.errorToken.Some? <==> r.root.None?
    ensures Distinct(r.variables)
    ensures r.errorToken.Some? ==> r.errorToken.value == EofToken || r.errorToken.value in tokens
    ensures r.errorToken.Some? ==> CanFailAt(r.errorToken.value.tokenType)
  {
    CompileFrom(tokens, 0, InitialState)
  }
}
