/** The parser on small token streams: precedence, parentheses, the closers and
    the errors. Each stream spells the text in its comment token by token, ending
    with `<EOF>`, for any pairwise different variable names `p`, `q` and `r`; every
    parse is followed token by token through the parser loop. */
module ParseExamples {
  import opened Util
  import opened Scanner
  import opened Compiler
  import opened CompilerFacts

  /** A variable token named `name`. */
  function Var(name: string): Token
  {
    Token(name, Variable)
  }

  const AndToken: Token := Token("&", Operator(And))
  const OrToken: Token := Token("|", Operator(Or))
  const NotToken: Token := Token("!", Operator(Not))
  const OpenParen: Token := Token("(", LeftParen)
  const CloseParen: Token := Token(")", RightParen)
  const OpenBrace: Token := Token("{", LeftBrace)
  const CloseBrace: Token := Token("}", RightBrace)

  const V0: AstNode := VariableNode(0)
  const V1: AstNode := VariableNode(1)
  const V2: AstNode := VariableNode(2)

  // ---------------------------------------------------------------------------
  // One token of the parser loop.

  /** A successful token moves the loop on to the next one. */
  lemma Read(tokens: seq<Token>, i: nat, token: Token, st: ParseState, next: ParseState)
    requires i < |tokens| && tokens[i] == token && CoreTokens(tokens)
    requires CoreOperators(st.operatorStack) && Distinct(st.variables)
    requires Step(st, token) == Some(next) && Distinct(next.variables)
    ensures CompileFrom(tokens, i, st) == CompileFrom(tokens, i + 1, next)
  {
    CompileFromUnfold(tokens, i, st);
  }

  /** A failing token is the reported error. */
  lemma Fail(tokens: seq<Token>, i: nat, token: Token, st: ParseState)
    requires i < |tokens| && tokens[i] == token && CoreTokens(tokens)
    requires CoreOperators(st.operatorStack) && Distinct(st.variables)
    requires Step(st, token).None?
    ensures CompileFrom(tokens, i, st) == CompiledSyntaxTree(Some(token), None, st.variables)
  {
  }

  /** A variable pushes its node, with the name interned. */
  lemma ReadName(st: ParseState, token: Token, location: nat, variables: seq<string>, next: ParseState)
    requires token.tokenType == Variable && CoreOperators(st.operatorStack)
    requires Intern(st.variables, token.lexeme) == (variables, location)
    requires next == ParseState(st.nodeStack + [VariableNode(location)], st.operatorStack, variables)
    ensures Step(st, token) == Some(next)
  {
  }

  /** An operator reduces the tighter pending ones, then is pushed. */
  lemma ReadOperator(st: ParseState, token: Token, reduced: ParseState, next: ParseState)
    requires token.tokenType.Operator? && IsCoreOperator(token.tokenType.op) && CoreOperators(st.operatorStack)
    requires ReduceTighter(st, token.tokenType.op) == Some(reduced)
    requires next == reduced.(operatorStack := reduced.operatorStack + [token.tokenType])
    ensures Step(st, token) == Some(next)
  {
  }

  /** An opener is pushed. */
  lemma ReadOpener(st: ParseState, token: Token, next: ParseState)
    requires token.tokenType == LeftParen || token.tokenType == LeftBrace
    requires CoreOperators(st.operatorStack)
    requires next == st.(operatorStack := st.operatorStack + [token.tokenType])
    ensures Step(st, token) == Some(next)
  {
  }

  /** A closer or the end of input runs the closing pass. */
  lemma ReadCloser(st: ParseState, token: Token, result: Option<ParseState>)
    requires token.tokenType == RightParen || token.tokenType == RightBrace || token.tokenType == EOF
    requires CoreOperators(st.operatorStack) && CloseGroup(st, token.tokenType) == result
    ensures Step(st, token) == result
  {
  }

  /** The closing pass reduces the operator on top and goes on. */
  lemma CloseReduce(st: ParseState, closer: TokenType, node: AstNode, rest: seq<AstNode>, next: ParseState)
    requires closer == RightParen || closer == RightBrace || closer == EOF
    requires CoreOperators(st.operatorStack) && |st.operatorStack| > 0
    requires st.operatorStack[|st.operatorStack| - 1].Operator?
    requires CreateOperationNode(st.nodeStack, st.operatorStack[|st.operatorStack| - 1].op) == Some((node, rest))
    requires next == ParseState(rest + [node], st.operatorStack[..|st.operatorStack| - 1], st.variables)
    ensures CloseGroup(st, closer) == CloseGroup(next, closer)
  {
  }

  /** The closing pass fails on an operator without enough operands. */
  lemma CloseMissing(st: ParseState, closer: TokenType)
    requires closer == RightParen || closer == RightBrace || closer == EOF
    requires CoreOperators(st.operatorStack) && |st.operatorStack| > 0
    requires st.operatorStack[|st.operatorStack| - 1].Operator?
    requires CreateOperationNode(st.nodeStack, st.operatorStack[|st.operatorStack| - 1].op).None?
    ensures CloseGroup(st, closer).None?
  {
  }

  /** The closing pass accepts an empty operator stack. */
  lemma CloseEmpty(st: ParseState, closer: TokenType)
    requires closer == RightParen || closer == RightBrace || closer == EOF
    requires st.operatorStack == []
    ensures CloseGroup(st, closer) == Some(st)
  {
  }

  /** `)` discards its `(`. */
  lemma CloseParenthesis(st: ParseState, next: ParseState)
    requires CoreOperators(st.operatorStack) && |st.operatorStack| > 0
    requires st.operatorStack[|st.operatorStack| - 1] == LeftParen
    requires next == st.(operatorStack := st.operatorStack[..|st.operatorStack| - 1])
    ensures CloseGroup(st, RightParen) == Some(next)
  {
  }

  /** `}` discards its `{` and wraps a top node that is not a subexpression yet. */
  lemma CloseBraceWrap(st: ParseState, next: ParseState)
    requires CoreOperators(st.operatorStack) && |st.operatorStack| > 0
    requires st.operatorStack[|st.operatorStack| - 1] == LeftBrace
    requires |st.nodeStack| > 0 && st.nodeStack[|st.nodeStack| - 1].Op() != Subexpression
    requires next == ParseState(st.nodeStack[..|st.nodeStack| - 1] + [SubexpressionNode(st.nodeStack[|st.nodeStack| - 1])],
                                st.operatorStack[..|st.operatorStack| - 1], st.variables)
    ensures CloseGroup(st, RightBrace) == Some(next)
  {
  }

  /** `}` cannot close a `(`. */
  lemma CloseMismatch(st: ParseState)
    requires CoreOperators(st.operatorStack) && |st.operatorStack| > 0
    requires st.operatorStack[|st.operatorStack| - 1] == LeftParen
    ensures CloseGroup(st, RightBrace).None?
  {
  }

  /** A pending operator that binds tighter is reduced before `current` is pushed. */
  lemma ReduceTop(st: ParseState, current: OperatorType, node: AstNode, rest: seq<AstNode>, next: ParseState)
    requires IsCoreOperator(current) && CoreOperators(st.operatorStack) && |st.operatorStack| > 0
    requires st.operatorStack[|st.operatorStack| - 1].Operator?
    requires StashPrevOp(current, st.operatorStack[|st.operatorStack| - 1].op)
    requires CreateOperationNode(st.nodeStack, st.operatorStack[|st.operatorStack| - 1].op) == Some((node, rest))
    requires next == ParseState(rest + [node], st.operatorStack[..|st.operatorStack| - 1], st.variables)
    ensures ReduceTighter(st, current) == ReduceTighter(next, current)
  {
  }

  /** Nothing to reduce: the stack is empty, an opener is on top, or the pending
      operator does not bind tighter. */
  lemma ReduceNone(st: ParseState, current: OperatorType)
    requires IsCoreOperator(current) && CoreOperators(st.operatorStack)
    requires || |st.operatorStack| == 0
             || !st.operatorStack[|st.operatorStack| - 1].Operator?
             || !StashPrevOp(current, st.operatorStack[|st.operatorStack| - 1].op)
    ensures ReduceTighter(st, current) == Some(st)
  {
  }

  /** Interning into an empty table gives slot 0. */
  lemma InternFirst(p: string)
    ensures Intern([], p) == ([p], 0)
  {
    assert [] + [p] == [p];
  }

  /** Interning a second name gives slot 1. */
  lemma InternSecond(p: string, q: string)
    requires p != q
    ensures Intern([p], q) == ([p, q], 1)
  {
    assert [p][1..] == [];
    assert [p] + [q] == [p, q];
  }

  /** Interning a third name gives slot 2. */
  lemma InternThird(p: string, q: string, r: string)
    requires p != r && q != r
    ensures Intern([p, q], r) == ([p, q, r], 2)
  {
    assert [p, q][1..] == [q];
    assert [q][1..] == [];
    assert [p, q] + [r] == [p, q, r];
  }

  // ---------------------------------------------------------------------------
  // The parser states of the examples, named after the text read so far.

  function AfterP(p: string): ParseState { ParseState([V0], [], [p]) }
  function AfterPAnd(p: string): ParseState { ParseState([V0], [Operator(And)], [p]) }
  function AfterPAndQ(p: string, q: string): ParseState { ParseState([V0, V1], [Operator(And)], [p, q]) }
  function AfterPAndQOr(p: string, q: string): ParseState { ParseState([BinaryNode(And, V0, V1)], [Operator(Or)], [p, q]) }
  function AfterPAndQOrR(p: string, q: string, r: string): ParseState
  {
    ParseState([BinaryNode(And, V0, V1), V2], [Operator(Or)], [p, q, r])
  }
  function AfterPAndAnd(p: string): ParseState { ParseState([V0], [Operator(And), Operator(And)], [p]) }
  function AfterPAndAndQ(p: string, q: string): ParseState { ParseState([V0, V1], [Operator(And), Operator(And)], [p, q]) }
  function AfterPOr(p: string): ParseState { ParseState([V0], [Operator(Or)], [p]) }
  function AfterPOrQ(p: string, q: string): ParseState { ParseState([V0, V1], [Operator(Or)], [p, q]) }
  function AfterPOrQAnd(p: string, q: string): ParseState { ParseState([V0, V1], [Operator(Or), Operator(And)], [p, q]) }
  function AfterPOrQAndR(p: string, q: string, r: string): ParseState
  {
    ParseState([V0, V1, V2], [Operator(Or), Operator(And)], [p, q, r])
  }
  function AfterPAndOpen(p: string): ParseState { ParseState([V0], [Operator(And), LeftParen], [p]) }
  function AfterPAndOpenQ(p: string, q: string): ParseState { ParseState([V0, V1], [Operator(And), LeftParen], [p, q]) }
  function AfterPAndOpenQOr(p: string, q: string): ParseState
  {
    ParseState([V0, V1], [Operator(And), LeftParen, Operator(Or)], [p, q])
  }
  function AfterPAndOpenQOrR(p: string, q: string, r: string): ParseState
  {
    ParseState([V0, V1, V2], [Operator(And), LeftParen, Operator(Or)], [p, q, r])
  }
  /** After `p & (q | r)`. */
  function AfterPAndGroup(p: string, q: string, r: string): ParseState
  {
    ParseState([V0, BinaryNode(Or, V1, V2)], [Operator(And)], [p, q, r])
  }
  function AfterNot(): ParseState { ParseState([], [Operator(Not)], []) }
  function AfterNotP(p: string): ParseState { ParseState([V0], [Operator(Not)], [p]) }
  function AfterNotPAnd(p: string): ParseState { ParseState([UnaryNode(Not, V0)], [Operator(And)], [p]) }
  function AfterNotPAndQ(p: string, q: string): ParseState { ParseState([UnaryNode(Not, V0), V1], [Operator(And)], [p, q]) }
  /** After an opener, `(` or `{`. */
  function AfterOpen(opener: TokenType): ParseState { ParseState([], [opener], []) }
  /** After an opener and `p`, and also after `p {`. */
  function AfterOpenP(opener: TokenType, p: string): ParseState { ParseState([V0], [opener], [p]) }
  /** A single finished root. */
  function Done(root: AstNode, variables: seq<string>): ParseState { ParseState([root], [], variables) }

  // ---------------------------------------------------------------------------
  // The transitions between them, each for a stream holding the right token at
  // position `i`.

  /** Token `i` of `tokens` is `token`, in a stream the parser accepts. */
  predicate Reading(tokens: seq<Token>, i: nat, token: Token)
  {
    i < |tokens| && tokens[i] == token && CoreTokens(tokens)
  }

  lemma StepP(t: seq<Token>, i: nat, p: string)
    requires Reading(t, i, Var(p))
    ensures CompileFrom(t, i, InitialState) == CompileFrom(t, i + 1, AfterP(p))
  {
    InternFirst(p);
    ReadName(InitialState, Var(p), 0, [p], AfterP(p));
    Read(t, i, Var(p), InitialState, AfterP(p));
  }

  lemma StepPAnd(t: seq<Token>, i: nat, p: string)
    requires Reading(t, i, AndToken)
    ensures CompileFrom(t, i, AfterP(p)) == CompileFrom(t, i + 1, AfterPAnd(p))
  {
    ReduceNone(AfterP(p), And);
    ReadOperator(AfterP(p), AndToken, AfterP(p), AfterPAnd(p));
    Read(t, i, AndToken, AfterP(p), AfterPAnd(p));
  }

  lemma StepPAndQ(t: seq<Token>, i: nat, p: string, q: string)
    requires p != q && Reading(t, i, Var(q))
    ensures CompileFrom(t, i, AfterPAnd(p)) == CompileFrom(t, i + 1, AfterPAndQ(p, q))
  {
    InternSecond(p, q);
    ReadName(AfterPAnd(p), Var(q), 1, [p, q], AfterPAndQ(p, q));
    Read(t, i, Var(q), AfterPAnd(p), AfterPAndQ(p, q));
  }

  lemma StepPAndQOr(t: seq<Token>, i: nat, p: string, q: string)
    requires p != q && Reading(t, i, OrToken)
    ensures CompileFrom(t, i, AfterPAndQ(p, q)) == CompileFrom(t, i + 1, AfterPAndQOr(p, q))
  {
    var reduced := Done(BinaryNode(And, V0, V1), [p, q]);
    ReduceTop(AfterPAndQ(p, q), Or, BinaryNode(And, V0, V1), [], reduced);
    ReduceNone(reduced, Or);
    ReadOperator(AfterPAndQ(p, q), OrToken, reduced, AfterPAndQOr(p, q));
    Read(t, i, OrToken, AfterPAndQ(p, q), AfterPAndQOr(p, q));
  }

  lemma StepPAndQOrR(t: seq<Token>, i: nat, p: string, q: string, r: string)
    requires p != q && p != r && q != r && Reading(t, i, Var(r))
    ensures CompileFrom(t, i, AfterPAndQOr(p, q)) == CompileFrom(t, i + 1, AfterPAndQOrR(p, q, r))
  {
    InternThird(p, q, r);
    ReadName(AfterPAndQOr(p, q), Var(r), 2, [p, q, r], AfterPAndQOrR(p, q, r));
    Read(t, i, Var(r), AfterPAndQOr(p, q), AfterPAndQOrR(p, q, r));
  }

  lemma StepPAndQOrREnd(t: seq<Token>, i: nat, p: string, q: string, r: string)
    requires p != q && p != r && q != r && Reading(t, i, EofToken)
    ensures CompileFrom(t, i, AfterPAndQOrR(p, q, r))
         == CompileFrom(t, i + 1, Done(BinaryNode(Or, BinaryNode(And, V0, V1), V2), [p, q, r]))
  {
    var done := Done(BinaryNode(Or, BinaryNode(And, V0, V1), V2), [p, q, r]);
    CloseReduce(AfterPAndQOrR(p, q, r), EOF, BinaryNode(Or, BinaryNode(And, V0, V1), V2), [], done);
    CloseEmpty(done, EOF);
    ReadCloser(AfterPAndQOrR(p, q, r), EofToken, Some(done));
    Read(t, i, EofToken, AfterPAndQOrR(p, q, r), done);
  }

  lemma StepPAndAnd(t: seq<Token>, i: nat, p: string)
    requires Reading(t, i, AndToken)
    ensures CompileFrom(t, i, AfterPAnd(p)) == CompileFrom(t, i + 1, AfterPAndAnd(p))
  {
    ReduceNone(AfterPAnd(p), And);
    ReadOperator(AfterPAnd(p), AndToken, AfterPAnd(p), AfterPAndAnd(p));
    Read(t, i, AndToken, AfterPAnd(p), AfterPAndAnd(p));
  }

  lemma StepPAndAndQ(t: seq<Token>, i: nat, p: string, q: string)
    requires p != q && Reading(t, i, Var(q))
    ensures CompileFrom(t, i, AfterPAndAnd(p)) == CompileFrom(t, i + 1, AfterPAndAndQ(p, q))
  {
    InternSecond(p, q);
    ReadName(AfterPAndAnd(p), Var(q), 1, [p, q], AfterPAndAndQ(p, q));
    Read(t, i, Var(q), AfterPAndAnd(p), AfterPAndAndQ(p, q));
  }

  lemma StepPAndAndQEnd(t: seq<Token>, i: nat, p: string, q: string)
    requires p != q && Reading(t, i, EofToken)
    ensures CompileFrom(t, i, AfterPAndAndQ(p, q)) == CompiledSyntaxTree(Some(EofToken), None, [p, q])
  {
    var once := ParseState([BinaryNode(And, V0, V1)], [Operator(And)], [p, q]);
    assert [Operator(And), Operator(And)][..1] == [Operator(And)];
    CloseReduce(AfterPAndAndQ(p, q), EOF, BinaryNode(And, V0, V1), [], once);
    CloseMissing(once, EOF);
    ReadCloser(AfterPAndAndQ(p, q), EofToken, None);
    Fail(t, i, EofToken, AfterPAndAndQ(p, q));
  }

  lemma StepPOr(t: seq<Token>, i: nat, p: string)
    requires Reading(t, i, OrToken)
    ensures CompileFrom(t, i, AfterP(p)) == CompileFrom(t, i + 1, AfterPOr(p))
  {
    ReduceNone(AfterP(p), Or);
    ReadOperator(AfterP(p), OrToken, AfterP(p), AfterPOr(p));
    Read(t, i, OrToken, AfterP(p), AfterPOr(p));
  }

  lemma StepPOrQ(t: seq<Token>, i: nat, p: string, q: string)
    requires p != q && Reading(t, i, Var(q))
    ensures CompileFrom(t, i, AfterPOr(p)) == CompileFrom(t, i + 1, AfterPOrQ(p, q))
  {
    InternSecond(p, q);
    ReadName(AfterPOr(p), Var(q), 1, [p, q], AfterPOrQ(p, q));
    Read(t, i, Var(q), AfterPOr(p), AfterPOrQ(p, q));
  }

  lemma StepPOrQAnd(t: seq<Token>, i: nat, p: string, q: string)
    requires p != q && Reading(t, i, AndToken)
    ensures CompileFrom(t, i, AfterPOrQ(p, q)) == CompileFrom(t, i + 1, AfterPOrQAnd(p, q))
  {
    ReduceNone(AfterPOrQ(p, q), And);
    ReadOperator(AfterPOrQ(p, q), AndToken, AfterPOrQ(p, q), AfterPOrQAnd(p, q));
    Read(t, i, AndToken, AfterPOrQ(p, q), AfterPOrQAnd(p, q));
  }

  lemma StepPOrQAndR(t: seq<Token>, i: nat, p: string, q: string, r: string)
    requires p != q && p != r && q != r && Reading(t, i, Var(r))
    ensures CompileFrom(t, i, AfterPOrQAnd(p, q)) == CompileFrom(t, i + 1, AfterPOrQAndR(p, q, r))
  {
    InternThird(p, q, r);
    ReadName(AfterPOrQAnd(p, q), Var(r), 2, [p, q, r], AfterPOrQAndR(p, q, r));
    Read(t, i, Var(r), AfterPOrQAnd(p, q), AfterPOrQAndR(p, q, r));
  }

  lemma StepPOrQAndREnd(t: seq<Token>, i: nat, p: string, q: string, r: string)
    requires p != q && p != r && q != r && Reading(t, i, EofToken)
    ensures CompileFrom(t, i, AfterPOrQAndR(p, q, r))
         == CompileFrom(t, i + 1, Done(BinaryNode(Or, V0, BinaryNode(And, V1, V2)), [p, q, r]))
  {
    var once := ParseState([V0, BinaryNode(And, V1, V2)], [Operator(Or)], [p, q, r]);
    var done := Done(BinaryNode(Or, V0, BinaryNode(And, V1, V2)), [p, q, r]);
    assert [V0, V1, V2][..1] == [V0];
    assert [Operator(Or), Operator(And)][..1] == [Operator(Or)];
    CloseReduce(AfterPOrQAndR(p, q, r), EOF, BinaryNode(And, V1, V2), [V0], once);
    CloseReduce(once, EOF, BinaryNode(Or, V0, BinaryNode(And, V1, V2)), [], done);
    CloseEmpty(done, EOF);
    ReadCloser(AfterPOrQAndR(p, q, r), EofToken, Some(done));
    Read(t, i, EofToken, AfterPOrQAndR(p, q, r), done);
  }

  lemma StepPAndOpen(t: seq<Token>, i: nat, p: string)
    requires Reading(t, i, OpenParen)
    ensures CompileFrom(t, i, AfterPAnd(p)) == CompileFrom(t, i + 1, AfterPAndOpen(p))
  {
    ReadOpener(AfterPAnd(p), OpenParen, AfterPAndOpen(p));
    Read(t, i, OpenParen, AfterPAnd(p), AfterPAndOpen(p));
  }

  lemma StepPAndOpenQ(t: seq<Token>, i: nat, p: string, q: string)
    requires p != q && Reading(t, i, Var(q))
    ensures CompileFrom(t, i, AfterPAndOpen(p)) == CompileFrom(t, i + 1, AfterPAndOpenQ(p, q))
  {
    InternSecond(p, q);
    ReadName(AfterPAndOpen(p), Var(q), 1, [p, q], AfterPAndOpenQ(p, q));
    Read(t, i, Var(q), AfterPAndOpen(p), AfterPAndOpenQ(p, q));
  }

  lemma StepPAndOpenQOr(t: seq<Token>, i: nat, p: string, q: string)
    requires p != q && Reading(t, i, OrToken)
    ensures CompileFrom(t, i, AfterPAndOpenQ(p, q)) == CompileFrom(t, i + 1, AfterPAndOpenQOr(p, q))
  {
    ReduceNone(AfterPAndOpenQ(p, q), Or);
    ReadOperator(AfterPAndOpenQ(p, q), OrToken, AfterPAndOpenQ(p, q), AfterPAndOpenQOr(p, q));
    Read(t, i, OrToken, AfterPAndOpenQ(p, q), AfterPAndOpenQOr(p, q));
  }

  lemma StepPAndOpenQOrR(t: seq<Token>, i: nat, p: string, q: string, r: string)
    requires p != q && p != r && q != r && Reading(t, i, Var(r))
    ensures CompileFrom(t, i, AfterPAndOpenQOr(p, q)) == CompileFrom(t, i + 1, AfterPAndOpenQOrR(p, q, r))
  {
    InternThird(p, q, r);
    ReadName(AfterPAndOpenQOr(p, q), Var(r), 2, [p, q, r], AfterPAndOpenQOrR(p, q, r));
    Read(t, i, Var(r), AfterPAndOpenQOr(p, q), AfterPAndOpenQOrR(p, q, r));
  }

  lemma StepPAndOpenQOrRClose(t: seq<Token>, i: nat, p: string, q: string, r: string)
    requires p != q && p != r && q != r && Reading(t, i, CloseParen)
    ensures CompileFrom(t, i, AfterPAndOpenQOrR(p, q, r)) == CompileFrom(t, i + 1, AfterPAndGroup(p, q, r))
  {
    var once := ParseState([V0, BinaryNode(Or, V1, V2)], [Operator(And), LeftParen], [p, q, r]);
    assert [V0, V1, V2][..1] == [V0];
    assert [Operator(And), LeftParen, Operator(Or)][..2] == [Operator(And), LeftParen];
    assert [Operator(And), LeftParen][..1] == [Operator(And)];
    CloseReduce(AfterPAndOpenQOrR(p, q, r), RightParen, BinaryNode(Or, V1, V2), [V0], once);
    CloseParenthesis(once, AfterPAndGroup(p, q, r));
    ReadCloser(AfterPAndOpenQOrR(p, q, r), CloseParen, Some(AfterPAndGroup(p, q, r)));
    Read(t, i, CloseParen, AfterPAndOpenQOrR(p, q, r), AfterPAndGroup(p, q, r));
  }

  lemma StepPAndGroupEnd(t: seq<Token>, i: nat, p: string, q: string, r: string)
    requires p != q && p != r && q != r && Reading(t, i, EofToken)
    ensures CompileFrom(t, i, AfterPAndGroup(p, q, r))
         == CompileFrom(t, i + 1, Done(BinaryNode(And, V0, BinaryNode(Or, V1, V2)), [p, q, r]))
  {
    var done := Done(BinaryNode(And, V0, BinaryNode(Or, V1, V2)), [p, q, r]);
    CloseReduce(AfterPAndGroup(p, q, r), EOF, BinaryNode(And, V0, BinaryNode(Or, V1, V2)), [], done);
    CloseEmpty(done, EOF);
    ReadCloser(AfterPAndGroup(p, q, r), EofToken, Some(done));
    Read(t, i, EofToken, AfterPAndGroup(p, q, r), done);
  }

  lemma StepNot(t: seq<Token>, i: nat)
    requires Reading(t, i, NotToken)
    ensures CompileFrom(t, i, InitialState) == CompileFrom(t, i + 1, AfterNot())
  {
    ReduceNone(InitialState, Not);
    ReadOperator(InitialState, NotToken, InitialState, AfterNot());
    Read(t, i, NotToken, InitialState, AfterNot());
  }

  lemma StepNotP(t: seq<Token>, i: nat, p: string)
    requires Reading(t, i, Var(p))
    ensures CompileFrom(t, i, AfterNot()) == CompileFrom(t, i + 1, AfterNotP(p))
  {
    InternFirst(p);
    ReadName(AfterNot(), Var(p), 0, [p], AfterNotP(p));
    Read(t, i, Var(p), AfterNot(), AfterNotP(p));
  }

  lemma StepNotPAnd(t: seq<Token>, i: nat, p: string)
    requires Reading(t, i, AndToken)
    ensures CompileFrom(t, i, AfterNotP(p)) == CompileFrom(t, i + 1, AfterNotPAnd(p))
  {
    var reduced := Done(UnaryNode(Not, V0), [p]);
    ReduceTop(AfterNotP(p), And, UnaryNode(Not, V0), [], reduced);
    ReduceNone(reduced, And);
    ReadOperator(AfterNotP(p), AndToken, reduced, AfterNotPAnd(p));
    Read(t, i, AndToken, AfterNotP(p), AfterNotPAnd(p));
  }

  lemma StepNotPAndQ(t: seq<Token>, i: nat, p: string, q: string)
    requires p != q && Reading(t, i, Var(q))
    ensures CompileFrom(t, i, AfterNotPAnd(p)) == CompileFrom(t, i + 1, AfterNotPAndQ(p, q))
  {
    InternSecond(p, q);
    ReadName(AfterNotPAnd(p), Var(q), 1, [p, q], AfterNotPAndQ(p, q));
    Read(t, i, Var(q), AfterNotPAnd(p), AfterNotPAndQ(p, q));
  }

  lemma StepNotPAndQEnd(t: seq<Token>, i: nat, p: string, q: string)
    requires p != q && Reading(t, i, EofToken)
    ensures CompileFrom(t, i, AfterNotPAndQ(p, q))
         == CompileFrom(t, i + 1, Done(BinaryNode(And, UnaryNode(Not, V0), V1), [p, q]))
  {
    var done := Done(BinaryNode(And, UnaryNode(Not, V0), V1), [p, q]);
    CloseReduce(AfterNotPAndQ(p, q), EOF, BinaryNode(And, UnaryNode(Not, V0), V1), [], done);
    CloseEmpty(done, EOF);
    ReadCloser(AfterNotPAndQ(p, q), EofToken, Some(done));
    Read(t, i, EofToken, AfterNotPAndQ(p, q), done);
  }

  lemma StepOpen(t: seq<Token>, i: nat, opener: Token)
    requires (opener == OpenBrace || opener == OpenParen) && Reading(t, i, opener)
    ensures CompileFrom(t, i, InitialState) == CompileFrom(t, i + 1, AfterOpen(opener.tokenType))
  {
    ReadOpener(InitialState, opener, AfterOpen(opener.tokenType));
    Read(t, i, opener, InitialState, AfterOpen(opener.tokenType));
  }

  lemma StepOpenP(t: seq<Token>, i: nat, opener: TokenType, p: string)
    requires (opener == LeftBrace || opener == LeftParen) && Reading(t, i, Var(p))
    ensures CompileFrom(t, i, AfterOpen(opener)) == CompileFrom(t, i + 1, AfterOpenP(opener, p))
  {
    InternFirst(p);
    ReadName(AfterOpen(opener), Var(p), 0, [p], AfterOpenP(opener, p));
    Read(t, i, Var(p), AfterOpen(opener), AfterOpenP(opener, p));
  }

  lemma StepPBrace(t: seq<Token>, i: nat, p: string)
    requires Reading(t, i, OpenBrace)
    ensures CompileFrom(t, i, AfterP(p)) == CompileFrom(t, i + 1, AfterOpenP(LeftBrace, p))
  {
    ReadOpener(AfterP(p), OpenBrace, AfterOpenP(LeftBrace, p));
    Read(t, i, OpenBrace, AfterP(p), AfterOpenP(LeftBrace, p));
  }

  lemma StepBracePClose(t: seq<Token>, i: nat, p: string)
    requires Reading(t, i, CloseBrace)
    ensures CompileFrom(t, i, AfterOpenP(LeftBrace, p)) == CompileFrom(t, i + 1, Done(SubexpressionNode(V0), [p]))
  {
    CloseBraceWrap(AfterOpenP(LeftBrace, p), Done(SubexpressionNode(V0), [p]));
    ReadCloser(AfterOpenP(LeftBrace, p), CloseBrace, Some(Done(SubexpressionNode(V0), [p])));
    Read(t, i, CloseBrace, AfterOpenP(LeftBrace, p), Done(SubexpressionNode(V0), [p]));
  }

  lemma StepParenPBrace(t: seq<Token>, i: nat, p: string)
    requires Reading(t, i, CloseBrace)
    ensures CompileFrom(t, i, AfterOpenP(LeftParen, p)) == CompiledSyntaxTree(Some(CloseBrace), None, [p])
  {
    CloseMismatch(AfterOpenP(LeftParen, p));
    ReadCloser(AfterOpenP(LeftParen, p), CloseBrace, None);
    Fail(t, i, CloseBrace, AfterOpenP(LeftParen, p));
  }

  /** A closer or the end of input after a finished root changes nothing. */
  lemma StepDone(t: seq<Token>, i: nat, root: AstNode, variables: seq<string>, closer: Token)
    requires closer.tokenType == RightParen || closer.tokenType == RightBrace || closer.tokenType == EOF
    requires Distinct(variables) && Reading(t, i, closer)
    ensures CompileFrom(t, i, Done(root, variables)) == CompileFrom(t, i + 1, Done(root, variables))
  {
    CloseEmpty(Done(root, variables), closer.tokenType);
    ReadCloser(Done(root, variables), closer, Some(Done(root, variables)));
    Read(t, i, closer, Done(root, variables), Done(root, variables));
  }

  // ---------------------------------------------------------------------------
  // Precedence.

  /** `p & q | r`: AND binds tighter than OR, so the conjunction is reduced when
      the disjunction arrives and becomes its left operand. */
  lemma AndBeforeOr(p: string, q: string, r: string)
    requires p != q && p != r && q != r
    ensures CoreTokens([Var(p), AndToken, Var(q), OrToken, Var(r), EofToken])
    ensures Compile([Var(p), AndToken, Var(q), OrToken, Var(r), EofToken])
         == CompiledSyntaxTree(None, Some(BinaryNode(Or, BinaryNode(And, V0, V1), V2)), [p, q, r])
  {
    var t := [Var(p), AndToken, Var(q), OrToken, Var(r), EofToken];
    StepP(t, 0, p);
    StepPAnd(t, 1, p);
    StepPAndQ(t, 2, p, q);
    StepPAndQOr(t, 3, p, q);
    StepPAndQOrR(t, 4, p, q, r);
    StepPAndQOrREnd(t, 5, p, q, r);
  }

  /** `p | q & r`: OR does not bind tighter than AND, so the conjunction is
      pushed on top and reduced first, becoming the right operand. */
  lemma OrAfterAnd(p: string, q: string, r: string)
    requires p != q && p != r && q != r
    ensures CoreTokens([Var(p), OrToken, Var(q), AndToken, Var(r), EofToken])
    ensures Compile([Var(p), OrToken, Var(q), AndToken, Var(r), EofToken])
         == CompiledSyntaxTree(None, Some(BinaryNode(Or, V0, BinaryNode(And, V1, V2))), [p, q, r])
  {
    var t := [Var(p), OrToken, Var(q), AndToken, Var(r), EofToken];
    StepP(t, 0, p);
    StepPOr(t, 1, p);
    StepPOrQ(t, 2, p, q);
    StepPOrQAnd(t, 3, p, q);
    StepPOrQAndR(t, 4, p, q, r);
    StepPOrQAndREnd(t, 5, p, q, r);
  }

  /** `p & (q | r)`: parentheses override precedence; the disjunction is reduced
      at `)` and becomes the right operand of the conjunction. */
  lemma ParenthesesGroup(p: string, q: string, r: string)
    requires p != q && p != r && q != r
    ensures CoreTokens([Var(p), AndToken, OpenParen, Var(q), OrToken, Var(r), CloseParen, EofToken])
    ensures Compile([Var(p), AndToken, OpenParen, Var(q), OrToken, Var(r), CloseParen, EofToken])
         == CompiledSyntaxTree(None, Some(BinaryNode(And, V0, BinaryNode(Or, V1, V2))), [p, q, r])
  {
    var t := [Var(p), AndToken, OpenParen, Var(q), OrToken, Var(r), CloseParen, EofToken];
    StepP(t, 0, p);
    StepPAnd(t, 1, p);
    StepPAndOpen(t, 2, p);
    StepPAndOpenQ(t, 3, p, q);
    StepPAndOpenQOr(t, 4, p, q);
    StepPAndOpenQOrR(t, 5, p, q, r);
    StepPAndOpenQOrRClose(t, 6, p, q, r);
    StepPAndGroupEnd(t, 7, p, q, r);
  }

  /** `!p & q`: NOT binds tightest, so it takes only `p`. */
  lemma NotBeforeAnd(p: string, q: string)
    requires p != q
    ensures CoreTokens([NotToken, Var(p), AndToken, Var(q), EofToken])
    ensures Compile([NotToken, Var(p), AndToken, Var(q), EofToken])
         == CompiledSyntaxTree(None, Some(BinaryNode(And, UnaryNode(Not, V0), V1)), [p, q])
  {
    var t := [NotToken, Var(p), AndToken, Var(q), EofToken];
    StepNot(t, 0);
    StepNotP(t, 1, p);
    StepNotPAnd(t, 2, p);
    StepNotPAndQ(t, 3, p, q);
    StepNotPAndQEnd(t, 4, p, q);
  }

  // ---------------------------------------------------------------------------
  // Closers.

  /** `p)`: a closer with no opener on the stack is accepted and changes nothing. */
  lemma StrayCloser(p: string)
    ensures CoreTokens([Var(p), CloseParen, EofToken])
    ensures Compile([Var(p), CloseParen, EofToken]) == CompiledSyntaxTree(None, Some(V0), [p])
  {
    var t := [Var(p), CloseParen, EofToken];
    StepP(t, 0, p);
    StepDone(t, 1, V0, [p], CloseParen);
    StepDone(t, 2, V0, [p], EofToken);
  }

  /** `{p}`: braces wrap the top node in a subexpression. */
  lemma BracesWrap(p: string)
    ensures CoreTokens([OpenBrace, Var(p), CloseBrace, EofToken])
    ensures Compile([OpenBrace, Var(p), CloseBrace, EofToken]) == CompiledSyntaxTree(None, Some(SubexpressionNode(V0)), [p])
  {
    var t := [OpenBrace, Var(p), CloseBrace, EofToken];
    StepOpen(t, 0, OpenBrace);
    StepOpenP(t, 1, LeftBrace, p);
    StepBracePClose(t, 2, p);
    StepDone(t, 3, SubexpressionNode(V0), [p], EofToken);
  }

  /** `p {}`: empty braces wrap whatever node is on top, here `p`. */
  lemma EmptyBracesWrapTop(p: string)
    ensures CoreTokens([Var(p), OpenBrace, CloseBrace, EofToken])
    ensures Compile([Var(p), OpenBrace, CloseBrace, EofToken]) == CompiledSyntaxTree(None, Some(SubexpressionNode(V0)), [p])
  {
    var t := [Var(p), OpenBrace, CloseBrace, EofToken];
    StepP(t, 0, p);
    StepPBrace(t, 1, p);
    StepBracePClose(t, 2, p);
    StepDone(t, 3, SubexpressionNode(V0), [p], EofToken);
  }

  // ---------------------------------------------------------------------------
  // Errors.

  /** `(p}`: a brace cannot close a parenthesis; the error is the `}`. */
  lemma MismatchedCloser(p: string)
    ensures CoreTokens([OpenParen, Var(p), CloseBrace, EofToken])
    ensures Compile([OpenParen, Var(p), CloseBrace, EofToken]) == CompiledSyntaxTree(Some(CloseBrace), None, [p])
  {
    var t := [OpenParen, Var(p), CloseBrace, EofToken];
    StepOpen(t, 0, OpenParen);
    StepOpenP(t, 1, LeftParen, p);
    StepParenPBrace(t, 2, p);
  }

  /** `p & & q`: equal operators are not reduced when pushed, so the missing
      operand shows only in the closing pass; the error is the end of input. */
  lemma MissingOperandAtEnd(p: string, q: string)
    requires p != q
    ensures CoreTokens([Var(p), AndToken, AndToken, Var(q), EofToken])
    ensures Compile([Var(p), AndToken, AndToken, Var(q), EofToken]) == CompiledSyntaxTree(Some(EofToken), None, [p, q])
  {
    var t := [Var(p), AndToken, AndToken, Var(q), EofToken];
    StepP(t, 0, p);
    StepPAnd(t, 1, p);
    StepPAndAnd(t, 2, p);
    StepPAndAndQ(t, 3, p, q);
    StepPAndAndQEnd(t, 4, p, q);
  }
}
