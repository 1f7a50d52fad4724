/** What a successful compilation guarantees about its tree and variable table, and
    how the parser stops at an error token. */
module CompilerFacts {
  import opened Util
  import opened Scanner
  import opened Compiler

  /** Names of the variable tokens, in stream order. */
  function VariableNames(tokens: seq<Token>): seq<string>
  {
    if tokens == [] then []
    else
      var last := tokens[|tokens| - 1];
      VariableNames(tokens[..|tokens| - 1]) + (if last.tokenType == Variable then [last.lexeme] else [])
  }

  /** Reference variable table: `names` without repetitions, each name kept at its
      first occurrence. */
  function FirstOccurrences(names: seq<string>): seq<string>
  {
    if names == [] then []
    else
      var earlier := FirstOccurrences(names[..|names| - 1]);
      if names[|names| - 1] in earlier then earlier else earlier + [names[|names| - 1]]
  }

  /** The operand tokens (variables and literals), in stream order. */
  function OperandTokens(tokens: seq<Token>): seq<Token>
  {
    if tokens == [] then []
    else
      var last := tokens[|tokens| - 1];
      OperandTokens(tokens[..|tokens| - 1]) + (if last.tokenType == Variable || last.tokenType.Literal? then [last] else [])
  }

  /** The operators of the operator tokens, counted with multiplicity. */
  function OperatorTokens(tokens: seq<Token>): multiset<OperatorType>
  {
    if tokens == [] then multiset{}
    else
      var last := tokens[|tokens| - 1];
      OperatorTokens(tokens[..|tokens| - 1]) + (if last.tokenType.Operator? then multiset{last.tokenType.op} else multiset{})
  }

  /** The leaves (variable and literal nodes) of a tree, left to right. */
  function Leaves(a: AstNode): seq<AstNode>
  {
    match a
    case BinaryNode(_, left, right) => Leaves(left) + Leaves(right)
    case UnaryNode(_, left) => Leaves(left)
    case SubexpressionNode(left) => Leaves(left)
    case _ => [a]
  }

  /** The operators of the binary and unary nodes of a tree. */
  function Operations(a: AstNode): multiset<OperatorType>
  {
    match a
    case BinaryNode(op, left, right) => Operations(left) + Operations(right) + multiset{op}
    case UnaryNode(op, left) => Operations(left) + multiset{op}
    case SubexpressionNode(left) => Operations(left)
    case _ => multiset{}
  }

  function StackLeaves(nodes: seq<AstNode>): seq<AstNode>
  {
    if nodes == [] then [] else StackLeaves(nodes[..|nodes| - 1]) + Leaves(nodes[|nodes| - 1])
  }

  function StackOperations(nodes: seq<AstNode>): multiset<OperatorType>
  {
    if nodes == [] then multiset{} else StackOperations(nodes[..|nodes| - 1]) + Operations(nodes[|nodes| - 1])
  }

  /** The operators waiting on an operator stack. */
  function PendingOperations(stack: seq<TokenType>): multiset<OperatorType>
  {
    if stack == [] then multiset{}
    else
      var top := stack[|stack| - 1];
      PendingOperations(stack[..|stack| - 1]) + (if top.Operator? then multiset{top.op} else multiset{})
  }

  /** A leaf node stands for an operand token: a variable node names the token's
      lexeme through the table, a literal node carries the token's value. */
  predicate LeafMatches(leaf: AstNode, token: Token, variables: seq<string>)
  {
    match leaf
    case VariableNode(location) => token.tokenType == Variable && location < |variables| && variables[location] == token.lexeme
    case LiteralNode(value) => token.tokenType == TokenType.Literal(value)
    case _ => false
  }

  predicate LeavesMatch(leaves: seq<AstNode>, tokens: seq<Token>, variables: seq<string>)
  {
    |leaves| == |tokens| && forall k :: 0 <= k < |leaves| ==> LeafMatches(leaves[k], tokens[k], variables)
  }

  /** Every node of a stack is well formed for a table of `n` names. */
  predicate AllWellFormed(nodes: seq<AstNode>, n: nat)
  {
    forall k :: 0 <= k < |nodes| ==> WellFormed(nodes[k], n)
  }

  /** The parser invariant after processing `processed`: the table is the first
      occurrences of the variable names read so far; the stacked nodes are well
      formed, hold the operands read so far in order, and together with the
      pending operators hold every operator read so far. */
  predicate Invariant(st: ParseState, processed: seq<Token>)
  {
    && st.variables == FirstOccurrences(VariableNames(processed))
    && AllWellFormed(st.nodeStack, |st.variables|)
    && LeavesMatch(StackLeaves(st.nodeStack), OperandTokens(processed), st.variables)
    && StackOperations(st.nodeStack) + PendingOperations(st.operatorStack) == OperatorTokens(processed)
    && CoreOperators(st.operatorStack)
  }

  lemma StackAppend(xs: seq<AstNode>, ys: seq<AstNode>)
    ensures StackLeaves(xs + ys) == StackLeaves(xs) + StackLeaves(ys)
    ensures StackOperations(xs + ys) == StackOperations(xs) + StackOperations(ys)
  {
    StackLeavesAppend(xs, ys);
    StackOperationsAppend(xs, ys);
  }

  lemma {:induction false} StackLeavesAppend(xs: seq<AstNode>, ys: seq<AstNode>)
    ensures StackLeaves(xs + ys) == StackLeaves(xs) + StackLeaves(ys)
    decreases |ys|
  {
    if ys == [] {
      assert xs + ys == xs;
    } else {
      var init, top := ys[..|ys| - 1], ys[|ys| - 1];
      var whole := xs + ys;
      calc {
        StackLeaves(whole);
        { assert whole[..|whole| - 1] == xs + init && whole[|whole| - 1] == top; }
        StackLeaves(xs + init) + Leaves(top);
        { StackLeavesAppend(xs, init); }
        StackLeaves(xs) + StackLeaves(init) + Leaves(top);
        StackLeaves(xs) + (StackLeaves(init) + Leaves(top));
      }
    }
  }

  lemma {:induction false} StackOperationsAppend(xs: seq<AstNode>, ys: seq<AstNode>)
    ensures StackOperations(xs + ys) == StackOperations(xs) + StackOperations(ys)
    decreases |ys|
  {
    if ys == [] {
      assert xs + ys == xs;
    } else {
      var init, top := ys[..|ys| - 1], ys[|ys| - 1];
      var whole := xs + ys;
      calc {
        StackOperations(whole);
        { assert whole[..|whole| - 1] == xs + init && whole[|whole| - 1] == top; }
        StackOperations(xs + init) + Operations(top);
        { StackOperationsAppend(xs, init); }
        StackOperations(xs) + StackOperations(init) + Operations(top);
        { MultisetAssociative(StackOperations(xs), StackOperations(init), Operations(top)); }
        StackOperations(xs) + (StackOperations(init) + Operations(top));
        { assert ys[..|ys| - 1] == init; }
        StackOperations(xs) + StackOperations(ys);
      }
    }
  }

  lemma MultisetAssociative<T>(a: multiset<T>, b: multiset<T>, c: multiset<T>)
    ensures a + b + c == a + (b + c)
  {
  }

  lemma StackSingle(a: AstNode)
    ensures StackLeaves([a]) == Leaves(a) && StackOperations([a]) == Operations(a)
  {
    assert [a][..0] == [];
  }

  /** Replacing the top node by one with the same leaves and operations changes
      neither the stack's leaves nor its operations. */
  lemma ReplaceTop(nodes: seq<AstNode>, x: AstNode)
    requires |nodes| > 0
    requires Leaves(x) == Leaves(nodes[|nodes| - 1]) && Operations(x) == Operations(nodes[|nodes| - 1])
    ensures StackLeaves(nodes[..|nodes| - 1] + [x]) == StackLeaves(nodes)
    ensures StackOperations(nodes[..|nodes| - 1] + [x]) == StackOperations(nodes)
  {
    var s := nodes[..|nodes| - 1] + [x];
    assert s[..|s| - 1] == nodes[..|nodes| - 1];
  }

  lemma StackPair(a: AstNode, b: AstNode)
    ensures StackLeaves([a, b]) == Leaves(a) + Leaves(b)
    ensures StackOperations([a, b]) == Operations(a) + Operations(b)
  {
    StackAppend([a], [b]);
    StackSingle(a);
    StackSingle(b);
    assert [a] + [b] == [a, b];
  }

  lemma StackOfChildren(node: AstNode)
    requires node.BinaryNode? || node.UnaryNode?
    ensures StackLeaves(node.Children()) == Leaves(node)
    ensures StackOperations(node.Children()) + multiset{node.op} == Operations(node)
  {
    if node.BinaryNode? {
      StackPair(node.left, node.right);
    } else {
      StackSingle(node.left);
    }
  }

  /** Folding an operation node's children into the node keeps the leaves and adds
      the node's operator. */
  lemma FoldChildren(rest: seq<AstNode>, node: AstNode)
    requires node.BinaryNode? || node.UnaryNode?
    ensures StackLeaves(rest + [node]) == StackLeaves(rest + node.Children())
    ensures StackOperations(rest + [node]) == StackOperations(rest + node.Children()) + multiset{node.op}
  {
    StackAppend(rest, node.Children());
    StackAppend(rest, [node]);
    StackSingle(node);
    StackOfChildren(node);
  }

  /** The stack effect of building an operation node: the same leaves, one more
      operator in the tree. */
  lemma CreateNodeStacks(nodes: seq<AstNode>, op: OperatorType)
    requires IsCoreOperator(op) && CreateOperationNode(nodes, op).Some?
    ensures var res := CreateOperationNode(nodes, op).value;
      && StackLeaves(res.1 + [res.0]) == StackLeaves(nodes)
      && StackOperations(res.1 + [res.0]) == StackOperations(nodes) + multiset{op}
  {
    var res := CreateOperationNode(nodes, op).value;
    FoldChildren(res.1, res.0);
  }

  lemma CreateNodeWellFormed(nodes: seq<AstNode>, op: OperatorType, n: nat)
    requires IsCoreOperator(op) && CreateOperationNode(nodes, op).Some?
    requires AllWellFormed(nodes, n)
    ensures var res := CreateOperationNode(nodes, op).value;
      AllWellFormed(res.1 + [res.0], n)
  {
    var res := CreateOperationNode(nodes, op).value;
    var rest := res.1;
    assert rest == nodes[..|rest|];
    assert res.0.left == nodes[|rest|];
    if op != Not {
      assert res.0.right == nodes[|rest| + 1];
    }
  }

  /** Building an operation node from the stack top keeps the invariant once the
      operator is taken off the operator stack. */
  lemma CreateNodeKeepsInvariant(st: ParseState, processed: seq<Token>)
    requires Invariant(st, processed) && |st.operatorStack| > 0
    requires st.operatorStack[|st.operatorStack| - 1].Operator?
    requires CreateOperationNode(st.nodeStack, st.operatorStack[|st.operatorStack| - 1].op).Some?
    ensures var op := st.operatorStack[|st.operatorStack| - 1].op;
      var res := CreateOperationNode(st.nodeStack, op).value;
      Invariant(ParseState(res.1 + [res.0], st.operatorStack[..|st.operatorStack| - 1], st.variables), processed)
  {
    var op := st.operatorStack[|st.operatorStack| - 1].op;
    CreateNodeStacks(st.nodeStack, op);
    CreateNodeWellFormed(st.nodeStack, op, |st.variables|);
  }

  lemma {:induction false} ReduceTighterKeepsInvariant(st: ParseState, current: OperatorType, processed: seq<Token>)
    requires IsCoreOperator(current) && Invariant(st, processed)
    requires ReduceTighter(st, current).Some?
    ensures Invariant(ReduceTighter(st, current).value, processed)
    decreases |st.operatorStack|
  {
    if |st.operatorStack| > 0 {
      var top := st.operatorStack[|st.operatorStack| - 1];
      if top.Operator? && StashPrevOp(current, top.op) {
        var res := CreateOperationNode(st.nodeStack, top.op).value;
        CreateNodeKeepsInvariant(st, processed);
        ReduceTighterKeepsInvariant(ParseState(res.1 + [res.0], st.operatorStack[..|st.operatorStack| - 1], st.variables), current, processed);
      }
    }
  }

  lemma PopOpener(st: ParseState, processed: seq<Token>)
    requires Invariant(st, processed) && |st.operatorStack| > 0
    requires !st.operatorStack[|st.operatorStack| - 1].Operator?
    ensures Invariant(st.(operatorStack := st.operatorStack[..|st.operatorStack| - 1]), processed)
  {
  }

  lemma WrapTop(st: ParseState, processed: seq<Token>)
    requires Invariant(st, processed) && |st.operatorStack| > 0 && |st.nodeStack| > 0
    requires !st.operatorStack[|st.operatorStack| - 1].Operator?
    ensures var nodes := st.nodeStack;
      Invariant(ParseState(nodes[..|nodes| - 1] + [SubexpressionNode(nodes[|nodes| - 1])], st.operatorStack[..|st.operatorStack| - 1], st.variables), processed)
  {
    var nodes := st.nodeStack;
    var top := nodes[|nodes| - 1];
    ReplaceTop(nodes, SubexpressionNode(top));
    var wrapped := nodes[..|nodes| - 1] + [SubexpressionNode(top)];
    assert AllWellFormed(wrapped, |st.variables|) by {
      forall k | 0 <= k < |wrapped| ensures WellFormed(wrapped[k], |st.variables|) {
        if k < |nodes| - 1 {
          assert wrapped[k] == nodes[k];
        }
      }
    }
  }

  lemma {:induction false} CloseGroupKeepsInvariant(st: ParseState, closer: TokenType, processed: seq<Token>)
    requires closer == RightParen || closer == RightBrace || closer == EOF
    requires Invariant(st, processed)
    requires CloseGroup(st, closer).Some?
    ensures Invariant(CloseGroup(st, closer).value, processed)
    decreases |st.operatorStack|
  {
    if |st.operatorStack| > 0 {
      var top := st.operatorStack[|st.operatorStack| - 1];
      var popped := st.operatorStack[..|st.operatorStack| - 1];
      var nodes := st.nodeStack;
      if top.Operator? {
        var res := CreateOperationNode(nodes, top.op).value;
        CreateNodeKeepsInvariant(st, processed);
        CloseGroupKeepsInvariant(ParseState(res.1 + [res.0], popped, st.variables), closer, processed);
      } else if closer == RightBrace && top == LeftBrace && |nodes| > 0 && nodes[|nodes| - 1].Op() != Subexpression {
        WrapTop(st, processed);
      } else {
        PopOpener(st, processed);
      }
    }
  }

  /** Growing the table at its end keeps every leaf's meaning. */
  lemma LeavesMatchExtend(leaves: seq<AstNode>, tokens: seq<Token>, variables: seq<string>, extended: seq<string>)
    requires LeavesMatch(leaves, tokens, variables)
    requires |variables| <= |extended| && extended[..|variables|] == variables
    ensures LeavesMatch(leaves, tokens, extended)
  {
    forall k | 0 <= k < |leaves|
      ensures LeafMatches(leaves[k], tokens[k], extended)
    {
      assert LeafMatches(leaves[k], tokens[k], variables);
      if leaves[k].VariableNode? {
        assert extended[leaves[k].location] == variables[leaves[k].location];
      }
    }
  }

  lemma {:induction false} WellFormedExtend(a: AstNode, n: nat, m: nat)
    requires WellFormed(a, n) && n <= m
    ensures WellFormed(a, m)
  {
    match a {
      case BinaryNode(_, left, right) => WellFormedExtend(left, n, m); WellFormedExtend(right, n, m);
      case UnaryNode(_, left) => WellFormedExtend(left, n, m);
      case SubexpressionNode(left) => WellFormedExtend(left, n, m);
      case _ =>
    }
  }

  /** The token summaries after one more token. */
  lemma SummariesAppend(processed: seq<Token>, token: Token)
    ensures token.tokenType == Variable ==> VariableNames(processed + [token]) == VariableNames(processed) + [token.lexeme]
    ensures token.tokenType != Variable ==> VariableNames(processed + [token]) == VariableNames(processed)
    ensures token.tokenType == Variable || token.tokenType.Literal? ==> OperandTokens(processed + [token]) == OperandTokens(processed) + [token]
    ensures !(token.tokenType == Variable || token.tokenType.Literal?) ==> OperandTokens(processed + [token]) == OperandTokens(processed)
    ensures token.tokenType.Operator? ==> OperatorTokens(processed + [token]) == OperatorTokens(processed) + multiset{token.tokenType.op}
    ensures !token.tokenType.Operator? ==> OperatorTokens(processed + [token]) == OperatorTokens(processed)
  {
    var after := processed + [token];
    assert after[..|after| - 1] == processed;
    assert VariableNames(processed) + [] == VariableNames(processed);
    assert OperandTokens(processed) + [] == OperandTokens(processed);
  }

  /** A closer adds nothing to the summaries, so the invariant carries over. */
  lemma CloserKeepsInvariant(st: ParseState, token: Token, processed: seq<Token>)
    requires Invariant(st, processed)
    requires token.tokenType == RightParen || token.tokenType == RightBrace || token.tokenType == EOF
    requires Step(st, token).Some?
    ensures Invariant(Step(st, token).value, processed + [token])
  {
    SummariesAppend(processed, token);
    CloseGroupKeepsInvariant(st, token.tokenType, processed);
  }

  /** Interning a name into the first-occurrence table of some names gives the
      first-occurrence table of the names followed by it. */
  lemma InternFirstOccurrences(names: seq<string>, name: string)
    ensures Intern(FirstOccurrences(names), name).0 == FirstOccurrences(names + [name])
  {
    FirstOccurrencesMembers(names);
    var after := names + [name];
    assert after[..|after| - 1] == names;
  }

  lemma AllWellFormedExtend(nodes: seq<AstNode>, n: nat, m: nat)
    requires AllWellFormed(nodes, n) && n <= m
    ensures AllWellFormed(nodes, m)
  {
    forall k | 0 <= k < |nodes| ensures WellFormed(nodes[k], m) {
      WellFormedExtend(nodes[k], n, m);
    }
  }

  /** One more leaf standing for one more operand token. */
  lemma LeavesMatchSnoc(leaves: seq<AstNode>, tokens: seq<Token>, variables: seq<string>, leaf: AstNode, token: Token)
    requires LeavesMatch(leaves, tokens, variables) && LeafMatches(leaf, token, variables)
    ensures LeavesMatch(leaves + [leaf], tokens + [token], variables)
  {
    forall k | 0 <= k < |leaves| + 1
      ensures LeafMatches((leaves + [leaf])[k], (tokens + [token])[k], variables)
    {
      if k < |leaves| {
        assert (leaves + [leaf])[k] == leaves[k] && (tokens + [token])[k] == tokens[k];
      }
    }
  }

  lemma AllWellFormedSnoc(nodes: seq<AstNode>, n: nat, node: AstNode)
    requires AllWellFormed(nodes, n) && WellFormed(node, n)
    ensures AllWellFormed(nodes + [node], n)
  {
    forall k | 0 <= k < |nodes| + 1 ensures WellFormed((nodes + [node])[k], n) {
      if k < |nodes| {
        assert (nodes + [node])[k] == nodes[k];
      }
    }
  }

  /** Pushing a leaf adds it to the stack's leaves and adds no operator. */
  lemma PushLeaf(nodes: seq<AstNode>, leaf: AstNode)
    requires leaf.VariableNode? || leaf.LiteralNode?
    ensures StackLeaves(nodes + [leaf]) == StackLeaves(nodes) + [leaf]
    ensures StackOperations(nodes + [leaf]) == StackOperations(nodes)
  {
    var s := nodes + [leaf];
    assert s[..|s| - 1] == nodes;
  }

  /** Reading a variable token: interning keeps the table equal to the first
      occurrences, and the new leaf names the token. */
  lemma VariableKeepsInvariant(st: ParseState, token: Token, processed: seq<Token>)
    requires Invariant(st, processed) && token.tokenType == Variable
    ensures Step(st, token).Some? && Invariant(Step(st, token).value, processed + [token])
  {
    var (variables, location) := Intern(st.variables, token.lexeme);
    var leaf := VariableNode(location);
    var next := ParseState(st.nodeStack + [leaf], st.operatorStack, variables);
    assert Step(st, token) == Some(next);
    var after := processed + [token];
    SummariesAppend(processed, token);
    assert variables == FirstOccurrences(VariableNames(after)) by {
      InternFirstOccurrences(VariableNames(processed), token.lexeme);
    }
    assert AllWellFormed(next.nodeStack, |variables|) by {
      AllWellFormedExtend(st.nodeStack, |st.variables|, |variables|);
      AllWellFormedSnoc(st.nodeStack, |variables|, leaf);
    }
    PushLeaf(st.nodeStack, leaf);
    assert LeavesMatch(StackLeaves(next.nodeStack), OperandTokens(after), variables) by {
      assert variables[..|st.variables|] == st.variables;
      LeavesMatchExtend(StackLeaves(st.nodeStack), OperandTokens(processed), st.variables, variables);
      LeavesMatchSnoc(StackLeaves(st.nodeStack), OperandTokens(processed), variables, leaf, token);
    }
  }

  lemma LiteralKeepsInvariant(st: ParseState, token: Token, processed: seq<Token>)
    requires Invariant(st, processed) && token.tokenType.Literal?
    ensures Step(st, token).Some? && Invariant(Step(st, token).value, processed + [token])
  {
    var leaf := LiteralNode(token.tokenType.value);
    var next := st.(nodeStack := st.nodeStack + [leaf]);
    assert Step(st, token) == Some(next);
    var after := processed + [token];
    SummariesAppend(processed, token);
    assert AllWellFormed(next.nodeStack, |st.variables|) by {
      AllWellFormedSnoc(st.nodeStack, |st.variables|, leaf);
    }
    PushLeaf(st.nodeStack, leaf);
    assert LeavesMatch(StackLeaves(next.nodeStack), OperandTokens(after), st.variables) by {
      LeavesMatchSnoc(StackLeaves(st.nodeStack), OperandTokens(processed), st.variables, leaf, token);
    }
  }

  lemma OpenerKeepsInvariant(st: ParseState, token: Token, processed: seq<Token>)
    requires Invariant(st, processed) && (token.tokenType == LeftParen || token.tokenType == LeftBrace)
    ensures Step(st, token).Some? && Invariant(Step(st, token).value, processed + [token])
  {
    SummariesAppend(processed, token);
    var ops := st.operatorStack + [token.tokenType];
    assert ops[..|ops| - 1] == st.operatorStack;
  }

  lemma OperatorKeepsInvariant(st: ParseState, token: Token, processed: seq<Token>)
    requires Invariant(st, processed) && token.tokenType.Operator? && IsCoreOperator(token.tokenType.op)
    requires Step(st, token).Some?
    ensures Invariant(Step(st, token).value, processed + [token])
  {
    SummariesAppend(processed, token);
    var op := token.tokenType.op;
    ReduceTighterKeepsInvariant(st, op, processed);
    var reduced := ReduceTighter(st, op).value;
    var ops := reduced.operatorStack + [Operator(op)];
    assert ops[..|ops| - 1] == reduced.operatorStack;
  }

  lemma StepKeepsInvariant(st: ParseState, token: Token, processed: seq<Token>)
    requires Invariant(st, processed)
    requires token.tokenType.Operator? ==> IsCoreOperator(token.tokenType.op)
    requires Step(st, token).Some?
    ensures Invariant(Step(st, token).value, processed + [token])
  {
    match token.tokenType {
      case Variable => VariableKeepsInvariant(st, token, processed);
      case Literal(_) => LiteralKeepsInvariant(st, token, processed);
      case LeftParen => OpenerKeepsInvariant(st, token, processed);
      case LeftBrace => OpenerKeepsInvariant(st, token, processed);
      case Operator(_) => OperatorKeepsInvariant(st, token, processed);
      case RightParen => CloserKeepsInvariant(st, token, processed);
      case RightBrace => CloserKeepsInvariant(st, token, processed);
      case EOF => CloserKeepsInvariant(st, token, processed);
    }
  }

  lemma {:induction false} FirstOccurrencesMembers(names: seq<string>)
    ensures forall x :: x in FirstOccurrences(names) <==> x in names
    ensures Distinct(FirstOccurrences(names))
  {
    if names != [] {
      var init := names[..|names| - 1];
      FirstOccurrencesMembers(init);
      assert names == init + [names[|names| - 1]];
    }
  }

  lemma InvariantDistinct(st: ParseState, processed: seq<Token>)
    requires Invariant(st, processed)
    ensures Distinct(st.variables)
  {
    FirstOccurrencesMembers(VariableNames(processed));
  }

  /** At the end of the input a successful finish leaves exactly the root. */
  lemma FinishKeepsInvariant(st: ParseState, tokens: seq<Token>)
    requires Invariant(st, tokens)
    ensures var r := Finish(st);
      r.root.Some? ==> Invariant(ParseState([r.root.value], [], r.variables), tokens)
  {
    var r := Finish(st);
    if r.root.Some? {
      assert st.nodeStack == [r.root.value];
      assert ParseState([r.root.value], [], r.variables) == st;
    }
  }

  lemma CompileFromUnfold(tokens: seq<Token>, i: nat, st: ParseState)
    requires i < |tokens| && CoreTokens(tokens) && CoreOperators(st.operatorStack) && Distinct(st.variables)
    requires Step(st, tokens[i]).Some? && Distinct(Step(st, tokens[i]).value.variables)
    ensures CompileFrom(tokens, i, st) == CompileFrom(tokens, i + 1, Step(st, tokens[i]).value)
  {
  }

  /** One iteration of the parser loop keeps the invariant. */
  lemma LoopStepKeepsInvariant(st: ParseState, token: Token, processed: seq<Token>, extended: seq<Token>)
    requires token.tokenType.Operator? ==> IsCoreOperator(token.tokenType.op)
    requires Invariant(st, processed) && Step(st, token).Some? && extended == processed + [token]
    ensures Invariant(Step(st, token).value, extended) && Distinct(Step(st, token).value.variables)
  {
    StepKeepsInvariant(st, token, processed);
    InvariantDistinct(Step(st, token).value, extended);
  }

  /** A compilation result whose root, if any, satisfies the invariant on its own
      over the whole stream. */
  predicate RootInvariant(r: CompiledSyntaxTree, tokens: seq<Token>)
  {
    r.root.Some? ==> Invariant(ParseState([r.root.value], [], r.variables), tokens)
  }

  lemma {:induction false} CompileFromKeepsInvariant(tokens: seq<Token>, i: nat, st: ParseState)
    requires i <= |tokens| && CoreTokens(tokens)
    requires Invariant(st, tokens[..i]) && Distinct(st.variables)
    ensures RootInvariant(CompileFrom(tokens, i, st), tokens)
    decreases |tokens| - i
  {
    if i == |tokens| {
      CompileEndKeepsInvariant(tokens, st);
    } else if Step(st, tokens[i]).Some? {
      var next := Step(st, tokens[i]).value;
      CompileStepKeepsInvariant(tokens, i, st);
      CompileFromKeepsInvariant(tokens, i + 1, next);
    } else {
      assert CompileFrom(tokens, i, st).root.None?;
    }
  }

  /** The closing pass at the end of the stream keeps the invariant. */
  lemma CompileEndKeepsInvariant(tokens: seq<Token>, st: ParseState)
    requires CoreTokens(tokens) && Invariant(st, tokens[..|tokens|]) && Distinct(st.variables)
    ensures RootInvariant(CompileFrom(tokens, |tokens|, st), tokens)
  {
    assert tokens[..|tokens|] == tokens;
    FinishKeepsInvariant(st, tokens);
  }

  /** One successful token of the loop keeps the invariant over the stream read
      so far, and the rest of the compilation goes on from the new state. */
  lemma CompileStepKeepsInvariant(tokens: seq<Token>, i: nat, st: ParseState)
    requires i < |tokens| && CoreTokens(tokens)
    requires Invariant(st, tokens[..i]) && Distinct(st.variables) && Step(st, tokens[i]).Some?
    ensures Invariant(Step(st, tokens[i]).value, tokens[..i + 1]) && Distinct(Step(st, tokens[i]).value.variables)
    ensures CompileFrom(tokens, i, st) == CompileFrom(tokens, i + 1, Step(st, tokens[i]).value)
  {
    CompileStepInvariant(tokens, i, st);
    CompileFromUnfold(tokens, i, st);
  }

  /** The invariant part of a successful token, over the stream prefix. */
  lemma CompileStepInvariant(tokens: seq<Token>, i: nat, st: ParseState)
    requires i < |tokens| && CoreTokens(tokens)
    requires Invariant(st, tokens[..i]) && Step(st, tokens[i]).Some?
    ensures Invariant(Step(st, tokens[i]).value, tokens[..i + 1]) && Distinct(Step(st, tokens[i]).value.variables)
  {
    PrefixStep(tokens, i);
    LoopStepKeepsInvariant(st, tokens[i], tokens[..i], tokens[..i + 1]);
  }

  /** A successful compilation yields a well-formed tree over a variable table that
      lists the variable names once each, in order of first occurrence; the tree's
      leaves are the operand tokens in stream order (each variable leaf naming its
      token's lexeme), and its operation nodes are exactly the operator tokens. */
  lemma CompileSuccess(tokens: seq<Token>)
    requires |tokens| > 0 && CoreTokens(tokens)
    ensures var r := Compile(tokens);
      r.root.Some? ==>
        && r.variables == FirstOccurrences(VariableNames(tokens))
        && WellFormed(r.root.value, |r.variables|)
        && LeavesMatch(Leaves(r.root.value), OperandTokens(tokens), r.variables)
        && Operations(r.root.value) == OperatorTokens(tokens)
  {
    assert tokens[..0] == [];
    CompileFromKeepsInvariant(tokens, 0, InitialState);
    var r := Compile(tokens);
    assert RootInvariant(r, tokens);
    if r.root.Some? {
      StackSingle(r.root.value);
    }
  }

  /** Properties of the reference table: no repetitions, the same names, and names
      ordered by first occurrence. */
  lemma FirstOccurrencesOrdered(names: seq<string>)
    ensures Distinct(FirstOccurrences(names))
    ensures forall x :: x in FirstOccurrences(names) <==> x in names
    ensures var f := FirstOccurrences(names);
      forall i, j :: 0 <= i < j < |f| ==> Position(names, f[i]).value < Position(names, f[j]).value
  {
    FirstOccurrencesMembers(names);
    FirstOccurrencesOrderedRec(names);
  }

  lemma {:induction false} FirstOccurrencesOrderedRec(names: seq<string>)
    ensures var f := FirstOccurrences(names);
      forall x :: x in f ==> x in names
    ensures var f := FirstOccurrences(names);
      forall i, j :: 0 <= i < j < |f| ==> Position(names, f[i]).Some? && Position(names, f[j]).Some? && Position(names, f[i]).value < Position(names, f[j]).value
  {
    FirstOccurrencesMembers(names);
    if names != [] {
      var init := names[..|names| - 1];
      var x := names[|names| - 1];
      assert names == init + [x];
      FirstOccurrencesOrderedRec(init);
      FirstOccurrencesMembers(init);
      var f := FirstOccurrences(names);
      var g := FirstOccurrences(init);
      forall y | y in init ensures Position(names, y) == Position(init, y) {
        PositionAppend(init, x, y);
      }
      if x !in init {
        PositionAppend(init, x, x);
        forall y | y in g ensures Position(init, y).value < |init| { }
      }
    }
  }

  lemma {:induction false} PositionAppend(names: seq<string>, x: string, y: string)
    ensures y in names ==> Position(names + [x], y) == Position(names, y)
    ensures y !in names && y == x ==> Position(names + [x], y) == Some(|names|)
  {
    if names != [] {
      assert (names + [x])[1..] == names[1..] + [x];
      PositionAppend(names[1..], x, y);
    }
  }

  /** An error token stops compilation: nothing after it is read, no tree is
      produced, and the error reported is that token unless an earlier token had
      already failed. */
  lemma ErrorTokenStopsCompilation(tokens: seq<Token>, e: nat)
    requires CoreTokens(tokens) && e < |tokens| && tokens[e].tokenType == Error
    ensures Compile(tokens) == Compile(tokens[..e + 1])
    ensures Compile(tokens).root.None?
    ensures Compile(tokens).errorToken == Some(tokens[e])
      || exists j :: 0 <= j < e && Compile(tokens).errorToken == Some(tokens[j])
  {
    CompileFromStopsAtError(tokens, 0, InitialState, e);
  }

  lemma {:induction false} CompileFromStopsAtError(tokens: seq<Token>, i: nat, st: ParseState, e: nat)
    requires CoreTokens(tokens) && i <= e < |tokens| && tokens[e].tokenType == Error
    requires CoreOperators(st.operatorStack) && Distinct(st.variables)
    ensures CoreTokens(tokens[..e + 1])
    ensures CompileFrom(tokens, i, st) == CompileFrom(tokens[..e + 1], i, st)
    ensures CompileFrom(tokens, i, st).root.None?
    ensures CompileFrom(tokens, i, st).errorToken == Some(tokens[e])
      || exists j :: i <= j < e && CompileFrom(tokens, i, st).errorToken == Some(tokens[j])
    decreases e - i
  {
    var prefix := tokens[..e + 1];
    assert prefix[i] == tokens[i];
    if i < e && Step(st, tokens[i]).Some? {
      var next := Step(st, tokens[i]).value;
      assert Distinct(next.variables) by {
        if tokens[i].tokenType.Variable? {
          var (_, _) := Intern(st.variables, tokens[i].lexeme);
        }
      }
      CompileFromStopsAtError(tokens, i + 1, next, e);
    }
  }
}
