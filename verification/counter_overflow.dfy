/** The backward walk of `subexpression_backtrack_size` as the source writes it:
    `remaining` is inferred as `u8` from `op_backtrack_size`, so a walk that needs
    more than 255 operands at once overflows (a panic in a debug build). Equal
    operators are not reduced early, so `a & a & ... & a` nests to the right and
    its single group needs one more operand for every conjunction. */
module CounterOverflow {
  import opened Util
  import opened Scanner
  import opened Compiler
  import opened CompilerFacts
  import opened Execution
  import opened Partition

  const U8Max: nat := 255

  /** The walk with a `u8` counter: an update past 255 is an overflow panic. */
  function BacktrackScanU8(list: seq<NodeOperation>, subLoc: nat, consumed: nat, remaining: nat): (r: Option<nat>)
    requires consumed <= subLoc <= |list| && 1 <= remaining <= U8Max
    ensures r.Some? ==> consumed < r.value <= subLoc
    decreases subLoc - consumed
  {
    if consumed + 1 > subLoc then None
    else
      var c := consumed + 1;
      var next := remaining - 1 + OpBacktrackSize(list[subLoc - c]);
      if next > U8Max then None
      else if next == 0 then Some(c)
      else BacktrackScanU8(list, subLoc, c, next)
  }

  function SubexpressionBacktrackSizeU8(list: seq<NodeOperation>, subLoc: nat): (r: Option<nat>)
    ensures r.Some? ==> 0 < r.value <= subLoc <= |list|
  {
    if subLoc > |list| then None else BacktrackScanU8(list, subLoc, 0, 1)
  }

  /** `a & a & ... & a` with `n` conjunctions, as the parser builds it: nested to
      the right. */
  function RightChain(n: nat): (r: AstNode)
    ensures WellFormed(r, 1) && SubCount(r) == 0
  {
    if n == 0 then VariableNode(0) else BinaryNode(And, VariableNode(0), RightChain(n - 1))
  }

  function Repeat<T>(x: T, n: nat): (r: seq<T>)
    ensures |r| == n && forall k :: 0 <= k < n ==> r[k] == x
  {
    if n == 0 then [] else [x] + Repeat(x, n - 1)
  }

  lemma RepeatSnoc<T>(x: T, n: nat)
    ensures Repeat(x, n) + [x] == Repeat(x, n + 1)
  {
    assert (Repeat(x, n) + [x])[0] == x;
  }

  lemma Parity(k: nat)
    ensures (2 * k) % 2 == 0 && (2 * k + 1) % 2 == 1
  {
  }

  /** One more operand in front and one more operator behind. */
  lemma RepeatAround<T>(v: T, a: T, n: nat)
    requires n > 0
    ensures [v] + (Repeat(v, n) + Repeat(a, n - 1)) + [a] == Repeat(v, n + 1) + Repeat(a, n)
  {
    calc {
      [v] + (Repeat(v, n) + Repeat(a, n - 1)) + [a];
      ([v] + Repeat(v, n)) + (Repeat(a, n - 1) + [a]);
      { RepeatSnoc(a, n - 1); }
      Repeat(v, n + 1) + Repeat(a, n);
    }
  }

  /** The chain flattens to all its operands followed by all its conjunctions. */
  lemma {:induction false} ChainPostfix(n: nat)
    ensures PostorderTraversalPostfix(RightChain(n)) == Repeat(VariableDeref(0), n + 1) + Repeat(BinaryOperation(And), n)
  {
    if n > 0 {
      var v, a := VariableDeref(0), BinaryOperation(And);
      var inner := PostorderTraversalPostfix(RightChain(n - 1));
      assert PostorderTraversalPostfix(RightChain(n)) == [v] + inner + [a] by {
        assert RightChain(n) == BinaryNode(And, VariableNode(0), RightChain(n - 1));
        assert PostorderTraversalPostfix(VariableNode(0)) == [v];
      }
      assert inner == Repeat(v, n) + Repeat(a, n - 1) by {
        ChainPostfix(n - 1);
      }
      RepeatAround(v, a, n);
    }
  }

  // ---------------------------------------------------------------------------
  // The input `a&a&...&a` reaches the walk as that chain.

  /** The text `a&a&...&a` with `n` conjunctions. */
  function ChainText(n: nat): (r: string)
    ensures |r| == 2 * n + 1
  {
    seq(2 * n + 1, i => if i % 2 == 0 then 'a' else '&')
  }

  const VariableA: Token := Token("a", Variable)
  const Ampersand: Token := Token("&", Operator(And))

  /** Its tokens. */
  function ChainTokens(n: nat): (r: seq<Token>)
    ensures |r| == 2 * n + 2
  {
    seq(2 * n + 2, i => if i == 2 * n + 1 then EofToken else if i % 2 == 0 then VariableA else Ampersand)
  }

  /** An `a` followed by `&` or by the end of the text is a one-letter variable. */
  lemma ScanVariableA(text: string, i: nat)
    requires i < |text| && text[i] == 'a' && (i + 1 == |text| || text[i + 1] == '&')
    ensures ScanStep(ScanState(text, i, i)) == (Some(VariableA), ScanState(text, i, i + 1))
  {
    var next := ScanState(text, i, i + 1);
    assert next.SkipAlphanumeric() == next;
    assert next.MakeToken(Variable) == VariableA by {
      assert |text[i..i + 1]| == 1 && text[i..i + 1][0] == 'a';
      assert text[i..i + 1] == "a";
    }
    assert IdentifierType("a") == Variable by {
      assert |ToAsciiLowercase("a")| == 1 && ToAsciiLowercase("a")[0] == 'a';
      assert ToAsciiLowercase("a") == "a";
    }
  }

  lemma ScanAmpersand(text: string, i: nat)
    requires i < |text| && text[i] == '&'
    ensures ScanStep(ScanState(text, i, i)) == (Some(Ampersand), ScanState(text, i, i + 1))
  {
    assert |text[i..i + 1]| == 1 && text[i..i + 1][0] == '&';
    assert text[i..i + 1] == "&";
  }

  lemma SliceCons<T>(s: seq<T>, i: nat)
    requires i < |s|
    ensures s[i..] == [s[i]] + s[i + 1..]
  {
  }

  /** A scan step that yields a token puts it in front of the rest. */
  lemma TokenizeFromToken(st: ScanState, token: Token)
    requires st.Valid() && st.start == st.nextUnobserved && !st.IsAtEnd()
    requires ScanStep(st).0 == Some(token)
    ensures TokenizeFrom(st) == [token] + TokenizeFrom(ScanStep(st).1.(start := ScanStep(st).1.nextUnobserved))
  {
  }

  /** The chain's text holds the chain's token at each position before the end. */
  lemma ChainScanAt(n: nat, i: nat)
    requires i < 2 * n + 1
    ensures ScanStep(ScanState(ChainText(n), i, i)) == (Some(ChainTokens(n)[i]), ScanState(ChainText(n), i, i + 1))
  {
    var text := ChainText(n);
    if i % 2 == 0 {
      assert text[i] == 'a' && (i + 1 == |text| || text[i + 1] == '&');
      ScanVariableA(text, i);
    } else {
      ScanAmpersand(text, i);
    }
  }

  lemma {:induction false} TokenizeChainFrom(n: nat, i: nat)
    requires i <= 2 * n + 1
    ensures TokenizeFrom(ScanState(ChainText(n), i, i)) == ChainTokens(n)[i..]
    decreases 2 * n + 1 - i
  {
    var text := ChainText(n);
    var tokens := ChainTokens(n);
    if i < 2 * n + 1 {
      var st := ScanState(text, i, i);
      assert TokenizeFrom(st) == [tokens[i]] + TokenizeFrom(ScanState(text, i + 1, i + 1)) by {
        ChainScanAt(n, i);
        TokenizeFromToken(st, tokens[i]);
      }
      TokenizeChainFrom(n, i + 1);
      SliceCons(tokens, i);
    } else {
      assert tokens[i..] == [EofToken];
    }
  }

  /** The lexer turns the text into operand, `&`, operand, ..., end of input. */
  lemma TokenizeChain(n: nat)
    ensures IsAscii(ChainText(n))
    ensures Tokenize(ChainText(n)) == ChainTokens(n)
  {
    TokenizeChainFrom(n, 0);
  }

  /** The parser state after reading `k + 1` operands and `k` conjunctions. */
  function ChainState(k: nat): (r: ParseState)
    ensures CoreOperators(r.operatorStack) && Distinct(r.variables)
  {
    ParseState(Repeat(VariableNode(0), k + 1), Repeat(Operator(And), k), ["a"])
  }

  lemma ChainTokensCore(n: nat)
    ensures CoreTokens(ChainTokens(n))
  {
  }

  /** The end-of-input pass reached with `m` pending conjunctions under the chain
      of `j`. */
  function Closing(m: nat, j: nat): (r: ParseState)
    ensures CoreOperators(r.operatorStack)
  {
    ParseState(Repeat(VariableNode(0), m) + [RightChain(j)], Repeat(Operator(And), m), ["a"])
  }

  /** One reduction: the top conjunction joins the operand below the chain to it. */
  lemma CloseChainStep(m: nat, j: nat)
    requires m > 0
    ensures CoreOperators(Closing(m, j).operatorStack) && CoreOperators(Closing(m - 1, j + 1).operatorStack)
    ensures CloseGroup(Closing(m, j), EOF) == CloseGroup(Closing(m - 1, j + 1), EOF)
  {
    var st := Closing(m, j);
    var rest := Repeat(VariableNode(0), m - 1);
    assert st.nodeStack[..m - 1] == rest;
    assert st.nodeStack[m - 1] == VariableNode(0);
    assert CreateOperationNode(st.nodeStack, And) == Some((RightChain(j + 1), rest));
    assert st.operatorStack[..m - 1] == Repeat(Operator(And), m - 1);
    assert st.operatorStack[m - 1] == Operator(And);
  }

  lemma CloseChainBase(j: nat)
    ensures CloseGroup(Closing(0, j), EOF) == Some(ParseState([RightChain(j)], [], ["a"]))
  {
    var st := Closing(0, j);
    assert st.nodeStack == [RightChain(j)];
    assert st.operatorStack == [];
  }

  /** The end-of-input pass folds the pending conjunctions from the right. */
  lemma {:induction false} CloseChain(m: nat, j: nat)
    ensures CloseGroup(Closing(m, j), EOF) == Some(ParseState([RightChain(m + j)], [], ["a"]))
  {
    if m == 0 {
      CloseChainBase(j);
    } else {
      var target := Some(ParseState([RightChain(m + j)], [], ["a"]));
      assert CloseGroup(Closing(m - 1, j + 1), EOF) == target by {
        CloseChain(m - 1, j + 1);
        var k := m - 1 + (j + 1);
        assert k == m + j;
      }
      CloseChainStep(m, j);
    }
  }

  /** The end of input closes the chain into the single root. */
  lemma ChainEnd(n: nat)
    ensures CoreTokens(ChainTokens(n))
    ensures CompileFrom(ChainTokens(n), 2 * n + 1, ChainState(n)) == CompiledSyntaxTree(None, Some(RightChain(n)), ["a"])
  {
    ChainTokensCore(n);
    var tokens := ChainTokens(n);
    var st := ChainState(n);
    var closed := ParseState([RightChain(n)], [], ["a"]);
    assert st == Closing(n, 0) by {
      RepeatSnoc(VariableNode(0), n);
    }
    assert CloseGroup(Closing(n, 0), EOF) == Some(closed) by {
      CloseChain(n, 0);
      assert n + 0 == n;
    }
    assert Step(st, tokens[2 * n + 1]) == Some(closed) by {
      assert tokens[2 * n + 1] == EofToken;
    }
    assert CompileFrom(tokens, 2 * n + 2, closed) == Finish(closed);
  }

  /** The state between a conjunction and the next operand. */
  function ChainPending(k: nat): (r: ParseState)
    ensures CoreOperators(r.operatorStack) && Distinct(r.variables)
  {
    ParseState(Repeat(VariableNode(0), k + 1), Repeat(Operator(And), k + 1), ["a"])
  }

  /** A conjunction is pushed on the pending ones without reducing any: equal
      operators never reduce each other. */
  lemma ChainPushAnd(k: nat)
    ensures Step(ChainState(k), Ampersand) == Some(ChainPending(k))
  {
    assert ReduceTighter(ChainState(k), And) == Some(ChainState(k));
    RepeatSnoc(Operator(And), k);
  }

  /** The next operand is pushed as the interned variable 0. */
  lemma ChainPushA(k: nat)
    ensures Step(ChainPending(k), VariableA) == Some(ChainState(k + 1))
  {
    assert Position(["a"], "a") == Some(0);
    RepeatSnoc(VariableNode(0), k + 1);
  }

  lemma ChainStep(n: nat, k: nat)
    requires k < n
    ensures CoreTokens(ChainTokens(n))
    ensures CompileFrom(ChainTokens(n), 2 * k + 1, ChainState(k)) == CompileFrom(ChainTokens(n), 2 * k + 3, ChainState(k + 1))
  {
    ChainTokensCore(n);
    var tokens := ChainTokens(n);
    assert tokens[2 * k + 1] == Ampersand && tokens[2 * k + 2] == VariableA by {
      Parity(k);
      Parity(k + 1);
    }
    assert CompileFrom(tokens, 2 * k + 1, ChainState(k)) == CompileFrom(tokens, 2 * k + 2, ChainPending(k)) by {
      ChainPushAnd(k);
      CompileFromUnfold(tokens, 2 * k + 1, ChainState(k));
    }
    assert CompileFrom(tokens, 2 * k + 2, ChainPending(k)) == CompileFrom(tokens, 2 * k + 3, ChainState(k + 1)) by {
      ChainPushA(k);
      CompileFromUnfold(tokens, 2 * k + 2, ChainPending(k));
    }
  }

  /** The parse of the chain's tokens resumed after `k` conjunctions. */
  function ChainRun(n: nat, k: nat): CompiledSyntaxTree
    requires k <= n
  {
    ChainTokensCore(n);
    CompileFrom(ChainTokens(n), 2 * k + 1, ChainState(k))
  }

  lemma {:induction false} ReadChain(n: nat, k: nat)
    requires k <= n
    ensures ChainRun(n, k) == CompiledSyntaxTree(None, Some(RightChain(n)), ["a"])
    decreases n - k
  {
    if k == n {
      ChainEnd(n);
    } else {
      assert ChainRun(n, k) == ChainRun(n, k + 1) by {
        ChainStep(n, k);
        assert 2 * k + 3 == 2 * (k + 1) + 1;
      }
      ReadChain(n, k + 1);
    }
  }

  /** The parser builds the right-nested chain from those tokens. */
  lemma CompileChain(n: nat)
    ensures CoreTokens(ChainTokens(n))
    ensures Compile(ChainTokens(n)) == CompiledSyntaxTree(None, Some(RightChain(n)), ["a"])
  {
    ChainTokensCore(n);
    ReadChain(n, 0);
    var tokens := ChainTokens(n);
    assert tokens[0] == VariableA;
    assert ChainState(0) == ParseState([VariableNode(0)], [], ["a"]) by {
      assert Repeat(VariableNode(0), 1) == [VariableNode(0)] + [];
    }
    assert Intern([], "a") == (["a"], 0) by {
      assert [] + ["a"] == ["a"];
    }
    assert InitialState.nodeStack + [VariableNode(0)] == [VariableNode(0)];
    assert Step(InitialState, tokens[0]) == Some(ChainState(0));
  }

  /** Walking back over `k` conjunctions leaves `k + 1` operands missing; the
      255th one needs 256. */
  lemma {:induction false} WalkOverConjunctions(list: seq<NodeOperation>, subLoc: nat, k: nat)
    requires k < U8Max <= subLoc <= |list|
    requires forall j :: subLoc - U8Max <= j < subLoc ==> list[j] == BinaryOperation(And)
    ensures BacktrackScanU8(list, subLoc, k, k + 1) == None
    decreases U8Max - k
  {
    assert list[subLoc - (k + 1)] == BinaryOperation(And);
    if k + 1 < U8Max {
      WalkOverConjunctions(list, subLoc, k + 1);
    }
  }

  /** The text `a&a&...&a` with 255 or more conjunctions compiles to the chain, and
      on its program the `u8` walk overflows, where the unbounded walk finds the
      whole program as the group of the final marker. */
  lemma U8CounterOverflows(n: nat)
    requires n >= U8Max
    ensures IsAscii(ChainText(n)) && CoreTokens(Tokenize(ChainText(n)))
    ensures Compile(Tokenize(ChainText(n))).root == Some(RightChain(n))
    ensures var program := MarkedProgram(RightChain(n));
      && program.1 == [2 * n + 1]
      && SubexpressionBacktrackSizeU8(program.0, 2 * n + 1) == None
      && SubexpressionBacktrackSize(program.0, 2 * n + 1) == Some(2 * n + 1)
  {
    TokenizeChain(n);
    CompileChain(n);
    ChainProgram(n);
    ChainWalkU8(n);
    ChainWalk(n);
  }

  /** The chain is wrapped in a final marker, the only one. */
  lemma ChainProgram(n: nat)
    requires n > 0
    ensures MarkedProgram(RightChain(n)) == (PostorderTraversalPostfix(RightChain(n)) + [IndexedSubexpression(0)], [2 * n + 1])
  {
    var root := RightChain(n);
    var marker := IndexedSubexpression(0);
    var postfix := PostorderTraversalPostfix(root);
    assert |postfix| == 2 * n + 1 by {
      ChainPostfixShape(n);
    }
    PlainTree(root, 0, 0);
    assert Wrap(root) == SubexpressionNode(root);
    assert Numbered(Wrap(root), 0) == postfix + [marker];
    assert MarkerLocs(Wrap(root), 0) == [2 * n + 1];
    MarkedProgramIsWrapped(root);
  }

  /** The chain's program has `2n+1` operations, the last `n` of them conjunctions. */
  lemma ChainPostfixShape(n: nat)
    ensures var p := PostorderTraversalPostfix(RightChain(n));
      |p| == 2 * n + 1 && forall j :: n + 1 <= j < 2 * n + 1 ==> p[j] == BinaryOperation(And)
  {
    var p := PostorderTraversalPostfix(RightChain(n));
    var vs, cs := Repeat(VariableDeref(0), n + 1), Repeat(BinaryOperation(And), n);
    assert p == vs + cs by {
      ChainPostfix(n);
    }
    forall j | n + 1 <= j < 2 * n + 1 ensures p[j] == BinaryOperation(And) {
      assert p[j] == cs[j - (n + 1)];
    }
  }

  lemma ChainWalkU8(n: nat)
    requires n >= U8Max
    ensures SubexpressionBacktrackSizeU8(PostorderTraversalPostfix(RightChain(n)) + [IndexedSubexpression(0)], 2 * n + 1) == None
  {
    var postfix := PostorderTraversalPostfix(RightChain(n));
    var list := postfix + [IndexedSubexpression(0)];
    ChainPostfixShape(n);
    forall j | 2 * n + 1 - U8Max <= j < 2 * n + 1 ensures list[j] == BinaryOperation(And) {
      assert list[j] == postfix[j];
    }
    WalkOverConjunctions(list, 2 * n + 1, 0);
  }

  lemma ChainWalk(n: nat)
    ensures SubexpressionBacktrackSize(PostorderTraversalPostfix(RightChain(n)) + [IndexedSubexpression(0)], 2 * n + 1) == Some(2 * n + 1)
  {
    ChainPostfixShape(n);
    ChainTight(n);
    TightAlone(PostorderTraversalPostfix(RightChain(n)), IndexedSubexpression(0));
  }

  /** The chain's program is one tight group. */
  lemma ChainTight(n: nat)
    ensures Tight(PostorderTraversalPostfix(RightChain(n)))
  {
    var root := RightChain(n);
    assert Compressed(root, 0) == PostorderTraversalPostfix(root) by {
      PlainTree(root, 0, 0);
    }
    CompressedTight(root, 0);
  }

  lemma TightAlone(c: seq<NodeOperation>, marker: NodeOperation)
    requires Tight(c)
    ensures SubexpressionBacktrackSize(c + [marker], |c|) == Some(|c|)
  {
    BacktrackTight([], c, [marker]);
    assert [] + c + [marker] == c + [marker];
  }

  /** Without subexpressions the numbered and the compressed program are the
      plain post-order traversal, and there is no marker. */
  lemma {:induction false} PlainTree(a: AstNode, first: nat, base: nat)
    requires SubCount(a) == 0
    ensures Compressed(a, first) == Numbered(a, first) == PostorderTraversalPostfix(a)
    ensures MarkerLocs(a, base) == []
  {
    match a {
      case BinaryNode(_, left, right) =>
        PlainTree(left, first, base);
        PlainTree(right, first, base + |Numbered(left, 0)|);
      case UnaryNode(_, left) => PlainTree(left, first, base);
      case _ =>
    }
  }
}
