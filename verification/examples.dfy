/** The worked examples of the source's comments and of its behaviour on small
    inputs, stated over the model. */
module Examples {
  import opened Util
  import opened Scanner
  import opened Compiler
  import opened CompilerFacts
  import opened Execution
  import opened Partition
  import opened Evaluation
  import opened Rendering

  /** The post-order program of the source's documented example, `p q | p q & ! SUB &`. */
  const DocProgram: seq<NodeOperation> :=
    [VariableDeref(0), VariableDeref(1), BinaryOperation(Or),
     VariableDeref(0), VariableDeref(1), BinaryOperation(And), UnaryOperation(Not),
     Subexpression, BinaryOperation(And)]

  /** The documented example: the group ending at the marker at index 7 is the
      four operations `p q & !`. */
  lemma DocExampleBacktrack()
    ensures SubexpressionBacktrackSize(DocProgram, 7) == Some(4)
  {
    BacktrackSizeSpec(DocProgram, 7);
    assert TailEffect(DocProgram, 7, 1) == 0 && TailEffect(DocProgram, 7, 2) == -1;
    assert TailEffect(DocProgram, 7, 3) == 0 && TailEffect(DocProgram, 7, 4) == 1;
  }

  /** A tree with that program: `(p | q) & {!(p & q)}`. */
  const DocTree: AstNode :=
    BinaryNode(And,
      BinaryNode(Or, VariableNode(0), VariableNode(1)),
      SubexpressionNode(UnaryNode(Not, BinaryNode(And, VariableNode(0), VariableNode(1)))))

  lemma DocTreeShape()
    ensures WellFormed(DocTree, 2)
    ensures PostorderTraversalPostfix(DocTree) == DocProgram
  {
  }

  /** The tree of the query `(p or q) and not {p and q}`: plain parentheses build
      no node, the braces build a subexpression. */
  function QueryTree(): AstNode
  {
    BinaryNode(And,
      BinaryNode(Or, VariableNode(0), VariableNode(1)),
      UnaryNode(Not, SubexpressionNode(BinaryNode(And, VariableNode(0), VariableNode(1)))))
  }

  lemma QueryWellFormed()
    ensures WellFormed(BinaryNode(And, VariableNode(0), VariableNode(1)), 2)
    ensures WellFormed(BinaryNode(Or, VariableNode(0), VariableNode(1)), 2)
    ensures WellFormed(UnaryNode(Not, SubexpressionNode(BinaryNode(And, VariableNode(0), VariableNode(1)))), 2)
    ensures WellFormed(QueryTree(), 2) && WellFormed(Wrap(QueryTree()), 2)
  {
  }

  /** Its groups by the reference partition: `p q &`, and the whole expression
      referring back to group 0. */
  lemma QueryWholeGroups()
    ensures WholeGroups(QueryTree()) == [
      [VariableDeref(0), VariableDeref(1), BinaryOperation(And)],
      [VariableDeref(0), VariableDeref(1), BinaryOperation(Or), IndexedSubexpression(0),
       UnaryOperation(Not), BinaryOperation(And)]]
  {
    var root := QueryTree();
    QueryCompressed();
    QueryInnerGroups();
    assert Wrap(root) == SubexpressionNode(root);
    assert Groups(SubexpressionNode(root), 0) == Groups(root, 0) + [Compressed(root, 0)];
  }

  /** The group of the whole query, with the braces as a reference to group 0. */
  lemma QueryCompressed()
    ensures Compressed(QueryTree(), 0) == [VariableDeref(0), VariableDeref(1), BinaryOperation(Or),
      IndexedSubexpression(0), UnaryOperation(Not), BinaryOperation(And)]
  {
    var root := QueryTree();
    var cl := Compressed(root.left, 0);
    var cr := Compressed(root.right, 0);
    assert cl == [VariableDeref(0), VariableDeref(1), BinaryOperation(Or)];
    assert cr == [IndexedSubexpression(0), UnaryOperation(Not)];
    assert Compressed(root, 0) == cl + cr + [BinaryOperation(And)];
  }

  /** The groups inside the query: the braces hold the only one. */
  lemma QueryInnerGroups()
    ensures Groups(QueryTree(), 0) == [[VariableDeref(0), VariableDeref(1), BinaryOperation(And)]]
  {
    var root := QueryTree();
    var conj := root.right.left.left;
    assert Groups(root.left, 0) == [] && SubCount(root.left) == 0;
    assert Compressed(conj, 0) == [VariableDeref(0), VariableDeref(1), BinaryOperation(And)];
    assert Groups(root.right, 0) == [Compressed(conj, 0)];
    assert Groups(root, 0) == Groups(root.left, 0) + Groups(root.right, 0);
  }

  /** The partitioner produces exactly those groups. */
  lemma QueryGroups()
    ensures SubexpressionGroups(QueryTree()) == Some([
      [VariableDeref(0), VariableDeref(1), BinaryOperation(And)],
      [VariableDeref(0), VariableDeref(1), BinaryOperation(Or), IndexedSubexpression(0),
       UnaryOperation(Not), BinaryOperation(And)]])
  {
    PartitionMatchesReference(QueryTree());
    QueryWholeGroups();
  }

  /** With p true and q false, `p & q` is false and the whole expression true. */
  lemma QueryEvaluation()
    ensures SubexpressionGroups(QueryTree()).Some?
    ensures Evaluate(SubexpressionGroups(QueryTree()).value, [true, false], [false, false]) == Some([false, true])
  {
    var values := [true, false];
    assert |values| == 2;
    QueryWellFormed();
    assert SubValues(Wrap(QueryTree()), values) == [false, true] by {
      assert SubValues(UnaryNode(Not, SubexpressionNode(BinaryNode(And, VariableNode(0), VariableNode(1)))), values) == [false];
      assert SubValues(QueryTree(), values) == [false];
      assert Eval(QueryTree(), values);
    }
    QueryGroups();
    var groups := SubexpressionGroups(QueryTree()).value;
    assert |groups| == 2;
    assert Evaluate(groups, values, [false, false]) == Some(SubValues(Wrap(QueryTree()), values)) by {
      EvaluateCompiled(QueryTree(), values, [false, false]);
    }
  }

  /** The headers of the two columns. */
  lemma QueryHeaders()
    ensures SubexpressionGroups(QueryTree()).Some?
    ensures GroupsToString(SubexpressionGroups(QueryTree()).value, ["p", "q"]) == Some(["(p & q)", "((p | q) & !((p & q)))"])
  {
    QueryShows();
    RenderCompiled(QueryTree(), ["p", "q"]);
  }

  /** The texts of the subexpressions of the query, the whole query last. */
  lemma QueryShows()
    ensures WellFormed(Wrap(QueryTree()), 2)
    ensures SubShows(Wrap(QueryTree()), ["p", "q"]) == ["(p & q)", "((p | q) & !((p & q)))"]
  {
    var vs := ["p", "q"];
    var root := QueryTree();
    QueryWellFormed();
    QueryText();
    var conj := root.right.left.left;
    assert SubShows(root, vs) == [Show(conj, vs)] by {
      assert SubShows(root.left, vs) == [];
      assert SubShows(root.right, vs) == [Show(conj, vs)];
    }
    assert Wrap(root) == SubexpressionNode(root);
    assert SubShows(SubexpressionNode(root), vs) == SubShows(root, vs) + [Show(root, vs)];
  }

  /** The text of the query and of its braces. */
  lemma QueryText()
    ensures WellFormed(QueryTree(), 2) && WellFormed(QueryTree().right.left.left, 2)
    ensures Show(QueryTree().right.left.left, ["p", "q"]) == "(p & q)"
    ensures Show(QueryTree(), ["p", "q"]) == "((p | q) & !((p & q)))"
  {
    var vs := ["p", "q"];
    var root := QueryTree();
    QueryWellFormed();
    var sl, sr := Show(root.left, vs), Show(root.right, vs);
    assert sl == "(p | q)";
    assert sr == "!((p & q))";
    assert Show(root, vs) == "(" + sl + " & " + sr + ")";
  }
}
