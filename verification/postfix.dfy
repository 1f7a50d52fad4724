/** The post-order traversal loses nothing: a stack machine that pushes a node for
    every operand and builds a node for every operator rebuilds the tree from it. */
module PostfixFacts {
  import opened Util
  import opened Compiler
  import opened Execution

  /** One operation of the rebuilding machine; `None` when an operator finds too
      few nodes, or on a numbered marker, which no traversal produces. */
  function RebuildOp(op: NodeOperation, stack: seq<AstNode>): Option<seq<AstNode>>
  {
    match op
    case BinaryOperation(o) =>
      if |stack| < 2 then None
      else Some(stack[..|stack| - 2] + [BinaryNode(o, stack[|stack| - 2], stack[|stack| - 1])])
    case UnaryOperation(o) =>
      if |stack| < 1 then None else Some(stack[..|stack| - 1] + [UnaryNode(o, stack[|stack| - 1])])
    case Subexpression =>
      if |stack| < 1 then None else Some(stack[..|stack| - 1] + [SubexpressionNode(stack[|stack| - 1])])
    case VariableDeref(location) => Some(stack + [VariableNode(location)])
    case Literal(value) => Some(stack + [LiteralNode(value)])
    case IndexedSubexpression(_) => None
  }

  function RebuildFrom(ops: seq<NodeOperation>, stack: seq<AstNode>): Option<seq<AstNode>>
    decreases |ops|
  {
    if ops == [] then Some(stack)
    else match RebuildOp(ops[0], stack)
      case None => None
      case Some(next) => RebuildFrom(ops[1..], next)
  }

  /** The tree of a postfix program that leaves exactly one node. */
  function Rebuild(ops: seq<NodeOperation>): Option<AstNode>
  {
    match RebuildFrom(ops, [])
    case None => None
    case Some(stack) => if |stack| == 1 then Some(stack[0]) else None
  }

  lemma {:induction false} RebuildAppend(xs: seq<NodeOperation>, ys: seq<NodeOperation>, stack: seq<AstNode>)
    ensures RebuildFrom(xs + ys, stack)
         == match RebuildFrom(xs, stack)
            case None => None
            case Some(s) => RebuildFrom(ys, s)
    decreases |xs|
  {
    if xs == [] {
      assert xs + ys == ys;
    } else {
      assert (xs + ys)[0] == xs[0];
      assert (xs + ys)[1..] == xs[1..] + ys;
      var next := RebuildOp(xs[0], stack);
      if next.Some? {
        RebuildAppend(xs[1..], ys, next.value);
      }
    }
  }

  lemma RebuildOne(op: NodeOperation, stack: seq<AstNode>)
    ensures RebuildFrom([op], stack) == RebuildOp(op, stack)
  {
    assert [op][1..] == [];
  }

  /** Running the traversal of a tree pushes exactly that tree. */
  lemma {:induction false} RebuildTree(a: AstNode, stack: seq<AstNode>)
    ensures RebuildFrom(PostorderTraversalPostfix(a), stack) == Some(stack + [a])
    decreases a, 1
  {
    match a {
      case BinaryNode(_, _, _) => RebuildTreeBinary(a, stack);
      case UnaryNode(_, _) => RebuildTreeOneChild(a, stack);
      case SubexpressionNode(_) => RebuildTreeOneChild(a, stack);
      case _ => RebuildOne(a.Op(), stack);
    }
  }

  lemma {:induction false} RebuildTreeBinary(a: AstNode, stack: seq<AstNode>)
    requires a.BinaryNode?
    ensures RebuildFrom(PostorderTraversalPostfix(a), stack) == Some(stack + [a])
    decreases a, 0
  {
    var pl, pr := PostorderTraversalPostfix(a.left), PostorderTraversalPostfix(a.right);
    var s2 := stack + [a.left] + [a.right];
    assert RebuildFrom(pl + pr, stack) == Some(s2) by {
      RebuildTree(a.left, stack);
      RebuildTree(a.right, stack + [a.left]);
      RebuildAppend(pl, pr, stack);
    }
    assert RebuildFrom([a.Op()], s2) == Some(stack + [a]) by {
      RebuildOne(a.Op(), s2);
      assert s2[..|s2| - 2] == stack;
    }
    assert PostorderTraversalPostfix(a) == pl + pr + [a.Op()];
    RebuildAppend(pl + pr, [a.Op()], stack);
  }

  lemma {:induction false} RebuildTreeOneChild(a: AstNode, stack: seq<AstNode>)
    requires a.UnaryNode? || a.SubexpressionNode?
    ensures RebuildFrom(PostorderTraversalPostfix(a), stack) == Some(stack + [a])
    decreases a, 0
  {
    var pl := PostorderTraversalPostfix(a.left);
    var s1 := stack + [a.left];
    assert RebuildFrom(pl, stack) == Some(s1) by {
      RebuildTree(a.left, stack);
    }
    assert RebuildFrom([a.Op()], s1) == Some(stack + [a]) by {
      RebuildOne(a.Op(), s1);
      assert s1[..|s1| - 1] == stack;
    }
    assert PostorderTraversalPostfix(a) == pl + [a.Op()];
    RebuildAppend(pl, [a.Op()], stack);
  }

  /** The traversal is injective: the tree is recovered from its postfix program. */
  lemma PostfixRoundTrip(a: AstNode)
    ensures Rebuild(PostorderTraversalPostfix(a)) == Some(a)
  {
    RebuildTree(a, []);
    assert [] + [a] == [a];
  }
}
