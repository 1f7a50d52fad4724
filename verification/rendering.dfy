/** What `groups_to_string` prints: the header of each column is the fully
    parenthesised text of its subexpression. */
module Rendering {
  import opened Util
  import opened Scanner
  import opened Compiler
  import opened Execution
  import opened Partition
  import opened Evaluation

  lemma {:induction false} RenderGroupAppend(xs: seq<NodeOperation>, ys: seq<NodeOperation>, variables: seq<string>, result: seq<string>, stack: seq<string>)
    ensures RenderGroup(xs + ys, variables, result, stack)
         == match RenderGroup(xs, variables, result, stack)
            case None => None
            case Some(s) => RenderGroup(ys, variables, result, s)
    decreases |xs|
  {
    if xs == [] {
      assert xs + ys == ys;
    } else {
      assert (xs + ys)[0] == xs[0];
      assert (xs + ys)[1..] == xs[1..] + ys;
      var next := RenderOp(xs[0], variables, result, stack);
      if next.Some? {
        RenderGroupAppend(xs[1..], ys, variables, result, next.value);
      }
    }
  }

  lemma RenderOne(op: NodeOperation, variables: seq<string>, result: seq<string>, stack: seq<string>)
    ensures RenderGroup([op], variables, result, stack) == RenderOp(op, variables, result, stack)
  {
    assert [op][1..] == [];
  }

  /** The compressed program of a well-formed tree pushes the tree's text, given
      the texts of its subexpressions among the strings already rendered. */
  lemma {:induction false} RenderCompressed(a: AstNode, first: nat, variables: seq<string>, result: seq<string>, stack: seq<string>)
    requires WellFormed(a, |variables|) && Holds(result, first, SubShows(a, variables))
    ensures RenderGroup(Compressed(a, first), variables, result, stack) == Some(stack + [Show(a, variables)])
    decreases a, 1
  {
    match a {
      case BinaryNode(_, _, _) => RenderCompressedBinary(a, first, variables, result, stack);
      case UnaryNode(_, _) => RenderCompressedUnary(a, first, variables, result, stack);
      case SubexpressionNode(left) =>
        assert result[first + SubCount(left)] == SubShows(a, variables)[SubCount(left)];
        RenderOne(a.Op(), variables, result, stack);
      case _ => RenderOne(a.Op(), variables, result, stack);
    }
  }

  lemma {:induction false} RenderCompressedBinary(a: AstNode, first: nat, variables: seq<string>, result: seq<string>, stack: seq<string>)
    requires a.BinaryNode? && WellFormed(a, |variables|) && Holds(result, first, SubShows(a, variables))
    ensures RenderGroup(Compressed(a, first), variables, result, stack) == Some(stack + [Show(a, variables)])
    decreases a, 0
  {
    var left, right := a.left, a.right;
    var fr := first + SubCount(left);
    var cl, cr := Compressed(left, first), Compressed(right, fr);
    var tl, tr := Show(left, variables), Show(right, variables);
    HoldsSplit(result, first, SubShows(left, variables), SubShows(right, variables));
    assert RenderGroup(cl, variables, result, stack) == Some(stack + [tl]) by {
      RenderCompressed(left, first, variables, result, stack);
    }
    assert RenderGroup(cr, variables, result, stack + [tl]) == Some(stack + [tl] + [tr]) by {
      RenderCompressed(right, fr, variables, result, stack + [tl]);
    }
    var s2 := stack + [tl] + [tr];
    assert RenderGroup(cl + cr, variables, result, stack) == Some(s2) by {
      RenderGroupAppend(cl, cr, variables, result, stack);
    }
    assert RenderGroup([a.Op()], variables, result, s2) == Some(stack + [Show(a, variables)]) by {
      RenderOne(a.Op(), variables, result, s2);
      assert s2[..|s2| - 2] == stack;
    }
    assert Compressed(a, first) == cl + cr + [a.Op()];
    RenderGroupAppend(cl + cr, [a.Op()], variables, result, stack);
  }

  lemma {:induction false} RenderCompressedUnary(a: AstNode, first: nat, variables: seq<string>, result: seq<string>, stack: seq<string>)
    requires a.UnaryNode? && WellFormed(a, |variables|) && Holds(result, first, SubShows(a, variables))
    ensures RenderGroup(Compressed(a, first), variables, result, stack) == Some(stack + [Show(a, variables)])
    decreases a, 0
  {
    var left := a.left;
    var cl := Compressed(left, first);
    var tl := Show(left, variables);
    assert RenderGroup(cl, variables, result, stack) == Some(stack + [tl]) by {
      RenderCompressed(left, first, variables, result, stack);
    }
    var s1 := stack + [tl];
    assert RenderGroup([a.Op()], variables, result, s1) == Some(stack + [Show(a, variables)]) by {
      RenderOne(a.Op(), variables, result, s1);
      assert s1[..|s1| - 1] == stack;
    }
    assert Compressed(a, first) == cl + [a.Op()];
    RenderGroupAppend(cl, [a.Op()], variables, result, stack);
  }

  lemma HoldsAppended<T>(result: seq<T>, vals: seq<T>)
    ensures Holds(result + vals, |result|, vals)
  {
    forall k | 0 <= k < |vals| ensures (result + vals)[|result| + k] == vals[k] {
    }
  }

  /** Rendering the groups of a subtree appends the texts of its subexpressions. */
  lemma {:induction false} RenderTree(a: AstNode, first: nat, rest: seq<seq<NodeOperation>>, variables: seq<string>, result: seq<string>)
    requires WellFormed(a, |variables|) && |result| == first
    ensures GroupsToStringFrom(Groups(a, first) + rest, variables, result)
         == GroupsToStringFrom(rest, variables, result + SubShows(a, variables))
    decreases a, 1
  {
    match a {
      case BinaryNode(_, _, _) => RenderTreeBinary(a, first, rest, variables, result);
      case UnaryNode(_, left) => RenderTree(left, first, rest, variables, result);
      case SubexpressionNode(_) => RenderTreeSubexpression(a, first, rest, variables, result);
      case _ =>
        assert Groups(a, first) + rest == rest;
        assert result + [] == result;
    }
  }

  lemma {:induction false} RenderTreeBinary(a: AstNode, first: nat, rest: seq<seq<NodeOperation>>, variables: seq<string>, result: seq<string>)
    requires a.BinaryNode? && WellFormed(a, |variables|) && |result| == first
    ensures GroupsToStringFrom(Groups(a, first) + rest, variables, result)
         == GroupsToStringFrom(rest, variables, result + SubShows(a, variables))
    decreases a, 0
  {
    var left, right := a.left, a.right;
    var fr := first + SubCount(left);
    var sl, sr := SubShows(left, variables), SubShows(right, variables);
    var gr := Groups(right, fr);
    assert Groups(a, first) + rest == Groups(left, first) + (gr + rest);
    assert GroupsToStringFrom(Groups(left, first) + (gr + rest), variables, result)
        == GroupsToStringFrom(gr + rest, variables, result + sl) by {
      RenderTree(left, first, gr + rest, variables, result);
    }
    assert GroupsToStringFrom(gr + rest, variables, result + sl)
        == GroupsToStringFrom(rest, variables, result + sl + sr) by {
      RenderTree(right, fr, rest, variables, result + sl);
    }
    assert result + sl + sr == result + SubShows(a, variables);
  }

  lemma {:induction false} RenderTreeSubexpression(a: AstNode, first: nat, rest: seq<seq<NodeOperation>>, variables: seq<string>, result: seq<string>)
    requires a.SubexpressionNode? && WellFormed(a, |variables|) && |result| == first
    ensures GroupsToStringFrom(Groups(a, first) + rest, variables, result)
         == GroupsToStringFrom(rest, variables, result + SubShows(a, variables))
    decreases a, 0
  {
    var left := a.left;
    var sl := SubShows(left, variables);
    var cl := Compressed(left, first);
    var t := Show(left, variables);
    var result1 := result + sl;
    assert Groups(a, first) + rest == Groups(left, first) + ([cl] + rest);
    assert GroupsToStringFrom(Groups(left, first) + ([cl] + rest), variables, result)
        == GroupsToStringFrom([cl] + rest, variables, result1) by {
      RenderTree(left, first, [cl] + rest, variables, result);
    }
    assert GroupsToStringFrom([cl] + rest, variables, result1)
        == GroupsToStringFrom(rest, variables, result1 + [t]) by {
      HoldsAppended(result, sl);
      RenderCompressed(left, first, variables, result1, []);
      assert [] + [t] == [t];
      assert ([cl] + rest)[0] == cl;
      assert ([cl] + rest)[1..] == rest;
    }
    assert result1 + [t] == result + SubShows(a, variables);
  }

  /** `groups_to_string` on the groups of a well-formed expression never panics,
      gives one header per group, each the text of its subexpression, and the last
      the text of the whole expression. */
  lemma RenderCompiled(root: AstNode, variables: seq<string>)
    requires WellFormed(root, |variables|)
    ensures SubexpressionGroups(root).Some?
    ensures GroupsToString(SubexpressionGroups(root).value, variables) == Some(SubShows(Wrap(root), variables))
    ensures var headers := SubShows(Wrap(root), variables); |headers| > 0 && headers[|headers| - 1] == Show(root, variables)
  {
    PartitionMatchesReference(root);
    WrapLastShow(root, variables);
    var w := Wrap(root);
    RenderTree(w, 0, [], variables, []);
    assert Groups(w, 0) + [] == Groups(w, 0);
    assert [] + SubShows(w, variables) == SubShows(w, variables);
  }
}
