/** The shape of the groups `subexpression_groups` returns: each group is a
    standalone program, refers only to earlier groups, and together with the final
    marker the groups hold every operation of the marked program exactly once. */
module GroupStructure {
  import opened Util
  import opened Compiler
  import opened Execution
  import opened Partition

  function Flatten(gs: seq<seq<NodeOperation>>): (r: seq<NodeOperation>)
  {
    if gs == [] then [] else gs[0] + Flatten(gs[1..])
  }

  lemma {:induction false} FlattenAppend(xs: seq<seq<NodeOperation>>, ys: seq<seq<NodeOperation>>)
    ensures Flatten(xs + ys) == Flatten(xs) + Flatten(ys)
    decreases |xs|
  {
    if xs == [] {
      assert xs + ys == ys;
    } else {
      assert (xs + ys)[1..] == xs[1..] + ys;
      FlattenAppend(xs[1..], ys);
    }
  }

  /** A group mentions no unnumbered marker, and its numbered markers lie in
      `[lo, hi)`. */
  predicate RefersWithin(g: seq<NodeOperation>, lo: nat, hi: nat)
  {
    forall i :: 0 <= i < |g| ==> g[i] != Subexpression && (g[i].IndexedSubexpression? ==> lo <= g[i].index < hi)
  }

  /** The compressed program of a tree refers to the tree's own subexpressions. */
  lemma {:induction false} CompressedRefers(a: AstNode, first: nat)
    ensures RefersWithin(Compressed(a, first), first, first + SubCount(a))
  {
    match a {
      case BinaryNode(_, left, right) =>
        CompressedRefers(left, first);
        CompressedRefers(right, first + SubCount(left));
      case UnaryNode(_, left) =>
        CompressedRefers(left, first);
      case SubexpressionNode(left) =>
      case VariableNode(_) =>
      case LiteralNode(_) =>
    }
  }

  /** Group `k` of the groups numbered from `first` is standalone and refers only
      to the groups numbered `first` to `first + k - 1`. */
  lemma {:induction false} GroupsReferBack(a: AstNode, first: nat)
    ensures forall k :: 0 <= k < |Groups(a, first)| ==>
      Tight(Groups(a, first)[k]) && RefersWithin(Groups(a, first)[k], first, first + k)
  {
    match a {
      case BinaryNode(_, left, right) =>
        var fr := first + SubCount(left);
        var gl, gr := Groups(left, first), Groups(right, fr);
        GroupsReferBack(left, first);
        GroupsReferBack(right, fr);
        GroupsCount(left, first);
        forall k | 0 <= k < |gl + gr|
          ensures Tight((gl + gr)[k]) && RefersWithin((gl + gr)[k], first, first + k)
        {
          if k >= |gl| {
            assert (gl + gr)[k] == gr[k - |gl|];
          }
        }
      case UnaryNode(_, left) =>
        GroupsReferBack(left, first);
      case SubexpressionNode(left) =>
        var gl := Groups(left, first);
        GroupsReferBack(left, first);
        GroupsCount(left, first);
        CompressedRefers(left, first);
        CompressedTight(left, first);
        forall k | 0 <= k < |gl + [Compressed(left, first)]|
          ensures Tight((gl + [Compressed(left, first)])[k])
          ensures RefersWithin((gl + [Compressed(left, first)])[k], first, first + k)
        {
          if k == |gl| {
            assert (gl + [Compressed(left, first)])[k] == Compressed(left, first);
          }
        }
      case VariableNode(_) =>
      case LiteralNode(_) =>
    }
  }

  /** The numbered program of a tree splits into its groups and its compressed
      program, operation for operation. */
  lemma {:induction false} NumberedSplits(a: AstNode, first: nat)
    ensures multiset(Numbered(a, first)) == multiset(Flatten(Groups(a, first))) + multiset(Compressed(a, first))
    decreases a, 1
  {
    match a {
      case BinaryNode(_, _, _) => NumberedSplitsBinary(a, first);
      case UnaryNode(_, left) =>
        NumberedSplits(left, first);
      case SubexpressionNode(_) => NumberedSplitsSubexpression(a, first);
      case VariableNode(_) =>
        assert Flatten(Groups(a, first)) == [];
      case LiteralNode(_) =>
        assert Flatten(Groups(a, first)) == [];
    }
  }

  lemma {:induction false} NumberedSplitsBinary(a: AstNode, first: nat)
    requires a.BinaryNode?
    ensures multiset(Numbered(a, first)) == multiset(Flatten(Groups(a, first))) + multiset(Compressed(a, first))
    decreases a, 0
  {
    var left, right := a.left, a.right;
    var fr := first + SubCount(left);
    var nl, nr := Numbered(left, first), Numbered(right, fr);
    var fl, fg := Flatten(Groups(left, first)), Flatten(Groups(right, fr));
    var cl, cr := Compressed(left, first), Compressed(right, fr);
    assert multiset(nl) == multiset(fl) + multiset(cl) by {
      NumberedSplits(left, first);
    }
    assert multiset(nr) == multiset(fg) + multiset(cr) by {
      NumberedSplits(right, fr);
    }
    assert Flatten(Groups(a, first)) == fl + fg by {
      FlattenAppend(Groups(left, first), Groups(right, fr));
    }
    assert Numbered(a, first) == nl + nr + [a.Op()];
    assert Compressed(a, first) == cl + cr + [a.Op()];
    SplitBinary(nl, nr, fl, fg, cl, cr, a.Op());
  }

  /** Both operands split, so does the binary node over them. */
  lemma SplitBinary<T>(nl: seq<T>, nr: seq<T>, fl: seq<T>, fg: seq<T>, cl: seq<T>, cr: seq<T>, op: T)
    requires multiset(nl) == multiset(fl) + multiset(cl) && multiset(nr) == multiset(fg) + multiset(cr)
    ensures multiset(nl + nr + [op]) == multiset(fl + fg) + multiset(cl + cr + [op])
  {
    calc {
      multiset(nl + nr + [op]);
      multiset(fl) + multiset(cl) + (multiset(fg) + multiset(cr)) + multiset{op};
      multiset(fl) + multiset(fg) + (multiset(cl) + multiset(cr) + multiset{op});
      multiset(fl + fg) + multiset(cl + cr + [op]);
    }
  }

  lemma {:induction false} NumberedSplitsSubexpression(a: AstNode, first: nat)
    requires a.SubexpressionNode?
    ensures multiset(Numbered(a, first)) == multiset(Flatten(Groups(a, first))) + multiset(Compressed(a, first))
    decreases a, 0
  {
    var left := a.left;
    var nl, fl, cl := Numbered(left, first), Flatten(Groups(left, first)), Compressed(left, first);
    var marker := IndexedSubexpression(first + SubCount(left));
    assert multiset(nl) == multiset(fl) + multiset(cl) by {
      NumberedSplits(left, first);
    }
    assert Flatten(Groups(a, first)) == fl + cl by {
      FlattenAppend(Groups(left, first), [cl]);
      assert Flatten([cl]) == cl + [];
      assert cl + [] == cl;
    }
    assert Numbered(a, first) == nl + [marker];
    assert Compressed(a, first) == [marker];
    SplitSubexpression(nl, fl, cl, marker);
  }

  /** The body splits, so does the subexpression: its compressed program becomes
      a group, and the marker is all that is left. */
  lemma SplitSubexpression<T>(nl: seq<T>, fl: seq<T>, cl: seq<T>, marker: T)
    requires multiset(nl) == multiset(fl) + multiset(cl)
    ensures multiset(nl + [marker]) == multiset(fl + cl) + multiset([marker])
  {
  }

  /** Every group of an expression is a standalone program, and a marker in group
      `k` names a group before `k`. */
  lemma GroupsSelfContained(root: AstNode)
    ensures SubexpressionGroups(root).Some?
    ensures var gs := SubexpressionGroups(root).value;
      forall k :: 0 <= k < |gs| ==> Tight(gs[k]) && RefersWithin(gs[k], 0, k)
  {
    PartitionMatchesReference(root);
    GroupsReferBack(Wrap(root), 0);
  }

  /** The groups hold every operation of the marked program except the final
      marker, each exactly once. */
  lemma GroupsCover(root: AstNode)
    ensures SubexpressionGroups(root).Some?
    ensures var program := MarkedProgram(root).0;
      multiset(Flatten(SubexpressionGroups(root).value)) + multiset{program[|program| - 1]} == multiset(program)
  {
    var w := Wrap(root);
    PartitionMatchesReference(root);
    MarkedProgramIsWrapped(root);
    NumberedSplits(w, 0);
    var program := Numbered(w, 0);
    assert Compressed(w, 0) == [program[|program| - 1]];
  }
}
