/** What the groups compute: a reference meaning of syntax trees, and the proof that
    `evaluate` and `groups_to_string` running the groups of a tree produce it. */
module Evaluation {
  import opened Util
  import opened Scanner
  import opened Compiler
  import opened Execution
  import opened Partition

  // ---------------------------------------------------------------------------
  // Reference meaning.

  /** The truth value of a tree under one assignment of the variables. */
  function Eval(a: AstNode, values: seq<bool>): bool
    requires WellFormed(a, |values|)
  {
    match a
    case BinaryNode(op, left, right) =>
      if op == And then Eval(left, values) && Eval(right, values) else Eval(left, values) || Eval(right, values)
    case UnaryNode(_, left) => !Eval(left, values)
    case VariableNode(location) => values[location]
    case LiteralNode(value) => value
    case SubexpressionNode(left) => Eval(left, values)
  }

  /** The fully parenthesised text of a tree, as the table header spells it. */
  function Show(a: AstNode, variables: seq<string>): string
    requires WellFormed(a, |variables|)
  {
    match a
    case BinaryNode(op, left, right) =>
      SymbolLeftParen + Show(left, variables) + BinarySymbol(op) + Show(right, variables) + SymbolRightParen
    case UnaryNode(op, left) => UnarySymbol(op) + SymbolLeftParen + Show(left, variables) + SymbolRightParen
    case VariableNode(location) => variables[location]
    case LiteralNode(value) => if value then SymbolTrue else SymbolFalse
    case SubexpressionNode(left) => Show(left, variables)
  }

  /** The values of the subexpressions of a tree, in post-order. */
  function SubValues(a: AstNode, values: seq<bool>): (r: seq<bool>)
    requires WellFormed(a, |values|)
    ensures |r| == SubCount(a)
  {
    match a
    case BinaryNode(_, left, right) => SubValues(left, values) + SubValues(right, values)
    case UnaryNode(_, left) => SubValues(left, values)
    case SubexpressionNode(left) => SubValues(left, values) + [Eval(left, values)]
    case _ => []
  }

  /** The texts of the subexpressions of a tree, in post-order. */
  function SubShows(a: AstNode, variables: seq<string>): (r: seq<string>)
    requires WellFormed(a, |variables|)
    ensures |r| == SubCount(a)
  {
    match a
    case BinaryNode(_, left, right) => SubShows(left, variables) + SubShows(right, variables)
    case UnaryNode(_, left) => SubShows(left, variables)
    case SubexpressionNode(left) => SubShows(left, variables) + [Show(left, variables)]
    case _ => []
  }

  /** The last subexpression of a tree wrapped for partitioning is the whole tree. */
  lemma WrapLastValue(root: AstNode, values: seq<bool>)
    requires WellFormed(root, |values|)
    ensures WellFormed(Wrap(root), |values|)
    ensures var sv := SubValues(Wrap(root), values); |sv| > 0 && sv[|sv| - 1] == Eval(root, values)
  {
  }

  lemma WrapLastShow(root: AstNode, variables: seq<string>)
    requires WellFormed(root, |variables|)
    ensures WellFormed(Wrap(root), |variables|)
    ensures var ss := SubShows(Wrap(root), variables); |ss| > 0 && ss[|ss| - 1] == Show(root, variables)
  {
  }

  // ---------------------------------------------------------------------------
  // Buffers.

  /** `buffer` holds `vals` from position `first` on. */
  predicate Holds<T(==)>(buffer: seq<T>, first: nat, vals: seq<T>)
  {
    first + |vals| <= |buffer| && forall k :: 0 <= k < |vals| ==> buffer[first + k] == vals[k]
  }

  /** `buffer` with `vals` written from position `first` on. */
  function Overwrite<T(==)>(buffer: seq<T>, first: nat, vals: seq<T>): (r: seq<T>)
    requires first + |vals| <= |buffer|
    ensures |r| == |buffer|
  {
    buffer[..first] + vals + buffer[first + |vals|..]
  }

  /** The written values are in place. */
  lemma OverwriteHolds<T>(buffer: seq<T>, first: nat, vals: seq<T>)
    requires first + |vals| <= |buffer|
    ensures Holds(Overwrite(buffer, first, vals), first, vals)
  {
    var r := Overwrite(buffer, first, vals);
    forall k | 0 <= k < |vals| ensures r[first + k] == vals[k] {
      assert r[first + k] == (buffer[..first] + vals)[first + k];
    }
  }

  lemma OverwriteConcat<T>(buffer: seq<T>, first: nat, xs: seq<T>, ys: seq<T>)
    requires first + |xs| + |ys| <= |buffer|
    ensures Overwrite(Overwrite(buffer, first, xs), first + |xs|, ys) == Overwrite(buffer, first, xs + ys)
  {
    var l := Overwrite(Overwrite(buffer, first, xs), first + |xs|, ys);
    var r := Overwrite(buffer, first, xs + ys);
    forall k | 0 <= k < |buffer| ensures l[k] == r[k] {
      if first <= k < first + |xs| {
        assert (xs + ys)[k - first] == xs[k - first];
      } else if first + |xs| <= k < first + |xs| + |ys| {
        assert (xs + ys)[k - first] == ys[k - first - |xs|];
      }
    }
  }

  lemma OverwriteOne<T>(buffer: seq<T>, i: nat, v: T)
    requires i < |buffer|
    ensures Overwrite(buffer, i, [v]) == buffer[i := v]
  {
    var l := Overwrite(buffer, i, [v]);
    forall k | 0 <= k < |buffer| ensures l[k] == buffer[i := v][k] {
      if k == i {
        assert l[i + 0] == [v][0];
      }
    }
  }

  lemma HoldsSplit<T>(buffer: seq<T>, first: nat, xs: seq<T>, ys: seq<T>)
    requires Holds(buffer, first, xs + ys)
    ensures Holds(buffer, first, xs) && Holds(buffer, first + |xs|, ys)
  {
    forall k | 0 <= k < |xs| ensures buffer[first + k] == xs[k] {
      assert (xs + ys)[k] == xs[k];
    }
    forall k | 0 <= k < |ys| ensures buffer[first + |xs| + k] == ys[k] {
      assert (xs + ys)[|xs| + k] == ys[k];
    }
  }

  lemma HoldsPrefix<T>(buffer: seq<T>, more: seq<T>, first: nat, vals: seq<T>)
    requires Holds(buffer, first, vals)
    ensures Holds(buffer + more, first, vals)
  {
    forall k | 0 <= k < |vals| ensures (buffer + more)[first + k] == vals[k] {
    }
  }

  // ---------------------------------------------------------------------------
  // One group.

  lemma {:induction false} RunGroupAppend(xs: seq<NodeOperation>, ys: seq<NodeOperation>, values: seq<bool>, outEval: seq<bool>, stack: seq<bool>)
    ensures RunGroup(xs + ys, values, outEval, stack)
         == match RunGroup(xs, values, outEval, stack)
            case None => None
            case Some(s) => RunGroup(ys, values, outEval, s)
    decreases |xs|
  {
    if xs == [] {
      assert xs + ys == ys;
    } else {
      assert (xs + ys)[0] == xs[0];
      assert (xs + ys)[1..] == xs[1..] + ys;
      var next := RunOp(xs[0], values, outEval, stack);
      if next.Some? {
        RunGroupAppend(xs[1..], ys, values, outEval, next.value);
      }
    }
  }

  lemma RunOne(op: NodeOperation, values: seq<bool>, outEval: seq<bool>, stack: seq<bool>)
    ensures RunGroup([op], values, outEval, stack) == RunOp(op, values, outEval, stack)
  {
    assert [op][1..] == [];
  }

  /** The compressed program of a well-formed tree pushes the tree's value, given
      the values of its subexpressions in the output buffer. */
  lemma {:induction false} RunCompressed(a: AstNode, first: nat, values: seq<bool>, outEval: seq<bool>, stack: seq<bool>)
    requires WellFormed(a, |values|) && Holds(outEval, first, SubValues(a, values))
    ensures RunGroup(Compressed(a, first), values, outEval, stack) == Some(stack + [Eval(a, values)])
    decreases a, 1
  {
    match a {
      case BinaryNode(_, _, _) => RunCompressedBinary(a, first, values, outEval, stack);
      case UnaryNode(_, _) => RunCompressedUnary(a, first, values, outEval, stack);
      case SubexpressionNode(left) =>
        assert outEval[first + SubCount(left)] == SubValues(a, values)[SubCount(left)];
        RunOne(a.Op(), values, outEval, stack);
      case _ => RunOne(a.Op(), values, outEval, stack);
    }
  }

  lemma {:induction false} RunCompressedBinary(a: AstNode, first: nat, values: seq<bool>, outEval: seq<bool>, stack: seq<bool>)
    requires a.BinaryNode? && WellFormed(a, |values|) && Holds(outEval, first, SubValues(a, values))
    ensures RunGroup(Compressed(a, first), values, outEval, stack) == Some(stack + [Eval(a, values)])
    decreases a, 0
  {
    var left, right := a.left, a.right;
    var fr := first + SubCount(left);
    var cl, cr := Compressed(left, first), Compressed(right, fr);
    var vl, vr := Eval(left, values), Eval(right, values);
    var sl, sr := SubValues(left, values), SubValues(right, values);
    assert Holds(outEval, first, sl) && Holds(outEval, fr, sr) by {
      HoldsSplit(outEval, first, sl, sr);
    }
    assert RunGroup(cl, values, outEval, stack) == Some(stack + [vl]) by {
      RunCompressed(left, first, values, outEval, stack);
    }
    assert RunGroup(cr, values, outEval, stack + [vl]) == Some(stack + [vl] + [vr]) by {
      RunCompressed(right, fr, values, outEval, stack + [vl]);
    }
    var s2 := stack + [vl] + [vr];
    assert RunOp(a.Op(), values, outEval, s2) == Some(stack + [Eval(a, values)]) by {
      assert s2[..|s2| - 2] == stack;
    }
    assert Compressed(a, first) == cl + cr + [a.Op()];
    RunBinaryGroup(cl, cr, a.Op(), values, outEval, stack, vl, vr, Eval(a, values));
  }

  /** A group made of two runs, each pushing one value, and an operator combining
      them pushes the operator's value. */
  lemma RunBinaryGroup(cl: seq<NodeOperation>, cr: seq<NodeOperation>, op: NodeOperation, values: seq<bool>, outEval: seq<bool>,
                       stack: seq<bool>, vl: bool, vr: bool, v: bool)
    requires RunGroup(cl, values, outEval, stack) == Some(stack + [vl])
    requires RunGroup(cr, values, outEval, stack + [vl]) == Some(stack + [vl] + [vr])
    requires RunOp(op, values, outEval, stack + [vl] + [vr]) == Some(stack + [v])
    ensures RunGroup(cl + cr + [op], values, outEval, stack) == Some(stack + [v])
  {
    RunGroupAppend(cl, cr, values, outEval, stack);
    RunOne(op, values, outEval, stack + [vl] + [vr]);
    RunGroupAppend(cl + cr, [op], values, outEval, stack);
  }

  lemma {:induction false} RunCompressedUnary(a: AstNode, first: nat, values: seq<bool>, outEval: seq<bool>, stack: seq<bool>)
    requires a.UnaryNode? && WellFormed(a, |values|) && Holds(outEval, first, SubValues(a, values))
    ensures RunGroup(Compressed(a, first), values, outEval, stack) == Some(stack + [Eval(a, values)])
    decreases a, 0
  {
    var left := a.left;
    var cl := Compressed(left, first);
    var vl := Eval(left, values);
    assert RunGroup(cl, values, outEval, stack) == Some(stack + [vl]) by {
      RunCompressed(left, first, values, outEval, stack);
    }
    var s1 := stack + [vl];
    assert RunGroup([a.Op()], values, outEval, s1) == Some(stack + [Eval(a, values)]) by {
      RunOne(a.Op(), values, outEval, s1);
      assert s1[..|s1| - 1] == stack;
    }
    assert Compressed(a, first) == cl + [a.Op()];
    RunGroupAppend(cl, [a.Op()], values, outEval, stack);
  }

  // ---------------------------------------------------------------------------
  // All groups of a tree.

  /** One group that pushes `v` writes `v` into the slot at `index`; `next` and
      `target` are the following index and the resulting buffer. */
  lemma EvaluateOneGroup(grp: seq<NodeOperation>, rest: seq<seq<NodeOperation>>, index: nat, values: seq<bool>, outEval: seq<bool>,
                         v: bool, next: nat, target: seq<bool>)
    requires index < |outEval| && RunGroup(grp, values, outEval, []) == Some([v])
    requires next == index + 1 && target == Overwrite(outEval, index, [v])
    ensures EvaluateFrom([grp] + rest, index, values, outEval) == EvaluateFrom(rest, next, values, target)
  {
    assert ([grp] + rest)[0] == grp;
    assert ([grp] + rest)[1..] == rest;
    OverwriteOne(outEval, index, v);
  }

  /** Evaluating the groups of a subtree writes the values of its subexpressions
      into their slots of the output buffer, whatever the buffer held. */
  lemma {:induction false} EvaluateTree(a: AstNode, first: nat, rest: seq<seq<NodeOperation>>, values: seq<bool>, outEval: seq<bool>)
    requires WellFormed(a, |values|) && first + SubCount(a) <= |outEval|
    ensures EvaluateFrom(Groups(a, first) + rest, first, values, outEval)
         == EvaluateFrom(rest, first + SubCount(a), values, Overwrite(outEval, first, SubValues(a, values)))
    decreases a, 1
  {
    match a {
      case BinaryNode(_, _, _) => EvaluateTreeBinary(a, first, rest, values, outEval);
      case UnaryNode(_, left) =>
        EvaluateTree(left, first, rest, values, outEval);
      case SubexpressionNode(_) => EvaluateTreeSubexpression(a, first, rest, values, outEval);
      case _ =>
        assert Groups(a, first) + rest == rest;
        assert Overwrite(outEval, first, []) == outEval;
    }
  }

  lemma {:induction false} EvaluateTreeBinary(a: AstNode, first: nat, rest: seq<seq<NodeOperation>>, values: seq<bool>, outEval: seq<bool>)
    requires a.BinaryNode? && WellFormed(a, |values|) && first + SubCount(a) <= |outEval|
    ensures EvaluateFrom(Groups(a, first) + rest, first, values, outEval)
         == EvaluateFrom(rest, first + SubCount(a), values, Overwrite(outEval, first, SubValues(a, values)))
    decreases a, 0
  {
    var left, right := a.left, a.right;
    var fr := first + SubCount(left);
    var sl, sr := SubValues(left, values), SubValues(right, values);
    var gr := Groups(right, fr);
    var out1 := Overwrite(outEval, first, sl);
    assert Groups(a, first) + rest == Groups(left, first) + (gr + rest) by {
      AppendAssociative(Groups(left, first), gr, rest);
    }
    assert EvaluateFrom(Groups(left, first) + (gr + rest), first, values, outEval)
        == EvaluateFrom(gr + rest, fr, values, out1) by {
      EvaluateTree(left, first, gr + rest, values, outEval);
    }
    assert EvaluateFrom(gr + rest, fr, values, out1)
        == EvaluateFrom(rest, first + SubCount(a), values, Overwrite(out1, fr, sr)) by {
      EvaluateTree(right, fr, rest, values, out1);
    }
    assert Overwrite(out1, fr, sr) == Overwrite(outEval, first, SubValues(a, values)) by {
      OverwriteConcat(outEval, first, sl, sr);
    }
  }

  lemma {:induction false} EvaluateTreeSubexpression(a: AstNode, first: nat, rest: seq<seq<NodeOperation>>, values: seq<bool>, outEval: seq<bool>)
    requires a.SubexpressionNode? && WellFormed(a, |values|) && first + SubCount(a) <= |outEval|
    ensures EvaluateFrom(Groups(a, first) + rest, first, values, outEval)
         == EvaluateFrom(rest, first + SubCount(a), values, Overwrite(outEval, first, SubValues(a, values)))
    decreases a, 0
  {
    var left := a.left;
    var cl := Compressed(left, first);
    assert Groups(a, first) + rest == Groups(left, first) + ([cl] + rest) by {
      AppendAssociative(Groups(left, first), [cl], rest);
    }
    EvaluateTree(left, first, [cl] + rest, values, outEval);
    EvaluateBodyGroup(a, first, rest, values, outEval);
  }

  /** The group of a subexpression, run once the groups of its body have filled
      their slots, writes the subexpression's value into the slot after them. */
  lemma EvaluateBodyGroup(a: AstNode, first: nat, rest: seq<seq<NodeOperation>>, values: seq<bool>, outEval: seq<bool>)
    requires a.SubexpressionNode? && WellFormed(a, |values|) && first + SubCount(a) <= |outEval|
    ensures EvaluateFrom([Compressed(a.left, first)] + rest, first + SubCount(a.left), values, Overwrite(outEval, first, SubValues(a.left, values)))
         == EvaluateFrom(rest, first + SubCount(a), values, Overwrite(outEval, first, SubValues(a, values)))
  {
    var left := a.left;
    var sl := SubValues(left, values);
    var v := Eval(left, values);
    var cl := Compressed(left, first);
    SubexpressionValues(a, values);
    RunAfterBody(left, first, values, outEval, sl, cl, v);
    GroupAfterBody(cl, rest, first, first + SubCount(left), first + SubCount(a), values, outEval, sl, v, SubValues(a, values));
  }

  lemma SubexpressionValues(a: AstNode, values: seq<bool>)
    requires a.SubexpressionNode? && WellFormed(a, |values|)
    ensures WellFormed(a.left, |values|) && SubCount(a) == SubCount(a.left) + 1
    ensures |SubValues(a.left, values)| == SubCount(a.left)
    ensures SubValues(a, values) == SubValues(a.left, values) + [Eval(a.left, values)]
  {
  }

  /** With the values `sl` of its subexpressions written into their slots, the
      compressed program `cl` of a tree, run on an empty stack, leaves only the
      tree's value `v`. */
  lemma RunAfterBody(a: AstNode, first: nat, values: seq<bool>, outEval: seq<bool>, sl: seq<bool>, cl: seq<NodeOperation>, v: bool)
    requires WellFormed(a, |values|) && sl == SubValues(a, values) && first + |sl| <= |outEval|
    requires cl == Compressed(a, first) && v == Eval(a, values)
    ensures RunGroup(cl, values, Overwrite(outEval, first, sl), []) == Some([v])
  {
    OverwriteHolds(outEval, first, sl);
    RunCompressed(a, first, values, Overwrite(outEval, first, sl), []);
    assert [] + [v] == [v];
  }

  /** The group that follows the slots `sl` of a body and pushes `v` writes `v`
      into the next slot. */
  lemma GroupAfterBody(cl: seq<NodeOperation>, rest: seq<seq<NodeOperation>>, first: nat, at: nat, next: nat, values: seq<bool>,
                       outEval: seq<bool>, sl: seq<bool>, v: bool, whole: seq<bool>)
    requires first + |sl| == at && at < |outEval| && next == at + 1 && whole == sl + [v]
    requires RunGroup(cl, values, Overwrite(outEval, first, sl), []) == Some([v])
    ensures EvaluateFrom([cl] + rest, at, values, Overwrite(outEval, first, sl))
         == EvaluateFrom(rest, next, values, Overwrite(outEval, first, whole))
  {
    OverwriteConcat(outEval, first, sl, [v]);
    EvaluateOneGroup(cl, rest, at, values, Overwrite(outEval, first, sl), v, next, Overwrite(outEval, first, whole));
  }

  /** `evaluate` on the groups of a well-formed expression never panics when the
      output buffer has a slot per group, and leaves in the buffer exactly the
      values of the subexpressions, the whole expression's last; nothing else in
      the buffer changes. */
  lemma EvaluateWhole(root: AstNode, values: seq<bool>, outEval: seq<bool>)
    requires WellFormed(root, |values|) && SubCount(Wrap(root)) <= |outEval|
    ensures WellFormed(Wrap(root), |values|)
    ensures Evaluate(WholeGroups(root), values, outEval) == Some(Overwrite(outEval, 0, SubValues(Wrap(root), values)))
  {
    var w := Wrap(root);
    GroupsCount(w, 0);
    EvaluateTree(w, 0, [], values, outEval);
    assert Groups(w, 0) + [] == Groups(w, 0);
  }

  /** The pipeline of the table loop: partitioning a well-formed tree and
      evaluating the groups into a buffer of one slot per group yields the values
      of the subexpressions, whatever the buffer held, and the last one is the
      value of the whole expression. */
  lemma EvaluateCompiled(root: AstNode, values: seq<bool>, outEval: seq<bool>)
    requires WellFormed(root, |values|)
    ensures SubexpressionGroups(root).Some?
    ensures |outEval| == |SubexpressionGroups(root).value| ==>
      && Evaluate(SubexpressionGroups(root).value, values, outEval) == Some(SubValues(Wrap(root), values))
      && SubValues(Wrap(root), values)[|outEval| - 1] == Eval(root, values)
  {
    PartitionMatchesReference(root);
    WrapLastValue(root, values);
    GroupsCount(Wrap(root), 0);
    if |outEval| == |WholeGroups(root)| {
      EvaluateWhole(root, values, outEval);
      var sv := SubValues(Wrap(root), values);
      assert outEval[..0] + sv + outEval[|sv|..] == sv;
    }
  }
}
