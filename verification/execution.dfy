/** The flat evaluator of src/execution.rs: the tree is flattened to postfix, cut
    into subexpression groups, and each group is run on a value stack (to evaluate
    a row) or on a string stack (to render the column headers). */
module Execution {
  import opened Util
  import opened Scanner
  import opened Compiler

  /** Number of nodes of a tree. */
  function Size(a: AstNode): (n: nat)
    ensures n >= 1
  {
    match a
    case BinaryNode(_, left, right) => Size(left) + Size(right) + 1
    case UnaryNode(_, left) => Size(left) + 1
    case SubexpressionNode(left) => Size(left) + 1
    case _ => 1
  }

  /** Post-order traversal: the left subtree, then the right one, then the node's
      own operation. The source appends to an output vector and returns the number
      of operations appended, which is the length of the result here. */
  function PostorderTraversalPostfix(a: AstNode): (r: seq<NodeOperation>)
    ensures |r| == Size(a)
  {
    match a
    case BinaryNode(_, left, right) => PostorderTraversalPostfix(left) + PostorderTraversalPostfix(right) + [a.Op()]
    case UnaryNode(_, left) => PostorderTraversalPostfix(left) + [a.Op()]
    case SubexpressionNode(left) => PostorderTraversalPostfix(left) + [a.Op()]
    case _ => [a.Op()]
  }

  /** The number of operands an operation takes from the stack. Markers count as
      operands: once their group is cut out they stand for its value. */
  function OpBacktrackSize(op: NodeOperation): (n: nat)
    ensures n <= 2
    ensures n == 0 <==> !op.BinaryOperation? && !op.UnaryOperation?
  {
    match op
    case UnaryOperation(_) => 1
    case BinaryOperation(_) => 2
    case _ => 0
  }

  /** Net change of the stack depth caused by one operation. */
  function Delta(op: NodeOperation): int
  {
    1 - OpBacktrackSize(op)
  }

  /** Net change of the stack depth caused by a run of operations. */
  function Effect(ops: seq<NodeOperation>): int
  {
    if ops == [] then 0 else Delta(ops[0]) + Effect(ops[1..])
  }

  lemma {:induction false} EffectAppend(xs: seq<NodeOperation>, ys: seq<NodeOperation>)
    ensures Effect(xs + ys) == Effect(xs) + Effect(ys)
  {
    if xs != [] {
      assert (xs + ys)[1..] == xs[1..] + ys;
      EffectAppend(xs[1..], ys);
    } else {
      assert xs + ys == ys;
    }
  }

  /** Effect of the run of the `c` operations just before `subLoc`. */
  function TailEffect(list: seq<NodeOperation>, subLoc: nat, c: nat): int
    requires c <= subLoc <= |list|
  {
    Effect(list[subLoc - c..subLoc])
  }

  /** Growing the run by one operation at its front. */
  lemma TailEffectStep(list: seq<NodeOperation>, subLoc: nat, c: nat)
    requires c < subLoc <= |list|
    ensures TailEffect(list, subLoc, c + 1) == Delta(list[subLoc - c - 1]) + TailEffect(list, subLoc, c)
  {
    assert list[subLoc - (c + 1)..subLoc] == [list[subLoc - c - 1]] + list[subLoc - c..subLoc];
  }

  /** `list[subLoc - c .. subLoc]` is the shortest run ending just before `subLoc`
      that leaves exactly one value: it pushes one value net, and every shorter
      run ending there pushes none. */
  predicate MinimalStandalone(list: seq<NodeOperation>, subLoc: nat, c: nat)
    requires subLoc <= |list|
  {
    && 1 <= c <= subLoc
    && TailEffect(list, subLoc, c) == 1
    && forall d :: 1 <= d < c ==> TailEffect(list, subLoc, d) <= 0
  }

  /** The backward walk of `subexpression_backtrack_size`: `remaining` counts the
      values still missing, each operation read supplies one value and asks for its
      own operands. An index before the start of the list is a panic of the source. */
  function BacktrackScan(list: seq<NodeOperation>, subLoc: nat, consumed: nat, remaining: nat): (r: Option<nat>)
    requires consumed <= subLoc <= |list|
    requires remaining >= 1 && remaining == 1 - TailEffect(list, subLoc, consumed)
    requires forall d :: 1 <= d <= consumed ==> TailEffect(list, subLoc, d) <= 0
    ensures r.Some? ==> MinimalStandalone(list, subLoc, r.value)
    ensures r.None? ==> forall c :: consumed < c <= subLoc ==> TailEffect(list, subLoc, c) != 1
    decreases subLoc - consumed
  {
    if consumed + 1 > subLoc then None
    else
      var c := consumed + 1;
      var op := list[subLoc - c];
      TailEffectStep(list, subLoc, consumed);
      var next := remaining - 1 + OpBacktrackSize(op);
      if next == 0 then Some(c)
      else BacktrackScan(list, subLoc, c, next)
  }

  /** Length of the smallest run ending just before the marker at `subLoc` that
      leaves one value: `None` exactly when there is no such run (the source walks
      off the front of the list and panics) or `subLoc` is past the list. */
  function SubexpressionBacktrackSize(list: seq<NodeOperation>, subLoc: nat): Option<nat>
  {
    if subLoc > |list| then None
    else
      assert list[subLoc..subLoc] == [];
      BacktrackScan(list, subLoc, 0, 1)
  }

  /** The walk finds the shortest run before the marker that leaves exactly one
      value, and fails exactly when there is none or the marker is out of range. */
  lemma BacktrackSizeSpec(list: seq<NodeOperation>, subLoc: nat)
    ensures subLoc <= |list| && SubexpressionBacktrackSize(list, subLoc).Some? ==>
      MinimalStandalone(list, subLoc, SubexpressionBacktrackSize(list, subLoc).value)
    ensures subLoc <= |list| ==>
      (SubexpressionBacktrackSize(list, subLoc).None? <==> forall c :: 1 <= c <= subLoc ==> TailEffect(list, subLoc, c) != 1)
    ensures subLoc > |list| ==> SubexpressionBacktrackSize(list, subLoc).None?
  {
    if subLoc <= |list| {
      assert list[subLoc..subLoc] == [];
    }
  }

  /** The marking loop of `subexpression_groups` from position `base` on: each
      plain subexpression marker becomes an indexed one, numbered from `first` in
      order of appearance, and its position is recorded. */
  function MarkSubexpressions(ops: seq<NodeOperation>, first: nat, base: nat): (r: (seq<NodeOperation>, seq<nat>))
    ensures |r.0| == |ops| && |r.1| == CountPlain(ops)
    decreases |ops|
  {
    if ops == [] then ([], [])
    else if ops[0] == Subexpression then
      var rest := MarkSubexpressions(ops[1..], first + 1, base + 1);
      ([IndexedSubexpression(first)] + rest.0, [base] + rest.1)
    else
      var rest := MarkSubexpressions(ops[1..], first, base + 1);
      ([ops[0]] + rest.0, rest.1)
  }

  /** The marking loop records, in increasing order, exactly the positions of
      the plain markers, renumbers the k-th of them to `first + k` and leaves
      every other operation where it was. */
  lemma {:induction false} MarkSubexpressionsSpec(ops: seq<NodeOperation>, first: nat, base: nat)
    ensures var r := MarkSubexpressions(ops, first, base);
      forall k :: 0 <= k < |r.1| ==>
        base <= r.1[k] < base + |ops| && ops[r.1[k] - base] == Subexpression && r.0[r.1[k] - base] == IndexedSubexpression(first + k)
    ensures var r := MarkSubexpressions(ops, first, base);
      forall k, l :: 0 <= k < l < |r.1| ==> r.1[k] < r.1[l]
    ensures var r := MarkSubexpressions(ops, first, base);
      forall i :: 0 <= i < |ops| && ops[i] != Subexpression ==> r.0[i] == ops[i]
    decreases |ops|
  {
    if ops != [] {
      var f := if ops[0] == Subexpression then first + 1 else first;
      MarkSubexpressionsSpec(ops[1..], f, base + 1);
    }
  }

  /** The loop of `subexpression_groups_impl` from one location on. */
  function GroupsImplFrom(list: seq<NodeOperation>, locations: seq<nat>, removed: nat, groups: seq<seq<NodeOperation>>): Option<seq<seq<NodeOperation>>>
    decreases |locations|, 1
  {
    if locations == [] then Some(groups)
    else CutAtFirst(list, locations, removed, groups)
  }

  /** One round of the loop: the location is shifted by the number of operations
      removed so far, the standalone run before it is copied out as the next group
      and then drained from the list, which leaves the marker itself in place. A
      location smaller than the removed count is an underflow panic of the source. */
  function CutAtFirst(list: seq<NodeOperation>, locations: seq<nat>, removed: nat, groups: seq<seq<NodeOperation>>): Option<seq<seq<NodeOperation>>>
    requires locations != []
    decreases |locations|, 0
  {
    if locations[0] < removed then None
    else
      var loc := locations[0] - removed;
      match SubexpressionBacktrackSize(list, loc)
      case None => None
      case Some(size) =>
        GroupsImplFrom(list[..loc - size] + list[loc..], locations[1..], removed + size, groups + [list[loc - size..loc]])
  }

  /** The loop keeps the groups found so far, adds one group per remaining
      location, and every group it adds leaves exactly one value. */
  lemma {:induction false} GroupsImplFromShape(list: seq<NodeOperation>, locations: seq<nat>, removed: nat, groups: seq<seq<NodeOperation>>)
    ensures var r := GroupsImplFrom(list, locations, removed, groups);
      r.Some? ==>
        && |r.value| == |groups| + |locations|
        && r.value[..|groups|] == groups
        && forall k :: |groups| <= k < |r.value| ==> Effect(r.value[k]) == 1
    decreases |locations|
  {
    if locations != [] && locations[0] >= removed {
      var loc := locations[0] - removed;
      var size := SubexpressionBacktrackSize(list, loc);
      if size.Some? {
        var group := list[loc - size.value..loc];
        var rest := list[..loc - size.value] + list[loc..];
        GroupsImplFromShape(rest, locations[1..], removed + size.value, groups + [group]);
        var r := GroupsImplFrom(rest, locations[1..], removed + size.value, groups + [group]);
        assert GroupsImplFrom(list, locations, removed, groups) == r;
        if r.Some? {
          assert r.value[..|groups|] == (groups + [group])[..|groups|];
          assert r.value[|groups|] == group;
        }
      }
    }
  }

  /** `subexpression_groups_impl`: one group per location, each of which leaves
      exactly one value. */
  function SubexpressionGroupsImpl(list: seq<NodeOperation>, locations: seq<nat>): (r: Option<seq<seq<NodeOperation>>>)
    ensures r.Some? ==> |r.value| == |locations|
    ensures r.Some? ==> forall k :: 0 <= k < |r.value| ==> Effect(r.value[k]) == 1
  {
    GroupsImplFromShape(list, locations, 0, []);
    GroupsImplFrom(list, locations, 0, [])
  }

  /** The marked postfix program and the marker locations, with the whole
      expression wrapped in a final marker unless its root already is a
      subexpression; the last location is always the last operation. */
  function MarkedProgram(root: AstNode): (r: (seq<NodeOperation>, seq<nat>))
    ensures |r.0| > 0 && |r.1| > 0 && r.1[|r.1| - 1] == |r.0| - 1
  {
    var postfix := PostorderTraversalPostfix(root);
    var count := |postfix|;
    var marked := MarkSubexpressions(postfix, 0, 0);
    if |marked.1| > 0 && marked.1[|marked.1| - 1] == count - 1 then marked
    else (marked.0 + [IndexedSubexpression(|marked.1|)], marked.1 + [count])
  }

  /** `subexpression_groups`. */
  function SubexpressionGroups(root: AstNode): (r: Option<seq<seq<NodeOperation>>>)
    ensures r.Some? ==> |r.value| > 0
  {
    var program := MarkedProgram(root);
    SubexpressionGroupsImpl(program.0, program.1)
  }

  /** One operation of `evaluate` on the operand stack. Markers read the output
      buffer, variables read the row's values; a missing operand, an index out of
      range or a conditional operator is a panic of the source. A plain
      subexpression marker does nothing. */
  function RunOp(op: NodeOperation, values: seq<bool>, outEval: seq<bool>, stack: seq<bool>): (r: Option<seq<bool>>)
    ensures r.Some? ==> |r.value| == |stack| + Delta(op) - (if op == Subexpression then 1 else 0)
  {
    match op
    case Literal(value) => Some(stack + [value])
    case VariableDeref(location) => if location < |values| then Some(stack + [values[location]]) else None
    case IndexedSubexpression(index) => if index < |outEval| then Some(stack + [outEval[index]]) else None
    case BinaryOperation(o) =>
      if |stack| < 2 then None
      else
        var right := stack[|stack| - 1];
        var left := stack[|stack| - 2];
        if o == And then Some(stack[..|stack| - 2] + [left && right])
        else if o == Or then Some(stack[..|stack| - 2] + [left || right])
        else None
    case UnaryOperation(o) =>
      if |stack| < 1 then None
      else if o == Not then Some(stack[..|stack| - 1] + [!stack[|stack| - 1]])
      else None
    case Subexpression => Some(stack)
  }

  /** The inner loop of `evaluate`: one group on the operand stack. */
  function RunGroup(grp: seq<NodeOperation>, values: seq<bool>, outEval: seq<bool>, stack: seq<bool>): (r: Option<seq<bool>>)
    ensures r.Some? ==> |r.value| == |stack| + Effect(grp) - CountPlain(grp)
    decreases |grp|
  {
    if grp == [] then Some(stack)
    else match RunOp(grp[0], values, outEval, stack)
      case None => None
      case Some(next) => RunGroup(grp[1..], values, outEval, next)
  }

  /** Number of plain subexpression markers, the only operation that pushes
      nothing although it takes no operand. */
  function CountPlain(ops: seq<NodeOperation>): nat
  {
    if ops == [] then 0 else (if ops[0] == Subexpression then 1 else 0) + CountPlain(ops[1..])
  }

  /** `evaluate` from group `index` on: each group runs on an emptied stack and its
      top value is written to `outEval[index]`. */
  function EvaluateFrom(groups: seq<seq<NodeOperation>>, index: nat, values: seq<bool>, outEval: seq<bool>): (r: Option<seq<bool>>)
    ensures r.Some? ==> |r.value| == |outEval|
    ensures r.Some? && groups != [] ==> index + |groups| <= |outEval|
    ensures r.Some? ==> forall k :: 0 <= k < |outEval| && !(index <= k < index + |groups|) ==> r.value[k] == outEval[k]
    decreases |groups|
  {
    if groups == [] then Some(outEval)
    else match RunGroup(groups[0], values, outEval, [])
      case None => None
      case Some(stack) =>
        if |stack| == 0 || index >= |outEval| then None
        else EvaluateFrom(groups[1..], index + 1, values, outEval[index := stack[|stack| - 1]])
  }

  /** `evaluate`: fills the output buffer, one entry per group. */
  function Evaluate(groups: seq<seq<NodeOperation>>, values: seq<bool>, outEval: seq<bool>): (r: Option<seq<bool>>)
    ensures r.Some? ==> |r.value| == |outEval| && |groups| <= |outEval|
    ensures r.Some? ==> forall k :: |groups| <= k < |outEval| ==> r.value[k] == outEval[k]
  {
    EvaluateFrom(groups, 0, values, outEval)
  }

  const SymbolTrue := "<T>"
  const SymbolFalse := "<F>"
  const SymbolAnd := " & "
  const SymbolOr := " | "
  const SymbolNot := "!"
  const SymbolLeftParen := "("
  const SymbolRightParen := ")"

  function BinarySymbol(op: OperatorType): string
  {
    if op == And then SymbolAnd else if op == Or then SymbolOr else ""
  }

  function UnarySymbol(op: OperatorType): string
  {
    if op == Not then SymbolNot else ""
  }

  /** One operation of `groups_to_string` on the string stack. Markers read the
      strings of the earlier groups; an operator without a symbol renders as
      the empty string. */
  function RenderOp(op: NodeOperation, variables: seq<string>, result: seq<string>, stack: seq<string>): (r: Option<seq<string>>)
    ensures r.Some? ==> |r.value| == |stack| + Delta(op) - (if op == Subexpression then 1 else 0)
  {
    match op
    case Literal(value) => Some(stack + [if value then SymbolTrue else SymbolFalse])
    case VariableDeref(location) => if location < |variables| then Some(stack + [variables[location]]) else None
    case IndexedSubexpression(index) => if index < |result| then Some(stack + [result[index]]) else None
    case BinaryOperation(o) =>
      if |stack| < 2 then None
      else
        var right := stack[|stack| - 1];
        var left := stack[|stack| - 2];
        Some(stack[..|stack| - 2] + [SymbolLeftParen + left + BinarySymbol(o) + right + SymbolRightParen])
    case UnaryOperation(o) =>
      if |stack| < 1 then None
      else Some(stack[..|stack| - 1] + [UnarySymbol(o) + SymbolLeftParen + stack[|stack| - 1] + SymbolRightParen])
    case Subexpression => Some(stack)
  }

  /** The inner loop of `groups_to_string`: one group on the string stack. */
  function RenderGroup(grp: seq<NodeOperation>, variables: seq<string>, result: seq<string>, stack: seq<string>): (r: Option<seq<string>>)
    ensures r.Some? ==> |r.value| == |stack| + Effect(grp) - CountPlain(grp)
    decreases |grp|
  {
    if grp == [] then Some(stack)
    else match RenderOp(grp[0], variables, result, stack)
      case None => None
      case Some(next) => RenderGroup(grp[1..], variables, result, next)
  }

  /** `groups_to_string` from a partial result on: one string per group. */
  function GroupsToStringFrom(groups: seq<seq<NodeOperation>>, variables: seq<string>, result: seq<string>): (r: Option<seq<string>>)
    ensures r.Some? ==> |r.value| == |result| + |groups| && r.value[..|result|] == result
    decreases |groups|
  {
    if groups == [] then Some(result)
    else match RenderGroup(groups[0], variables, result, [])
      case None => None
      case Some(stack) =>
        if |stack| == 0 then None
        else
          var r := GroupsToStringFrom(groups[1..], variables, result + [stack[|stack| - 1]]);
          if r.Some? then
            assert r.value[..|result|] == (result + [stack[|stack| - 1]])[..|result|];
            r
          else r
  }

  /** `groups_to_string`: one header string per group. */
  function GroupsToString(groups: seq<seq<NodeOperation>>, variables: seq<string>): (r: Option<seq<string>>)
    ensures r.Some? ==> |r.value| == |groups|
  {
    GroupsToStringFrom(groups, variables, [])
  }
}
