/** Reference description of the subexpression groups of a tree, and the proof
    that `subexpression_groups` computes exactly them. */
module Partition {
  import opened Util
  import opened Scanner
  import opened Compiler
  import opened Execution

  /** Number of subexpression nodes of a tree. */
  function SubCount(a: AstNode): nat
  {
    match a
    case BinaryNode(_, left, right) => SubCount(left) + SubCount(right)
    case UnaryNode(_, left) => SubCount(left)
    case SubexpressionNode(left) => SubCount(left) + 1
    case _ => 0
  }

  /** The postfix program with its subexpression markers numbered from `first` in
      post-order, which is the order they appear in. */
  function Numbered(a: AstNode, first: nat): seq<NodeOperation>
  {
    match a
    case BinaryNode(_, left, right) => Numbered(left, first) + Numbered(right, first + SubCount(left)) + [a.Op()]
    case UnaryNode(_, left) => Numbered(left, first) + [a.Op()]
    case SubexpressionNode(left) => Numbered(left, first) + [IndexedSubexpression(first + SubCount(left))]
    case _ => [a.Op()]
  }

  /** Positions of the markers of `Numbered(a, _)` when it starts at `base`. */
  function MarkerLocs(a: AstNode, base: nat): seq<nat>
  {
    match a
    case BinaryNode(_, left, right) => MarkerLocs(left, base) + MarkerLocs(right, base + |Numbered(left, 0)|)
    case UnaryNode(_, left) => MarkerLocs(left, base)
    case SubexpressionNode(left) => MarkerLocs(left, base) + [base + |Numbered(left, 0)|]
    case _ => []
  }

  /** The postfix program with every subexpression replaced by its marker. */
  function Compressed(a: AstNode, first: nat): seq<NodeOperation>
  {
    match a
    case BinaryNode(_, left, right) => Compressed(left, first) + Compressed(right, first + SubCount(left)) + [a.Op()]
    case UnaryNode(_, left) => Compressed(left, first) + [a.Op()]
    case SubexpressionNode(left) => [IndexedSubexpression(first + SubCount(left))]
    case _ => [a.Op()]
  }

  /** The groups of a tree, one per subexpression in post-order: the compressed
      program of the subexpression's body. */
  function Groups(a: AstNode, first: nat): seq<seq<NodeOperation>>
  {
    match a
    case BinaryNode(_, left, right) => Groups(left, first) + Groups(right, first + SubCount(left))
    case UnaryNode(_, left) => Groups(left, first)
    case SubexpressionNode(left) => Groups(left, first) + [Compressed(left, first)]
    case _ => []
  }

  /** The root as the partitioner sees it: wrapped in a subexpression unless it is
      one already. */
  function Wrap(root: AstNode): AstNode
  {
    if root.SubexpressionNode? then root else SubexpressionNode(root)
  }

  /** The groups of a whole expression; the last one computes the expression. */
  function WholeGroups(root: AstNode): seq<seq<NodeOperation>>
  {
    Groups(Wrap(root), 0)
  }

  lemma {:induction false} NumberedSize(a: AstNode, first: nat)
    ensures |Numbered(a, first)| == Size(a)
  {
    match a {
      case BinaryNode(_, left, right) => NumberedSize(left, first); NumberedSize(right, first + SubCount(left));
      case UnaryNode(_, left) => NumberedSize(left, first);
      case SubexpressionNode(left) => NumberedSize(left, first);
      case _ =>
    }
  }

  /** There is one group per subexpression. */
  lemma {:induction false} GroupsCount(a: AstNode, first: nat)
    ensures |Groups(a, first)| == SubCount(a)
  {
    match a {
      case BinaryNode(_, left, right) => GroupsCount(left, first); GroupsCount(right, first + SubCount(left));
      case UnaryNode(_, left) => GroupsCount(left, first);
      case SubexpressionNode(left) => GroupsCount(left, first);
      case _ =>
    }
  }

  // ---------------------------------------------------------------------------
  // The marking loop produces the numbered program and its marker positions.

  lemma {:induction false} CountPlainAppend(xs: seq<NodeOperation>, ys: seq<NodeOperation>)
    ensures CountPlain(xs + ys) == CountPlain(xs) + CountPlain(ys)
  {
    if xs == [] {
      assert xs + ys == ys;
    } else {
      assert (xs + ys)[1..] == xs[1..] + ys;
      CountPlainAppend(xs[1..], ys);
    }
  }

  lemma {:induction false} MarkAppend(xs: seq<NodeOperation>, ys: seq<NodeOperation>, first: nat, base: nat)
    ensures var m := MarkSubexpressions(xs, first, base);
      var n := MarkSubexpressions(ys, first + CountPlain(xs), base + |xs|);
      MarkSubexpressions(xs + ys, first, base) == (m.0 + n.0, m.1 + n.1)
    decreases |xs|
  {
    if xs == [] {
      assert xs + ys == ys;
      var n := MarkSubexpressions(ys, first, base);
      assert [] + n.0 == n.0 && [] + n.1 == n.1;
    } else {
      assert (xs + ys)[1..] == xs[1..] + ys;
      var f := if xs[0] == Subexpression then first + 1 else first;
      MarkAppend(xs[1..], ys, f, base + 1);
      var m := MarkSubexpressions(xs[1..], f, base + 1);
      var n := MarkSubexpressions(ys, f + CountPlain(xs[1..]), base + 1 + |xs[1..]|);
      var head := if xs[0] == Subexpression then [IndexedSubexpression(first)] else [xs[0]];
      var locs: seq<nat> := if xs[0] == Subexpression then [base] else [];
      assert head + (m.0 + n.0) == (head + m.0) + n.0;
      assert locs + (m.1 + n.1) == (locs + m.1) + n.1;
    }
  }

  lemma MarkSingle(op: NodeOperation, first: nat, base: nat)
    ensures MarkSubexpressions([op], first, base) ==
      if op == Subexpression then ([IndexedSubexpression(first)], [base]) else ([op], [])
  {
    assert [op][1..] == [];
    assert [IndexedSubexpression(first)] + [] == [IndexedSubexpression(first)];
    assert [op] + [] == [op];
    assert [base] + [] == [base];
  }

  /** Marking one more operation after a program. */
  lemma MarkSnoc(xs: seq<NodeOperation>, op: NodeOperation, first: nat, base: nat)
    ensures var m := MarkSubexpressions(xs, first, base);
      MarkSubexpressions(xs + [op], first, base) ==
        if op == Subexpression then (m.0 + [IndexedSubexpression(first + CountPlain(xs))], m.1 + [base + |xs|])
        else (m.0 + [op], m.1)
    ensures CountPlain(xs + [op]) == CountPlain(xs) + (if op == Subexpression then 1 else 0)
  {
    MarkAppend(xs, [op], first, base);
    MarkSingle(op, first + CountPlain(xs), base + |xs|);
    CountPlainAppend(xs, [op]);
    assert CountPlain([op]) == (if op == Subexpression then 1 else 0);
    assert MarkSubexpressions(xs, first, base).1 + [] == MarkSubexpressions(xs, first, base).1;
  }

  /** Marking an operation that is not a marker after a program. */
  lemma MarkSnocPlain(xs: seq<NodeOperation>, op: NodeOperation, first: nat, base: nat, m: (seq<NodeOperation>, seq<nat>))
    requires op != Subexpression && MarkSubexpressions(xs, first, base) == m
    ensures MarkSubexpressions(xs + [op], first, base) == (m.0 + [op], m.1)
    ensures CountPlain(xs + [op]) == CountPlain(xs)
  {
    MarkSnoc(xs, op, first, base);
  }

  /** Marking the post-order traversal gives the numbered program. */
  lemma {:induction false} MarkPostfix(a: AstNode, first: nat, base: nat)
    ensures CountPlain(PostorderTraversalPostfix(a)) == SubCount(a)
    ensures MarkSubexpressions(PostorderTraversalPostfix(a), first, base) == (Numbered(a, first), MarkerLocs(a, base))
    decreases a, 2
  {
    match a {
      case BinaryNode(_, _, _) => MarkBinary(a, first, base);
      case UnaryNode(_, _) => MarkUnary(a, first, base);
      case SubexpressionNode(_) => MarkSubexpression(a, first, base);
      case _ =>
        MarkSingle(a.Op(), first, base);
        assert CountPlain([a.Op()]) == 0;
    }
  }

  /** Marking two programs one after the other, given how each is marked. */
  lemma MarkPair(xs: seq<NodeOperation>, ys: seq<NodeOperation>, first: nat, base: nat,
                 mx: (seq<NodeOperation>, seq<nat>), my: (seq<NodeOperation>, seq<nat>), cx: nat, cy: nat)
    requires CountPlain(xs) == cx && MarkSubexpressions(xs, first, base) == mx
    requires CountPlain(ys) == cy && MarkSubexpressions(ys, first + cx, base + |xs|) == my
    ensures CountPlain(xs + ys) == cx + cy
    ensures MarkSubexpressions(xs + ys, first, base) == (mx.0 + my.0, mx.1 + my.1)
  {
    MarkAppend(xs, ys, first, base);
    CountPlainAppend(xs, ys);
  }

  lemma {:induction false} MarkBinary(a: AstNode, first: nat, base: nat)
    requires a.BinaryNode?
    ensures CountPlain(PostorderTraversalPostfix(a)) == SubCount(a)
    ensures MarkSubexpressions(PostorderTraversalPostfix(a), first, base) == (Numbered(a, first), MarkerLocs(a, base))
    decreases a, 1
  {
    var left, right, op := a.left, a.right, a.Op();
    var fr := first + SubCount(left);
    var pl := PostorderTraversalPostfix(left);
    var pr := PostorderTraversalPostfix(right);
    MarkPostfix(left, first, base);
    NumberedSize(left, 0);
    MarkPostfix(right, fr, base + |pl|);
    MarkPair(pl, pr, first, base, (Numbered(left, first), MarkerLocs(left, base)),
      (Numbered(right, fr), MarkerLocs(right, base + |pl|)), SubCount(left), SubCount(right));
    MarkBinaryClose(a, first, base);
  }

  /** The binary node's own operation completes the marking of its operands. */
  lemma MarkBinaryClose(a: AstNode, first: nat, base: nat)
    requires a.BinaryNode?
    requires var pl, pr := PostorderTraversalPostfix(a.left), PostorderTraversalPostfix(a.right);
      && CountPlain(pl + pr) == SubCount(a.left) + SubCount(a.right)
      && MarkSubexpressions(pl + pr, first, base)
         == (Numbered(a.left, first) + Numbered(a.right, first + SubCount(a.left)),
             MarkerLocs(a.left, base) + MarkerLocs(a.right, base + |pl|))
    ensures CountPlain(PostorderTraversalPostfix(a)) == SubCount(a)
    ensures MarkSubexpressions(PostorderTraversalPostfix(a), first, base) == (Numbered(a, first), MarkerLocs(a, base))
  {
    var ps := PostorderTraversalPostfix(a.left) + PostorderTraversalPostfix(a.right);
    BinaryShape(a, first, base);
    MarkSnocPlain(ps, a.Op(), first, base, MarkSubexpressions(ps, first, base));
  }

  /** The numbered program, the marker positions and the traversal of a binary
      node, in terms of its operands. */
  lemma BinaryShape(a: AstNode, first: nat, base: nat)
    requires a.BinaryNode?
    ensures a.Op() != Subexpression
    ensures PostorderTraversalPostfix(a) == PostorderTraversalPostfix(a.left) + PostorderTraversalPostfix(a.right) + [a.Op()]
    ensures Numbered(a, first) == Numbered(a.left, first) + Numbered(a.right, first + SubCount(a.left)) + [a.Op()]
    ensures MarkerLocs(a, base) == MarkerLocs(a.left, base) + MarkerLocs(a.right, base + |PostorderTraversalPostfix(a.left)|)
  {
    NumberedSize(a.left, 0);
  }

  lemma {:induction false} MarkUnary(a: AstNode, first: nat, base: nat)
    requires a.UnaryNode?
    ensures CountPlain(PostorderTraversalPostfix(a)) == SubCount(a)
    ensures MarkSubexpressions(PostorderTraversalPostfix(a), first, base) == (Numbered(a, first), MarkerLocs(a, base))
    decreases a, 1
  {
    MarkPostfix(a.left, first, base);
    MarkSnoc(PostorderTraversalPostfix(a.left), a.Op(), first, base);
  }

  lemma {:induction false} MarkSubexpression(a: AstNode, first: nat, base: nat)
    requires a.SubexpressionNode?
    ensures CountPlain(PostorderTraversalPostfix(a)) == SubCount(a)
    ensures MarkSubexpressions(PostorderTraversalPostfix(a), first, base) == (Numbered(a, first), MarkerLocs(a, base))
    decreases a, 1
  {
    var pl := PostorderTraversalPostfix(a.left);
    MarkPostfix(a.left, first, base);
    NumberedSize(a.left, 0);
    MarkSnoc(pl, a.Op(), first, base);
  }

  /** The program `subexpression_groups` hands to the cutting loop is the numbered
      program of the wrapped root, with the wrapped root's marker positions. */
  lemma MarkedProgramIsWrapped(root: AstNode)
    ensures MarkedProgram(root) == (Numbered(Wrap(root), 0), MarkerLocs(Wrap(root), 0))
  {
    var postfix := PostorderTraversalPostfix(root);
    MarkPostfix(root, 0, 0);
    NumberedSize(root, 0);
    var marked := MarkSubexpressions(postfix, 0, 0);
    MarkSubexpressionsSpec(postfix, 0, 0);
    if root.SubexpressionNode? {
      NumberedSize(root.left, 0);
      assert marked.1[|marked.1| - 1] == |postfix| - 1;
    } else {
      if |marked.1| > 0 {
        assert postfix[marked.1[|marked.1| - 1]] == Subexpression;
      }
    }
  }

  // ---------------------------------------------------------------------------
  // Compressed programs are standalone: the backward walk stops exactly at their
  // first operation.

  function SuffixEffect(c: seq<NodeOperation>, d: nat): int
    requires d <= |c|
  {
    Effect(c[|c| - d..])
  }

  /** `c` leaves one value, and no shorter run at its end does. */
  predicate Tight(c: seq<NodeOperation>)
  {
    && |c| >= 1
    && Effect(c) == 1
    && forall d :: 1 <= d < |c| ==> SuffixEffect(c, d) <= 0
  }

  lemma SuffixInSecond(p: seq<NodeOperation>, q: seq<NodeOperation>, d: nat)
    requires d <= |q|
    ensures SuffixEffect(p + q, d) == SuffixEffect(q, d)
  {
    TailWithin(p, q, d);
  }

  lemma SuffixAcross(p: seq<NodeOperation>, q: seq<NodeOperation>, d: nat)
    requires |q| < d <= |p| + |q|
    ensures SuffixEffect(p + q, d) == SuffixEffect(p, d - |q|) + Effect(q)
  {
    TailAcross(p, q, d);
    EffectAppend(p[|p| + |q| - d..], q);
  }

  lemma EffectSingle(op: NodeOperation)
    ensures Effect([op]) == Delta(op)
  {
    assert [op][1..] == [];
  }

  lemma TightLeaf(op: NodeOperation)
    requires OpBacktrackSize(op) == 0
    ensures Tight([op])
  {
    EffectSingle(op);
  }

  lemma TightUnary(x: seq<NodeOperation>, op: NodeOperation)
    requires Tight(x) && op.UnaryOperation?
    ensures Tight(x + [op])
  {
    var z := x + [op];
    EffectSingle(op);
    EffectAppend(x, [op]);
    assert SuffixEffect([op], 1) == Effect([op]);
    forall d | 1 <= d < |z| ensures SuffixEffect(z, d) <= 0 {
      if d == 1 {
        SuffixInSecond(x, [op], d);
      } else {
        SuffixAcross(x, [op], d);
      }
    }
  }

  lemma TightBinary(x: seq<NodeOperation>, y: seq<NodeOperation>, op: NodeOperation)
    requires Tight(x) && Tight(y) && op.BinaryOperation?
    ensures Tight(x + y + [op])
  {
    var xy := x + y;
    var z := xy + [op];
    EffectSingle(op);
    EffectAppend(x, y);
    EffectAppend(xy, [op]);
    assert SuffixEffect([op], 1) == Effect([op]);
    assert SuffixEffect(y, |y|) == Effect(y);
    forall d | 1 <= d < |z| ensures SuffixEffect(z, d) <= 0 {
      if d == 1 {
        SuffixInSecond(xy, [op], d);
      } else {
        SuffixAcross(xy, [op], d);
        if d - 1 <= |y| {
          SuffixInSecond(x, y, d - 1);
        } else {
          SuffixAcross(x, y, d - 1);
        }
      }
    }
  }

  lemma {:induction false} CompressedTight(a: AstNode, first: nat)
    ensures Tight(Compressed(a, first))
  {
    match a {
      case BinaryNode(_, left, right) =>
        CompressedTight(left, first);
        CompressedTight(right, first + SubCount(left));
        TightBinary(Compressed(left, first), Compressed(right, first + SubCount(left)), a.Op());
      case UnaryNode(_, left) =>
        CompressedTight(left, first);
        TightUnary(Compressed(left, first), a.Op());
      case SubexpressionNode(left) => TightLeaf(IndexedSubexpression(first + SubCount(left)));
      case _ => TightLeaf(a.Op());
    }
  }

  /** The backward walk from just after a tight run stops at the run's first
      operation, whatever surrounds it. */
  lemma BacktrackTight(pre: seq<NodeOperation>, c: seq<NodeOperation>, post: seq<NodeOperation>)
    requires Tight(c)
    ensures SubexpressionBacktrackSize(pre + c + post, |pre| + |c|) == Some(|c|)
  {
    var list := pre + c + post;
    var subLoc := |pre| + |c|;
    forall d | 1 <= d <= |c| ensures TailEffect(list, subLoc, d) == SuffixEffect(c, d) {
      assert list[subLoc - d..subLoc] == c[|c| - d..];
    }
    assert TailEffect(list, subLoc, |c|) == 1;
  }

  // ---------------------------------------------------------------------------
  // The cutting loop, one subtree at a time.

  /** One round of the cutting loop. */
  lemma GroupsImplStep(list: seq<NodeOperation>, loc: nat, locations: seq<nat>, removed: nat, acc: seq<seq<NodeOperation>>, size: nat)
    requires removed <= loc && SubexpressionBacktrackSize(list, loc - removed) == Some(size)
    ensures size <= loc - removed <= |list|
    ensures GroupsImplFrom(list, [loc] + locations, removed, acc)
         == GroupsImplFrom(list[..loc - removed - size] + list[loc - removed..], locations, removed + size,
                           acc + [list[loc - removed - size..loc - removed]])
  {
    assert ([loc] + locations)[1..] == locations;
    assert GroupsImplFrom(list, [loc] + locations, removed, acc) == CutAtFirst(list, [loc] + locations, removed, acc);
  }

  /** Cutting at the marker of a subexpression whose body is already compressed:
      the body becomes the next group and is drained, the marker stays. */
  lemma CutAtMarker(pre: seq<NodeOperation>, c: seq<NodeOperation>, marker: NodeOperation, post: seq<NodeOperation>,
                    loc: nat, locations: seq<nat>, removed: nat, acc: seq<seq<NodeOperation>>)
    requires Tight(c) && loc == |pre| + |c| + removed
    ensures GroupsImplFrom(pre + c + ([marker] + post), [loc] + locations, removed, acc)
         == GroupsImplFrom(pre + ([marker] + post), locations, removed + |c|, acc + [c])
  {
    var tail := [marker] + post;
    var list := pre + c + tail;
    BacktrackTight(pre, c, tail);
    var at := |pre| + |c|;
    assert loc - removed == at;
    GroupsImplStep(list, loc, locations, removed, acc, |c|);
    SliceFacts(pre, c, tail);
  }

  lemma SliceFacts(pre: seq<NodeOperation>, c: seq<NodeOperation>, tail: seq<NodeOperation>)
    ensures var list := pre + c + tail;
      && list[|pre|..|pre| + |c|] == c
      && list[..|pre|] + list[|pre| + |c|..] == pre + tail
  {
    var list := pre + c + tail;
    assert list[..|pre|] == pre;
    assert list[|pre| + |c|..] == tail;
  }

  /** The statement of `CutTree`. */
  predicate CutsTo(a: AstNode, first: nat, pre: seq<NodeOperation>, post: seq<NodeOperation>,
                   locations: seq<nat>, removed: nat, acc: seq<seq<NodeOperation>>)
  {
    && |Compressed(a, first)| <= |Numbered(a, first)|
    && GroupsImplFrom(pre + Numbered(a, first) + post, MarkerLocs(a, |pre| + removed) + locations, removed, acc)
       == GroupsImplFrom(pre + Compressed(a, first) + post, locations,
                         removed + |Numbered(a, first)| - |Compressed(a, first)|, acc + Groups(a, first))
  }

  /** Running the cutting loop over the markers of a subtree replaces the subtree's
      numbered program by its compressed one and appends its groups. */
  lemma {:induction false} CutTree(a: AstNode, first: nat, pre: seq<NodeOperation>, post: seq<NodeOperation>,
                                   locations: seq<nat>, removed: nat, acc: seq<seq<NodeOperation>>)
    ensures CutsTo(a, first, pre, post, locations, removed, acc)
    decreases a, 1
  {
    match a {
      case BinaryNode(_, _, _) => CutBinary(a, first, pre, post, locations, removed, acc);
      case UnaryNode(_, _) => CutUnary(a, first, pre, post, locations, removed, acc);
      case SubexpressionNode(_) => CutSubexpression(a, first, pre, post, locations, removed, acc);
      case _ =>
        assert MarkerLocs(a, |pre| + removed) + locations == locations;
        assert acc + Groups(a, first) == acc;
    }
  }

  /** Regrouping the list and the locations around a binary node. */
  lemma BinaryLayout(a: AstNode, first: nat, pre: seq<NodeOperation>, post: seq<NodeOperation>,
                     locations: seq<nat>, removed: nat)
    requires a.BinaryNode?
    ensures pre + Numbered(a, first) + post
         == pre + Numbered(a.left, first) + (Numbered(a.right, first + SubCount(a.left)) + [a.Op()] + post)
    ensures MarkerLocs(a, |pre| + removed) + locations
         == MarkerLocs(a.left, |pre| + removed) + (MarkerLocs(a.right, |pre| + removed + |Numbered(a.left, first)|) + locations)
  {
    var base := |pre| + removed;
    var nl := Numbered(a.left, first);
    var nr := Numbered(a.right, first + SubCount(a.left));
    NumberedSize(a.left, first);
    NumberedSize(a.left, 0);
    assert Numbered(a, first) == nl + nr + [a.Op()];
    Regroup(pre, nl, nr, [a.Op()], post);
    assert MarkerLocs(a, base) == MarkerLocs(a.left, base) + MarkerLocs(a.right, base + |nl|);
    AppendAssociative(MarkerLocs(a.left, base), MarkerLocs(a.right, base + |nl|), locations);
  }

  lemma BinaryMiddle(a: AstNode, first: nat, pre: seq<NodeOperation>, post: seq<NodeOperation>,
                     locations: seq<nat>, removed: nat, acc: seq<seq<NodeOperation>>)
    requires a.BinaryNode?
    ensures var cl := Compressed(a.left, first);
      var nr := Numbered(a.right, first + SubCount(a.left));
      GroupsImplFrom(pre + cl + (nr + [a.Op()] + post), locations, removed, acc)
      == GroupsImplFrom((pre + cl) + nr + ([a.Op()] + post), locations, removed, acc)
  {
    var cl := Compressed(a.left, first);
    var nr := Numbered(a.right, first + SubCount(a.left));
    AppendAssociative(nr, [a.Op()], post);
    AppendAssociative(pre + cl, nr, [a.Op()] + post);
  }

  lemma BinaryEnd(a: AstNode, first: nat, pre: seq<NodeOperation>, post: seq<NodeOperation>,
                  locations: seq<nat>, removed: nat, acc: seq<seq<NodeOperation>>)
    requires a.BinaryNode?
    ensures var cl := Compressed(a.left, first);
      var fr := first + SubCount(a.left);
      GroupsImplFrom((pre + cl) + Compressed(a.right, fr) + ([a.Op()] + post), locations, removed, acc + Groups(a.left, first) + Groups(a.right, fr))
      == GroupsImplFrom(pre + Compressed(a, first) + post, locations, removed, acc + Groups(a, first))
  {
    var cl := Compressed(a.left, first);
    var fr := first + SubCount(a.left);
    assert Compressed(a, first) == cl + Compressed(a.right, fr) + [a.Op()];
    Regroup(pre, cl, Compressed(a.right, fr), [a.Op()], post);
    assert Groups(a, first) == Groups(a.left, first) + Groups(a.right, fr);
    AppendAssociative(acc, Groups(a.left, first), Groups(a.right, fr));
  }

  lemma {:induction false} CutBinary(a: AstNode, first: nat, pre: seq<NodeOperation>, post: seq<NodeOperation>,
                                     locations: seq<nat>, removed: nat, acc: seq<seq<NodeOperation>>)
    requires a.BinaryNode?
    ensures CutsTo(a, first, pre, post, locations, removed, acc)
    decreases a, 0
  {
    var base := |pre| + removed;
    var left, right := a.left, a.right;
    var fr := first + SubCount(left);
    var nl, nr := Numbered(left, first), Numbered(right, fr);
    var cl, cr := Compressed(left, first), Compressed(right, fr);
    var gl, gr := Groups(left, first), Groups(right, fr);
    var mr := MarkerLocs(right, base + |nl|);
    var op := [a.Op()];
    var removed1 := removed + |nl| - |cl|;
    var removed2 := removed1 + |nr| - |cr|;
    assert |cl| <= |nl| && |cr| <= |nr| by {
      CutTree(left, first, pre, nr + op + post, mr + locations, removed, acc);
      CutTree(right, fr, pre + cl, op + post, locations, removed1, acc + gl);
    }
    assert |Compressed(a, first)| <= |Numbered(a, first)| && removed2 == removed + |Numbered(a, first)| - |Compressed(a, first)| by {
      assert |Compressed(a, first)| == |cl| + |cr| + 1;
      assert |Numbered(a, first)| == |nl| + |nr| + 1;
    }
    calc {
      GroupsImplFrom(pre + Numbered(a, first) + post, MarkerLocs(a, base) + locations, removed, acc);
      { BinaryLayout(a, first, pre, post, locations, removed);
        assert pre + Numbered(a, first) + post == pre + nl + (nr + op + post);
        assert MarkerLocs(a, base) + locations == MarkerLocs(left, base) + (mr + locations); }
      GroupsImplFrom(pre + nl + (nr + op + post), MarkerLocs(left, base) + (mr + locations), removed, acc);
      { CutTree(left, first, pre, nr + op + post, mr + locations, removed, acc);
        CutsToElim(left, first, pre, nr + op + post, mr + locations, removed, acc, removed1); }
      GroupsImplFrom(pre + cl + (nr + op + post), mr + locations, removed1, acc + gl);
      { BinaryMiddle(a, first, pre, post, mr + locations, removed1, acc + gl); }
      GroupsImplFrom((pre + cl) + nr + (op + post), mr + locations, removed1, acc + gl);
      { assert |pre + cl| + removed1 == base + |nl|;
        CutTree(right, fr, pre + cl, op + post, locations, removed1, acc + gl);
        CutsToElim(right, fr, pre + cl, op + post, locations, removed1, acc + gl, removed2); }
      GroupsImplFrom((pre + cl) + cr + (op + post), locations, removed2, acc + gl + gr);
      { BinaryEnd(a, first, pre, post, locations, removed2, acc); }
      GroupsImplFrom(pre + Compressed(a, first) + post, locations, removed2, acc + Groups(a, first));
    }
    CutsToIntro(a, first, pre, post, locations, removed, acc, removed2);
  }

  /** The equation `CutsTo` states. */
  lemma CutsToElim(a: AstNode, first: nat, pre: seq<NodeOperation>, post: seq<NodeOperation>,
                   locations: seq<nat>, removed: nat, acc: seq<seq<NodeOperation>>, removedEnd: nat)
    requires CutsTo(a, first, pre, post, locations, removed, acc)
    requires removedEnd == removed + |Numbered(a, first)| - |Compressed(a, first)|
    ensures GroupsImplFrom(pre + Numbered(a, first) + post, MarkerLocs(a, |pre| + removed) + locations, removed, acc)
         == GroupsImplFrom(pre + Compressed(a, first) + post, locations, removedEnd, acc + Groups(a, first))
  {
  }

  /** `CutsTo` from the equation it states. */
  lemma CutsToIntro(a: AstNode, first: nat, pre: seq<NodeOperation>, post: seq<NodeOperation>,
                    locations: seq<nat>, removed: nat, acc: seq<seq<NodeOperation>>, removedEnd: nat)
    requires |Compressed(a, first)| <= |Numbered(a, first)|
    requires removedEnd == removed + |Numbered(a, first)| - |Compressed(a, first)|
    requires GroupsImplFrom(pre + Numbered(a, first) + post, MarkerLocs(a, |pre| + removed) + locations, removed, acc)
          == GroupsImplFrom(pre + Compressed(a, first) + post, locations, removedEnd, acc + Groups(a, first))
    ensures CutsTo(a, first, pre, post, locations, removed, acc)
  {
  }

  lemma {:induction false} CutUnary(a: AstNode, first: nat, pre: seq<NodeOperation>, post: seq<NodeOperation>,
                                    locations: seq<nat>, removed: nat, acc: seq<seq<NodeOperation>>)
    requires a.UnaryNode?
    ensures CutsTo(a, first, pre, post, locations, removed, acc)
    decreases a, 0
  {
    var left := a.left;
    var nl := Numbered(left, first);
    var cl := Compressed(left, first);
    var op := [a.Op()];
    assert pre + Numbered(a, first) + post == pre + nl + (op + post);
    CutTree(left, first, pre, op + post, locations, removed, acc);
    assert pre + cl + (op + post) == pre + Compressed(a, first) + post;
  }

  /** Regrouping the list and the locations around a subexpression node. */
  lemma SubexpressionLayout(a: AstNode, first: nat, pre: seq<NodeOperation>, post: seq<NodeOperation>,
                            locations: seq<nat>, removed: nat, acc: seq<seq<NodeOperation>>)
    requires a.SubexpressionNode?
    ensures var base := |pre| + removed;
      var nl := Numbered(a.left, first);
      var marker := IndexedSubexpression(first + SubCount(a.left));
      GroupsImplFrom(pre + Numbered(a, first) + post, MarkerLocs(a, base) + locations, removed, acc)
      == GroupsImplFrom(pre + nl + ([marker] + post), MarkerLocs(a.left, base) + ([base + |nl|] + locations), removed, acc)
  {
    var base := |pre| + removed;
    var nl := Numbered(a.left, first);
    var marker := IndexedSubexpression(first + SubCount(a.left));
    NumberedSize(a.left, first);
    NumberedSize(a.left, 0);
    assert pre + Numbered(a, first) + post == pre + nl + ([marker] + post);
    assert MarkerLocs(a, base) + locations == MarkerLocs(a.left, base) + ([base + |nl|] + locations);
  }

  lemma SubexpressionEnd(a: AstNode, first: nat, pre: seq<NodeOperation>, post: seq<NodeOperation>,
                         locations: seq<nat>, removed: nat, acc: seq<seq<NodeOperation>>)
    requires a.SubexpressionNode?
    ensures var marker := IndexedSubexpression(first + SubCount(a.left));
      GroupsImplFrom(pre + ([marker] + post), locations, removed, acc + Groups(a.left, first) + [Compressed(a.left, first)])
      == GroupsImplFrom(pre + Compressed(a, first) + post, locations, removed, acc + Groups(a, first))
  {
    var marker := IndexedSubexpression(first + SubCount(a.left));
    assert pre + ([marker] + post) == pre + Compressed(a, first) + post;
    assert acc + Groups(a.left, first) + [Compressed(a.left, first)] == acc + Groups(a, first);
  }

  lemma SubexpressionSizes(a: AstNode, first: nat)
    requires a.SubexpressionNode?
    ensures |Numbered(a, first)| == |Numbered(a.left, first)| + 1
    ensures |Compressed(a, first)| == 1
  {
  }

  lemma {:induction false} CutSubexpression(a: AstNode, first: nat, pre: seq<NodeOperation>, post: seq<NodeOperation>,
                                            locations: seq<nat>, removed: nat, acc: seq<seq<NodeOperation>>)
    requires a.SubexpressionNode?
    ensures CutsTo(a, first, pre, post, locations, removed, acc)
    decreases a, 0
  {
    var base := |pre| + removed;
    var left := a.left;
    var nl := Numbered(left, first);
    var cl := Compressed(left, first);
    var gl := Groups(left, first);
    var marker := IndexedSubexpression(first + SubCount(left));
    var tail := [marker] + post;
    assert CutsTo(left, first, pre, tail, [base + |nl|] + locations, removed, acc) by {
      CutTree(left, first, pre, tail, [base + |nl|] + locations, removed, acc);
    }
    var removed1 := removed + |nl| - |cl|;
    var g0 := GroupsImplFrom(pre + Numbered(a, first) + post, MarkerLocs(a, base) + locations, removed, acc);
    var g1 := GroupsImplFrom(pre + cl + tail, [base + |nl|] + locations, removed1, acc + gl);
    var g2 := GroupsImplFrom(pre + tail, locations, removed1 + |cl|, acc + gl + [cl]);
    assert g0 == g1 by {
      SubexpressionLayout(a, first, pre, post, locations, removed, acc);
    }
    assert g1 == g2 by {
      CompressedTight(left, first);
      CutAtMarker(pre, cl, marker, post, base + |nl|, locations, removed1, acc + gl);
    }
    assert removed1 + |cl| == removed + |Numbered(a, first)| - |Compressed(a, first)| && |Compressed(a, first)| <= |Numbered(a, first)| by {
      SubexpressionSizes(a, first);
    }
    SubexpressionEnd(a, first, pre, post, locations, removed1 + |cl|, acc);
  }

  /** `subexpression_groups`, with the corrected unbounded counter of
      `BacktrackScan`, computes the reference groups of the whole expression and
      never panics. */
  lemma PartitionMatchesReference(root: AstNode)
    ensures SubexpressionGroups(root) == Some(WholeGroups(root))
  {
    var w := Wrap(root);
    MarkedProgramIsWrapped(root);
    CutTree(w, 0, [], [], [], 0, []);
    assert [] + Numbered(w, 0) + [] == Numbered(w, 0);
    assert MarkerLocs(w, 0) + [] == MarkerLocs(w, 0);
    assert [] + Groups(w, 0) == Groups(w, 0);
  }
}
