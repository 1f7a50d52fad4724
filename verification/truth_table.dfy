/** The table driver of src/main.rs: the iterator over all assignments of the
    variables and the row loop of `process_input`. */
module TruthTable {
  import opened Util
  import opened Scanner
  import opened Compiler
  import opened CompilerFacts
  import opened Execution
  import opened Partition
  import opened Evaluation
  import opened Rendering

  /** The iterator's counters are `u32`: `pow2` of 32 or more overflows. */
  const MaxVariables: nat := 32

  function Pow2(exponent: nat): (r: nat)
    ensures r >= 1
  {
    if exponent == 0 then 1 else 2 * Pow2(exponent - 1)
  }

  /** `BoolPermutationsIterator`: the current row, the number of variables, the
      index of the next row and the number of rows. */
  datatype BoolPermutations = BoolPermutations(data: seq<bool>, size: nat, current: nat, last: nat)

  /** `BoolPermutationsIterator::new`: an all-false row and `2^size` rows to go;
      a size of 32 or more makes `pow2` overflow, which is a panic. */
  function NewPermutations(size: nat): (r: Option<BoolPermutations>)
    ensures r.Some? <==> size < MaxVariables
    ensures r.Some? ==> |r.value.data| == r.value.size == size && !Finished(r.value)
    ensures r.Some? ==> r.value.last - r.value.current == Pow2(size)
  {
    if size >= MaxVariables then None
    else Some(BoolPermutations(seq(size, _ => false), size, 0, Pow2(size)))
  }

  predicate Finished(it: BoolPermutations)
  {
    it.current >= it.last
  }

  /** Column `col` of row `j`: true exactly when the bit of weight
      `2^(size - col - 1)` of `j` is clear, so the first column is the most
      significant bit. */
  function Bit(j: nat, size: nat, col: nat): bool
    requires col < size
  {
    (j / Pow2(size - col - 1)) % 2 == 0
  }

  /** Row `j` of the table's input side. */
  function RowOf(j: nat, size: nat): (r: seq<bool>)
    ensures |r| == size
  {
    seq(size, col requires 0 <= col < size => Bit(j, size, col))
  }

  /** `BoolPermutationsIterator::advance`: fills the row from the counter, then
      counts it. */
  function Advance(it: BoolPermutations): (r: BoolPermutations)
    ensures r.size == it.size && r.last == it.last && |r.data| == it.size
    ensures r.current == it.current + 1
    ensures r.data == RowOf(it.current, it.size)
  {
    it.(data := RowOf(it.current, it.size), current := it.current + 1)
  }

  // ---------------------------------------------------------------------------
  // Rows as numbers: the rows are the binary numerals of their index with the
  // digits inverted, so they are pairwise different and cover every assignment.

  /** The index of a row: its columns read as a binary numeral, true as 0. */
  function RowIndex(row: seq<bool>): nat
  {
    if row == [] then 0 else 2 * RowIndex(row[..|row| - 1]) + (if row[|row| - 1] then 0 else 1)
  }

  lemma {:induction false} RowIndexBound(row: seq<bool>)
    ensures RowIndex(row) < Pow2(|row|)
    decreases |row|
  {
    if row != [] {
      RowIndexBound(row[..|row| - 1]);
    }
  }

  lemma MulAtLeast(k: int, d: int)
    requires k >= 1 && d > 0
    ensures k * d >= d
  {
  }

  lemma DivUnique(j: int, d: int, q: int, r: int)
    requires d > 0 && j == q * d + r && 0 <= r < d
    ensures j / d == q
  {
    var q', r' := j / d, j % d;
    assert (q - q') * d == r' - r;
    if q > q' {
      MulAtLeast(q - q', d);
    } else if q < q' {
      MulAtLeast(q' - q, d);
    }
  }

  lemma DivTwice(j: nat, p: nat)
    requires p >= 1
    ensures j / (2 * p) == (j / 2) / p
  {
    var q := (j / 2) / p;
    var s := (j / 2) % p;
    var t := j % 2;
    assert j == 2 * (j / 2) + t;
    assert j / 2 == q * p + s;
    assert j == q * (2 * p) + (2 * s + t);
    DivUnique(j, 2 * p, q, 2 * s + t);
  }

  /** Row `j` with one more column is row `j / 2` followed by the parity column. */
  lemma RowOfSnoc(j: nat, n: nat)
    ensures RowOf(j, n + 1) == RowOf(j / 2, n) + [j % 2 == 0]
  {
    var l := RowOf(j, n + 1);
    var r := RowOf(j / 2, n) + [j % 2 == 0];
    forall col | 0 <= col < n + 1 ensures l[col] == r[col] {
      if col < n {
        assert Pow2(n + 1 - col - 1) == 2 * Pow2(n - col - 1);
        DivTwice(j, Pow2(n - col - 1));
      }
    }
  }

  /** Reading row `j` back gives `j`: the rows of a table are pairwise distinct. */
  lemma {:induction false} RowRoundTrip(j: nat, n: nat)
    requires j < Pow2(n)
    ensures RowIndex(RowOf(j, n)) == j
  {
    if n > 0 {
      RowOfSnoc(j, n - 1);
      var row := RowOf(j, n);
      assert row[..|row| - 1] == RowOf(j / 2, n - 1);
      RowRoundTrip(j / 2, n - 1);
    }
  }

  /** Every assignment is the row of its index: the table covers all of them. */
  lemma {:induction false} IndexRoundTrip(row: seq<bool>)
    ensures RowOf(RowIndex(row), |row|) == row
    decreases |row|
  {
    if row != [] {
      var n := |row| - 1;
      var init := row[..n];
      IndexRoundTrip(init);
      var j := RowIndex(row);
      RowOfSnoc(j, n);
      assert j / 2 == RowIndex(init);
      assert row == init + [row[n]];
    }
  }

  /** The first row sets every variable to true. */
  lemma FirstRowAllTrue(n: nat)
    ensures RowOf(0, n) == seq(n, _ => true)
  {
  }

  lemma {:induction false} AllFalseIndex(n: nat)
    ensures RowIndex(seq(n, _ => false)) == Pow2(n) - 1
  {
    if n > 0 {
      var row: seq<bool> := seq(n, _ => false);
      assert row[..n - 1] == seq(n - 1, _ => false);
      AllFalseIndex(n - 1);
    }
  }

  /** The last row sets every variable to false. */
  lemma LastRowAllFalse(n: nat)
    ensures RowOf(Pow2(n) - 1, n) == seq(n, _ => false)
  {
    AllFalseIndex(n);
    IndexRoundTrip(seq(n, _ => false));
  }

  // ---------------------------------------------------------------------------
  // The row loop.

  datatype TableRow = TableRow(inputs: seq<bool>, outputs: seq<bool>)

  /** The loop of `process_input` from the iterator `it` on: advance, evaluate
      into the reused buffer, record the row, stop once the iterator is
      finished. The check comes after the row, so the loop runs at least once. */
  function TableLoop(it: BoolPermutations, groups: seq<seq<NodeOperation>>, rowResults: seq<bool>, rows: seq<TableRow>): (r: Option<seq<TableRow>>)
    requires |it.data| == it.size && it.current < it.last
    ensures r.Some? ==> |r.value| == |rows| + (it.last - it.current) && r.value[..|rows|] == rows
    ensures r.Some? ==> forall k :: |rows| <= k < |r.value| ==> r.value[k].inputs == RowOf(it.current + (k - |rows|), it.size)
    decreases it.last - it.current
  {
    var next := Advance(it);
    match Evaluate(groups, next.data, rowResults)
    case None => None
    case Some(out) =>
      var more := rows + [TableRow(next.data, out)];
      if Finished(next) then Some(more)
      else
        var r := TableLoop(next, groups, out, more);
        if r.Some? then
          assert r.value[..|rows|] == more[..|rows|];
          assert r.value[|rows|] == more[|rows|];
          r
        else r
  }

  /** Every row of the loop on the groups of a well-formed tree holds the values of
      the subexpressions under that row's assignment. */
  lemma {:induction false} TableLoopOutputs(root: AstNode, it: BoolPermutations, rowResults: seq<bool>, rows: seq<TableRow>)
    requires |it.data| == it.size && it.current < it.last && WellFormed(root, it.size)
    requires SubexpressionGroups(root).Some? && |rowResults| == |SubexpressionGroups(root).value|
    ensures var r := TableLoop(it, SubexpressionGroups(root).value, rowResults, rows);
      && r.Some?
      && forall k :: |rows| <= k < |r.value| ==>
           WellFormed(Wrap(root), |r.value[k].inputs|) && r.value[k].outputs == SubValues(Wrap(root), r.value[k].inputs)
    decreases it.last - it.current
  {
    var groups := SubexpressionGroups(root).value;
    var next := Advance(it);
    EvaluateCompiled(root, next.data, rowResults);
    WrapLastValue(root, next.data);
    var out := SubValues(Wrap(root), next.data);
    var more := rows + [TableRow(next.data, out)];
    if !Finished(next) {
      TableLoopOutputs(root, next, out, more);
      var r := TableLoop(next, groups, out, more);
      assert r.value[|rows|] == more[|rows|];
    }
  }

  // ---------------------------------------------------------------------------
  // `process_input`.

  /** What `process_input` does with one line: nothing for a blank line, an error
      message naming a token, or the table (input header, output header, rows). */
  datatype Outcome =
    | EmptyQuery
    | SyntaxError(lexeme: string)
    | Table(variables: seq<string>, headers: seq<string>, rows: seq<TableRow>)

  /** `process_input`, without the printing; `None` is a panic. Conditional
      operators are recognised by the lexer only, so the line must not contain
      them. */
  function ProcessInput(stmt: string): (r: Option<Outcome>)
    requires IsAscii(stmt) && CoreTokens(Tokenize(stmt))
    ensures r == Some(EmptyQuery) <==> RemoveBlanks(stmt) == []
    ensures r.Some? && r.value.SyntaxError? ==> Compile(Tokenize(stmt)).errorToken.Some?
    ensures RemoveBlanks(stmt) != [] && Compile(Tokenize(stmt)).errorToken.Some? ==>
      r == Some(SyntaxError(Compile(Tokenize(stmt)).errorToken.value.lexeme))
  {
    var tokens := Tokenize(stmt);
    OnlyEofIffBlank(stmt);
    if |tokens| == 1 then Some(EmptyQuery)
    else
      var compiled := Compile(tokens);
      if compiled.errorToken.Some? then Some(SyntaxError(compiled.errorToken.value.lexeme))
      else Tabulate(compiled.root.value, compiled.variables)
  }

  /** The part of `process_input` after a successful compilation: partition,
      render the headers, and run the row loop. */
  function Tabulate(root: AstNode, variables: seq<string>): (r: Option<Outcome>)
    ensures r.Some? ==> r.value.Table? && r.value.variables == variables
  {
    match SubexpressionGroups(root)
    case None => None
    case Some(groups) =>
      match GroupsToString(groups, variables)
      case None => None
      case Some(reprs) =>
        if NewPermutations(|variables|).None? then None
        else match TableRows(root, |variables|)
          case None => None
          case Some(rows) => Some(Table(variables, reprs, rows))
  }

  /** The rows of the table of a compiled tree with `n` variables. */
  function TableRows(root: AstNode, n: nat): (r: Option<seq<TableRow>>)
    requires n < MaxVariables
  {
    match SubexpressionGroups(root)
    case None => None
    case Some(groups) => TableLoop(NewPermutations(n).value, groups, seq(|groups|, _ => false), [])
  }

  /** Row `j` of the table of `root` over `n` variables: the `j`-th assignment in
      counting order, with the values of the subexpressions under it, the whole
      expression's last. */
  predicate RowHolds(root: AstNode, n: nat, j: nat, row: TableRow)
    requires WellFormed(root, n)
  {
    && row.inputs == RowOf(j, n)
    && WellFormed(Wrap(root), |row.inputs|)
    && row.outputs == SubValues(Wrap(root), row.inputs)
    && |row.outputs| > 0
    && row.outputs[|row.outputs| - 1] == Eval(root, row.inputs)
  }

  /** The row loop run from a fresh iterator on the groups of a well-formed tree
      produces the rows of its table. */
  lemma TableLoopRows(root: AstNode, it: BoolPermutations, rowResults: seq<bool>)
    requires |it.data| == it.size && it.current == 0 < it.last && WellFormed(root, it.size)
    requires SubexpressionGroups(root).Some? && |rowResults| == |SubexpressionGroups(root).value|
    ensures var r := TableLoop(it, SubexpressionGroups(root).value, rowResults, []);
      && r.Some? && |r.value| == it.last
      && forall j :: 0 <= j < |r.value| ==> RowHolds(root, it.size, j, r.value[j])
  {
    TableLoopOutputs(root, it, rowResults, []);
    var rows := TableLoop(it, SubexpressionGroups(root).value, rowResults, []).value;
    forall j | 0 <= j < |rows| ensures RowHolds(root, it.size, j, rows[j]) {
      assert rows[j].inputs == RowOf(it.current + (j - 0), it.size);
      WrapLastValue(root, rows[j].inputs);
    }
  }

  /** The table of a well-formed tree has `2^n` rows, one per assignment in
      counting order, each holding the values of the subexpressions. */
  lemma TableRowsCorrect(root: AstNode, n: nat)
    requires n < MaxVariables && WellFormed(root, n)
    ensures TableRows(root, n).Some?
    ensures var rows := TableRows(root, n).value;
      |rows| == Pow2(n) && forall j :: 0 <= j < Pow2(n) ==> RowHolds(root, n, j, rows[j])
  {
    PartitionMatchesReference(root);
    var groups := SubexpressionGroups(root).value;
    TableLoopRows(root, NewPermutations(n).value, seq(|groups|, _ => false));
  }

  /** The table of a well-formed tree, with the corrected unbounded counter of
      the partitioner: it panics exactly when there are 32 or more variables; otherwise its output header holds the text of every
      subexpression, and its rows are those of the row loop. */
  lemma TabulateCorrect(root: AstNode, variables: seq<string>)
    requires WellFormed(root, |variables|)
    ensures Tabulate(root, variables).None? <==> |variables| >= MaxVariables
    ensures |variables| < MaxVariables ==>
      && TableRows(root, |variables|).Some?
      && Tabulate(root, variables) == Some(Table(variables, SubShows(Wrap(root), variables), TableRows(root, |variables|).value))
  {
    var groups := SubexpressionGroups(root);
    var headers := SubShows(Wrap(root), variables);
    assert groups.Some? && GroupsToString(groups.value, variables) == Some(headers) by {
      RenderCompiled(root, variables);
    }
    if |variables| < MaxVariables {
      var rows := TableRows(root, |variables|);
      assert rows.Some? by {
        TableRowsCorrect(root, |variables|);
      }
      TabulateWith(root, variables, groups.value, headers, rows.value);
    } else {
      assert NewPermutations(|variables|).None?;
    }
  }

  /** The last step of `TabulateCorrect`: with the groups, headers and rows at
      hand, the table is made of them. */
  lemma TabulateWith(root: AstNode, variables: seq<string>, groups: seq<seq<NodeOperation>>, headers: seq<string>, rows: seq<TableRow>)
    requires |variables| < MaxVariables
    requires SubexpressionGroups(root) == Some(groups) && GroupsToString(groups, variables) == Some(headers)
    requires TableRows(root, |variables|) == Some(rows)
    ensures Tabulate(root, variables) == Some(Table(variables, headers, rows))
  {
  }

  /** A line that compiles is tabulated from its tree and variable table. */
  lemma ProcessInputCompiled(stmt: string)
    requires IsAscii(stmt) && CoreTokens(Tokenize(stmt)) && RemoveBlanks(stmt) != []
    requires Compile(Tokenize(stmt)).root.Some?
    ensures var compiled := Compile(Tokenize(stmt));
      ProcessInput(stmt) == Tabulate(compiled.root.value, compiled.variables)
  {
    OnlyEofIffBlank(stmt);
  }

  /** A line that compiles gives a table with one row per assignment of its
      variables, in counting order from all-true to all-false: `2^n` rows for `n`
      variables, one row when there are none. The output header is the text of
      every subexpression, the whole expression last, and each row holds their
      values, the whole expression's last. With the corrected unbounded counter of
      the partitioner, it panics only when there are 32 or more variables. */
  lemma ProcessInputTable(stmt: string)
    requires IsAscii(stmt) && CoreTokens(Tokenize(stmt)) && RemoveBlanks(stmt) != []
    requires Compile(Tokenize(stmt)).root.Some?
    ensures var compiled := Compile(Tokenize(stmt));
      var root, vars := compiled.root.value, compiled.variables;
      var n := |vars|;
      && WellFormed(root, n)
      && (ProcessInput(stmt).None? <==> n >= MaxVariables)
      && (n < MaxVariables ==>
        var table := ProcessInput(stmt).value;
        && table.Table?
        && table.variables == vars
        && table.headers == SubShows(Wrap(root), vars)
        && |table.headers| > 0 && table.headers[|table.headers| - 1] == Show(root, vars)
        && |table.rows| == Pow2(n)
        && forall j :: 0 <= j < Pow2(n) ==>
             && table.rows[j].inputs == RowOf(j, n)
             && table.rows[j].outputs == SubValues(Wrap(root), table.rows[j].inputs)
             && |table.rows[j].outputs| > 0
             && table.rows[j].outputs[|table.rows[j].outputs| - 1] == Eval(root, table.rows[j].inputs))
  {
    var compiled := Compile(Tokenize(stmt));
    var root, vars := compiled.root.value, compiled.variables;
    assert WellFormed(root, |vars|) by {
      CompileSuccess(Tokenize(stmt));
    }
    assert ProcessInput(stmt) == Tabulate(root, vars) by {
      ProcessInputCompiled(stmt);
    }
    TabulateCorrect(root, vars);
    if |vars| < MaxVariables {
      TableRowsCorrect(root, |vars|);
      WrapLastShow(root, vars);
    }
  }
}
