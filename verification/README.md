# ttbl-rs truth-table core in Dafny

This project models the core of `ttbl`, a command-line tool that prints the truth table of a boolean expression.
It models each stage:

- **Lexer** (`src/scanner.rs`, module `Scanner`). One ASCII line becomes a stream of tokens:
  - variables;
  - literals `true`/`false`/`t`/`f`, in any case;
  - operators `&`, `|`, `!`/`~`, `and`, `or`, `not`, `=>`, `<=>`;
  - parentheses and braces;
  - error tokens;
  - a closing `<EOF>` token.
- **Parser** (`src/compiler.rs`, module `Compiler`). A two-stack precedence parser builds the expression tree and the table of variable names, or reports the token at which it failed.
- **Flat evaluator** (`src/execution.rs`, module `Execution`):
  - the tree is flattened to a post-order (postfix) program;
  - each `{...}` subexpression marker is numbered, and the whole expression is wrapped as a last subexpression;
  - the program is cut into *groups*: the smallest standalone run before each marker;
  - `evaluate` runs the groups on a boolean stack machine into an output buffer;
  - `groups_to_string` renders each group as a fully parenthesised header.
- **Table driver** (`src/main.rs`, module `TruthTable`). An iterator enumerates all `2^n` assignments of the `n` variables, and the row loop of `process_input` evaluates every assignment.

A source panic (index out of range, a pop from an empty stack, an arithmetic overflow) is modelled as `None` of `Util.Option`. The theorems show when it cannot happen. One overflow is treated apart: the backward walk of `subexpression_backtrack_size` counts pending operands in a `u8`. The pipeline uses the corrected walk with an unbounded counter (`Execution.BacktrackScan`). The walk as written, and an input on which it overflows, are in `CounterOverflow` (see Findings). So "never panics" in the rows below means: never, with the corrected counter.

The intended behaviour is stated by reference definitions that are independent of the code:

- `Evaluation.Eval` and `Evaluation.Show` give the value and the text of a tree.
- `Partition.WholeGroups` gives the groups of a tree, read off the tree's shape.
- `CompilerFacts.FirstOccurrences` gives the expected variable table.

The main theorems connect the pipeline to these definitions:

- `CompilerFacts.CompileSuccess` relates a successful parse to the token stream.
- `ParseExamples` follows the parser through small inputs and states the tree or the error token each gives: precedence, parentheses, braces, stray closers and missing operands.
- `Partition.PartitionMatchesReference` shows that the backward-slicing partitioner computes exactly the reference groups.
- `Evaluation.EvaluateCompiled` and `Rendering.RenderCompiled` show that evaluating and rendering those groups yield the value and the text of every subexpression.
- `TruthTable.ProcessInputTable` states the whole table for any line that compiles.

Modules and files:

| module | file | models |
|---|---|---|
| `Util` | `util.dfy` | `Option`, `Distinct` |
| `Scanner` | `scanner.dfy` | `src/scanner.rs` |
| `Compiler` | `compiler.dfy` | `src/compiler.rs` |
| `CompilerFacts` | `compiler_facts.dfy` | proofs about `compile` |
| `Execution` | `execution.dfy` | `src/execution.rs` |
| `PostfixFacts` | `postfix.dfy` | the post-order traversal is invertible |
| `Partition` | `partition.dfy` | reference groups; proof of the partitioner |
| `GroupStructure` | `group_structure.dfy` | the shape of the groups |
| `Evaluation` | `evaluation.dfy` | proof of `evaluate` |
| `Rendering` | `rendering.dfy` | proof of `groups_to_string` |
| `TruthTable` | `truth_table.dfy` | `src/main.rs` |
| `ParseExamples` | `parse_examples.dfy` | the parser on small inputs |
| `Examples` | `examples.dfy` | the documented example, and one query worked through |
| `CounterOverflow` | `counter_overflow.dfy` | the `u8` counter overflow below |

Some behaviours of the code that a reader may not expect, which the model follows as written:

- The lexer does not stop at the first malformed character. It emits an error token and keeps scanning. The parser stops at the first error token (`CompilerFacts.ErrorTokenStopsCompilation`).
- A closing `)` or `}` that empties the operator stack without meeting an opener is accepted, not reported (src/compiler.rs:155). So `p)` compiles to `p` (`ParseExamples.StrayCloser`).
- With `p & & q`, the second `&` reduces nothing, because an operator never reduces one of equal priority. The missing operand is therefore found by the closing pass at the end of input, and the error reported is `<EOF>`, not the second `&` (`ParseExamples.MissingOperandAtEnd`).
- In the operator branch, the source pushes the operator even after a failed reduction and then leaves the loop. The result is the same as stopping at that token, which is what `Compiler.Step` does.
- `evaluate` and `groups_to_string` pop only the top of the stack at the end of a group. They never check that exactly one value is left. The proofs show that on the groups of a compiled tree exactly one is left.

## Model

| member | source | states |
|---|---|---|
| Scanner.ScanAfterEquals | src/scanner.rs:107-116 | after `=`, a following `>` is consumed and gives the conditional operator `=>`; anything else gives the error token `=` and consumes nothing more; the lexeme is exactly the consumed, blank-free slice |
| Scanner.ScanAfterLess | src/scanner.rs:118-127 | after `<`, a following `=>` is consumed and gives the biconditional operator `<=>`; a `=` alone gives the error token `<=` (one more character consumed) and anything else the error token `<` (none consumed) |
| Scanner.ScanIdentifier | src/scanner.rs:134-160 | an identifier is the maximal alphanumeric run starting at a letter: its lexeme is a letter followed only by letters and digits, and the next character is not alphanumeric; its kind is keyword operator, literal or variable according to its spelling |
| Scanner.ScanStep | src/scanner.rs:96-167 | one lexer iteration always advances; it produces no token exactly on a blank, otherwise exactly one token whose lexeme is the consumed slice; at a letter that token is an identifier ending where the alphanumeric run ends; at `=` it is `=>` when a `>` follows and an error `=` otherwise; at `<` it is `<=>` when `=>` follows and an error `<` or `<=` otherwise; every other character (a blank, `& \| ! ~ ( ) { }`, a digit, `$` and so on) is consumed alone |
| Scanner.OneCharacterToken | src/scanner.rs:104-164 | a non-blank character other than a letter, `=` or `<` is a token of its own, one character long: an operator or bracket for `& \| ! ~ ( ) { }`, and an error token for any other character |
| Scanner.TokenizeFrom | src/scanner.rs:96-170 | the stream ends with the end-of-input token and holds it nowhere else; every other token has a non-empty lexeme whose spelling determines its kind |
| Scanner.TokenizeRejoins | src/scanner.rs:84-173 | the lexemes before the end-of-input token, joined in order, are the input with its blanks removed: nothing is lost, reordered or invented |
| Scanner.OnlyEofIffBlank | src/scanner.rs:84-173 | the stream is only the end-of-input token exactly when the line is blank (the empty query skipped by `process_input`) |
| Scanner.TokenizeRelexes | src/scanner.rs:84-173 | every token is self-delimiting: lexing its lexeme alone gives back that token followed by end of input |
| Compiler.StashPrevOp | src/compiler.rs:37-46 | a pending operator is reduced before the incoming one exactly when it binds strictly tighter (`!` over `&` and `\|`, `&` over `\|`); equal operators are never reduced |
| Compiler.CreateOperationNode | src/compiler.rs:50-72 | building a node fails exactly when the node stack holds fewer operands than the operator's arity; on success the operands are the top of the stack in order and the node carries the operator |
| Compiler.Position | src/compiler.rs:110 | the lookup finds the first slot holding the name, and fails exactly when the name is absent |
| Compiler.Intern | src/compiler.rs:108-122 | a variable gets the slot holding its name; the table is unchanged when the name is known, else the name is appended |
| Compiler.Step | src/compiler.rs:102-198 | one token of the parser loop fails only at an error token, an operator or a closer, and only a variable token changes the variable table |
| Compiler.Finish | src/compiler.rs:201-219 | after the loop, a root is produced exactly when the operator stack is empty and one node is left; otherwise the error is the synthetic `<EOF>` token |
| Compiler.Compile | src/compiler.rs:86-222 | exactly one of error token and root is present; the variable table has no repetitions; an error token is `<EOF>` or a token of the stream, of a kind at which parsing can fail |
| CompilerFacts.CompileSuccess | src/compiler.rs:86-222 | a successful compilation gives a well-formed tree whose leaves are the operand tokens in order (each variable leaf naming its token) and whose operators are those of the operator tokens, counted with multiplicity, over the table of variable names in order of first occurrence |
| ParseExamples.AndBeforeOr | src/compiler.rs:127-152 | `p & q \| r` compiles to `(p & q) \| r`: the pending AND is reduced when the OR arrives |
| ParseExamples.OrAfterAnd | src/compiler.rs:127-170 | `p \| q & r` compiles to `p \| (q & r)`: the OR stays pending under the AND, and the closing pass reduces the AND first |
| ParseExamples.NotBeforeAnd | src/compiler.rs:127-152 | `!p & q` compiles to `(!p) & q`: NOT takes only the operand that follows it |
| ParseExamples.ParenthesesGroup | src/compiler.rs:153-176 | `p & (q \| r)` compiles to `p & (q \| r)`: `)` reduces down to its `(` and discards it, overriding precedence |
| ParseExamples.StrayCloser | src/compiler.rs:153-196 | `p)` compiles to `p`: a closer that meets no opener is accepted and changes nothing |
| ParseExamples.BracesWrap | src/compiler.rs:177-189 | `{p}` compiles to the subexpression `{p}` |
| ParseExamples.EmptyBracesWrapTop | src/compiler.rs:177-189 | `p {}` also compiles to `{p}`: `}` wraps whatever node is on top |
| ParseExamples.MismatchedCloser | src/compiler.rs:159-194 | `(p}` fails at the `}`, which cannot close a `(`, with `p` in the variable table |
| ParseExamples.MissingOperandAtEnd | src/compiler.rs:127-170 | `p & & q` fails at `<EOF>`, not at the second `&`: equal operators are not reduced when pushed, and the missing operand shows only in the closing pass |
| CompilerFacts.FirstOccurrencesOrdered | src/compiler.rs:108-122 | the expected variable table lists every name of the stream once and in order of first occurrence |
| CompilerFacts.ErrorTokenStopsCompilation | src/compiler.rs:96-104 | nothing after an error token is read; compilation fails, reporting that token unless an earlier one had already failed |
| PostfixFacts.PostfixRoundTrip | src/execution.rs:4-22 | the traversal loses nothing: a stack machine rebuilds the original tree from it |
| Execution.OpBacktrackSize | src/execution.rs:27-39 | an operation takes at most two operands, and none exactly when it is not an operator |
| Execution.BacktrackSizeSpec | src/execution.rs:54-66 | the backward walk returns the length of the shortest run before the marker that leaves exactly one value and on no shorter tail more than one; it fails exactly when no such run exists |
| Examples.DocExampleBacktrack | src/execution.rs:41-53 | on the documented program the group before the marker at index 7 has four operations |
| Examples.DocTreeShape | src/execution.rs:44-47 | the documented program is the post-order traversal of `(p \| q) & {!(p & q)}` |
| Execution.MarkSubexpressionsSpec | src/execution.rs:98-106 | the marking loop records, in increasing order, exactly the positions of the markers, numbers the k-th one k, and leaves every other operation in place |
| Execution.MarkedProgram | src/execution.rs:108-119 | the last recorded location is always the final operation of the program: the whole expression is a group |
| Partition.MarkedProgramIsWrapped | src/execution.rs:91-119 | marking and wrapping give the numbered program of the wrapped tree, with its markers at the post-order positions of the subexpression nodes |
| Execution.SubexpressionGroupsImpl | src/execution.rs:68-89 | the cutting loop yields one group per location, each leaving exactly one value |
| Partition.BacktrackTight | src/execution.rs:54-66 | the walk from just after a standalone run stops exactly at the run's first operation, whatever precedes it |
| Partition.PartitionMatchesReference | src/execution.rs:91-124 | with the corrected unbounded counter, `subexpression_groups` never panics and returns the reference groups: for each subexpression in post-order, its body with nested subexpressions replaced by references, and the whole expression last |
| GroupStructure.GroupsSelfContained | src/execution.rs:68-89 | every group is a standalone program, and a reference in group k names an earlier group |
| GroupStructure.GroupsCover | src/execution.rs:68-89 | the groups together hold every operation of the marked program except the final marker, each exactly once |
| Execution.Evaluate | src/execution.rs:126-175 | evaluation fills one buffer slot per group and leaves the other slots as they were |
| Evaluation.EvaluateCompiled | src/execution.rs:126-175 | on the groups of a well-formed tree, evaluation never panics, whatever the buffer held, and fills the buffer with the values of the subexpressions, the whole expression last |
| Examples.QueryGroups | src/execution.rs:91-124 | `(p or q) and not {p and q}` gives the groups `p q &` and `p q \| #0 ! &` |
| Examples.QueryEvaluation | src/execution.rs:126-175 | with p true and q false those groups evaluate to false and true |
| Execution.GroupsToString | src/execution.rs:186-249 | rendering gives one string per group |
| Rendering.RenderCompiled | src/execution.rs:186-249 | on the groups of a well-formed tree, rendering never panics and gives the fully parenthesised text of each subexpression, the whole expression last |
| Examples.QueryHeaders | src/execution.rs:177-249 | the headers of the query are `(p & q)` and `((p \| q) & !((p & q)))` |
| TruthTable.Pow2 | src/main.rs:26-29 | a power of two is at least one |
| TruthTable.NewPermutations | src/main.rs:41-49 | the iterator exists exactly below 32 variables (`pow2` of a `u32` overflows from 32 on), starts unfinished and has `2^n` steps to go |
| TruthTable.Advance | src/main.rs:61-68 | advancing writes the assignment of the current step (column j is true when bit n-1-j of the counter is 0) and counts one step |
| TruthTable.RowRoundTrip | src/main.rs:61-68 | reading the bits of the row of step j gives back j, for every step below `2^n` |
| TruthTable.IndexRoundTrip | src/main.rs:61-68 | every assignment is the row of exactly one step: the rows enumerate all assignments |
| TruthTable.FirstRowAllTrue | src/main.rs:61-68 | the first row assigns true to every variable |
| TruthTable.LastRowAllFalse | src/main.rs:61-68 | the last row assigns false to every variable |
| TruthTable.TableLoop | src/main.rs:100-122 | the row loop records one row per remaining step, the k-th holding the assignment of that step |
| TruthTable.TableRowsCorrect | src/main.rs:94-122 | a well-formed tree with n variables gets `2^n` rows in counting order, each holding the values of all subexpressions under its assignment, the whole expression last |
| TruthTable.TabulateCorrect | src/main.rs:91-122 | on a well-formed tree, with the corrected unbounded counter, the table panics exactly at 32 or more variables; otherwise the output header is the text of every subexpression and the rows are those of the row loop |
| TruthTable.ProcessInput | src/main.rs:76-138 | a line is an empty query exactly when it is blank; a non-blank line whose compilation fails reports the lexeme of the error token, and a syntax error is reported only then |
| TruthTable.ProcessInputTable | src/main.rs:76-122 | with the corrected unbounded counter, a line that compiles panics exactly when it has 32 or more variables; otherwise it gives the input header, the subexpression texts as output header, and `2^n` rows of assignments with the values of every subexpression, the whole expression's value last |
| CounterOverflow.U8CounterOverflows | src/execution.rs:54-66 | `a&a&...&a` with 255 or more `&` compiles to one right-nested chain, on which the `u8` walk overflows while the unbounded walk finds the whole program |
| CounterOverflow.CompileChain | src/compiler.rs:127-152 | the tokens of `a&a&...&a` compile to the right-nested chain: an operator never reduces one of equal priority |
| CounterOverflow.TokenizeChain | src/scanner.rs:96-170 | `a&a&...&a` lexes to alternating variable and `&` tokens followed by end of input |

## Left out

- Printing is not modelled: the `tabled` table layout, the `T`/`F` cells, the error message text and the line-editing loop of `main` (src/main.rs:71-74, 97-98, 103-108, 112-117, 124-137, 142-170). `TruthTable.Outcome` carries the variables, headers and rows a table is printed from.
- The conditional operators `=>` and `<=>` are lexed (`Scanner.ScanAfterEquals`, `Scanner.ScanAfterLess`) but have no priority or arity in the parser. `stash_prev_op` would panic on the `unwrap()` of their missing priority (src/compiler.rs:45), and the `match` of `create_operation_node` has no arm for them (src/compiler.rs:54-69). `Compiler.Compile` and `TruthTable.ProcessInput` therefore require a stream without them (`CoreTokens`).
- Scanner.Tokenize: the input is an ASCII string, so its `requires IsAscii` leaves out the source's handling of multi-byte characters.
- `Vec` and `Box` allocation and capacities, and the `u32` casts of marker indices and of the variable count, are not modelled: indices are unbounded integers.
- TruthTable.NewPermutations: the `u32` overflow of `pow2` at 32 or more variables is modelled as a panic (`None`), the debug-build behaviour. A release build would wrap and print a wrong table.
- Partition.PartitionMatchesReference: proved for the corrected walk with an unbounded counter. With the source's `u8` counter, `subexpression_groups` panics on trees that leave 255 or more operands pending at once (`CounterOverflow.U8CounterOverflows`).
- TruthTable.TabulateCorrect: "panics exactly at 32 or more variables" holds for the corrected unbounded counter only. With the source's `u8` counter, `subexpression_groups` runs first (src/main.rs:91) and panics on `a&a&...&a` with 255 or more `&`, even with one variable.
- TruthTable.ProcessInputTable: same gap as `TruthTable.TabulateCorrect`. A line that compiles can panic with fewer than 32 variables under the `u8` counter; the model uses the corrected counter.
- CounterOverflow.SubexpressionBacktrackSizeU8: models the debug-build panic of the `u8` counter. A release build would wrap to 0 and return a truncated group; that is not modelled.
- The inputs of `ParseExamples` are stated as token streams, and the query in `Examples` on its tree; neither is linked to its text through `Scanner.Tokenize`. Only the chain `a&a&...&a` of `CounterOverflow` is followed from text to tree.
- Performance: the source's remark that rendering is slow (src/execution.rs:185) and the cost of repeated draining in the cutting loop have no counterpart in a functional model.

## Findings

| source | as written | input that shows it | evidently intended | confidence | as-written member | corrected member |
|---|---|---|---|---|---|---|
| src/execution.rs:56-63 | `remaining` is inferred as `u8`, the type `op_backtrack_size` returns; every binary operator walked over raises it by one. It overflows once 255 pending operands are counted: a panic in a debug build, wrap-around in a release build. | `a&a&...&a` with 255 or more `&`: equal operators nest to the right, so the postfix program ends with 255 or more `&` before the final marker | an unbounded (`usize`) counter, which finds the whole program as the last group | not executed | CounterOverflow.U8CounterOverflows | Execution.BacktrackSizeSpec |
