# Lispy evaluator core in Dafny

This project models `parsing.c` of a small Lisp-like interpreter ("Lispy").
The interpreter holds every datum as an `lval`: an error, a number, a symbol,
an S-expression `( ... )` or a Q-expression `{ ... }`. A container owns an
array of child `lval`s.

`lval_read` turns the grammar library's parse tree into an `lval`.
`lval_eval` reduces S-expressions. It evaluates the children in place, lets
the first error win, unwraps a single child, and otherwise hands the
remaining children to the builtin named by the head symbol. The builtins are
`list`, `head`, `tail`, `join`, `eval` and `+ - * /`.

The model has six modules:

- `Values` is the `lval` record as a datatype. It also holds the printed
  form of a value (`lval_print` as a function returning the text) and
  `strstr` as a substring test.
- `Cells` is the container under in-place update. The class `Expr` has a
  `kind`, a `count` and a `cell` array, and the methods `Add`, `Pop` and
  `Take`, which model `lval_add`, `lval_pop` and `lval_take`.
- `Builtins` states what each builtin computes from its argument list, as
  functions, with lemmas about them.
- `Semantics` states what `lval_eval`, `lval_sexpr_eval` and `builtin`
  compute, as mutually recursive functions, with lemmas about them.
  Evaluation never makes a value larger, and the termination proof, which
  includes re-entry through `eval`, rests on that.
- `Interpreter` holds the C loops as methods on `Expr`. Each method is proved
  to return exactly what the matching function in `Semantics` or `Builtins`
  returns.
- `Reader` holds `lval_read_num`, with `strtol` written out, and `lval_read`,
  both as a function and as the C loop that appends children with `lval_add`.
  It also proves a round trip over the model's own parse tree. That tree
  builds every node with a bare rule name as its tag (`number`, `symbol`,
  `sexpr`, `qexpr`). Reading the tree of any value the grammar can write
  gives that value back.

Where this revision of the code differs from other descriptions of the
interpreter, the model follows the code:

- There is no environment and no function-valued `lval`. Builtins are chosen
  by comparing strings in `builtin` (parsing.c:402-423).
- A head that is not a symbol gives the error
  "S-expression Does not start with symbol!" (parsing.c:238-242).
- `builtin_eval` evaluates the Q-expression it unwrapped and relabelled
  (parsing.c:297-299).
- The arithmetic test in `builtin` is `strstr("+-/*", func)`
  (parsing.c:418). Any substring of that text therefore reaches
  `builtin_op`, including `""`, `"+-"` and `"/*"`. An operator name that is
  none of the four leaves the first argument unchanged. The model keeps this
  behaviour (`Builtins.FoldOther`).

## Model

| member | source | states |
|---|---|---|
| Values.Contains | parsing.c:418 | `strstr(s, sub) != NULL` holds exactly when `sub` occurs at some position of `s`; the empty string occurs everywhere |
| Values.ShowNatDigits | parsing.c:136-138 | the `%li` text of a non-negative number is non-empty and made only of decimal digits |
| Values.ShowInt | parsing.c:136-138 | the `%li` text is never empty and starts with `-` exactly when the number is negative |
| Values.Show | parsing.c:132-153 | a printed container starts with its kind's opening bracket, `(` or `{`, and ends with the matching closing one |
| Values.ShowCells | parsing.c:119-130 | the children's texts are separated, so the text has at least as many characters as there are separators, one fewer than the children |
| Values.ShowCellsAppend | parsing.c:122-128 | printing the children of a list split into two non-empty parts gives the two texts with exactly one space between them, so a space falls between neighbours and nowhere else |
| Values.ShowContainerShape | parsing.c:119-130 | a printed container starts with its kind's opening bracket and ends with the closing one; an empty one prints as just the two brackets |
| Cells.Expr.constructor | parsing.c:75-89 | `lval_sexpr`/`lval_qexpr` give a container of the requested kind with no children |
| Cells.Expr.Of | parsing.c:271-275 | a container of the given kind owning exactly the given children, as an `lval` handed over by `lval_take` and then worked on in place |
| Cells.Expr.Add | parsing.c:112-117 | `lval_add` appends `x` as the last child and leaves the earlier children and the kind untouched; `count` grows by one |
| Cells.Expr.Pop | parsing.c:257-269 | `lval_pop(v, i)` with `i < count` returns the old `i`-th child and leaves the others in their order with that one removed; `count` shrinks by one |
| Cells.Expr.Take | parsing.c:271-275 | `lval_take(v, i)` returns the old `i`-th child |
| Builtins.HeadTailHelper | parsing.c:280-286 | the marker `1` exactly when there is one argument and it is a non-empty Q-expression; otherwise, in the code's order, "Function 'head' passed too many arguments!" for a count other than one, "Function 'head' passed incorrect types!" for a non-Q-expression, and "Function 'head' passed {}!" for an empty one |
| Builtins.Head | parsing.c:304-317 | the result is a Q-expression or an error, and no larger than the arguments |
| Builtins.Tail | parsing.c:322-332 | the result is a Q-expression or an error, and no larger than the arguments |
| Builtins.HeadTailSplit | parsing.c:304-332 | on a valid argument `head` holds exactly one element, and `head` followed by `tail` is the original list |
| Builtins.HeadTailErrors | parsing.c:280-332 | `head` fails exactly when the helper rejects the arguments, and then `tail` gives the same error (named 'head') |
| Builtins.List | parsing.c:287-290 | `list` is a Q-expression with exactly the argument sequence |
| Builtins.Join | parsing.c:345-357 | `join` fails, with "Function 'join' passed incorrect type", exactly when some argument is not a Q-expression; otherwise it is the Q-expression of all the arguments' elements in argument order; it is never larger than its arguments |
| Builtins.Concat | parsing.c:350-353 | the result is at least as long as the first list joined |
| Builtins.ConcatEmpty | parsing.c:350-353 | a join is empty exactly when every list joined is empty |
| Builtins.ConcatLength | parsing.c:334-357 | the length of a join is the sum of the lengths of the lists joined, for every split point |
| Builtins.JoinRegroup | parsing.c:345-357 | joining the join of a first group with more lists equals joining all of them at once: folding `join` over the lists pairwise and joining them in one step agree |
| Builtins.JoinHeadTail | parsing.c:304-357 | joining the head and the tail of a non-empty list gives the list back |
| Builtins.CDiv | parsing.c:393 | `/` on `long` truncates toward zero: the remainder is smaller than the divisor in magnitude and has the sign of the dividend |
| Builtins.Step | parsing.c:377-394 | one round of the loop; an operator name that is none of the four leaves the accumulator unchanged |
| Builtins.OpFold | parsing.c:373-397 | the loop ends with a number or with "Division By Zero!" |
| Builtins.Op | parsing.c:359-400 | `builtin_op` gives a number or an error |
| Builtins.FoldAddSub | parsing.c:373-382 | folding `+` adds the sum of the numbers to the first; folding `-` subtracts it |
| Builtins.FoldMul | parsing.c:383-385 | folding `*` multiplies the first number by the product of the others |
| Builtins.FoldDiv | parsing.c:386-394 | folding `/` fails exactly when some divisor, at any position, is zero |
| Builtins.FoldOther | parsing.c:377-394 | an operator name that is none of the four leaves the first number unchanged |
| Builtins.OpCases | parsing.c:359-371 | a non-number argument gives "Cannot operate on non-number!"; a lone argument to `-` is negated; `/` gives "Division By Zero!" exactly when a later argument is zero |
| Semantics.Eval | parsing.c:249-255 | evaluation never makes a value larger, and its result is never a non-empty S-expression |
| Semantics.EvalCells | parsing.c:216-218 | evaluating the children in place keeps their number, leaves each one in normal form and does not grow them |
| Semantics.EvalCellsAt | parsing.c:216-218 | child `i` after the loop is the value of child `i` before it |
| Semantics.FirstError | parsing.c:220-224 | the scan stops at the lowest position holding an error, or runs to the end when there is none |
| Semantics.SExprEval | parsing.c:215-247 | the value of an S-expression is never larger than it and is in normal form |
| Semantics.Builtin | parsing.c:402-423 | every dispatched builtin returns a value in normal form no larger than its arguments |
| Semantics.BuiltinEval | parsing.c:292-300 | the same bound for `eval`, which re-enters the evaluator on a relabelled copy of its argument |
| Semantics.EvalShapes | parsing.c:226-234 | numbers, symbols, errors and Q-expressions evaluate to themselves; `()` stays `()`; `(x)` evaluates to the value of `x` |
| Semantics.FirstErrorWins | parsing.c:220-224 | when child `i` is the first whose value is an error, the S-expression evaluates to that error |
| Semantics.ErrorPropagates | parsing.c:220-224 | an error among the children's values makes the whole S-expression an error |
| Semantics.Application | parsing.c:236-246 | with two or more children and no error, a non-symbol head gives "S-expression Does not start with symbol!", an unknown name gives "Unknown Function!", and a symbol head applies `builtin` to the values of the other children |
| Semantics.Idempotent | parsing.c:249-255 | evaluating a result again changes nothing |
| Semantics.ListQuotes | parsing.c:287-290 | `(list xs)` is the Q-expression of the values of `xs` |
| Semantics.EvalUnquotes | parsing.c:292-300 | `(eval {xs})` has the value of `(xs)` |
| Semantics.Arithmetic | parsing.c:418-419 | `(op xs)` for the four operators is `builtin_op` applied to the values of `xs` |
| Semantics.OperatorDispatch | parsing.c:402-419 | each of `+ - * /` passes the name tests and reaches `builtin_op` |
| Semantics.JoinHeadTailEval | parsing.c:304-357 | `(join (head q) (tail q))` evaluates to `q` for a non-empty Q-expression `q` |
| Interpreter.Eval | parsing.c:249-255 | `lval_eval` returns exactly `Semantics.Eval` of its argument |
| Interpreter.EvalChildren | parsing.c:216-218 | the in-place loop replaces the children by exactly `Semantics.EvalCells` of the old children |
| Interpreter.SExprEval | parsing.c:215-247 | the in-place `lval_sexpr_eval` returns exactly `Semantics.SExprEval` of the old children |
| Interpreter.Builtin | parsing.c:402-423 | the dispatch returns exactly `Semantics.Builtin` of the name and the old arguments |
| Interpreter.BuiltinEval | parsing.c:292-300 | returns exactly `Semantics.BuiltinEval` of the old arguments |
| Interpreter.BuiltinList | parsing.c:287-290 | relabelling in place returns exactly `Builtins.List` of the old arguments |
| Interpreter.BuiltinHead | parsing.c:304-317 | popping from position 1 until one element is left returns exactly `Builtins.Head` |
| Interpreter.BuiltinTail | parsing.c:322-332 | popping position 0 returns exactly `Builtins.Tail` |
| Interpreter.Join | parsing.c:334-343 | `lval_join` leaves `x` holding its old children followed by all of `y`'s, in order |
| Interpreter.BuiltinJoin | parsing.c:345-357 | the check loop and the join loop return exactly `Builtins.Join` of the old arguments |
| Interpreter.JoinAll | parsing.c:351-353 | joining the remaining arguments one at a time appends the concatenation of all their elements |
| Interpreter.JoinNext | parsing.c:352 | one turn pops the first remaining list from `a` and leaves `x` holding its old children followed by that list's elements |
| Interpreter.ConcatCons | parsing.c:351-353 | moving the first remaining list's elements onto the result leaves the result followed by the concatenation of the rest unchanged |
| Interpreter.BuiltinOp | parsing.c:359-400 | the check loop, the unary minus and the accumulating loop, which breaks at a zero divisor, return exactly `Builtins.Op` of the old arguments |
| Reader.StrToLong | parsing.c:165 | `strtol`'s value is negative only when the text, after leading white space, starts with `-` |
| Reader.ReadNum | parsing.c:163-167 | `lval_read_num` gives a number exactly when the value read lies in the range of `long`, and the error "invalid number" otherwise |
| Reader.StrToLongDigits | parsing.c:165 | `strtol` on a run of decimal digits reads their value |
| Reader.StrToLongNegDigits | parsing.c:165 | `strtol` on a minus sign followed by digits reads the negated value |
| Reader.ReadNumShow | parsing.c:163-167 | reading the printed text of a number gives the number when it fits in a `long`, and "invalid number" when it does not |
| Reader.ReadCellsAppend | parsing.c:188-205 | reading children distributes over their concatenation, so the children's values keep the tree's order |
| Reader.ReadCellsOne | parsing.c:188-205 | a bracket token or `regex` child contributes nothing; any other child contributes its own value |
| Reader.Read | parsing.c:169-208 | a node whose tag names neither a number nor a symbol reads as a container |
| Reader.ReadCells | parsing.c:188-205 | a container holds at most one value per child of the node |
| Reader.ReadShape | parsing.c:169-186 | a `number` node reads as a number or "invalid number"; a grouping node reads as a container that is a Q-expression exactly when the tag names `qexpr` (the later test overrides the earlier ones), with at most one value per child |
| Reader.ReadCellsKeepsAll | parsing.c:188-205 | when no child is a bracket token or a `regex` anchor, every child contributes a value |
| Reader.ReadTree | parsing.c:169-208 | the C reader, which creates the container and appends each kept child, returns exactly `Reader.Read` of the tree |
| Reader.TagFacts | parsing.c:170-186 | the rule names select the reading: `number`, `symbol`, `sexpr`, `qexpr` and the root `>` |
| Reader.ReadNumberNode | parsing.c:170-172 | a `number` node holding a printed `long` reads as that number and is not skipped |
| Reader.ReadSymbolNode | parsing.c:173-175 | a `symbol` node reads as the symbol of its text and is not skipped |
| Reader.ReadGroupNode | parsing.c:178-186 | an `sexpr` node reads as an S-expression and a `qexpr` node as a Q-expression of its children's values |
| Reader.ReadSurrounded | parsing.c:188-202 | skipped children at both ends contribute nothing to a container |
| Reader.ReadBracketed | parsing.c:188-205 | a bracketed list of parse trees reads as exactly the values they came from |
| Reader.ReadTrees | parsing.c:188-205 | a sequence of parse trees of values reads back as those values |
| Reader.ReadToTree | parsing.c:169-208 | reading the model's parse tree of any value the grammar can write, whose nodes carry bare rule names as tags, gives that value back |
| Reader.ReadLine | parsing.c:178-205 | a whole input line, with its root `>` and its `regex` anchors, reads as the S-expression of its expressions |

## Left out

- `main.c` is not part of this model. It is a read-and-echo loop with no logic of its own.
- The `readline`/`add_history` shim and the `main` read-eval-print loop (parsing.c:6-23, 425-468) are terminal I/O plus calls into the external mpc grammar library. The parse tree that library produces is an input here (`Reader.Node`).
- Memory management (`malloc`, `realloc`, `free`, `memmove`, `lval_del` at parsing.c:91-110) is not modelled. A `realloc` becomes a fresh array holding the surviving children, and a freed `lval` is simply never used again.
- `lval_println` (parsing.c:156-161) and the actual `printf`/`putchar` output are left out. Printing is the string function `Values.Show`.
- Builtins.Op: does not model 64-bit overflow of `+`, `-`, `*` and of `LONG_MIN / -1` in `builtin_op`. Numbers are mathematical integers, because signed overflow is undefined behaviour in C.
- Reader.ReadTree: requires `Readable(t)`. A node whose tag names no number, symbol or group leaves `lval_read` with a null container and dereferences it, and the model does not describe that crash.
- Reader.StrToLong gives the mathematical value of the digits and reports a `long` range error as a value outside `IsLong`. `strtol` clamps and sets `errno` instead, but `lval_read_num` only looks at `errno`.
- C strings end at the first NUL character. Model strings are character sequences, and symbols and error texts are assumed to contain no NUL.
- `Interpreter.Eval`, `BuiltinHead`, `BuiltinTail`, `BuiltinJoin` and `JoinNext` copy a taken or popped container into a fresh `Expr` before working on it. The C code works on that `lval` itself, so aliasing of that one object is not modelled.
- Reader.ToTree writes bare rule names as tags. The grammar library joins the names of all matched rules with `|`, so its trees are not the ones this round trip builds. `lval_read` tests tags only with `strstr`, and `Reader.ReadShape` states how a node reads for any tag.
