# Flon, modelled and verified in Dafny

Flon runs flows: trees `[ head, attributes, line, children ]` executed by exchanging messages. This project models the
interpreter at its core, the text layer it is built on, its two in-memory stores and its codecs, and proves what they
promise. `dafny verify dfyconfig.toml` checks the whole of it.

## What is modelled

**The engine.** `Values`, `Trees`, `Rewriting`, `Instructions` and `Machine` are the pure parts: JSON values, trees, the
rewriting of a tree as its node is executed, what each instruction decides, and the step of the execution on a state
made of live nodes and a queue of messages. `Rewriter` and `Executor` are the imperative code itself: a `Draft` tree
replaced in place by the passes of the rewriting, and an `Execution` with its `nodes` and `msgs` changed by every
handler, down to the loop of `flon_execut`. The instructions are `sequence`, `concurrence`, `if`, `unless`, `elsif`,
`else`, `ife`, `unlesse`, `and`, `or`, the arithmetic and comparison operators, `set` of fields, `val`,
`trace`, `noop` and `stall`.

The proof that a run computes what its tree means goes through three descriptions of the same thing. `Simulation` reads
a state as a tree of unfinished work, each part stamped with the turn of the queue its message is due in; `Stepping` and
`Preserving` show that every step of the machine is a step of that tree. `Meaning` shows that a step keeps the outcome
(`Outlook`) and pays exactly one message (`Left`). `Evaluator` is that outcome computed by recursion, with the turns it
takes, so that a concurrence ends with its latest child; `Semantics` is the plain reading, instruction by instruction.
`Runs` puts these together for whole runs, `Invariants` and `History` state what every reachable state keeps, and
`Expressions` and `Chains` take it up to lines of operators. `Flows` tells what each instruction does from the word at the
head of its tree and the answers of its children alone, `Operators` what the signs of arithmetic and comparison say of
their operands, and `Shapes` what becomes of the forms of `if`, `set` and operators as they are written.

**Ids.** `Nids` are the textual node ids, hexadecimal indexes and counters included.

**Text.** `Grammars` says what the combinators and the regex engine answer, and `Combinators` is the imperative engine,
proved to give those answers and well-tiled trees. `Djan` is the parser of the JSON superset as functions on the text that
is left; `Lexemes` runs its regexes through the regex engine and `DjanGrammar` its rules through the combinators, and both
take exactly what these functions take; `Extraction` makes values of the trees the combinators build, and they are those
the functions read. `Regexes` and `Escapes` say what the pieces of a regex and the escapes of a string stand for.
`Reprinting` tells which values come back from printing and parsing, and `Cloning` what that makes of quotes. `Radial` is the indentation-driven layout with its stack.

**Stores.** `Sessions` is the session store, a linked list cut at its first expired cell, against a log that is never
cut. `Timers` is the sorted list of timers of the dispatcher, against runs of schedules and triggers.

**Codecs and lookups.** `Mnemo`, `Durations`, `Base64`, `Domains` (patterns of domain names) and `Scopes` (variables
along the chain of parents).

## What the proofs found

- A concurrence joins exactly when it has at most ten children: the index of a child is written in decimal and read in
  hexadecimal, so the eleventh child is looked up as the seventeenth (`Semantics.EachJoins`, `Nids.ConcurrenceChild`).
- A chain of `*` and `/` is worth what it reads from left to right, for all operands, if and only if no division follows
  a multiplication: `a * b / c` is computed as `a * (b / c)` (`Chains.ProductsReadInOrder`). A chain of `+` and `-`,
  though split on `+` first, always is, modulo 2^32 (`Chains.SumsInOrder`).
- A quoted operator is not protected from the rewriting: a node's tree is a clone, printed as JSON and parsed back
  (src/fl_executor.c:246). After cloning a text is an operator if and only if its content is that operator, whatever its
  quotes, but for the texts in single quotes that are printed as the operator, a double quote, and a comment
  (`Cloning.CloneIsOp`, `Cloning.QuotesAreLost`). The engine's trees therefore have one kind of string. A text in single
  quotes is cloned to the text that is printed for it as long as that holds no `"` and the text does not end in a
  backslash; with a `"`, to what stands before the first one if blanks and a comment follow it; and otherwise there is no
  clone (`Cloning.CloneOfSingle`, with `'a"b'`, `'+" #'` and two texts that end in a backslash as inputs).
- Keys are printed without escapes, so that a value comes back from printing and parsing if and only if no key in it, at
  any depth, holds a quote, a control character, or a backslash but in `\/` (`Reprinting.ComesBack`,
  `Reprinting.KeyBreaks`).
- `set` silently changes nothing for any key that begins with `d` (`Instructions.SetWrites`).
- `if`, `unless`, `elsif`, `ife`, `unlesse` and `set` never take a child out of `children`. In every reachable state
  `children` ends with the child that a live, non-failed node waits for, concurrences aside, and is that child alone if
  and only if the instruction is none of the branching ones or the child is the first (`Invariants.ChildrenOfWaiting`); an
  `if` with a true condition waits for child 1 with child 0 still listed (`Invariants.IfKeepsCondition`).
- Of several trailing conditions the last one names the branch: `x unless a if b` becomes `ife { b, unless a, x }`
  (`Rewriting.LastConditionNames`, `Rewriting.TwoConditions`).
- `elsif c then x else y` becomes `elsif` over `c`, `x` and `y`: when `c` says yes both `x` and `y` run, in turn
  (`Shapes.ElsifThenElse`).
- After `if c then x` the first of the lines below is the `else`, and the others never run (`Shapes.IfThen`); in
  `if c else y`, without a `then`, `y` is lost (`Shapes.ElseLost`), and so is `x` in `if then x` (`Shapes.ThenAlone`).
- The lines below `else unless c` never run: once `c` has said no the ret is true, and `else` runs on false
  (`Shapes.ElseUnlessNeverRuns`).
- Strings are compared as JSON, closing quote included. Their order is that of the dictionary if and only if neither
  continues the other with a character below `"`, a space or a `!` among them: `"a" > "a b"` (`Operators.StringOrder`,
  `Operators.SpaceFirst`).
- A key in single quotes keeps the backslash of `\'`, where a value loses it: it is read as written if and only if there is
  no single quote in it (`Escapes.SqKeyKeeps`, `Escapes.SqRoundTrip`).
- A domain pattern is matched exactly only for the patterns of `Domains.Exact`: after a `**` the first label that fits is
  taken for good, so `**.b` misses `b.b` (`Domains.ExactPatterns`, `Domains.MissedDomain`).
- A range parser moves the offset by what it takes if and only if its range does not start with a dot or it takes
  nothing: a dotted one claims a length of 1 and stays (`Combinators.Input.ParseRng`, `Combinators.DottedExample`).
- A quantified escaped character behind a plain piece loses its escape, for the piece is cut behind the backslash
  (`Grammars.EscapeLost`). An ordinary character is then bare under its quantifier (`Grammars.BareUnder`), so that `a\.*`
  matches `ab`; an escaped backslash makes the quantifier a literal, so that `a\\*` matches `a*` (`Grammars.SignEscaped`);
  an escaped bracket or parenthesis opens a range or a group, an error if nothing closes it (`Grammars.OpenBracket`); and
  an escaped quantifier is an error, or no match when it is a `+` and the piece does not match (`Grammars.EscapedSign`).
  With nothing before the escape its alternative never matches, and the answer is that of the alternatives behind it, if
  any, or an error when the escaped character is `?`, `*` or `{` (`Grammars.EscapeFirst`, `Grammars.EscapeExamples`).
- A range with an escaped lower end, such as `[\a-z]`, holds the dash as well (`Regexes.EscapesInClass`).
- `{n}` bounds from both sides if and only if what follows holds no comma, or has the same number after its first one:
  `{2}b,9` allows up to nine (`Grammars.BraceBounds`, `Grammars.BraceExample`).
- A negative time loses its seconds when written as a duration (`Durations.RoundTrip`).
- In a duration a point does not end the number before it: `1.5` is no seconds and 150000000 nanoseconds
  (`Durations.PointJoins`).
- A variable that is bound nowhere is not looked up in the domain when the topmost node has no variables
  (`Scopes.LocalLookup`); `create_node` always gives some to node `0`.

## Model

| member | source | states |
|---|---|---|
| Executor.Execution.Execut | src/fl_executor.c:606-646 | for every tree and payload the loop ends; it returns the payload that the plain semantics gives, NULL exactly when that never answers, with no live node left on an answer and the queue empty |
| Runs.Refinement | src/fl_executor.c:227-396 | for every tree and payload the run first ends after a known number of messages: either the queue is `terminated` alone, with the payload of the evaluator, and no node is live, or, when the evaluator never answers, it is empty |
| Runs.Endings | src/fl_executor.c:606-646 | whenever the loop stops, it has the answer of the evaluator |
| Runs.ExactCount | src/fl_executor.c:123-156 | a successful run that executes n nodes, d of which end as they execute, handles exactly 2n + d messages before `terminated`, and ends no earlier |
| Runs.SpentIsCount | src/fl_executor.c:624-641 | the nodes executed, the direct ends and the messages of a run are those counted over the tree |
| Runs.RunIsFinite | src/fl_executor.c:624-641 | no run goes on beyond the number of messages counted over its tree |
| Evaluator.CountIsExact | src/fl_executor.c:269-288 | whatever answers costs two messages a node and one more for each node that ends as it executes |
| Invariants.RunIsSafe | src/fl_executor.c:198-396 | in every state of every run, concurrences included: the parent of a live node is live; every message is for a live node; an id is claimed at most once by a pending execute or a live node; a node that has not failed waits for exactly one message to itself, or for one child, or, for a concurrence, for its unanswered children; `terminated` is queued only as the node map is empty; the lookup of a tree is the navigation from the root through the current trees |
| Invariants.ChildrenOfWaiting | src/n/fl_seq_con.c:27-97 | in every state of every run, a live, non-failed node other than a concurrence that waits for child i has `children` ending in the id of child i; it is that one id exactly when the instruction is not a branching one or i is 0 |
| Invariants.ChildrenOfSelf | src/n/fl_seq_con.c:27-97 | in every state of every run a non-failed node that waits for its own message has no `children` or an empty list |
| Invariants.IfKeepsCondition | src/n/fl_n_if.c:27-74 | after five messages of a run an `if` waits for its child 1 with its condition still in `children` |
| History.UsedOnce | src/fl_executor.c:343-371 | over a run no id is executed twice and no node answers its parent twice |
| Invariants.NavigateIs | src/fl_exe_nodes.c:44-75 | with linked nodes, looking a tree up by parents is walking the id down from the root |
| Stepping.StepSimulates | src/fl_executor.c:227-396 | handling the next message of a node at any depth is one step of its tree of unfinished work: same nodes, same queue |
| Preserving.StepGood | src/fl_executor.c:198-396 | a step keeps a tree of unfinished work well formed, and its messages due this turn or the next |
| Meaning.StepMeaning | src/fl_executor.c:313-396 | a step changes neither the outcome nor, but for the message it spends, the messages still to come |
| Semantics.EvalIsDen | src/n/fl_seq_con.c:51-151 | passing answers from message to message is the plain meaning: sequences thread the payload, `and`/`or` stop early, operators gather results, branches choose |
| Semantics.EachJoins | src/n/fl_seq_con.c:129-151 | a concurrence answers as the latest of its children, each on the original payload, if it has at most ten; with more it never joins |
| Executor.Execution.QueueMsg | src/fl_executor.c:131-156 | the message is added at the end of the queue, nodes unchanged |
| Executor.Execution.QueueChildExecute | src/n/fl_seq_con.c:27-45 | the child is added to `children` and its execute, carrying its parent, to the queue |
| Executor.Execution.SeqRcv | src/n/fl_seq_con.c:51-88 | the result is kept when results are tracked, the first child is dropped, and the next sibling is queued if the tree has one |
| Executor.Execution.SeqExe | src/n/fl_seq_con.c:90-97 | results are tracked from an empty list when asked, and the first child is queued |
| Executor.Execution.ConExe | src/n/fl_seq_con.c:129-151 | every child is queued at once, under the index the decimal number has when read as hexadecimal |
| Executor.Execution.ConRcv | src/n/fl_seq_con.c:103-127 | the child that answered leaves `children`; the node is over when none is left |
| Executor.Execution.ExeIf | src/n/fl_n_if.c:76-101 | the condition is queued, or the node is over |
| Executor.Execution.RcvIf | src/n/fl_n_if.c:27-74 | the answer of the condition decides whether the rest runs in sequence; `unless` negates and writes it |
| Executor.Execution.RcvIfe | src/n/fl_n_ife.c:27-61 | the answer of the condition, written as a boolean, chooses one branch |
| Executor.Execution.ExeElse | src/n/fl_n_else.c:40-53 | the body runs only after a false result |
| Executor.Execution.RcvAnd | src/n/fl_n_and.c:27-52 | stops at the first child that decides, and answers a boolean |
| Executor.Execution.RcvArith | src/n/fl_n_arith.c:111-136 | folds the collected results, fails on a division by zero |
| Executor.Execution.RcvCmp | src/n/fl_n_cmp.c:157-189 | compares each result with the next one |
| Executor.Execution.RcvSet | src/n/fl_n_set.c:27-58 | writes the field that the key names, nothing for a key that begins with `d` |
| Instructions.SetWrites | src/n/fl_n_set.c:27-58 | for a key alone or behind a field prefix, the field has the value afterwards, or is gone when there is none, and every other field is as before; when the key begins with `d`, whatever the rest of it, the payload is unchanged |
| Executor.Execution.CallExe | src/fl_exe_instructions.c:774-811 | the instruction of the node decides on execute, exactly as its reaction says; an unknown one fails |
| Executor.Execution.CallRcv | src/fl_exe_instructions.c:774-811 | the same on receive, with the default for instructions without one of their own |
| Executor.Execution.CreateNode | src/fl_executor.c:198-225 | a live node with its parent, and a tree only for the root |
| Executor.Execution.HandleExecute | src/fl_executor.c:227-295 | the step of the machine on an execute message: found tree, new node, rewriting, reaction, reply or failure |
| Executor.Execution.HandleReturn | src/fl_executor.c:313-396 | the step of the machine on a receive message: reaction, then node gone and parent told, or `terminated`, or failure |
| Flows.SequenceRuns | src/n/fl_seq_con.c:51-97 | `sequence`: each child on the answer of the one before it |
| Flows.ConcurrenceAnswers | src/n/fl_seq_con.c:103-151 | `concurrence`: every child on the same payload, the answer that of the child that takes the most turns, the last in line among equals; none if a child has none or there are more than ten |
| Flows.IfGuards | src/n/fl_n_if.c:27-101 | `if`: the other children in turn when the ret of the first is there and neither null nor false, else its answer as it is |
| Flows.UnlessGuards | src/n/fl_n_if.c:27-101 | `unless`: the other children, on ret true, when the first says no, and ret false when it says yes |
| Flows.ElsifGuards | src/n/fl_n_if.c:76-101 | `elsif` and `elif`: as `if` after a false ret, and nothing otherwise |
| Flows.ElseRuns | src/n/fl_n_else.c:27-53 | `else`: its children in turn after a false ret, and nothing otherwise |
| Flows.IfeChooses | src/n/fl_n_ife.c:27-61 | `ife`: as the second child, on ret true, when the first says yes, and as the third, on ret false, when it says no |
| Flows.UnlesseChooses | src/n/fl_n_ife.c:27-61 | `unlesse`: the reverse |
| Flows.AndOrStop | src/n/fl_n_and.c:27-52 | `and` stops at the first child that says no, `or` at the first that says yes, each ret made a boolean |
| Flows.ArithAnswers | src/n/fl_n_arith.c:48-136 | `+`, `-`, `*`, `/`: the low 32 bits of the rets taken from left to right, each step by its own relation; no answer on a division by zero |
| Flows.CmpAnswers | src/n/fl_n_cmp.c:96-189 | the six comparisons: whether each ret stands in the relation with the next one |
| Flows.SetAnswers | src/n/fl_n_set.c:27-58 | `set`: the ret of the child in the field that the key names, the field gone without a ret, nothing changed for a key that begins with `d` |
| Flows.ValAnswers | src/n/fl_n_val.c:27-40 | `val`: its attribute `_0` is the ret |
| Flows.ValNothing | src/n/fl_n_val.c:31-32 | without one it is null |
| Flows.TraceNotes | src/n/fl_n_trace.c:44-70 | `trace`: the ret, its attribute, or the array of its attributes, at the end of the trace |
| Flows.TraceObject | src/n/fl_n_trace.c:27-42 | with a name among its attributes, the object of them |
| Flows.TraceNamed | src/n/fl_n_trace.c:58-61 | a single attribute with a name notes nothing |
| Flows.NoopAnswers | src/fl_exe_instructions.c:671-674 | `noop` answers what it is given, `stall` never |
| Flows.WordAnswers | src/n/fl_rewrite.c:50-89 | any word that is no instruction answers itself |
| Flows.LineAnswers | src/fl_executor.c:227-396 | a line of operands and operators answers what it is worth by precedence, or not at all |
| Operators.IntegersCompare | src/n/fl_n_cmp.c:107-119 | a line of two integers and a comparison is worth true exactly when they stand in that relation |
| Operators.IntegersCompute | src/n/fl_n_arith.c:48-69 | a line of two integers and a sign is worth the low 32 bits of their sum, difference or product, or of the quotient whose remainder is smaller than the divisor and zero or of the sign of the dividend; nothing on a division by zero |
| Operators.OneQuotient | src/n/fl_n_arith.c:63 | there is one such quotient only |
| Operators.ChainIs | src/n/fl_n_cmp.c:130-189 | a chain holds if and only if all neighbours stand in the relation: integers without a point on the left as numbers, a number and something else never, the rest by the order of their JSON |
| Operators.StringOrder | src/n/fl_n_cmp.c:96-105 | strings without escapes are in the order of the dictionary if and only if none continues the other with a character below the double quote |
| Operators.SpaceFirst | src/n/fl_n_cmp.c:96-105 | `"a" > "a b"` |
| Operators.SameString | src/n/fl_n_cmp.c:96-105 | texts are equal exactly when they are the same |
| Operators.LooserSplits | src/n/fl_rewrite.c:484-504 | of any two operators of a line of three operands the looser one, by the order of the passes, takes the line apart |
| Instructions.ArithFold | src/n/fl_n_arith.c:48-69 | the accumulator loop folds from the left, dividing toward zero, None on a division by zero |
| Instructions.CmpChain | src/n/fl_n_cmp.c:157-189 | true exactly when each value relates to the next |
| Rewriter.Draft.RewriteTree | src/n/fl_rewrite.c:468-511 | the passes, one after the other, replace the tree by its rewriting |
| Rewriter.Draft.Infix | src/n/fl_rewrite.c:150-191 | the operator becomes the head, over one child for each segment between its occurrences; a segment without attributes is refused |
| Rewriter.Draft.Prefix | src/n/fl_rewrite.c:193-220 | an operator at the head takes each attribute as a child |
| Rewriter.Draft.HeadIf | src/n/fl_rewrite.c:283-346 | condition, `then` and `else` segments become children |
| Rewriter.Draft.PostIf | src/n/fl_rewrite.c:366-417 | a trailing `if` or `unless` becomes the head, `ife` or `unlesse` by the head of the rewritten condition |
| Shapes.ThenElseForm | src/n/fl_rewrite.c:283-346 | `if c then x else y` is `ife` over `c`, `x`, `y` in this order, whatever `c`, `x` and `y`, and likewise for `unless`, `elsif`, `elif` and `else` |
| Shapes.ThenForm | src/n/fl_rewrite.c:283-346 | `if c then x` is `ife` over `c` and `x` |
| Shapes.CondForm | src/n/fl_rewrite.c:283-346 | `if c` keeps its head, over `c` and the lines below |
| Shapes.ElseLost | src/n/fl_rewrite.c:313-325 | an `else` without a `then` is lost |
| Shapes.ThenAlone | src/n/fl_rewrite.c:313-325 | a `then` without a condition is lost |
| Shapes.NothingBehind | src/n/fl_rewrite.c:313-325 | a `then` or an `else` with nothing behind it cannot be rewritten |
| Shapes.IfThenElse | src/n/fl_rewrite.c:283-346 | such a line answers as `x`, on ret true, when `c` says yes, and as `y`, on ret false, when it says no |
| Shapes.UnlessThenElse | src/n/fl_rewrite.c:283-346 | the reverse for `unless` |
| Shapes.IfThen | src/n/fl_rewrite.c:313-325 | without an `else`, the first line below is run when `c` says no, and ret false is the answer when there is none |
| Shapes.IfLines | src/n/fl_rewrite.c:283-346 | `if c` runs the lines below in turn when `c` says yes |
| Shapes.ElsifThenElse | src/n/fl_rewrite.c:332-343 | `elsif c then x else y` runs both `x` and `y` when `c` says yes |
| Shapes.ElseIfLines | src/n/fl_rewrite.c:348-364 | `else if c` runs the lines below after a false ret, when `c` says yes |
| Shapes.PostForm | src/n/fl_rewrite.c:366-417 | `x if c` is `ife`, and `x unless c` is `unlesse`, over `c` and `x` |
| Shapes.PostIfRuns | src/n/fl_rewrite.c:366-417 | `x if c` answers as `x`, on ret true, when `c` says yes, and with ret false when it says no |
| Shapes.PostUnlessRuns | src/n/fl_rewrite.c:366-417 | the reverse for `unless` |
| Shapes.ElseUnlessNeverRuns | src/n/fl_n_else.c:40-53 | the lines below `else unless c` never run |
| Shapes.SetsAll | src/n/fl_rewrite.c:230-281 | `set a: 1 b: 2` sets each field to its value, from left to right |
| Shapes.SetNothing | src/n/fl_rewrite.c:230-281 | `set` of a key alone sets nothing |
| Shapes.PrefixForm | src/n/fl_rewrite.c:193-220 | `+ 1 2` is the operator over one tree for each attribute |
| Rewriting.LastConditionNames | src/n/fl_rewrite.c:366-417 | of any number of trailing conditions the last one decides between `ife` and `unlesse` |
| Rewriting.TwoConditions | src/n/fl_rewrite.c:391-395 | `x unless a if b` becomes `ife { b, unless a, x }` |
| Rewriter.Draft.ElseIf | src/n/fl_rewrite.c:348-364 | `else` with `if` as its attribute `_0` becomes `elsif`; `else unless` is left to the pass of trailing conditions |
| Rewriter.Draft.SetPass | src/n/fl_rewrite.c:230-281 | `set` of several keys becomes a `set` each |
| Rewriter.Draft.AsVal | src/n/fl_rewrite.c:50-89 | what is no instruction is a value |
| Rewriter.ListToTree | src/n/fl_rewrite.c:117-148 | one attribute is a tree or a value, more are a tree with renumbered attributes |
| Rewriting.RewriteWeight | src/n/fl_rewrite.c:468-511 | rewriting never makes a tree heavier, so that rewriting while running ends |
| Expressions.LineMeans | src/n/fl_rewrite.c:484-504 | a line of operands, groups and operators, rewritten node by node while it runs, answers the value that the precedence of the operators gives to its tokens, and fails exactly when that has none |
| Expressions.TokensKept | src/n/fl_rewrite.c:150-191 | a rewritten line, its operator put back between its children, is the same tokens |
| Expressions.RewriteLine | src/n/fl_rewrite.c:484-504 | a line is split at its loosest operator, into well-formed parts |
| Chains.SumsInOrder | src/n/fl_n_arith.c:48-69 | a mixed chain of `+` and `-`, though split on `+` first, is worth what it reads from left to right, in 32 bits |
| Chains.ProductsInOrder | src/n/fl_n_arith.c:48-69 | so is a chain of `*` and `/` whose divisions come first, division by zero included |
| Chains.ProductsReadInOrder | src/n/fl_rewrite.c:484-504 | and for all operands only such a chain is |
| Nids.NidText | src/fl_ids.c:285-291 | `0_a_13-5a`, and no dash for a counter of zero |
| Nids.HexIs | src/fl_ids.c:285-291 | indexes are written in the digits `0` to `f`, the last one behind those of the rest |
| Nids.ChildIs | src/fl_ids.c:285-291 | the id of a child is the path with one more index, counter kept |
| Nids.ParentIs | src/fl_ids.c:267-283 | the parent of a child is the id, without counter when chopped |
| Nids.NextIs | src/fl_ids.c:233-265 | the next id is that of the k-th next sibling |
| Nids.IndexIs | src/fl_ids.c:322-333 | the index of a child is the number it was made with |
| Nids.RootIs | src/fl_ids.c:233-283 | a root has neither parent nor sibling |
| Nids.ChildNextParent | src/fl_ids.c:233-333 | parent, index and next undo child, counters included |
| Nids.NidInjective | src/fl_ids.c:285-291 | different paths or counters have different ids |
| Nids.ConcurrenceChild | src/n/fl_seq_con.c:143 | a child id written with a decimal index has the right parent, but is that of the child exactly below index 10 |
| Nids.ParentInPlace | src/fl_ids.c:267-283 | the edits of the buffer give the parent |
| Nids.DepthIs | src/fl_ids.c:293-320 | the depth of an id is the length of its path less one |
| Nids.Depth | src/fl_ids.c:293-320 | counts the underscores of the node part |
| Grammars.Source.FuelIsEnough | src/lib/aabro.c:413-602 | an answer other than an error does not depend on the depth allowed to recursive rules |
| Grammars.Source.GreedyIsLongest | src/lib/aabro.c:502-561 | a greedy alternative errs iff a choice does, fails iff all do, and else matches exactly as much as its longest choice, in any order |
| Grammars.Source.FirstIsTaken | src/lib/aabro.c:502-561 | without greed it is the first choice that does not fail |
| Grammars.Source.RepetitionIs | src/lib/aabro.c:563-602 | a repetition matches again and again up to its upper bound, an empty match or what does not match, fails with fewer matches than its lower bound, and errs only where its grammar does |
| Grammars.Source.RoundsAre | src/lib/aabro.c:1083-1164 | behind its first element a separated list goes on by separator and element to where there is no separator, or nothing but an empty one; a separator without its element is a failure |
| Grammars.Source.FirstElement | src/lib/aabro.c:1083-1164 | a list without a start and an end matches only with a first element |
| Grammars.Source.StarsAreRepetitions | src/lib/aabro.c:413-602 | `*` and `+` in a sequence are repetitions from 0 and from 1 |
| Grammars.EscapeLost | src/lib/aabro.c:774-802 | for a quantified escaped character behind ordinary and escaped ones, what matches is what stands before it, then the rest of the regex from the bare character on |
| Grammars.BareUnder | src/lib/aabro.c:774-802 | that rest starts with the character alone under the quantifier, when it is an ordinary one |
| Grammars.SignEscaped | src/lib/aabro.c:774-802 | after a backslash it starts with the quantifier as a literal |
| Grammars.OpenBracket | src/lib/aabro.c:875-891 | after a bracket or a parenthesis that nothing closes it is an error |
| Grammars.EscapedSign | src/lib/aabro.c:774-802 | an escaped `?`, `*`, `+` or `{` under a quantifier is an error wherever the piece before it matches, and also where it does not, but for `+`, which is then no match |
| Grammars.EscapeFirst | src/lib/aabro.c:998-1068 | a regex that starts with a quantified escaped character answers as the alternatives behind the first bar, is no match if there are none, and errs when that character is `?`, `*` or `{` |
| Grammars.EscapedMatches | src/lib/aabro.c:774-802 | behind literals, as the only alternative, it matches some text if and only if there is a literal |
| Grammars.EscapeExamples | src/lib/aabro.c:774-802 | `a\.*` matches all of `ab`, `\.*` does not match `..`, `\.*` with `b` as a second alternative matches `b`, and `a\\*` matches all of `a*` |
| Grammars.BraceBounds | src/lib/aabro.c:702-735 | the upper bound of `{n}` is n if and only if no comma follows anywhere in the regex or the number behind the first one is n |
| Grammars.BraceExample | src/lib/aabro.c:702-735 | `{2}` before `b,9` has the bounds 2 and 9 |
| Grammars.UndottedExamples | src/lib/aabro.c:635-678 | an escaped bracket before a dot, or a bracket within a range, opens no dotted range |
| Regexes.ClassTakes | src/lib/aabro.c:618-688 | a range takes one character of its spans, a negated one any other, none at the end of the text |
| Regexes.EscapesInClass | src/lib/aabro.c:618-633 | an escaped character stands for itself in a range, as an upper end too; as a lower end it lets the dash in |
| Regexes.Repeats | src/lib/aabro.c:861-948 | a range under `?`, `*`, `+`, `{a,}` or `{a,b}` takes as many of its characters as there are, within the bounds, or fails |
| Regexes.PlainTakes | src/lib/aabro.c:804-856 | a plain piece takes its characters, a dot any but the end of a line, `$` stops before the end of a line, the escaped `Z` at that of the text |
| Combinators.Input.Parse | src/lib/aabro.c:373-602 | for every grammar of combinators without a dotted range among the pieces its regexes are cut in, and every input: success advances by exactly the length, anything else leaves the offset with length 0, successful children tile their parent, the answer is that of the grammar whether trees are pruned or not, and a pruned tree is the one the grammar has; always ends |
| Combinators.Input.ParseAll | src/lib/aabro.c:1184-1204 | a match counts only when nothing of the input is left, and its one child spans it |
| Combinators.Input.ParseSeq | src/lib/aabro.c:413-500 | the same for a sequence with quantifiers |
| Combinators.Input.ParseAlt | src/lib/aabro.c:502-561 | the same for alternatives; the one child that succeeds spans its parent |
| Combinators.Input.ParseRep | src/lib/aabro.c:563-602 | the same for repetitions |
| Combinators.Input.ParseEseq | src/lib/aabro.c:1083-1164 | the same for separated lists, which end by progress |
| Combinators.Input.ParseStr | src/lib/aabro.c:373-390 | matches exactly its text |
| Combinators.Input.ParseRng | src/lib/aabro.c:635-678 | one character in the range, or not in it when negated; the offset moves by the length if and only if the range is not dotted or nothing is taken |
| Combinators.DottedExample | src/lib/aabro.c:635-678 | the range `.` on `a` claims one character and stays where it is |
| Combinators.Input.RexStr | src/lib/aabro.c:804-856 | a plain piece, with `.`, `$` and the escaped `Z`; never of length 0 |
| Combinators.Input.RexRep | src/lib/aabro.c:861-948 | one piece under its quantifier, and how much of the regex it is; a failure may leave the offset anywhere |
| Combinators.Input.RexSeq | src/lib/aabro.c:950-996 | piece after piece; puts the offset back on a failure |
| Combinators.Input.RexAlt | src/lib/aabro.c:998-1068 | the first alternative that does not fail |
| Combinators.Quantify | src/lib/aabro.c:702-735 | length and bounds of a quantifier, refused when malformed |
| Lexemes.StringTakes | src/lib/djan.c:130-155 | for every text and offset the regex of a double- or single-quoted string, run by the regex engine, takes what the parser of strings takes |
| Lexemes.NumberTakes | src/lib/djan.c:208-211 | the regex of numbers takes sign, digits, fraction and exponent as the parser of numbers does |
| Lexemes.CoreTakes | src/lib/djan.c:175-178 | the regex of a symbol takes the characters of a symbol, no more and no less |
| Lexemes.CommentTakes | src/lib/djan.c:99-106 | the regexes of comments take the mark and the rest of the line |
| DjanGrammar.ValueTakes | src/lib/djan.c:213-280 | for every text without NUL and every offset the grammar of values, run by the combinators with the regex engine, matches exactly where the parser gives a value, and as much |
| DjanGrammar.SymbolTakes | src/lib/djan.c:175-206 | a symbol of the grammar, names in `$(...)` included, is as long as the parser says |
| DjanGrammar.PostvalLeaves | src/lib/djan.c:99-121 | the blanks and comments that the grammar goes over are those the parser goes over |
| DjanGrammar.EntryTakes | src/lib/djan.c:222-232 | an entry of the grammar is one that the parser reads, key, colon and value |
| DjanGrammar.MoreItemsTake | src/lib/djan.c:213-264 | the rounds of separators and optional values of an array end where those of the parser do |
| DjanGrammar.ParseTakes | src/lib/djan.c:282-285 | the whole grammar takes the whole text if and only if the parser gives a value, and never errs |
| DjanGrammar.Accepts | src/lib/djan.c:537-554 | running the imperative combinators over a text succeeds if and only if the parser gives a value |
| Djan.RoundTrip | src/lib/djan.c:962-965 | parsing what was printed gives the value back, for every nested value of null, booleans, numbers, strings without NUL, arrays and objects whose keys need no escape; this is what cloning rests on |
| Extraction.Parse | src/lib/djan.c:537-554 | for every text without NUL the value made of the tree that the combinators build is the one the parser reads, and there is none exactly when it reads none |
| Extraction.ValueTree | src/lib/djan.c:498-535 | the topmost named tree of a value, wherever it stands in a text, gives the value read there |
| Extraction.EntryTree | src/lib/djan.c:426-468 | the first and the fifth child of an entry give its key and its value |
| Extraction.ItemsTree | src/lib/djan.c:474-496 | the topmost named trees of an array are one for each item, in order |
| Extraction.NoNames | src/lib/aabro.c:294-308 | the trees of blanks, separators and brackets hold no named tree |
| Reprinting.ComesBack | src/lib/djan.c:962-1021 | and exactly for these: any other value of numbers of the grammar and texts without NUL is not given back |
| Reprinting.KeyDiffers | src/lib/djan.c:976-981 | a key that needs an escape is read as another key or not at all, whatever follows it |
| Reprinting.KeyBreaks | src/lib/djan.c:976-981 | an object with a quote in a key does not come back |
| Djan.KeyReads | src/lib/djan.c:426-443 | a key printed as it is reads as itself exactly when it is plain, `\/` included |
| Cloning.CloneIsOp | src/n/fl_rewrite.c:27-32 | for every text the parser reads: that it is the operator after cloning if and only if its content is, holds exactly when it is not printed as the operator, a double quote and a comment |
| Cloning.CloneOfSingle | src/lib/djan.c:983-993 | the clone of any text in single quotes: the text printed for it when there is no `"` in it and no backslash at its end; what stands before the first `"` when blanks and a comment follow; none otherwise |
| Cloning.CloneOfSymbol | src/lib/djan.c:994-999 | a symbol is cloned to itself unless it holds a `$`, and then so does its clone |
| Cloning.QuotesAreLost | src/lib/djan.c:962-965 | an operator in single quotes is none, and its clone is one |
| Cloning.CloneIsParsed | src/lib/djan.c:962-1021 | the clone is what the parser makes of the printed text |
| Cloning.QuoteCutsShort | src/lib/djan.c:983-993 | `'+" #'` is cloned to the operator, which its content is not |
| Cloning.QuoteHasNoClone | src/lib/djan.c:983-993 | `'a"b'` has no clone |
| Cloning.BackslashHasNoClone | src/lib/djan.c:983-993 | a single backslash, in single quotes, has no clone |
| Cloning.BackslashCut | src/lib/djan.c:983-993 | a text that ends in a backslash behind a `"` and a comment has one |
| Djan.StringRoundTrip | src/lib/djan.c:130-142 | any string without NUL, escaped and quoted, is read as one string and unescapes to itself |
| Djan.NumberRoundTrip | src/lib/djan.c:208-285 | a number is read as a number, its text being as long as the symbol it also is |
| Escapes.CodeReads | src/lib/flutil.c:1082-1128 | a backslash, `u` and four hexadecimal digits of either case read as the shortest UTF-8 of their number, whatever follows |
| Escapes.CodeText | src/lib/djan.c:537-554 | and so does a whole text that is such a string |
| Escapes.LettersRead | src/lib/flutil.c:1082-1128 | seven letters behind a backslash read as their characters; any other keeps its backslash |
| Escapes.LettersWritten | src/lib/flutil.c:1054-1073 | exactly the characters of these seven are written with a backslash |
| Escapes.SqRoundTrip | src/lib/djan.c:405-424 | any text without NUL written between single quotes is read back, whatever follows |
| Escapes.SqKeyKeeps | src/lib/djan.c:426-443 | as a key it keeps the backslash before each single quote |
| Djan.EscapeChars | src/lib/flutil.c:1054-1073 | the loop writes the escapes of the text up to a NUL |
| Djan.UnescapeChars | src/lib/flutil.c:1082-1128 | the loop undoes the escapes of a string body |
| Radial.ReadLines | src/lib/djan.c:809-861 | each line is a child of the closest earlier line of smaller indent, children in line order |
| Radial.Layout.StackRadl | src/lib/djan.c:691-720 | the new line is hung under its parent, no other line changes, and the stack is again the rightmost spine |
| Radial.Layout.AddRadc | src/lib/djan.c:675-689 | the child is added last, under that parent only |
| Radial.SpineShrinks | src/lib/djan.c:691-720 | indents grow strictly along the spine, from the first line on |
| Radial.DepthIs | src/lib/djan.c:691-720 | the depth of a line is the number of its ancestors |
| Radial.DepthsAreALayout | src/lib/djan.c:821-861 | re-indenting every line by its depth gives every line the same parent |
| Radial.WalkInOrder | src/lib/djan.c:841-851 | walking the lines that were built, through their `children` from the first one, meets all of them in the order they were read |
| Radial.LinesInOrder | src/lib/djan.c:841-851 | the preorder of the tree is the order of the lines |
| Sessions.Store.QuerySession | src/lib/shv_auth_session_memstore.c:58-101 | the list cut at the first expired cell answers every query as the log that is never cut |
| Sessions.Store.StartSession | src/lib/shv_auth_session_memstore.c:113-128 | marks the last session of that id, and adds the new one in front |
| Sessions.Store.StopSession | src/lib/shv_auth_session_memstore.c:39-48 | marks the first session of the log with that sid as used |
| Sessions.Store.ResetStore | src/lib/shv_auth_session_memstore.c:50-56 | empties the store |
| Sessions.Store.SessionAuth | src/lib/shv_auth_session.c:144-194 | query, then refresh under a new sid, on the log |
| Sessions.RunsAreOneUsable | src/lib/shv_auth_session_memstore.c:103-128 | over every run at most one session of an id is usable, the most recent one |
| Sessions.RunsHaveDistinctSids | src/lib/shv_auth_session_memstore.c:113-128 | with fresh sids no two sessions share one |
| Sessions.SidAuthenticatesOnce | src/lib/shv_auth_session.c:168-179 | over every run with fresh sids a sid authenticates at most once |
| Sessions.RunsAreTickets | src/lib/shv_auth_session_memstore.c:58-128 | over every run with fresh sids the usable sessions are one ticket an id: sid, user, and 24 hours from the last login or authentication |
| Sessions.AuthenticatesIsTicket | src/lib/shv_auth_session.c:144-194 | an authentication succeeds if and only if a ticket has its sid and is not over |
| Values.CmpIs | src/fl_dispatcher.c:72-75 | `strcmp` is at most zero exactly when the first text is a prefix of the second or smaller at the first place where they differ, and zero for equal texts only |
| Values.StampOrder | src/fl_dispatcher.c:72-75 | stamps of as many digits are in the order of the numbers they write |
| Values.ToLLReads | src/n/fl_n_cmp.c:109-110 | a number is read past blanks, with its sign, up to the first character that is no digit |
| Values.NatTextIs | src/n/fl_n_arith.c:124-125 | a number is written without zeros in front, and reads as itself |
| Timers.TimerList.OInsert | src/lib/flutil.c:762-783 | the linked list gets the timer at its place, after those of the same stamp, links and ends consistent |
| Timers.TimerList.Trigger | src/fl_dispatcher.c:318-336 | shifts out exactly the timers due |
| Timers.TimerList.DoTrigger | src/fl_dispatcher.c:246-316 | shifts the first timer if it is due, nothing otherwise |
| Timers.TimerList.Shift | src/lib/flutil.c:735-747 | takes the first cell, links and ends consistent |
| Timers.TimerList.RemoveTimer | src/fl_dispatcher.c:110-126 | unlinks the first timer with that stamp and file, if there is one |
| Timers.InsertInOrder | src/fl_dispatcher.c:72-92 | inserting keeps the list in the dictionary order of stamps, then of arrival, and adds one timer |
| Timers.DueIsExact | src/fl_dispatcher.c:318-336 | a trigger splits the list in the timers of stamp at most its own, in the order of the dictionary, and the others |
| Timers.RemoveIsExact | src/fl_dispatcher.c:110-126 | removing takes one timer out and keeps the order |
| Timers.NoneLostNorTwice | src/fl_dispatcher.c:246-336 | over every run each timer scheduled is pending, fired or unscheduled, exactly once |
| Timers.TriggersAreExact | src/fl_dispatcher.c:246-336 | over every run a trigger fires the pending timers whose stamp is at most its own in the order of the dictionary, by stamp then by arrival, and no other |
| Mnemo.SyllableIs | src/lib/mnemo.c:36-58 | the syllable of each digit is that of the table |
| Mnemo.ToSIs | src/lib/mnemo.c:64-85 | the highest digit first, the sign in front |
| Mnemo.RoundTrip | src/lib/mnemo.c:64-118 | reading back the syllables of a 64-bit integer other than the least gives it, without error |
| Mnemo.PrefixFree | src/lib/mnemo.c:87-118 | no two syllables begin a text together, so that the first match in the table is the only one |
| Mnemo.ToI | src/lib/mnemo.c:87-118 | ends on every text, with the value of its syllables or an error |
| Durations.RoundTrip | src/lib/flutim.c:297-409 | reading the text of a time gives the time back, cut to the unit of the format, but for the seconds of a negative one, which read as none |
| Durations.ToHs | src/lib/flutim.c:297-334 | the running remainder writes weeks to seconds and the fraction |
| Durations.ParseTs | src/lib/flutim.c:336-409 | the buffer of digits reads as the digits seen since the last unit, zeros behind for a fraction |
| Durations.RefusedWhen | src/lib/flutim.c:336-409 | a text is refused exactly when it holds a character that is no digit, unit, point or space |
| Durations.PointJoins | src/lib/flutim.c:336-409 | digits before and after a point are one fraction |
| Durations.AmountsRead | src/lib/flutim.c:336-409 | a text of numbers and units reads as the sum of the numbers times the lengths of their units, years of 365 days and months of 30, a sign staying until the next one |
| Durations.BareNumber | src/lib/flutim.c:336-409 | a number without a unit is seconds |
| Durations.BorrowKeeps | src/lib/flutim.c:336-409 | taking negative nanoseconds out of the seconds keeps the time |
| Base64.FirstQuad | src/lib/flu64.c:48-70 | the first three bytes are the 24 bits whose four groups of six name letters of the alphabet of RFC 4648, padding for the groups no byte reaches, before the encoding of the others |
| Base64.RoundTrip | src/lib/flu64.c:48-87 | decoding after encoding is the identity on every sequence of bytes |
| Base64.Padding | src/lib/flu64.c:48-70 | two, one or no `=` at the end by the length modulo 3, and none elsewhere |
| Base64.Encode | src/lib/flu64.c:48-70 | four letters for every three bytes begun |
| Base64.DoEncode | src/lib/flu64.c:48-70 | fills the buffer with the encoding and leaves the rest of it |
| Base64.DoDecode | src/lib/flu64.c:72-87 | fills the buffer with the decoding and counts it |
| Domains.ExactPatterns | src/fl_lis_auth.c:91-140 | the answer is right for every domain if and only if the pattern is of the exact ones, a test on the pattern alone |
| Domains.Sound | src/fl_lis_auth.c:91-140 | a positive answer implies a match, `*` being one label and `**` any number |
| Domains.AnyOnlyLast | src/fl_lis_auth.c:91-140 | the patterns whose `**` is at most the last label are exact |
| Domains.MissedDomain | src/fl_lis_auth.c:117-122 | the greedy `**` misses a match |
| Domains.DomMatches | src/fl_lis_auth.c:91-140 | the two cursors compute the greedy answer, and only right positives |
| Scopes.LocalLookup | src/fl_exe_instructions.c:197-234 | a local lookup gives the innermost enclosing binding, else the value of the domain, or nothing when the topmost node has no variables |
| Scopes.GlobalLookup | src/fl_exe_instructions.c:197-234 | a global lookup sees the topmost node, then the domain |
| Scopes.DomainLookup | src/fl_exe_instructions.c:197-234 | a lookup in the domain sees the domain alone |
| Scopes.SetIsSeen | src/fl_exe_instructions.c:252-261 | after a set to a value, a node sees the new value exactly when the variables set are on its chain and nothing nearer binds the key; any other lookup is unchanged |
| Scopes.UnsetIsSeen | src/fl_exe_instructions.c:252-261 | after a set without a value, a node that saw the binding sees the next one above it, else that of the domain |
| Scopes.SetThenGet | src/fl_exe_instructions.c:252-261 | a local set is read back from the same node |
| Scopes.DomainSet | src/fl_exe_instructions.c:252-261 | a set under mode `d` changes nothing |
| Scopes.LiveNodes.SetVar | src/fl_exe_instructions.c:252-261 | the variables of the node found bind the key to the value, or no longer bind it when there is none, and nothing else changes |

## Left out

- Files, locks, spool directories, forks, signals, libev, HTTP, logging and random bytes; clocks are parameters.
- Loading, persisting and scheduling messages on disk (`load_msgs`, `persist`, `execute`).
- The instructions `define`, `call`, `task`, `wait`, `log`, `map`, `cand` and `cor`, `%`, the regex comparisons `=~` and `!~`, and cancelling: a node with any of these fails in the model, as one without a known instruction does.
- Arithmetic on doubles, `long long` overflow and the saturation of `strtoll`: integers are unbounded but for the 32 bits that `%d` prints; a sum of doubles fails in the model.
- Attributes holding `$(...)`, dotted field paths, `v.` and `w.` targets of `set`, and trees that keep a parenthesised attribute after rewriting (`rewrite_parens`): such a node fails in the model.
- A rewriting that would dereference an empty list (an operator with nothing on one side) makes the node fail in the model.
- In `Flows` the attributes of a node are plain values none of which is a word that the rewriting looks for, and a head such as `if` has none; `Shapes`, `Expressions` and `Rewriting` are about those that are rewritten.
- Operators.StringOrder: for strings in which nothing is escaped; any others are compared as their JSON (`Operators.ChainIs`).
- Regexes.ClassTakes: for spans without backslashes, dashes or brackets at their ends; the escaped ones of the djan grammar are in `Lexemes`.
- The order of the keys of a payload, the times of nodes, notes, errors as data, and the fifth element (origin) of a tree.
- The common attribute `vars` (src/n/fl_catt.c:27-68), which gives a node variables before its instruction runs.
- Executor.Execution.Execut: a tree with an instruction, a double, an attribute or a rewriting named above fails, where the source may answer.
- Executor.Execution.CallExe: an instruction outside the fragment fails, and the common attribute `vars` is ignored.
- Executor.Execution.CallRcv: as for CallExe.
- Executor.Execution.RcvArith: a result with a decimal point makes the node fail where the source folds doubles, whose rounding and printing are not modelled.
- Executor.Execution.RcvSet: variables as targets, and dotted paths, make the node fail where the source sets them.
- Rewriter.Draft.RewriteTree: has no pass for parenthesised attributes (`rewrite_parens`).
- Rewriter.Draft.AsVal: a name bound to a callable variable is a value here and a call in the source.
- Node ids of the engine are paths without counters; ids with counters are in `Nids` only, which has no `0x` prefixes.
- Nids.ParentInPlace: requires the last underscore before the dash, as the grammar of ids has it; on any other text the source writes past the end of its copy.
- Combinators.Input.Parse: requires that no range starts with a dot, among those the regex engine cuts; for such a range ParseRng says what happens; notes of trees are not modelled, and `fuel` bounds the depth of recursive rules, which the source leaves to the stack.
- Djan.RoundTrip: colours, the pretty printer and `fdja_pset` paths are not modelled.
- DjanGrammar.ValueTakes: `_rxstring`, `_obj` with its objects without braces, the radial rules and the rules of paths are not part of this grammar.
- Cloning.CloneIsOp: for operators, or other words without quotes, backslashes and `$`; `/…/` texts, which only the radial rules read, are not modelled.
- Extraction.Parse: the tree of a match is modelled with its name, place and children; notes and the names of combinators are not, nor is the sharing of the source text by the values.
- Grammars.StrEnd: for a regex that ends in a lone backslash the source counts the closing NUL into the piece and skips it; here the piece ends with the regex.
- Djan.UnescapeChars: requires the body of a string as the grammar accepts it; on a malformed code the source reads past the text.
- Radial.ReadLines: the heads and attributes of a line are not modelled, only indents; requires the first line to be the only least indented one.
- Sessions.Store.SessionAuth: the scan of cookies is not modelled, nor are stores other than the one in memory (`fshv_session_memstore_push` dispatches on its arguments); the list cell and its session are one object.
- Sessions.SidAuthenticatesOnce: assumes a clock that does not go back and fresh sids, as random ones are taken to be.
- Timers.TimerList.RemoveTimer: excludes the last timer of a longer list, after which the source leaves `last` dangling; recurring timers are not modelled.
- Timers.TimerList.Trigger: a fired timer is only returned; queueing its message is not modelled.
- Mnemo.RoundTrip: excludes the least 64-bit integer, whose negation overflows.
- Durations.RoundTrip: `time_t` is unbounded.
- Base64.DoDecode: the table of the source is one slot short of `z`; the model's is total; the variants for URLs are left out.
- Domains.DomMatches: on lists of labels, as `flu_split` makes them; `flon_is_subdomain` and rights are not modelled.
- Scopes.LocalLookup: for plain keys; the variables of a domain are a parameter, and `w.` variables are not modelled.
- bcrypt, the web scripts, taskers and memory ownership.
