# Verification of the OpenWrt configuration tool, the emergency access daemon and the Broadcom driver

A Dafny 4.11 model of the parts of OpenWrt Backfire (10.03.1) with the most
intricate logic, with proofs of what they keep. `dafny verify dfyconfig.toml`
checks the whole project.

- **The optimiser of dependency expressions** (`expr.c`): `ExprCore`,
  `ExprEquality`, `ExprTransform`, `ExprFactor`, `ExprJoin`, `ExprDups`,
  `ExprSettled`, `ExprPrint`, `ExprHeap`. Expressions have three values,
  n < m < y. `ExprCore` defines their meaning; every rewriting pass is related
  to that meaning.
  The passes that take `struct expr **` into one shared tree are modelled with
  paths: a slot of the tree is named by the way to it, so the code's
  comparison of an operand with trees that contain it is the comparison of a
  path with a prefix of it. `ExprHeap` has the passes that overwrite nodes, on
  nodes.
- **The symbol evaluator** (`symbol.c`): `SymbolHash` interns names;
  `SymbolSpec` has the equations of the values and plain recursion;
  `SymbolMeaning` says what their solutions mean symbol by symbol;
  `SymbolSelect` builds the reverse dependencies of select and deselect;
  `SymbolRewrite` says what rewriting the conditions does to the values;
  `SymbolCalc` is the evaluation with the VALID bit as a cache; `SymbolDeps` is
  the search for recursive dependencies.
- **The menu tree and the configuration file** (`menu.c`, `confdata.c`):
  `MenuDeps` has the conditions an entry inherits and the nesting test,
  `MenuTree` the re-nesting of the linked tree and the walk over it, `ConfText`,
  `ConfRead` and `ConfWrite` the file, `ConfSave` the writing along the finished
  tree, and `ConfCycle` saving, loading and calculating again.
- **The ead daemon** (`package/ead`): `AesTables`, `AesField`, `Aes` are the
  block cipher with its tables and in-place key schedules, `AesStandard` and
  `AesExample` the definitions and the example of FIPS 197; `EadNumbers`,
  `EadCrypt` and `EadMeaning` the encrypted messages with padding, hash and IV
  window; `EadChecksum` the Internet checksum and the headers of an answer;
  `EadServer` the session of the server.
- **The Broadcom driver** (`package/broadcom-57xx`): `Autoneg` and
  `AutonegRuns` are auto-negotiation on fibre, `Queue` the ring of packet
  descriptors, `RxFlow` and `RxMeaning` the receive path built on it.

Reading the rows: a method that changes state is proved against a function of
the old state; the lemmas say what that function is for. Memory is never
reclaimed in the model, and allocation of nodes never fails.

## What the proofs show about the code

- `expr_eliminate_dups` is not exact for m. The contradiction rule
  `(FOO||BAR) && (!FOO && !BAR) -> n` loses m, on this expression
  (`ContradictionLosesMod`) and wherever it fires (`ContradictionExact`);
  everything else in the pass is exact. Definite answers never change.
- `expr_trans_compare` under a negation is wrong for m: it reads `!m` as n when
  it compares with n, and as y when it compares with y. So `!FOO != n` gives n
  where FOO is m. The nesting test of `menu_finalize` can therefore put an entry
  below a symbol and still show it without that symbol; the condition of the
  prompt is never to blame for this, only that of the entry; the exact
  condition is `NestedHiddenExactly`.
- A bool that selects with the condition `FOO!=n` selects with FOO only, m where
  FOO is m: the condition of a property is shortened as that of a prompt is.
- `__expr_eliminate_eq` skips every constant operand, not only y and n: the
  flags of a constant text (`SYMBOL_CONST` is the mask 7) include those of y and
  n. So equal lists of constant texts in another order are not found equal.
- A comment in `expr_join_and` gives m as the result of
  `(a!='m') && (a!='n')`; the code gives y, which is right, and the model
  follows it.
- The consistency check of the acknowledged word in `Autoneg8023z` cannot
  fail: the stored word is replaced whenever another one arrives.
- A menu title that reads like a setting (`CONFIG_X is not set`, for a bool or
  tristate X) is taken for one when the file is read back. So is what stands
  behind the 1023rd character of the title's line: the lexer sets no limit
  (`zconf.l:50-59`), `fgets` does, and a tail `CONFIG_X=y` sets X; most other
  tails cost a warning. `TitleHarmless` is the exact condition, and the round
  trip is proved for all files whose titles meet it.
- Saving, loading and calculating again reproduces a configuration whose values
  can be written if and only if no visible number has a range with the lower
  bound above the upper one; with such a range the first calculation after
  loading moves the number to the other bound.
- The comment in `ead_set_key` speaks of 32 bytes of key; the key setup takes 16.
  A new session key does not set the index into the random vector back.
- The sums stored by `ead_send_packet_clone` verify whenever there is anything
  but zeros in the data; lengths and protocol number see to that.

## Model

| member | source | states |
|---|---|---|
| `ExprEquality.YnKeepsValue` | backfire_10.03.1/scripts/config/expr.c:235-316 | constant folding keeps the value of every expression in every environment |
| `ExprEquality.YnNormalises` | backfire_10.03.1/scripts/config/expr.c:235-316 | the result has no y or n as an operand of && or \|\| reached through && and \|\|; it is strictly smaller exactly when there was one |
| `ExprEquality.EliminateOperandsSound` | backfire_10.03.1/scripts/config/expr.c:135-162 | both sides equal a common part combined with what remains of them, in every environment |
| `ExprEquality.ExprEqSound` | backfire_10.03.1/scripts/config/expr.c:193-233 | expressions found equal have equal values in every environment |
| `ExprEquality.ExprEqIsReordering` | backfire_10.03.1/scripts/config/expr.c:193-233 | without constant operands, expr_eq holds exactly for expressions equal up to associativity and commutativity of && and \|\|; so the greedy matching of operands decides equality of multisets |
| `ExprEquality.EliminateOperandsDifference` | backfire_10.03.1/scripts/config/expr.c:135-162 | what remains on each side is the multiset difference of the operands |
| `ExprEquality.EliminateEqDifference` | backfire_10.03.1/scripts/config/expr.c:168-188 | expr_eliminate_eq leaves of two expressions of one operator, or of one and a single operand, the operands that only one of them has |
| `ExprEquality.ConstantsFoldTogether` | backfire_10.03.1/scripts/config/expr.c:143-147 | the restriction is needed: with a constant operand two expressions of the same value but different operands are found equal |
| `ExprEquality.TextConstantsAreSkipped` | backfire_10.03.1/scripts/config/expr.c:143-147 | operands that are constant texts are skipped by the matching, so a reordering of them is not found equal |
| `ExprEquality.EliminateEqConservative` | backfire_10.03.1/scripts/config/expr.c:168-188 | an order between the two reduced expressions holds between the originals as well |
| `ExprTransform.TransformKeepsValue` | backfire_10.03.1/scripts/config/expr.c:640-775 | expr_transform terminates although it transforms its own output, and keeps the three-valued meaning when bools are n or y |
| `ExprTransform.TransformNormalises` | backfire_10.03.1/scripts/config/expr.c:640-775 | the output is in negation normal form: ! stands only before symbols other than y, m and n, and no bool is compared with y, m or n |
| `ExprTransform.TransformFixes` | backfire_10.03.1/scripts/config/expr.c:640-775 | expr_transform is idempotent, and leaves exactly the normal forms alone |
| `ExprTransform.TransBoolKeepsVisibility` | backfire_10.03.1/scripts/config/expr.c:321-345 | on normal forms expr_trans_bool keeps 'n or not n', although it may replace y by m |
| `ExprTransform.TransBoolTestExact` | backfire_10.03.1/scripts/config/expr.c:332-340 | FOO!=n may be replaced by FOO without change of value exactly when FOO is not m |
| `ExprTransform.TransBoolRewrites` | backfire_10.03.1/scripts/config/expr.c:321-345 | every test FOO!=n of a tristate is rewritten wherever it stands, and nothing else is |
| `ExprTransform.TransCompareReads` | backfire_10.03.1/scripts/config/expr.c:881-940 | what the comparison with y or n says in every environment: it compares the value the expression has if !m is read as the answer that is asked for |
| `ExprTransform.TransCompareRight` | backfire_10.03.1/scripts/config/expr.c:881-940 | the comparison is right if and only if reading !m in this way does not change the answer |
| `ExprTransform.TransCompareExact` | backfire_10.03.1/scripts/config/expr.c:881-940 | in particular it is right wherever no negation is applied to m |
| `ExprTransform.TransCompareOneSided` | backfire_10.03.1/scripts/config/expr.c:881-940 | on normal forms 'not n' is never claimed wrongly and n is never missed, with m too |
| `ExprTransform.TransCompareDefinite` | backfire_10.03.1/scripts/config/expr.c:881-940 | a comparison never has the value m |
| `ExprTransform.TransCompareNegatedMod` | backfire_10.03.1/scripts/config/expr.c:912-913 | under ! the rule is two-valued: for one negated symbol it is right if and only if the symbol is not m |
| `ExprTransform.DependsContains` | backfire_10.03.1/scripts/config/expr.c:777-828 | an expression that depends on a symbol contains it |
| `ExprTransform.DependsForcesSymbol` | backfire_10.03.1/scripts/config/expr.c:801-828 | if an expression depends on a symbol and is not n, the symbol is not n |
| `ExprTransform.ValueOfContained` | backfire_10.03.1/scripts/config/expr.c:777-799 | the value depends on no symbol that expr_contains_symbol does not find |
| `ExprFactor.ExtractSound` | backfire_10.03.1/scripts/config/expr.c:852-879 | each input equals the extracted part combined with its remainder |
| `ExprFactor.ExtractEqKeepsBoth` | backfire_10.03.1/scripts/config/expr.c:830-850 | after the final folding, each input still equals its remainder combined with the common part |
| `ExprJoin.JoinExact` | backfire_10.03.1/scripts/config/expr.c:350-506 | the laws of expr_join_or and expr_join_and are exact for y, m and n when bools are n or y |
| `ExprJoin.JoinShape` | backfire_10.03.1/scripts/config/expr.c:350-506 | a joined expression is smaller than the two it replaces and is not of the kind it is put into, and has its negations on symbols if they had |
| `ExprDups.PutElsewhere` | backfire_10.03.1/scripts/config/expr.c:508-549 | overwriting one operand of the shared tree leaves every operand elsewhere as it was |
| `ExprDups.Dups1Exact` | backfire_10.03.1/scripts/config/expr.c:508-549 | the join pass keeps the value for all three values, at every pair of operands of the shared tree |
| `ExprDups.Dups2Sharpens` | backfire_10.03.1/scripts/config/expr.c:560-612 | the contradiction pass, including the comparison of an operand with the whole trees that contain it, never changes a definite value; m may become definite |
| `ExprDups.ContradictionExact` | backfire_10.03.1/scripts/config/expr.c:555-612 | wherever the contradiction rule fires, for every operator, tree and pair of operands, it keeps the value if and only if that is not m |
| `ExprDups.ContradictionLosesMod` | backfire_10.03.1/scripts/config/expr.c:555-638 | the whole of expr_eliminate_dups makes (A\|\|B) && (!A && !B) n in every environment, and its value is m where A\|\|B is m |
| `ExprDups.RoundSharpens` | backfire_10.03.1/scripts/config/expr.c:616-638 | one round of both passes and folding never changes a definite value |
| `ExprDups.JoinPassExact` | backfire_10.03.1/scripts/config/expr.c:616-638 | the join pass with folding is exact for all three values, and so is a round in which the contradiction pass counts nothing |
| `ExprDups.DedupedSharpens` | backfire_10.03.1/scripts/config/expr.c:616-638 | what the rounds end with never changes a definite value |
| `ExprDups.DedupedKeepsDefinite` | backfire_10.03.1/scripts/config/expr.c:616-638 | and changes no value where the operands are y or n |
| `ExprDups.RoundShrinks` | backfire_10.03.1/scripts/config/expr.c:616-638 | a round that counts a transformation leaves a strictly smaller tree after folding |
| `ExprDups.DefiniteOperands` | backfire_10.03.1/scripts/config/expr.c:616-638 | where every symbol is y or n every subexpression is definite, so the value is kept exactly |
| `ExprDups.EliminateDups` | backfire_10.03.1/scripts/config/expr.c:616-638 | the loop terminates with what the rounds end with, a further round finds nothing, and definite values are kept in every environment |
| `ExprSettled.NothingToJoin` | backfire_10.03.1/scripts/config/expr.c:508-549 | in the result no two operands of one && or \|\|, at the top or nested, are equal for expr_eq or fall under a law of joining: s=y and s=m, b and !b in an \|\|; s and s=y, s!=n or s!=m, s=c and s!=d, s!=c and s!=d in an && |
| `ExprSettled.JoinsMergeable` | backfire_10.03.1/scripts/config/expr.c:350-500 | two operands are joined if and only if they are equal or fall under one of these laws, in either order |
| `ExprSettled.NothingContradicts` | backfire_10.03.1/scripts/config/expr.c:555-612 | nor is any operand of the result contradicted by another one or by a whole subtree: the operands of its negation are not all among those of the other |
| `ExprSettled.ContradictsExactly` | backfire_10.03.1/scripts/config/expr.c:566-600 | without constants among the operands the contradiction rule fires if and only if all operands of the negation of the one are operands of the other |
| `ExprSettled.ExtractRemainders` | backfire_10.03.1/scripts/config/expr.c:830-878 | what expr_extract_eq leaves of both expressions is what expr_eliminate_eq leaves |
| `ExprPrint.PrintReadsBack` | backfire_10.03.1/scripts/config/expr.c:1015-1079 | an independent reader, with && before \|\|, gives the printed tokens the value of the expression |
| `ExprPrint.PrintUnambiguous` | backfire_10.03.1/scripts/config/expr.c:983-1079 | two expressions that print the same tokens, distinct symbols having distinct names, have the same value in every environment |
| `ExprPrint.ParenthesesExactly` | backfire_10.03.1/scripts/config/expr.c:983-1078 | parentheses stand around && and \|\| below a negation and around \|\| below &&, and nowhere else |
| `ExprHeap.EliminateYnNode` | backfire_10.03.1/scripts/config/expr.c:235-316 | folding that overwrites nodes in place computes the function of the folding laws, and touches no node outside the tree |
| `ExprHeap.TransBoolNode` | backfire_10.03.1/scripts/config/expr.c:321-345 | the same for expr_trans_bool |
| `ExprHeap.TransformNode` | backfire_10.03.1/scripts/config/expr.c:640-775 | the same for expr_transform, which may return another node and adds nodes |
| `ExprHeap.Distribute` | backfire_10.03.1/scripts/config/expr.c:708-727 | the pointer surgery of de Morgan's laws gives a tree again, with the negated operands |
| `MenuDeps.Conjoin` | backfire_10.03.1/scripts/config/menu.c:217-227 | the condition an entry passes down is the conjunction wherever that is definite |
| `MenuDeps.ConditionsAreSettled` | backfire_10.03.1/scripts/config/menu.c:228-246 | and no two of its operands are equal or can be joined; nor are those of the comparison prepared for the nesting test |
| `MenuDeps.PromptCondition` | backfire_10.03.1/scripts/config/menu.c:228-241 | a prompt is hidden exactly when the conjunction of the two conditions is n, wherever that is definite; shortening FOO!=n does not change this |
| `MenuDeps.NotNo` | backfire_10.03.1/scripts/config/menu.c:256-268 | the expression prepared for the nesting test has the value of the comparison of the condition with n, in every environment |
| `MenuDeps.Nests` | backfire_10.03.1/scripts/config/menu.c:256-281 | the answer of the nesting test |
| `MenuDeps.DependsExactly` | backfire_10.03.1/scripts/config/expr.c:801-828 | an expression depends on a symbol if and only if the symbol, symbol=y, symbol=m or symbol!=n is it or an operand of its && |
| `MenuDeps.ContainsExactly` | backfire_10.03.1/scripts/config/expr.c:777-799 | and contains it if and only if the symbol is an operand or compared somewhere |
| `MenuDeps.NestedIfNeeded` | backfire_10.03.1/scripts/config/menu.c:263-266 | an entry whose condition has such an operand is nested, whatever the condition of the prompt |
| `MenuDeps.NestedExactly` | backfire_10.03.1/scripts/config/menu.c:262-276 | any other entry is nested if and only if it names the symbol and every operand of the prepared condition of the prompt is one of its own, where there are no constants |
| `MenuDeps.NestedIsShownWithParent` | backfire_10.03.1/scripts/config/menu.c:256-281 | an entry that passes the test is not shown unless the symbol of the parent is set or its prompt is visible, wherever the entry's own comparison with n is right; the prompt's condition, in normal form, needs no such assumption |
| `MenuDeps.NestedHiddenExactly` | backfire_10.03.1/scripts/config/menu.c:256-281 | for conditions in normal form the assumption is exact: an entry that passes the test is shown without its parent if and only if its condition is not n, its comparison with n is wrong, the symbol is n and its prompt is hidden |
| `MenuDeps.DefiniteReadRight` | backfire_10.03.1/scripts/config/menu.c:267-268 | that comparison is right wherever no negation is applied to m |
| `MenuDeps.NestedWithoutParent` | backfire_10.03.1/scripts/config/menu.c:256-281 | the assumption is needed: !X && S!=m is nested below S with the prompt condition X=n, and is shown where X is m and S is n |
| `MenuTree.Menus.Finalize` | backfire_10.03.1/scripts/config/menu.c:197-319 | menu_finalize of an entry computes the specified re-nesting of the trees, keeps the preorder of all entries, leaves every parent pointer naming the entry whose list holds the node, finalizes every entry exactly once in preorder, and writes to no other entry |
| `MenuTree.Menus.FinalizeKids` | backfire_10.03.1/scripts/config/menu.c:254-256 | the loop over the children, which may take their following siblings |
| `MenuTree.Menus.NestSiblings` | backfire_10.03.1/scripts/config/menu.c:256-286 | the longest run of following entries that pass the test becomes the list of children, cut out of the sibling list |
| `MenuTree.Menus.TakesFollowers` | backfire_10.03.1/scripts/config/menu.c:256-284 | an entry takes the next one if and only if it has a symbol, no children, and the test holds, and it stops where the test fails |
| `MenuTree.Menus.ParentsArePlaced` | backfire_10.03.1/scripts/config/menu.c:254-314 | the parent of an entry afterwards was its parent before or took it by the test, unless the one that was or did has no prompt text |
| `MenuTree.Menus.Flatten` | backfire_10.03.1/scripts/config/menu.c:291-319 | every entry without prompt text is followed by its children; no entry with children lacks a prompt text afterwards |
| `MenuTree.Menus.Splice` | backfire_10.03.1/scripts/config/menu.c:309-318 | the three link assignments move one list of children behind its parent and keep the preorder |
| `MenuTree.Menus.FinalizedKeepsOrder` | backfire_10.03.1/scripts/config/menu.c:254-319 | the specified re-nesting keeps the preorder of every forest, whatever the tests answer |
| `MenuTree.Menus.FlattenedKeepsOrder` | backfire_10.03.1/scripts/config/menu.c:291-319 | so does the specified flattening |
| `MenuTree.SegRedirect` | backfire_10.03.1/scripts/config/menu.c:282-286 | redirecting the next pointer of the last entry redirects the end of the list and nothing else |
| `MenuTree.SegFrame` | backfire_10.03.1/scripts/config/menu.c:254-319 | a list is unchanged if the links of its entries are |
| `MenuTree.Walk` | backfire_10.03.1/scripts/config/confdata.c:437-520 | the walk without a stack visits every entry exactly once, in preorder, and stops |
| `MenuTree.Climb` | backfire_10.03.1/scripts/config/confdata.c:506-519 | going up from the last entry of a list finds the next entry that is not yet visited |
| `MenuTree.Menus.FinalizeAndWalk` | backfire_10.03.1/scripts/config/menu.c:197-319 | menu_finalize of the root followed by the walk visits all entries in the order they were read |
| `SymbolHash.Table.Lookup` | backfire_10.03.1/scripts/config/symbol.c:657-701 | a name asked for again gives the same symbol; a new one is added; y, m and n are fixed |
| `SymbolHash.Table.Find` | backfire_10.03.1/scripts/config/symbol.c:703-730 | finds the symbol of the name that is no constant, or none |
| `SymbolHash.SameSymbolSameName` | backfire_10.03.1/scripts/config/symbol.c:657-701 | comparing symbols is comparing names and kinds |
| `SymbolSpec.StepLocal` | backfire_10.03.1/scripts/config/symbol.c:270-380 | the value of a symbol depends only on the symbols it uses |
| `SymbolSpec.PlainIsSolution` | backfire_10.03.1/scripts/config/symbol.c:270-380 | on an acyclic graph plain recursion gives values that satisfy every symbol's equation |
| `SymbolSpec.SolutionUnique` | backfire_10.03.1/scripts/config/symbol.c:270-380 | and these values are the only ones |
| `SymbolSpec.SolutionWellFormed` | backfire_10.03.1/scripts/config/symbol.c:270-380 | the calculated values are an environment as the laws of the expressions take it: a bool is never m |
| `SymbolMeaning.VisibilityMeans` | backfire_10.03.1/scripts/config/symbol.c:196-218 | in every solution the visibility is that of the most visible prompt, y for all but tristates, and n if the symbol is deselected |
| `SymbolMeaning.FloorMeans` | backfire_10.03.1/scripts/config/symbol.c:219-229 | the select floor is the value of the select condition, a bool rounded up |
| `SymbolMeaning.ForbiddenIsNo` | backfire_10.03.1/scripts/config/symbol.c:314-315 | a deselected bool or tristate is n and not written |
| `SymbolMeaning.UserValueMeans` | backfire_10.03.1/scripts/config/symbol.c:316-325 | a visible or selected one with a user value has that, up to the visibility and not below the floor, a bool rounded up |
| `SymbolMeaning.DefaultMeans` | backfire_10.03.1/scripts/config/symbol.c:316-333 | without one it has its first default whose condition is not n, up to the visibility and not below the floor; if it is neither visible nor selected it has that default as it is |
| `SymbolMeaning.NoDefaultMeans` | backfire_10.03.1/scripts/config/symbol.c:316-333 | without such a default it has the floor |
| `SymbolMeaning.StringMeans` | backfire_10.03.1/scripts/config/symbol.c:336-357 | a string has the text of the user if it is visible, or that of the first default whose condition is not n, or none |
| `SymbolMeaning.NumberMeans` | backfire_10.03.1/scripts/config/symbol.c:163-194 | a number outside the first range in force has the bound it violates, the lower one first, and otherwise its text |
| `SymbolMeaning.UnboundedMeans` | backfire_10.03.1/scripts/config/symbol.c:163-194 | without a range in force it has its text |
| `SymbolMeaning.TextWritten` | backfire_10.03.1/scripts/config/symbol.c:336-357 | a string or number is written if and only if it is visible or its first default names a symbol |
| `SymbolMeaning.UndefinedMeans` | backfire_10.03.1/scripts/config/symbol.c:291-295 | a symbol without a type has its name as text, is n and is not written |
| `SymbolMeaning.SymbolsMean` | backfire_10.03.1/scripts/config/symbol.c:629-656 | what expressions read of a symbol is its value and its text, the name of the value for a bool or tristate |
| `SymbolMeaning.AcceptedMeans` | backfire_10.03.1/scripts/config/symbol.c:414-431 | a value for a bool or tristate is accepted if and only if the symbol would take it and would take another one for some other choice |
| `SymbolRewrite.StepSame` | backfire_10.03.1/scripts/config/menu.c:223-252 | a symbol does not notice a change of its conditions that keeps their values, or, where only n or not n is asked for, that |
| `SymbolRewrite.TransformKeepsSolutions` | backfire_10.03.1/scripts/config/menu.c:223-252 | bringing all conditions of a graph into normal form, with FOO!=n shortened to FOO for all but tristates, changes no symbol's value |
| `SymbolRewrite.TransformKeepsPlain` | backfire_10.03.1/scripts/config/menu.c:223-252 | nor do the plain values of an acyclic graph change |
| `SymbolRewrite.DedupsKeepDefiniteSolutions` | backfire_10.03.1/scripts/config/menu.c:223-252 | eliminating duplicates as well changes no value where no condition has an operand that is m |
| `SymbolCalc.SymbolTable.CalcValue` | backfire_10.03.1/scripts/config/symbol.c:270-380 | the cached evaluation terminates on every graph, cyclic too, because VALID is set first; on an acyclic one it gives the value of plain recursion |
| `SymbolCalc.SymbolTable.CalcExpr` | backfire_10.03.1/scripts/config/expr.c:942-981 | an expression is evaluated to the value it has under the plain values, symbols being calculated on the way |
| `SymbolCalc.SymbolTable.CalcVisibility` | backfire_10.03.1/scripts/config/symbol.c:196-229 | visibility and select floor are those of plain recursion |
| `SymbolCalc.SymbolTable.CalcDeselected` | backfire_10.03.1/scripts/config/symbol.c:210-213 | the deselect condition is that of plain recursion |
| `SymbolCalc.SymbolTable.CalcTristate` | backfire_10.03.1/scripts/config/symbol.c:308-335 | user value, defaults, select floor, deselect and the bool rule give the plain value |
| `SymbolCalc.SymbolTable.CalcString` | backfire_10.03.1/scripts/config/symbol.c:336-355 | user text or default text gives the plain value |
| `SymbolCalc.SymbolTable.ValidateRange` | backfire_10.03.1/scripts/config/symbol.c:163-194 | a number outside its range is replaced by the nearer bound |
| `SymbolCalc.SymbolTable.CalcAll` | backfire_10.03.1/scripts/config/symbol.c:270-380 | whatever the order and repetition of the questions, every symbol gets its plain value |
| `SymbolCalc.SymbolTable.ClearAllValid` | backfire_10.03.1/scripts/config/symbol.c:382-392 | all cached values are dropped |
| `SymbolCalc.SymbolTable.SetTristate` | backfire_10.03.1/scripts/config/symbol.c:414-470 | a value is accepted exactly within visibility and select floor, and stored |
| `SymbolCalc.SymbolTable.Configure` | backfire_10.03.1/scripts/config/symbol.c:433-470 | an accepted value is the value after recalculation, and symbols that do not depend on the changed one keep theirs |
| `SymbolCalc.SetTakesEffect` | backfire_10.03.1/scripts/config/symbol.c:414-470 | the same for the plain values, for every acyclic graph |
| `SymbolCalc.SameIndependent` | backfire_10.03.1/scripts/config/symbol.c:270-380 | a change of one user value changes no symbol outside its dependents |
| `SymbolDeps.Checker.CheckDeps` | backfire_10.03.1/scripts/config/symbol.c:801-840 | one call of the cycle checker: what it finds, and that CHECK bits are those of the path |
| `SymbolDeps.Checker.CheckAll` | backfire_10.03.1/scripts/config/symbol.c:801-840 | checking all symbols reports a recursion if and only if the followed dependencies contain a cycle; all CHECK bits are clear after each outermost call |
| `SymbolDeps.EdgesAre` | backfire_10.03.1/scripts/config/symbol.c:771-834 | the edges followed from a symbol lead to exactly the symbols named by its select condition, by the conditions of its properties other than choice, select and deselect, and by the values of its defaults unless it is a choice |
| `SymbolDeps.OrderedNotRecursive` | backfire_10.03.1/scripts/config/symbol.c:771-840 | if every symbol is left after those it follows there is no cycle |
| `SymbolDeps.CycleFound` | backfire_10.03.1/scripts/config/symbol.c:812-818 | a symbol met again on the path is on a cycle |
| `ConfText.UnescapeUndoesEscape` | backfire_10.03.1/scripts/config/confdata.c:178-191 | unescaping undoes escaping for every text, whatever follows the closing quote |
| `ConfText.EscapeOpen` | backfire_10.03.1/scripts/config/confdata.c:178-191 | a text that breaks off before its closing quote is refused, wherever it breaks off |
| `ConfText.WriteEscaped` | backfire_10.03.1/scripts/config/confdata.c:481-493 | the two printing loops write the escaped text |
| `ConfText.UnescapeInPlace` | backfire_10.03.1/scripts/config/confdata.c:178-191 | the loop with memmove unescapes the buffer in place, and says whether there was a closing quote |
| `ConfText.UnescapePlain` | backfire_10.03.1/scripts/config/confdata.c:181-187 | characters that need no quoting are passed over |
| `ConfRead.StringValid` | backfire_10.03.1/scripts/config/symbol.c:495-523 | decimal numbers without leading zeros, hexadecimal numbers with or without 0x |
| `ConfRead.IntTexts` | backfire_10.03.1/scripts/config/symbol.c:501-513 | an int is accepted if and only if it is the decimal text of a number, with a minus in front or not |
| `ConfRead.HexTexts` | backfire_10.03.1/scripts/config/symbol.c:514-523 | a hex is accepted if and only if it is one or more hexadecimal digits, with 0x or 0X in front or not |
| `ConfRead.Reader.GetLine` | backfire_10.03.1/scripts/config/confdata.c:116-120 | a line is read up to its newline or the size of the buffer |
| `ConfRead.Reader.ReadBuffer` | backfire_10.03.1/scripts/config/confdata.c:123-207 | one line, in the buffer, has the specified effect on the symbols and the warnings |
| `ConfRead.Reader.ReadFile` | backfire_10.03.1/scripts/config/confdata.c:116-242 | so has the file |
| `ConfWrite.WriteSymbol` | backfire_10.03.1/scripts/config/confdata.c:454-503 | what is printed for a symbol of each type |
| `ConfWrite.WriteEntries` | backfire_10.03.1/scripts/config/confdata.c:437-505 | titles and symbols in the order of the walk; a symbol with several entries is printed once |
| `ConfWrite.PrintedLast` | backfire_10.03.1/scripts/config/confdata.c:437-505 | read from the end: a title adds its four lines, and a symbol its line if it is to be written and was not met before |
| `ConfWrite.LineRestores` | backfire_10.03.1/scripts/config/confdata.c:123-207 | reading the line of a symbol restores its value if and only if the value can be read (a bool is not m, a number looks like one, a text has no newline) and the line fits the buffer |
| `ConfWrite.LineTexts` | backfire_10.03.1/scripts/config/confdata.c:466-502 | the lines as they stand in the file |
| `ConfWrite.HeaderTexts` | backfire_10.03.1/scripts/config/confdata.c:425-432 | the header as it stands in the file |
| `ConfWrite.AssignmentMeans` | backfire_10.03.1/scripts/config/confdata.c:144-207 | what a line CONFIG_X=value does for each type of X: y, n and m by the first character, m for a tristate only; valid numbers; quoted texts; a warning, or nothing, for anything else |
| `ConfWrite.ReadsBack` | backfire_10.03.1/scripts/config/confdata.c:437-505 | reading back what was printed, with harmless titles of any length, restores every printed symbol, leaves the others alone and warns of nothing |
| `ConfWrite.LineIsPieces` | backfire_10.03.1/scripts/config/confdata.c:116-120 | a line without newline characters of any length is read as its pieces of 1023 characters |
| `ConfWrite.QuietExactly` | backfire_10.03.1/scripts/config/confdata.c:123-207 | a piece is passed over in silence in every state exactly if it is quiet: a comment that unsets no symbol, or an assignment to no symbol whose type takes it; every other piece leaves a warning or a known symbol behind |
| `ConfWrite.TitleHarmless` | backfire_10.03.1/scripts/config/confdata.c:116-207 | a title of any length changes nothing for the reader, in every state and before every rest of the file, if and only if all its pieces are quiet |
| `ConfWrite.ShortTitleOk` | backfire_10.03.1/scripts/config/confdata.c:123-144 | for a title that fits a line this means that it does not begin with CONFIG_, the name of a bool or tristate, a space and 'is not set' |
| `ConfWrite.TitleIsTaken` | backfire_10.03.1/scripts/config/confdata.c:123-144 | a title that does is taken for the setting |
| `ConfWrite.TitleTailIsTaken` | backfire_10.03.1/scripts/config/confdata.c:116-207 | a title of 1021 other characters and CONFIG_X=y sets the bool or tristate X to y when the file is read back |
| `ConfWrite.VersionOk` | backfire_10.03.1/scripts/config/confdata.c:425-432 | the version in the header is harmless if its line fits |
| `ConfWrite.NewlineIrrelevant` | backfire_10.03.1/scripts/config/confdata.c:123-207 | the newline at the end of a line makes no difference |
| `ConfWrite.SaveAndLoad` | backfire_10.03.1/scripts/config/confdata.c:379-520 | printing with the header and then reading, through both loops, ends with exactly the printed values |
| `ConfSave.SaveMenus` | backfire_10.03.1/scripts/config/confdata.c:379-520 | finalizing the menus, writing along the finished tree and reading back: however the entries are nested, every symbol to be written that has an entry anywhere gets its value back, and no other symbol is set |
| `ConfCycle.TristateAgain` | backfire_10.03.1/scripts/config/symbol.c:309-335 | a bool or tristate whose user value is its own value, if it was written, has that value again |
| `ConfCycle.ClampAgain` | backfire_10.03.1/scripts/config/symbol.c:163-194 | clamping a clamped number leaves it alone if and only if the bounds are in order |
| `ConfCycle.ReloadKeepsSolution` | backfire_10.03.1/scripts/config/symbol.c:270-380 | the values of a configuration satisfy the equations for the loaded user values as well if and only if every visible number has its bounds in order |
| `ConfCycle.BoundsOutOfOrder` | backfire_10.03.1/scripts/config/symbol.c:163-194 | with the bounds 5 and 3 the user value 4 gives 5, which is saved, and 5 gives 3 after loading |
| `ConfCycle.SavedKeepable` | backfire_10.03.1/scripts/config/confdata.c:325-374 | the check after loading keeps every saved value of a visible symbol |
| `ConfCycle.ForgetKeepsSolution` | backfire_10.03.1/scripts/config/confdata.c:353-355 | forgetting the value of a symbol that is not visible changes no symbol's value |
| `ConfCycle.StringWithinRange` | backfire_10.03.1/scripts/config/symbol.c:538-563 | the text is valid and between the bounds in force |
| `ConfCycle.ForgottenExactly` | backfire_10.03.1/scripts/config/confdata.c:350-365 | the check forgets the value of an invisible symbol and that of a text or number that is not valid or not the value the symbol has, and no other |
| `ConfCycle.CheckSymbols` | backfire_10.03.1/scripts/config/confdata.c:325-374 | the loop after reading forgets exactly the values of invisible symbols and those out of range, and no calculated value changes |
| `ConfCycle.SaveAndReload` | backfire_10.03.1/scripts/config/confdata.c:317-520 | a calculated configuration that is written along the finalized menus, read, checked and calculated again in any order has the values it had |
| `SymbolSelect.BuildReverse` | backfire_10.03.1/scripts/config/menu.c:233-251 | the conditions of the links to one symbol, prepared and joined, with what the conditions as written say about them |
| `SymbolSelect.BoolPullsWithTest` | backfire_10.03.1/scripts/config/menu.c:239-246 | a bool that selects with the condition FOO!=n selects with less than is written if and only if it is y and FOO is m, because the condition is shortened to FOO |
| `SymbolSelect.ReverseAtMost` | backfire_10.03.1/scripts/config/menu.c:242-251 | the joined expression is the strongest of the selectors, each up to its condition |
| `SymbolSelect.SelectedAtLeast` | backfire_10.03.1/scripts/config/symbol.c:219-325 | in every solution a selected symbol that is not deselected has at least the value of each selector up to its condition |
| `SymbolSelect.SelectedExactly` | backfire_10.03.1/scripts/config/symbol.c:309-335 | without prompt and default it has exactly the strongest of them, a bool rounded up |
| `SymbolSelect.DeselectedIsNo` | backfire_10.03.1/scripts/config/symbol.c:210-315 | a symbol is deselected if and only if a deselecting symbol and its condition are y, and is n then |
| `AesTables.SboxInverse` | backfire_10.03.1/package/ead/src/aes.c:742-774 | the two byte tables are inverse to each other |
| `AesStandard.SboxIsAlgebraic` | backfire_10.03.1/package/ead/src/aes.c:71-136 | every S-box entry is the affine map of the inverse in the field, 0 for 0 (section 5.1.1 of FIPS 197), with multiplication built from the shift and reduction of section 4.2.1 |
| `AesStandard.XtimeReduces` | backfire_10.03.1/package/ead/src/aes.c:57-69 | that shift replaces what is shifted out by 1b |
| `AesStandard.SubWordBytes` | backfire_10.03.1/package/ead/src/aes.c:791-799 | SubBytes replaces every byte by its S-box entry |
| `AesStandard.ShiftRowsMoves` | backfire_10.03.1/package/ead/src/aes.c:943-985 | row r of the state moves r places to the left (section 5.1.2) |
| `AesStandard.MixColumnTimes` | backfire_10.03.1/package/ead/src/aes.c:57-62 | a mixed column is the product with the matrix of rows 02 03 01 01 (section 5.1.3) |
| `AesStandard.InvMixColumnTimes` | backfire_10.03.1/package/ead/src/aes.c:64-68 | and an inversely mixed one with that of rows 0e 0b 0d 09 (section 5.3.3) |
| `AesExample.ExampleCipher` | backfire_10.03.1/package/ead/src/aes.c:870-992 | the example of appendix B of FIPS 197: with its key the cipher makes 3925..0b32 of 3243..0734, and the inverse cipher undoes it |
| `AesField.InvMixUndoesMix` | backfire_10.03.1/package/ead/src/aes.c:57-69 | the inverse MixColumn matrix undoes the MixColumn matrix |
| `AesField.InvMixLinear` | backfire_10.03.1/package/ead/src/aes.c:57-69 | the inverse MixColumn transformation is linear |
| `Aes.DecryptUndoesEncrypt` | backfire_10.03.1/package/ead/src/aes.c:926-1059 | the Equivalent Inverse Cipher of section 5.3.5 of FIPS 197 undoes the cipher, for every schedule and block |
| `Aes.InvRoundsTrace` | backfire_10.03.1/package/ead/src/aes.c:994-1059 | after every round it stands where the cipher stood |
| `Aes.EncColumnIsRound` | backfire_10.03.1/package/ead/src/aes.c:941-985 | one column of table lookups is SubBytes, ShiftRows, MixColumns and AddRoundKey |
| `Aes.DecColumnIsRound` | backfire_10.03.1/package/ead/src/aes.c:1009-1040 | the same for the inverse tables |
| `Aes.KeyCoreIsSchedule` | backfire_10.03.1/package/ead/src/aes.c:882-889 | the table form of the key step is that of section 5.2 of FIPS 197 |
| `Aes.Encrypt` | backfire_10.03.1/package/ead/src/aes.c:926-992 | the unrolled rounds compute the cipher of section 5.1 of FIPS 197; input and output may be the same buffer |
| `Aes.Decrypt` | backfire_10.03.1/package/ead/src/aes.c:994-1059 | the unrolled rounds compute the Equivalent Inverse Cipher; input and output may be the same buffer |
| `Aes.KeySetupEnc` | backfire_10.03.1/package/ead/src/aes.c:870-895 | the loop computes the key expansion of section 5.2 of FIPS 197 |
| `Aes.KeySetupDec` | backfire_10.03.1/package/ead/src/aes.c:897-924 | the order of the round keys is reversed and all but the first and last are transformed |
| `Aes.RoundTrip` | backfire_10.03.1/package/ead/src/aes.c:870-1059 | for every key, enciphering and deciphering in place restores every byte |
| `EadNumbers.NumberUndone` | backfire_10.03.1/package/ead/src/ead-crypt.c:125-126 | a number in network byte order is read back |
| `EadCrypt.DecAllUndoesEncAll` | backfire_10.03.1/package/ead/src/ead-crypt.c:133-159 | deciphering block by block undoes enciphering block by block |
| `EadCrypt.GenuineMessage` | backfire_10.03.1/package/ead/src/ead-crypt.c:114-179 | a message from the sender with the same key is accepted if and only if its IV is in the window; then payload, length and IV are those sent |
| `EadMeaning.AcceptedExactly` | backfire_10.03.1/package/ead/src/ead-crypt.c:139-179 | any message is accepted if and only if its length is not 0 and, if positive, a multiple of 64, its padding is below 64, its IV is in the window of 128 above the last one, and its first 20 plain bytes are the digest of the rest with these bytes zero; the IV moves on even if only the digest is wrong, and the returned length is the length without padding and header |
| `EadMeaning.HashIsFold` | backfire_10.03.1/package/ead/src/ead-crypt.c:98-111 | the digest goes through the blocks of 64 bytes from the first to the last |
| `EadMeaning.BlocksApart` | backfire_10.03.1/package/ead/src/ead-crypt.c:132-157 | each block of 16 bytes is enciphered and deciphered by itself, where it stands |
| `EadMeaning.DigestWords` | backfire_10.03.1/package/ead/src/ead-crypt.c:128-129 | the digest is stored word for word, highest byte first |
| `EadMeaning.NumberIsBigEndian` | backfire_10.03.1/package/ead/src/ead-crypt.c:124-125 | and so is a number |
| `EadMeaning.IvStep` | backfire_10.03.1/package/ead/src/ead-crypt.c:86-96 | an IV is the last one, plus one, plus two bits of the random vector |
| `EadCrypt.ArrivalsAreDelivered` | backfire_10.03.1/package/ead/src/ead-crypt.c:73-179 | in-order messages with losses: every message that arrives is delivered with its payload while no more than 31 in a row were lost |
| `EadCrypt.NoIvWraps` | backfire_10.03.1/package/ead/src/ead-crypt.c:87-97 | the IVs of the messages, lost ones included, strictly increase in steps of 1 to 4 |
| `EadCrypt.ChannelDelivers` | backfire_10.03.1/package/ead/src/ead-crypt.c:48-97 | from the state ead_set_key leaves, for the first (2^32-2^24-128)/4 messages no IV wraps, and every message that arrives is delivered while no more than 31 in a row were lost |
| `EadCrypt.ThirtyTwoLossesReject` | backfire_10.03.1/package/ead/src/ead-crypt.c:73-97 | with steps of 4, the message after 32 losses in a row is refused |
| `EadCrypt.AcceptedIvsIncrease` | backfire_10.03.1/package/ead/src/ead-crypt.c:73-84 | whatever arrives, the IVs of accepted messages are strictly increasing |
| `EadCrypt.NeverTwice` | backfire_10.03.1/package/ead/src/ead-crypt.c:140-179 | no message is accepted twice |
| `EadCrypt.Channel.SetKey` | backfire_10.03.1/package/ead/src/ead-crypt.c:48-70 | both schedules, the IVs below 2^24 and the random vector come from the session key |
| `EadCrypt.Channel.CheckRxIv` | backfire_10.03.1/package/ead/src/ead-crypt.c:73-84 | an IV is accepted within the window above the last one |
| `EadCrypt.Channel.GetTxIv` | backfire_10.03.1/package/ead/src/ead-crypt.c:87-97 | the next IV, from two bits of the random vector |
| `EadCrypt.Channel.HashMessage` | backfire_10.03.1/package/ead/src/ead-crypt.c:99-111 | the hash of all blocks with the hash field zero, which stays zero |
| `EadCrypt.Channel.EncryptMessage` | backfire_10.03.1/package/ead/src/ead-crypt.c:114-137 | padding, IV, hash and enciphering in place |
| `EadCrypt.Channel.DecryptMessage` | backfire_10.03.1/package/ead/src/ead-crypt.c:140-179 | length, padding, IV and hash checks in this order, in place |
| `EadChecksum.Chksum` | backfire_10.03.1/package/ead/src/ead.c:270-298 | chksum is the one's complement sum of section 1 of RFC 1071, odd byte padded |
| `EadChecksum.FoldIs` | backfire_10.03.1/package/ead/src/ead.c:270-298 | that sum is the residue modulo 65535, 0 only for data of zeros |
| `EadChecksum.Chains` | backfire_10.03.1/package/ead/src/ead.c:329-330 | it can be continued over pieces if the first has an even length |
| `EadChecksum.Filled` | backfire_10.03.1/package/ead/src/ead.c:319-333 | filling in the complement makes the data sum to 0xffff if and only if there is anything but zeros in them |
| `EadChecksum.SendPacketClone` | backfire_10.03.1/package/ead/src/ead.c:301-335 | addresses and ports are exchanged, the IP header and the UDP pseudo header with its datagram sum to 0xffff, the message is not changed |
| `EadChecksum.PseudoBytes` | backfire_10.03.1/package/ead/src/ead.c:301-335 | the pseudo header: the addresses, protocol 17 and the length of the datagram |
| `EadServer.HandleKeeps` | backfire_10.03.1/package/ead/src/ead.c:341-378 | every packet keeps the session sound: the SRP library is used only with what it needs, and a command runs only in a verified session with the key of that session |
| `EadServer.CommandsAreAuthenticated` | backfire_10.03.1/package/ead/src/ead.c:591-651 | in every run a command is started only after user name, prime, public key and a verified proof, in this order and with no other user name since |
| `EadServer.RunReached` | backfire_10.03.1/package/ead/src/ead.c:591-651 | the state says which packets the current session has had |
| `EadServer.Session.DoSetState` | backfire_10.03.1/package/ead/src/ead.c:341-378 | the transitions of set_state |
| `EadServer.Session.ParseMessage` | backfire_10.03.1/package/ead/src/ead.c:591-651 | checks, handlers and transition for one packet |
| `EadServer.Refused` | backfire_10.03.1/package/ead/src/ead.c:591-651 | a packet for another instance, out of its turn, of no known type or too short changes nothing and is not answered |
| `EadServer.HonestSession` | backfire_10.03.1/package/ead/src/ead.c:591-651 | from any state, a user with a password who gives the right answers in turn is answered each time and gets the command started in a session of its own |
| `EadServer.FailedSession` | backfire_10.03.1/package/ead/src/ead.c:341-378 | without password, library session, key or proper command the session does not go on, and a wrong proof ends it |
| `EadServer.PingAnswered` | backfire_10.03.1/package/ead/src/ead.c:591-651 | a ping is answered in every state |
| `Autoneg.AutonegInfo.Autoneg8023z` | backfire_10.03.1/package/broadcom-57xx/src/autoneg.c:122-436 | one call takes the specified transition, with the fall-throughs |
| `Autoneg.AutonegInfo.Match` | backfire_10.03.1/package/broadcom-57xx/src/autoneg.c:130-190 | the match flags and counters |
| `Autoneg.AutonegInfo.constructor` | backfire_10.03.1/package/broadcom-57xx/src/autoneg.c:97-115 | AutonegInit: full duplex and both pause bits advertised, auto-negotiation enabled |
| `Autoneg.LinkOkIsSafe` | backfire_10.03.1/package/broadcom-57xx/src/autoneg.c:122-436 | in every run LINK_OK is entered only more than 3 x 12000 us after the latest AN_ENABLE and after three consecutive polls since then returned one nonzero word |
| `Autoneg.RunExplained` | backfire_10.03.1/package/broadcom-57xx/src/autoneg.c:122-436 | what every state of every run tells about the polls and the time since the latest AN_ENABLE |
| `AutonegRuns.RunSends` | backfire_10.03.1/package/broadcom-57xx/src/autoneg.c:223-290 | in every run the state says what is sent: 0 while restarting, then the advertised word, then that with the acknowledge bit until idle is detected, then nothing |
| `AutonegRuns.RunFirstPage` | backfire_10.03.1/package/broadcom-57xx/src/autoneg.c:216-358 | in every run no page counts as loaded after a restart, and the toggle bits are those of the first page |
| `AutonegRuns.RunLearns` | backfire_10.03.1/package/broadcom-57xx/src/autoneg.c:324-358 | from COMPLETE_ACK on, the abilities of the partner are those of a word of one of the polls, without reserved bits |
| `AutonegRuns.ZerosRestart` | backfire_10.03.1/package/broadcom-57xx/src/autoneg.c:292-432 | in every run, three polls in a row that return 0 make ACK_DETECT, COMPLETE_ACK and IDLE_DETECT start again |
| `AutonegRuns.StepReports` | backfire_10.03.1/package/broadcom-57xx/src/autoneg.c:195-432 | completion is reported in LINK_OK and nowhere else, and LINK_OK stays; a failure leaves the state, and in COMPLETE_ACK_INIT means a reserved bit |
| `AutonegRuns.RunReports` | backfire_10.03.1/package/broadcom-57xx/src/autoneg.c:195-432 | in every run the completion flag is set in LINK_OK only |
| `AutonegRuns.Disabled` | backfire_10.03.1/package/broadcom-57xx/src/autoneg.c:195-260 | without auto-negotiation the machine ends after one poll and sends nothing new |
| `AutonegRuns.WordBits` | backfire_10.03.1/package/broadcom-57xx/src/autoneg.h:191-198 | the bits of a config word |
| `Autoneg.StepCounted` | backfire_10.03.1/package/broadcom-57xx/src/autoneg.c:148-187 | the ability match means three equal words in a row |
| `Autoneg.StepTimely` | backfire_10.03.1/package/broadcom-57xx/src/autoneg.c:195-432 | the link timer is waited for in three states |
| `Autoneg.SteadyPartnerLinks` | backfire_10.03.1/package/broadcom-57xx/src/autoneg.c:122-436 | a partner that keeps sending one acknowledged, valid word is linked within 36012 polls, with the abilities of that word |
| `Autoneg.SteadyPartnerLinksInTime` | backfire_10.03.1/package/broadcom-57xx/src/autoneg.c:122-436 | and no later than 36000 us and twelve times the largest gap between polls |
| `Autoneg.StepProgress` | backfire_10.03.1/package/broadcom-57xx/src/autoneg.c:195-432 | every poll of such a partner brings LINK_OK nearer, and LINK_OK stays |
| `Autoneg.AckAlwaysConsistent` | backfire_10.03.1/package/broadcom-57xx/src/autoneg.c:296-312 | the comparison of the acknowledged word with the matched one cannot fail, because the stored word follows every poll |
| `Autoneg.AdvertisedIsUnderstood` | backfire_10.03.1/package/broadcom-57xx/src/autoneg.c:263-273 | the advertised word has no invalid bit, and a partner reads from it what was advertised |
| `Queue.Ring.constructor` | backfire_10.03.1/package/broadcom-57xx/src/queue.h:86-93 | an empty ring for so many entries |
| `Queue.Ring.Full` | backfire_10.03.1/package/broadcom-57xx/src/queue.h:103-111 | full exactly at the capacity |
| `Queue.Ring.Empty` | backfire_10.03.1/package/broadcom-57xx/src/queue.h:120-124 | empty exactly without entries |
| `Queue.Ring.GetEntryCnt` | backfire_10.03.1/package/broadcom-57xx/src/queue.h:146-150 | the counter is the number of entries |
| `Queue.Ring.PushHead` | backfire_10.03.1/package/broadcom-57xx/src/queue.h:161-183 | appends at the head, or refuses if full |
| `Queue.Ring.PushTail` | backfire_10.03.1/package/broadcom-57xx/src/queue.h:192-217 | prepends at the tail, or refuses if full |
| `Queue.Ring.PopHead` | backfire_10.03.1/package/broadcom-57xx/src/queue.h:225-254 | removes the entry at the head, or gives none |
| `Queue.Ring.PopTail` | backfire_10.03.1/package/broadcom-57xx/src/queue.h:262-285 | removes the entry at the tail, or gives none |
| `Queue.Ring.GetHead` | backfire_10.03.1/package/broadcom-57xx/src/queue.h:294-316 | the entry at a distance from the head |
| `Queue.Ring.GetTail` | backfire_10.03.1/package/broadcom-57xx/src/queue.h:324-341 | the entry at a distance from the tail |
| `Queue.SlicePutTail` | backfire_10.03.1/package/broadcom-57xx/src/queue.h:192-217 | writing before the tail of a ring prepends to its contents, also where it wraps around |
| `RxFlow.Driver.InitializeUmPackets` | backfire_10.03.1/package/broadcom-57xx/src/b57um.c:4469-4503 | each free descriptor gets a buffer or goes to the out-of-buffer queue; no push finds its queue full |
| `RxFlow.InitManyKeeps` | backfire_10.03.1/package/broadcom-57xx/src/b57um.c:4477-4503 | after the start every free descriptor has a buffer and every waiting one has none |
| `RxMeaning.StartMeans` | backfire_10.03.1/package/broadcom-57xx/src/b57um.c:4477-4503 | the i-th descriptor gets the buffer of the i-th call, or waits if that call got none |
| `RxFlow.Driver.IndicateRxPackets` | backfire_10.03.1/package/broadcom-57xx/src/b57um.c:5039-5183 | each received packet is dealt with as specified; no push finds its queue full |
| `RxFlow.IndicateKeeps` | backfire_10.03.1/package/broadcom-57xx/src/b57um.c:5039-5183 | every descriptor moves to exactly one of the queues, every buffer has one owner, good packets are passed up in the order they arrived |
| `RxMeaning.IndicateAccounts` | backfire_10.03.1/package/broadcom-57xx/src/b57um.c:5053-5110 | the good packets are passed up in order, those that are too long without a tag are freed, and all but the good ones are counted as errors |
| `RxMeaning.FateMeans` | backfire_10.03.1/package/broadcom-57xx/src/b57um.c:5064-5110 | which packets these are |
| `RxMeaning.TaskletQueues` | backfire_10.03.1/package/broadcom-57xx/src/b57um.c:5053-5183 | with a tasklet every descriptor waits, in the order of arrival, with its buffer if the packet was faulty and without one otherwise |
| `RxMeaning.PollingQueues` | backfire_10.03.1/package/broadcom-57xx/src/b57um.c:5053-5183 | without one it is free again with its old buffer or a new one, or waits without any if there was no memory |
| `RxFlow.Driver.ReplenishRxBuffers` | backfire_10.03.1/package/broadcom-57xx/src/b57um.c:5224-5271 | waiting descriptors become free as specified; no push finds its queue full |
| `RxFlow.ReplenishKeeps` | backfire_10.03.1/package/broadcom-57xx/src/b57um.c:5224-5271 | descriptors leave the queue from its head; the result says memory was short only if the last call for it failed, and then the descriptor is back in its place; without a limit and a shortage the queue is empty |
| `RxMeaning.ReplenishMeans` | backfire_10.03.1/package/broadcom-57xx/src/b57um.c:5224-5271 | the descriptors at the head become free in order, no more than the limit with new buffers, and it ends early only at the limit or when memory is short |
| `RxFlow.Driver.FreeRemainingRxBufs` | backfire_10.03.1/package/broadcom-57xx/src/b57um.c:5458-5476 | the out-of-buffer queue is emptied as specified |
| `RxFlow.FreeAllKeeps` | backfire_10.03.1/package/broadcom-57xx/src/b57um.c:5458-5476 | every waiting descriptor is free and without a buffer afterwards, and its buffer was freed once |
| `RxMeaning.EndFrees` | backfire_10.03.1/package/broadcom-57xx/src/b57um.c:5458-5476 | every buffer of a waiting descriptor is freed, and no other |
| `RxFlow.RunKeeps` | backfire_10.03.1/package/broadcom-57xx/src/b57um.c:5039-5271 | in every run of driver and chip all descriptors stay in exactly one place, those that can receive have a buffer, and no buffer has two owners |
| `RxFlow.Driver.Perform` | backfire_10.03.1/package/broadcom-57xx/src/b57um.c:5039-5271 | the methods called in the order of the actions compute the run |
| `RxFlow.Drive` | backfire_10.03.1/package/broadcom-57xx/src/tigon3.c:3524-3562 | from the creation of the descriptors on, in every run, none is lost, and buffers are as RunKeeps says |

## Left out

- Choices: `sym_calc_choice`, choice values in `sym_set_tristate_value`, in the reader and in `menu_finalize`. The evaluator and the file have symbols that are neither choice nor choice value.
- SymbolCalc.SymbolTable.CalcVisibility: the early return for choice values is left out with the choices.
- SymbolCalc.SymbolTable.CalcTristate: so is the branch for choice values.
- SymbolCalc.SymbolTable.CalcAll: the symbols asked for are no choices.
- SymbolCalc.SymbolTable.ClearAllValid: the recalculation of `modules_sym` afterwards is left out; the modules symbol does not limit tristates in this version of the code. The CHANGED flag is left out too.
- E_CHOICE and E_RANGE nodes, and comparison with m, in the expression rewriter: the code gives them no value.
- In-place form of `__expr_eliminate_eq`, `expr_extract_eq` and `expr_eliminate_dups1/2`: modelled on values and paths. What is not captured is which node keeps its address.
- `expr_join_or` and `expr_join_and` return fresh expressions, and are functions.
- The parser, its input and the check of properties in `sym_check_prop`: entries, symbols and properties are arbitrary well-formed values.
- MenuTree.Menus.Finalize: the answers of the nesting test are any function of the two entries, of which `MenuDeps.NestingTest` on their conditions is one; choices are left out. The reverse dependencies are built in `SymbolSelect`, from the links to one symbol in the order the menus name them.
- SymbolCalc.SymbolTable.CalcValue: a symbol of type S_OTHER keeps its cached value, as `sym_clear_all_valid` skips it; the select floor of a deselected symbol is not recalculated, as in the code. Choices are left out.
- SymbolCalc.SymbolTable.SetTristate: the branch for choice values is left out with the choices.
- ConfCycle.SaveAndReload: choices are left out, and a written number must look like a number; an empty one is written, and read with a warning, as `LineRestores` says. The counts of unsaved values are left out.
- ConfCycle.BoundsOutOfOrder: says what the first calculation after loading gives; the check after loading then forgets the value, as it is out of every range.
- SymbolDeps.Checker.CheckAll: deselect conditions and range bounds are not followed, as in the code, so a cycle through them is not reported.
- strtol and sprintf in the range check are parameters of the evaluator.
- File names, backups, environment variables and the time in the header of the file: the version and the time are parameters.
- ConfRead.Reader.ReadFile: for a last line that is a single # without newline, the code compares bytes left in the buffer by earlier lines; the model takes the line as a comment.
- ConfRead.Reader.ReadBuffer: what a line does to a choice is left out.
- EadCrypt.Channel.DecryptMessage: the length field is at most the size of the buffer. The code does not check this before it deciphers, and what it reads behind a shorter buffer is not modelled.
- SHA-1 is a parameter: any start value and any function of value and block.
- The tables Te0 and Td0 are given by the equations in the comment of `aes.c`; S and Si are written out. Only the variant AES_SMALL_TABLES is modelled.
- EadServer.Session.ParseMessage: prepare_password, the SRP library, decryption and starting a command give answers that are part of the packet. What `handle_send_a` copies when the length is negative, and the contents of the replies, are not modelled.
- Sockets, packet capture, signals, the keepalive loop of a command and the bridge handling of ead.
- Autoneg.AutonegInfo.Autoneg8023z: the caller sets the time before each poll; the retries in tigon3.c are not modelled. Next pages end in failure, as in the code.
- RxFlow.Driver.IndicateRxPackets: statistics, checksum flags, priorities and VLAN handover are left out; what decides where a descriptor goes is kept. Nothing arrives while the loop runs.
- MM_IndicateTxPackets, the TSO branch, DMA mapping, interrupts and locks: Queue.Ring is used by one party at a time.
- The chip and the LM_ functions appear only as taking the descriptor at the head of the free queue and giving one back with a packet.
