# Verification of the SDR platform's configuration engine, power sequencer and checksums

A Dafny model of the parts of the repository that are hardest to get right by reading, with proofs of what they are
for. The main part is the Kconfig engine of `trunk/scripts/config`: a small compiler over a three-valued logic
(n < m < y, AND is the minimum, OR the maximum, NOT is 2 - x). Beside it stand the power sequencer of the edge510 PIC
and four smaller programs, each a fast or stateful form against a simple definition. `dafny verify dfyconfig.toml`
checks everything.

## What is modelled

- `Expressions`, `Equality`, `Normalisation`, `Joining`, `Duplicates`, `Visibility`: the expressions and every rewrite
  of expr.c that menus are built with. An assignment is well typed when a boolean symbol is n or y, the text of a bool
  or tristate symbol is the letter of its value, and constant symbols have their own names as text; text and undefined
  symbols may have any text. All statements about values are for every well-typed assignment.
- `ExprNodes`, `EqualityNodes`: the same rewrites on nodes linked by pointers, overwritten and reused in place. Each
  method is proved to leave a tree without shared nodes that stands for what the functions above define. `Duplicates`
  has its own in-place form: both slots of expr_eliminate_dups1 and 2 point into one tree, and are paths into it.
- `MenuTree`: menu_finalize's restructuring of the menu tree on next, list and parent pointers, and the cursor walk of
  conf_write and conf_write_defconfig.
- `SymbolValues`: sym_calc_value with its VALID flag against a recursive definition. `Choice`: choices and the user's
  pick. `DependencyCheck`: the search for recursive dependencies.
- `Escaping`, `ConfigFile`: the .config file, written and read back; `ConfigLaws`: what reading does with any text.
  `SaveReload`: saving calculated values, reading them as the user's and calculating again.
- `PowerSequencer`, `PowerLaws`: the polled state machine. A main-loop pass, a timer tick, a host request and a reset
  of the PIC are atomic steps with arbitrary inputs; invariants are proved over all runs, and what each state, trip,
  request, button push and watchdog leads to.
- `InternetChecksum` (RFC 1071) and `ChecksumRange` (when its sum stays in int), `Crc10`, `BlockList` and `BlockRuns`
  (blocked MACs of the bridge-loop daemon), `Calibration` (the sorted list and its early-exit search).

## Findings

The model follows the code. Where the code does not do what its comments or its purpose suggest, the exact condition
is proved:

- expr_eliminate_dups2 may turn m into n or y; it keeps a value exactly when that is not m (`CutExactUnlessM`,
  `CutLosesM`). Definite values are never changed (`EliminateDups`).
- expr_trans_bool's comment speaks of a boolean FOO, the code tests for a tristate one. The rewrite is right on
  negation normal form only (`TransBoolUnderNot`).
- A comment in expr_join_and gives `a='m'` for `(a!='m') && (a!='n')`; the code gives `a='y'`, which is right.
- expr_trans_compare with n takes a symbol by its text: m counts as y, and so does an undefined or text symbol, whose
  value is n. It is right exactly where that makes no difference (`TransCompareReads`). An entry can therefore be nested
  below a prompt that is hidden while the entry is visible: if a negated symbol is m (`NestedUnderHidden`), or if an
  undefined symbol is used as a value and compared (`NestedUnderUndefined`). Otherwise it cannot (`NestedIsVisible`).
- expr_depends_symbol takes a string symbol compared with y for a dependency, although its value is always n
  (`DependsSymbolImplies`).
- A saved configuration does not always come back: a tristate that is y by default, with a prompt visible at m only,
  is read back as m. It comes back if and only if there is no such symbol (`SaveThenReload`).
- On graphs without choices sym_check_deps reports a recursive dependency if and only if there is a cycle, but never
  returns a symbol to conf_parse, which therefore counts no error (`DependencyCheck.Checker.Sweep`).
- A member of a choice that is invisible but has a default of its own can be y beside the picked one (`ExactlyOne`).
- The wait in PST_SLP_CR_DELAY can be started again by a glitch on PMU_SLP (`ExpiryEndsWait`), and with a PWRGD that
  flickers two bounded waits can follow each other for ever (`WaitIsBounded`, `FlickerWaits`).
- The 3000 ms of off time are kept between two resets of the PIC only: the first pass after a reset turns PSON on
  (`RunOffTime`, `ResetTurnsOn`).
- The sum of in_cksum is an int. Whether any octets can take it past 2^31 - 1 depends on lengths and alignments only
  (`FitsIff`): nothing up to 65027 octets can, 65028 can. nextproto4_cksum is safe for data at even addresses, and at
  odd ones up to 65032 octets (`PseudoHeaderFits`).
- cal_lookup finds nothing if the first entry for the gain is farther than 2^40 Hz, even if a later one is near
  (`Calibration.CalList.Lookup`).

## Model

| member | source | states |
|---|---|---|
| `Expressions.SomeEnvIsWellTyped` | trunk/scripts/config/symbol.c:14-30 | there are well-typed assignments, so the statements about all of them are not empty |
| `Equality.EliminateYnEval` | trunk/scripts/config/expr.c:231-312 | folding y and n out of an expression keeps its value in every well-typed assignment |
| `Equality.EliminateCommonPart` | trunk/scripts/config/expr.c:130-162 | both expressions lose the same part: one value c, joined to each result, gives each original back |
| `Equality.EliminateCommonOrder` | trunk/scripts/config/expr.c:130-162 | an order between the two results carries over to the two originals |
| `Equality.ExprEqSound` | trunk/scripts/config/expr.c:189-229 | if expr_eq says equal, the two expressions have the same tristate value in every well-typed assignment |
| `Equality.ExprEqReflexive` | trunk/scripts/config/expr.c:189-229 | every expression is equal to itself for expr_eq, although chains are compared by cancelling operands in order |
| `Equality.EliminateEqImplies` | trunk/scripts/config/expr.c:164-184 | if the second operand is y after the elimination, the first one was never above the second |
| `Equality.OperandEliminated` | trunk/scripts/config/expr.c:164-184 | when it must come out so: an operand of the first chain that is equal to the second expression, a chain of the other kind included, leaves the neutral symbol of it, y for AND and n for OR |
| `Equality.FirstEliminated` | trunk/scripts/config/expr.c:164-184 | the same for the first expression and an operand of the second chain |
| `Equality.NothingEliminated` | trunk/scripts/config/expr.c:164-184 | two expressions without a common operand are only cleared of constants |
| `Equality.CommonExhausts` | trunk/scripts/config/expr.c:130-162 | after the recursion no operand but y and n is equal to one on the other side |
| `Equality.CommonStays` | trunk/scripts/config/expr.c:130-162 | an operand without an equal one on the other side stays |
| `Equality.PartEliminated` | trunk/scripts/config/expr.c:164-184 | a whole chain that is part of a longer one is eliminated by it, if no operand before it is equal to one of its own |
| `Equality.PartFound` | trunk/scripts/config/expr.c:130-162 | and from the other side: a chain is matched by any chain it is part of, operand by operand, if nothing before that part stands in the way |
| `Equality.ExprEqLeaf` | trunk/scripts/config/expr.c:189-229 | outside chains expr_eq is identity |
| `Equality.ExprEqSwapped` | trunk/scripts/config/expr.c:189-229 | a chain of two is equal to the one with its operands swapped |
| `EqualityNodes.CopyNodes` | trunk/scripts/config/expr.c:62-97 | the copy shares no node with the original and stands for the same expression |
| `EqualityNodes.ExprEqNodes` | trunk/scripts/config/expr.c:189-229 | on pointer trees, working on copies, the answer is that of the specification and neither tree changes |
| `EqualityNodes.EliminateEqNodes` | trunk/scripts/config/expr.c:164-184 | in place: the two slots end with two disjoint, well-formed trees for the two results of the specification, made of their own old nodes and new ones |
| `EqualityNodes.EliminateCommonNodes` | trunk/scripts/config/expr.c:130-162 | the same for the recursion through the operand slots of both trees |
| `ExprNodes.EliminateYnNodes` | trunk/scripts/config/expr.c:231-312 | in place: the root node stays, no node is shared afterwards, and the tree stands for the folded expression |
| `ExprNodes.TransBoolNodes` | trunk/scripts/config/expr.c:317-341 | in place: no pointer changes and the tree stands for the rewritten expression |
| `ExprNodes.TransformNodes` | trunk/scripts/config/expr.c:636-771 | in place, with the nodes of De Morgan steps reused: a well-formed unshared tree for the specified normal form; the recursion ends by weight |
| `ExprNodes.TransformComparison` | trunk/scripts/config/expr.c:652-697 | a comparison of a boolean with y, m or n becomes the specified symbol, negation or constant in the same node |
| `ExprNodes.TransformNot` | trunk/scripts/config/expr.c:698-766 | the eight rules for a negation whose operand is transformed already |
| `ExprNodes.DeMorgan` | trunk/scripts/config/expr.c:716-733 | a negated chain becomes the dual chain of two negations, reusing the node of the chain |
| `Normalisation.TransformIsNnf` | trunk/scripts/config/expr.c:636-771 | the rewriting equals a one-pass structural definition of negation normal form |
| `Normalisation.NnfCompose` | trunk/scripts/config/expr.c:636-771 | pushing negations twice is pushing their parity once |
| `Normalisation.TransformNormalises` | trunk/scripts/config/expr.c:636-771 | the result is in negation normal form, an expression is left alone exactly when it is in that form, and a second call changes nothing |
| `Normalisation.NnfEval` | trunk/scripts/config/expr.c:636-771 | the normal form under a parity of negations has the value, or the negated value, of the expression |
| `Normalisation.TransformEval` | trunk/scripts/config/expr.c:636-771 | the tristate value is the same in every well-typed assignment, m included |
| `Joining.JoinOrEval` | trunk/scripts/config/expr.c:346-408 | every rule of expr_join_or gives the exact maximum of the two operands, m included |
| `Joining.JoinAndEval` | trunk/scripts/config/expr.c:410-502 | every rule of expr_join_and gives the exact minimum of the two operands, m included |
| `Joining.JoinEval` | trunk/scripts/config/expr.c:346-502 | a merged operand is worth the two operands it replaces |
| `Joining.JoinShape` | trunk/scripts/config/expr.c:346-502 | a merged operand is no chain of the same kind, no larger than the first operand, and stays in normal form |
| `Joining.AndOfComparisons` | trunk/scripts/config/expr.c:454-485 | which pairs are merged, and into what: in an AND two inequalities of a tristate leave the third value, an equality absorbs an inequality or contradicts it |
| `Joining.AndOfSymbol` | trunk/scripts/config/expr.c:439-452 | a symbol and its own comparison in an AND, either way round |
| `Joining.OrOfComparisons` | trunk/scripts/config/expr.c:374-393 | in an OR two equalities of a tristate exclude the third value, and no other pair is merged |
| `Joining.OrOfSymbol` | trunk/scripts/config/expr.c:394-398 | a boolean or its negation is y, a tristate or its negation is not merged |
| `Joining.JoinNeedsSymbol` | trunk/scripts/config/expr.c:346-502 | operands that are not equal are merged only if they are about the same bool or tristate symbol |
| `Joining.ExtractEqSplits` | trunk/scripts/config/expr.c:848-875 | what is moved to the collected expression is exactly what both sides lose |
| `Joining.ExtractCommonFactors` | trunk/scripts/config/expr.c:826-846 | each side equals the common part joined to what is left of it |
| `Joining.ExtractExhausts` | trunk/scripts/config/expr.c:848-875 | everything the two chains have in common is extracted |
| `Duplicates.RestEval` | trunk/scripts/config/expr.c:504-554 | the value of a chain splits into one operand and the rest of the chain, whatever is put in the operand's place |
| `Duplicates.EliminateYnShrinks` | trunk/scripts/config/expr.c:612-634 | expr_eliminate_yn makes an expression strictly smaller exactly when it holds a foldable constant |
| `Duplicates.JoinProgress` | trunk/scripts/config/expr.c:504-554 | replacing two operands by their merger keeps the value of the whole chain exactly and leaves something to fold |
| `Duplicates.NestedProgress` | trunk/scripts/config/expr.c:504-610 | progress inside an operand is progress of the whole chain: the refinement is a congruence |
| `Duplicates.CutProgress` | trunk/scripts/config/expr.c:556-610 | removing an operand that contradicts another one changes at most m into a definite value |
| `Duplicates.CutExactUnlessM` | trunk/scripts/config/expr.c:556-610 | that removal keeps the value if and only if the value was not m |
| `Duplicates.CutLosesM` | trunk/scripts/config/expr.c:556-610 | two tristate symbols for which the removal turns m into n |
| `Duplicates.CutGivesY` | trunk/scripts/config/expr.c:556-610 | and two for which the removal from an OR turns m into y |
| `Duplicates.MustContradict` | trunk/scripts/config/expr.c:573-608 | when an operand must be removed: wherever its negation in normal form is part of the other operand, if nothing before that part is in the way |
| `Duplicates.Rewriter.Dups1` | trunk/scripts/config/expr.c:504-554 | the recursion on two slots of one tree: the value is kept exactly, and an unchanged counter means that no two operands can be merged |
| `Duplicates.Rewriter.JoinOperands` | trunk/scripts/config/expr.c:520-552 | the same for two operands that are no chains of this kind |
| `Duplicates.Rewriter.Dups2` | trunk/scripts/config/expr.c:556-610 | the value is refined, and an unchanged counter means that no operand contradicts another |
| `Duplicates.Rewriter.SplitSecond` | trunk/scripts/config/expr.c:556-572 | the case where the second slot is a chain |
| `Duplicates.Rewriter.CutOperand` | trunk/scripts/config/expr.c:573-608 | the case where the first slot holds an operand |
| `Duplicates.NoJoinMeans` | trunk/scripts/config/expr.c:504-554 | at the fixed point no two different operands can be merged or are equal for expr_eq, in the chain and inside its operands |
| `Duplicates.NoCutMeans` | trunk/scripts/config/expr.c:556-610 | at the fixed point no operand that is a chain of the other kind contradicts any other part of its chain, nor does any inside it |
| `Duplicates.EliminateDups` | trunk/scripts/config/expr.c:612-634 | the loop ends; in every well-typed assignment a y or n stays as it is; the result is not larger, is a fixed point of both passes, and keeps normal form; an expression that is a fixed point already is returned as it is |
| `Visibility.TransBoolKeepsNotNo` | trunk/scripts/config/expr.c:317-341 | on normal form the rewrite keeps "not n" in both directions and never raises a value |
| `Visibility.TransBoolDone` | trunk/scripts/config/expr.c:317-341 | no tristate symbol is compared with n afterwards, and an expression without such a comparison stays |
| `Visibility.TransBoolNnf` | trunk/scripts/config/expr.c:317-341 | the rewrite keeps normal form |
| `Visibility.TransBoolUnderNot` | trunk/scripts/config/expr.c:317-341 | outside normal form: below a negation the rewrite keeps "not n" if and only if the symbol is not m |
| `Visibility.VisibilityTransBool` | trunk/scripts/config/menu.c:306-311 | for a symbol that is not tristate, rewriting all prompt conditions leaves the calculated visibility unchanged |
| `Visibility.TransCompareReads` | trunk/scripts/config/expr.c:877-936 | for every expression and assignment: compared with y or n, the answer is that of the expression with every symbol taken by its text, and it is right if and only if that makes no difference |
| `Visibility.TransCompareExact` | trunk/scripts/config/expr.c:877-936 | it makes none if nothing negated is m and every symbol used as a value has the letter of its value as text |
| `Visibility.AsBoolMeans` | trunk/scripts/config/expr.c:877-936 | with m taken as y an expression is not n exactly where it is not n, if nothing negated is m; on normal form it implies so |
| `Visibility.TransCompareSymbol` | trunk/scripts/config/expr.c:877-936 | for one symbol, negated or not, exactly when value and text make the rewrite right; for a negated bool or tristate symbol that is when it is not m |
| `Visibility.TransCompareSound` | trunk/scripts/config/expr.c:877-936 | on normal form, and if no symbol that stands for itself is n with another text, an expression that is said not to be n is not |
| `Visibility.DependsSymbolImplies` | trunk/scripts/config/expr.c:797-824 | an expression that depends on a symbol for expr_depends_symbol is n wherever value and text of the symbol are, that is, for a bool or tristate symbol, wherever it is n |
| `Visibility.DependsIsNeeds` | trunk/scripts/config/expr.c:797-824 | it depends if and only if an operand of its AND chain is the symbol, or the symbol compared with y, with m, or unequal with n |
| `Visibility.ContainsIsMentions` | trunk/scripts/config/expr.c:773-795 | expr_contains_symbol finds exactly the symbols mentioned anywhere |
| `Visibility.Condition` | trunk/scripts/config/menu.c:322-334 | the chain of the three rewrites keeps the condition and ends without duplicates |
| `Visibility.TestOfAnd` | trunk/scripts/config/menu.c:322-334 | comparing and transforming a conjunction gives the conjunction of the two results |
| `Visibility.IncludedIsYes` | trunk/scripts/config/menu.c:331-341 | if the condition of the entry contains the outer one among others, whatever those are, and nothing in the two can be simplified, the elimination gives y |
| `Visibility.MergedNotNested` | trunk/scripts/config/menu.c:331-341 | where something can be, it need not: with C!=n beside the outer C!=m the two are merged, and the outer one remains |
| `Visibility.NestedReads` | trunk/scripts/config/menu.c:331-341 | nesting by elimination, in every assignment: taken by their texts, the condition of the entry implies that of the outer prompt |
| `Visibility.NestedAsBool` | trunk/scripts/config/menu.c:331-341 | and by their values, with m taken as y, if no symbol whose text is not its value is both used as a value and compared |
| `Visibility.NestedIsVisible` | trunk/scripts/config/menu.c:331-341 | then an entry nested by elimination is visible only where the outer prompt is, if nothing negated in its condition is m |
| `Visibility.NestedUnderHidden` | trunk/scripts/config/menu.c:331-341 | with an m it need not be: an entry that needs not C, and A or D, passes the test below the prompt of A with `C=n`, yet with C=m, D=y and A=n it is visible and neither A nor that prompt is |
| `Visibility.NestedUnderUndefined` | trunk/scripts/config/menu.c:331-341 | nor with an undefined symbol F: an entry that needs `F!=n`, and A or D, passes the test below the prompt of A that needs F; with D=y and A=n it is visible and neither A nor that prompt is |
| `Visibility.NestingTest` | trunk/scripts/config/menu.c:322-341 | the whole test: it nests only for the two reasons of the code, and in every assignment a nested entry needs the symbol set, or its condition implies the outer one, by text and, under the condition of NestedAsBool, by value; an entry that mentions the symbol and whose condition contains the outer one is nested, under the condition of IncludedIsYes |
| `Visibility.PropagateDep` | trunk/scripts/config/menu.c:294-311 | a propagated dependency is n where parent or own condition is n, not n where both are y, and stays in normal form; it is the plain conjunction if that has no duplicates, and is absent only if both are |
| `MenuTree.Climb` | trunk/scripts/config/confdata.c:809-814 | going up and on reaches the next pending entry of the enclosing menus |
| `MenuTree.Next` | trunk/scripts/config/confdata.c:801-814 | one move of the cursor takes exactly one entry off the front of what is left to visit |
| `MenuTree.Walk` | trunk/scripts/config/confdata.c:673-728 | the loop over list, next and parent pointers visits the preorder, each entry once; conf_write has the same loop |
| `MenuTree.AbsorbOne` | trunk/scripts/config/menu.c:326-346 | one following sibling is finalized and taken in: the preorder, the set of entries and the pointers of both lists are kept |
| `MenuTree.CutOff` | trunk/scripts/config/menu.c:347-351 | the sibling list is cut behind the last nested entry: two well-formed lists with the right parents |
| `MenuTree.AbsorbLongest` | trunk/scripts/config/menu.c:321-346 | the siblings taken over all pass the test, and the first one left does not |
| `MenuTree.NestingSettles` | trunk/scripts/config/menu.c:319-353 | after nesting, at every depth: an entry with a symbol and no children of its own has exactly children that pass its test, and its next sibling does not; without a symbol it has none; the order is unchanged |
| `MenuTree.NestKeeps` | trunk/scripts/config/menu.c:319-353 | an entry with children of its own, or without a symbol, takes over no sibling |
| `MenuTree.AbsorbSiblings` | trunk/scripts/config/menu.c:321-353 | all siblings that pass the test, whichever those are, become children in order; test and result are those of the definition that AbsorbLongest is about |
| `MenuTree.FinalizeChildren` | trunk/scripts/config/menu.c:319-320 | every child is finalized once, in order, while the list below it is being restructured |
| `MenuTree.LiftOne` | trunk/scripts/config/menu.c:395-404 | the children of an entry without prompt move up behind it, with their parent pointers |
| `MenuTree.LiftTopKeeps` | trunk/scripts/config/menu.c:395-404 | an entry with a prompt keeps its very child list, one without has none afterwards, and its children get its parent |
| `MenuTree.FlatParent` | trunk/scripts/config/menu.c:355-405 | over the whole recursion: the parent of an entry is the nearest entry with a prompt above it in the tree after nesting, or else the top |
| `MenuTree.LiftChildren` | trunk/scripts/config/menu.c:355-405 | after the loop exactly the entries without a prompt have given up their children, to their own parent and directly behind themselves; every other child list and the preorder are unchanged |
| `MenuTree.Finalize` | trunk/scripts/config/menu.c:262-405 | the whole recursion, for every outcome of the nesting test: same preorder, same entries, every parent pointer names the nearest entry with a prompt above, every entry below handled exactly once |
| `MenuTree.FinalizeThenWalk` | trunk/scripts/config/menu.c:262-405 | from the parsed tree to the walk of conf_write: the walk visits exactly the parse order, and the parents are the nearest entries with a prompt |
| `SymbolValues.ComputeLocal` | trunk/scripts/config/symbol.c:292-428 | the value of a symbol depends on no other symbols than those in its properties |
| `SymbolValues.SpecSolves` | trunk/scripts/config/symbol.c:292-428 | on an acyclic configuration the recursive definition satisfies the equations of sym_calc_value for all symbols at once |
| `SymbolValues.SolutionIsSpec` | trunk/scripts/config/symbol.c:292-428 | and it is the only solution |
| `SymbolValues.LogicLaw` | trunk/scripts/config/symbol.c:334-382 | of any solution: a bool or tristate is the maximum of what selects it and, with a visible prompt and a user value, the minimum of the two, or else the minimum of value and condition of the first default whose condition is not n, or else n; m is promoted for what acts as a bool |
| `SymbolValues.TextLaw` | trunk/scripts/config/symbol.c:383-397 | a text symbol has the user value, else the text of the symbol that the first such default names, else none; and when it is written |
| `SymbolValues.VisibleLaw` | trunk/scripts/config/symbol.c:187-203 | the visibility is the best prompt, and m counts as y for all but a tristate with modules |
| `SymbolValues.DependencyLaw` | trunk/scripts/config/symbol.c:204-225 | direct and reverse dependency, m promoted |
| `SymbolValues.WriteLaw` | trunk/scripts/config/symbol.c:342-354 | a bool or tristate is written if and only if it is visible, selected or has a default that applies, and is not set from the environment |
| `SymbolValues.LetterLaw` | trunk/scripts/config/symbol.c:748-771 | only a tristate with modules is ever m, and the text of a bool or tristate is the letter of its value |
| `SymbolValues.UndefinedLaw` | trunk/scripts/config/symbol.c:318-321 | an undefined symbol is n and has its own name as text |
| `SymbolValues.SymbolTable.EvalExpr` | trunk/scripts/config/expr.c:938-977 | evaluation through the memo gives the value under the definition, and only extends what is calculated |
| `SymbolValues.SymbolTable.Ask` | trunk/scripts/config/symbol.c:292-303 | a symbol asked for is valid afterwards and, unless a cycle is in progress, has the defined value |
| `SymbolValues.SymbolTable.CalcVisible` | trunk/scripts/config/symbol.c:193-203 | the best visible prompt, m promoted for symbols that cannot be m |
| `SymbolValues.SymbolTable.CalcDirDep` | trunk/scripts/config/symbol.c:206-215 | the direct dependency, y if there is none |
| `SymbolValues.SymbolTable.CalcRevDep` | trunk/scripts/config/symbol.c:216-225 | the reverse dependency |
| `SymbolValues.SymbolTable.GetDefault` | trunk/scripts/config/symbol.c:115-125 | the first default whose condition is not n, and that condition |
| `SymbolValues.SymbolTable.CalcLogic` | trunk/scripts/config/symbol.c:334-382 | bool and tristate: user value, default, select and promotion give the defined value and write flag |
| `SymbolValues.SymbolTable.CalcText` | trunk/scripts/config/symbol.c:383-397 | string, int and hex: user value or default symbol gives the defined text and write flag |
| `SymbolValues.SymbolTable.CalcValue` | trunk/scripts/config/symbol.c:292-428 | it ends on every graph, cyclic ones included, because VALID is set first; each call leaves the memo consistent |
| `SymbolValues.SymbolTable.ClearAllValid` | trunk/scripts/config/symbol.c:430-440 | only the constants stay valid |
| `SymbolValues.SymbolTable.CalcAll` | trunk/scripts/config/symbol.c:292-428 | in whatever order symbols are asked for, on an acyclic configuration each gets its defined value |
| `SymbolValues.CalcSymbols` | trunk/scripts/config/symbol.c:292-440 | from cleared flags to the values of the recursive definition, for every order of asking |
| `Choice.LivePicks` | trunk/scripts/config/symbol.c:234-290 | a visible choice that is not optional, or that the user wants, and has a visible member, is y and decides for a visible member |
| `Choice.DeadIsNo` | trunk/scripts/config/symbol.c:226-402 | any other choice, an optional one the user has not asked for included, is n, decides for no member, and none of its members is visible or y |
| `Choice.KnownLaw` | trunk/scripts/config/symbol.c:260-276 | a choice still counts as set by the user exactly if it did and, where it is live, he has set all its visible members |
| `Choice.PickIs` | trunk/scripts/config/symbol.c:234-290 | the pick is the user's if visible, else that of the first visible default with a visible member, else the first visible member |
| `Choice.ExactlyOne` | trunk/scripts/config/symbol.c:333-336 | exactly the pick is y among the visible members, an invisible one is y exactly if its own default is not n; so the pick is the only one if and only if no invisible member has such a default |
| `Choice.PickedStays` | trunk/scripts/config/symbol.c:481-515 | a visible member made the user's pick is what the next recalculation decides for |
| `Choice.ChoiceGroup.CalcPick` | trunk/scripts/config/symbol.c:260-290 | sym_calc_choice gives the defined pick, keeps the user flag only while all visible members are set, and resets the choice if none is visible |
| `Choice.ChoiceGroup.Default` | trunk/scripts/config/symbol.c:234-258 | sym_choice_default |
| `Choice.ChoiceGroup.CalcChoice` | trunk/scripts/config/symbol.c:292-402 | the choice's own value, re-entered through the visibility of its members |
| `Choice.ChoiceGroup.CalcMember` | trunk/scripts/config/symbol.c:292-382 | a member gets its defined value once, and nothing calculated before changes |
| `Choice.ChoiceGroup.CalcAll` | trunk/scripts/config/symbol.c:292-428 | members asked for in any order all get their defined values |
| `Choice.ChoiceGroup.SetTristateValue` | trunk/scripts/config/symbol.c:462-515 | when it succeeds, and the whole new state of choice and members in each case |
| `Choice.ChoiceGroup.PickMember` | trunk/scripts/config/symbol.c:481-515 | setting a member to y succeeds exactly if it is y or visible; then, in any order of asking, it is y and every other visible member n |
| `DependencyCheck.PathClosesCycle` | trunk/scripts/config/symbol.c:1192-1224 | meeting a symbol of the current search path closes a cycle |
| `DependencyCheck.OrderedHasNoCycle` | trunk/scripts/config/symbol.c:1192-1224 | symbols listed after everything they depend on are on no cycle |
| `DependencyCheck.Checker.CheckExprDeps` | trunk/scripts/config/symbol.c:1090-1118 | the recursion over an expression stops at the first report and otherwise has checked every symbol in it |
| `DependencyCheck.Checker.CheckSymDeps` | trunk/scripts/config/symbol.c:1121-1153 | the reverse dependency and all properties of a symbol |
| `DependencyCheck.Checker.CheckDeps` | trunk/scripts/config/symbol.c:1192-1224 | CHECK marks exactly the search path, CHECKED symbols only grow, and the search ends; a symbol of the path that is met again is returned at once, as the last one reported, up to the call that it belongs to |
| `DependencyCheck.Checker.Visit` | trunk/scripts/config/symbol.c:1210-1221 | a symbol met for the first time is on the path while its dependencies are searched, and is done after all of them |
| `DependencyCheck.Checker.Sweep` | trunk/scripts/config/zconf.y:529-534 | a sweep reports a recursive dependency if and only if the graph has a cycle; no call ever returns a symbol to the caller, so no error is counted |
| `PowerSequencer.LoadIsComplement` | firmware/edge510-pic/pic.c:829-846 | the two byte writes of pst_start load 0xffff - 2*msec for every msec up to 32767 |
| `PowerSequencer.StepKeeps` | firmware/edge510-pic/pic.c:861-1076 | every loop pass, timer tick, host request and reset keeps the invariant, whatever the inputs |
| `PowerSequencer.RunKeeps` | firmware/edge510-pic/pic.c:861-1076 | the invariant holds after every run, with any number of resets in it |
| `PowerSequencer.RunIsSequenced` | firmware/edge510-pic/pic.c:861-1076 | in every run COREPWR implies CLKPWRGD implies RSMRST released, the state is one of the sixteen, and every waiting state has the timer running |
| `PowerSequencer.RunOffTime` | firmware/edge510-pic/pic.c:861-1033 | no run turns PSON on again before 3000 ms of continuous off time, if it was on since the last reset of the PIC |
| `PowerSequencer.ResetTurnsOn` | firmware/edge510-pic/pic.c:1126-1362 | the first pass after a reset turns PSON on, however short it was off, and waits for PWRGD |
| `PowerSequencer.RunIsPowered` | firmware/edge510-pic/pic.c:861-1076 | if PWRGD reads 1 only while PSON is 1, RSMRST released also implies PSON |
| `PowerSequencer.TimerExpires` | firmware/edge510-pic/pic.c:829-860 | a running timer expires exactly after the ticks left to its overflow |
| `PowerSequencer.ExpiryEndsWait` | firmware/edge510-pic/pic.c:861-1076 | an expired wait is left by the next pass, except in one case, stated exactly, which starts the timer again |
| `PowerSequencer.WaitIsBounded` | firmware/edge510-pic/pic.c:829-1076 | over runs without reset, host request or that case, no pass goes on with a wait of msec milliseconds after 2 * msec ticks |
| `PowerSequencer.FlickerWaits` | firmware/edge510-pic/pic.c:912-931 | under a flickering PWRGD the sequencer can stay in PST_WAIT_PWRGD and PST_PWRGD_STABLE for any number of ticks |
| `PowerSequencer.Firmware.PstStart` | firmware/edge510-pic/pic.c:829-846 | the register writes end with the loaded, running timer |
| `PowerSequencer.Firmware.RunPower` | firmware/edge510-pic/pic.c:861-1076 | power_fsm on registers and globals does the step of the state machine |
| `PowerSequencer.Firmware.MainPass` | firmware/edge510-pic/pic.c:1344-1362 | one pass of the main loop does the step of the state machine |
| `PowerSequencer.Firmware.HostRequest` | firmware/edge510-pic/pic.c:669-684 | a power request over i2c |
| `PowerSequencer.Firmware.RunSwdt` | firmware/edge510-pic/pic.c:503-530 | the watchdog step |
| `PowerSequencer.Firmware.RunButton` | firmware/edge510-pic/pic.c:1082-1124 | the debounced button step |
| `PowerSequencer.Firmware.Start` | firmware/edge510-pic/pic.c:1126-1336 | main before its loop: all pins off, TMR1 stopped, the first state PST_TURN_ON |
| `PowerSequencer.RunFirmware` | firmware/edge510-pic/pic.c:1344-1362 | any sequence of events run by the firmware, resets included, ends in a sequenced, and under the power-good assumption powered, state |
| `PowerLaws.TripTurnsOff` | firmware/edge510-pic/pic.c:1044-1061 | a pass that begins in any state from PST_RSMRST_DELAY to PST_SLP_CR_DELAY without a pending request and sees THMTRIP, or PWRGD gone, ends in PST_TURN_OFF |
| `PowerLaws.TripSwitchesOff` | firmware/edge510-pic/pic.c:861-1076 | over runs: and the next pass, whatever it reads and whatever comes before it but a reset, has every pin off |
| `PowerLaws.OffPass` | firmware/edge510-pic/pic.c:870-880 | the pass in PST_TURN_OFF has every pin off and starts the minimal off time, whatever it reads |
| `PowerLaws.PowerOffRequest` | firmware/edge510-pic/pic.c:669-684 | two passes after a request to power off every pin is off, from every state |
| `PowerLaws.ColdResetRequest` | firmware/edge510-pic/pic.c:669-684 | a cold reset takes RSMRST and the power good signals away and leaves the supplies on |
| `PowerLaws.WarmResetRequest` | firmware/edge510-pic/pic.c:669-684 | a warm reset asserts PICRST and changes no other pin |
| `PowerLaws.RequestApplied` | firmware/edge510-pic/pic.c:1344-1362 | whatever the state, a requested one is entered at the end of the next pass |
| `PowerLaws.ComesUp` | firmware/edge510-pic/pic.c:899-975 | with good signals the sequencer runs from PST_TURN_ON to PST_RUNNING in two passes, 100, 10, a pass, 5 and 150 ms, with every supply and signal on |
| `PowerLaws.StepEnds` | firmware/edge510-pic/pic.c:882-992 | what follows each timed state, with which pin, and for how long |
| `PowerLaws.StepHolds` | firmware/edge510-pic/pic.c:882-992 | before its time is up such a state changes nothing |
| `PowerLaws.SignalMissed` | firmware/edge510-pic/pic.c:912-956 | a PWRGD or PMU_SLP that does not come in time turns the power off, with the reason recorded |
| `PowerLaws.SignalAwaited` | firmware/edge510-pic/pic.c:912-956 | until then they are waited for, and a PWRGD that goes away again is waited for anew |
| `PowerLaws.CycleReturns` | firmware/edge510-pic/pic.c:870-911 | a power cycle comes back by itself: every pin off, 3000 ms, and PSON on again |
| `PowerLaws.StaysOff` | firmware/edge510-pic/pic.c:890-898 | without a button push or a pending cycle it stays off over any number of passes and ticks |
| `PowerLaws.RunsOn` | firmware/edge510-pic/pic.c:997-1004 | a running system with nothing to do stays as it is |
| `PowerLaws.ButtonResets` | firmware/edge510-pic/pic.c:997-1003 | a button push in PST_RUNNING makes a cold reset |
| `PowerLaws.WatchdogFires` | firmware/edge510-pic/pic.c:503-530 | the watchdog fires with exactly the tick that uses up its time: a cold reset the first time, the power off after that |
| `PowerLaws.WatchdogSet` | firmware/edge510-pic/pic.c:687-691 | once set by the host it asks for a cold reset first, whatever was before |
| `PowerLaws.WatchdogInRunning` | firmware/edge510-pic/pic.c:997-1004 | in PST_RUNNING the watchdog overrides the button |
| `PowerLaws.SleepStarts` | firmware/edge510-pic/pic.c:1064-1067 | PMU_SLP gone in PST_RUNNING starts the sleep delay with all pins unchanged |
| `PowerLaws.SleepEnds` | firmware/edge510-pic/pic.c:1019-1033 | PMU_SLP back in time means a reset, or a power cycle if the host asked for one; otherwise the power goes off |
| `InternetChecksum.OnesSumIsFold` | trunk/package/nfq-example/src/in_cksum.c:53-145 | the end-around-carry sum of RFC 1071, section 1, is the plain sum folded to sixteen bits |
| `InternetChecksum.TotalShifted` | trunk/package/nfq-example/src/in_cksum.c:95-102 | shifting the sum by eight bits accounts for words read one octet off (RFC 1071, section 2) |
| `InternetChecksum.Reduce` | trunk/package/nfq-example/src/in_cksum.c:54-54 | REDUCE folds any sum in the range of int |
| `InternetChecksum.SumWords` | trunk/package/nfq-example/src/in_cksum.c:107-120 | the unrolled loops add the words they read, and the sum stays in the range of int if its end does |
| `InternetChecksum.SumChunk` | trunk/package/nfq-example/src/in_cksum.c:74-137 | one chunk, of any length and alignment, turns the sum and the pending octet into what is defined of them, if the sum in front of its first reduction is an int |
| `InternetChecksum.AfterSettled` | trunk/package/nfq-example/src/in_cksum.c:73-138 | whatever the range: after any chunks the unbounded running sum and the saved octet stand for all octets so far |
| `InternetChecksum.EndChunk` | trunk/package/nfq-example/src/in_cksum.c:121-137 | the byte swap is undone and an odd octet is kept for the next chunk |
| `InternetChecksum.InCksum` | trunk/package/nfq-example/src/in_cksum.c:57-148 | for every list of chunks whose running sum stays in int, odd and empty ones included, at any addresses: the RFC 1071 checksum of the concatenated octets |
| `ChecksumRange.FitsIff` | trunk/package/nfq-example/src/in_cksum.c:73-122 | the sum stays in int for all octets of given chunk lengths and alignments if and only if a computation on those alone says so |
| `ChecksumRange.WorstDecides` | trunk/package/nfq-example/src/in_cksum.c:73-122 | it does for all octets if and only if it does for octets of 0xff |
| `ChecksumRange.AfterBounded` | trunk/package/nfq-example/src/in_cksum.c:73-138 | at most so many words of 0xffff, and exactly so many if all bits are set |
| `ChecksumRange.FitsByLength` | trunk/package/nfq-example/src/in_cksum.c:73-122 | every list of up to 65027 octets stays in int, and of up to 65537 if each chunk starts at an address as even as the octets before it |
| `ChecksumRange.OneMoreOctet` | trunk/package/nfq-example/src/in_cksum.c:73-122 | 65027 is tight: chunks of 2, 1 and 65025 octets, the last two at odd addresses, take the sum out of int |
| `ChecksumRange.OneMoreWord` | trunk/package/nfq-example/src/in_cksum.c:73-122 | so is 65537, up to one octet: chunks of 2 and 65536 octets at even addresses |
| `ChecksumRange.PseudoHeaderFits` | trunk/package/nfq-example/src/print-ip.c:135-166 | a pseudo header of 12 octets and up to 65515 octets of data always fit with the data at an even address, and at an odd one if and only if the data has at most 65032 octets |
| `InternetChecksum.ChecksumByteOrder` | trunk/package/nfq-example/src/in_cksum.c:53-149 | a little-endian machine computes the byte-swapped checksum of a big-endian one |
| `InternetChecksum.ShouldBeVerifies` | trunk/package/nfq-example/src/in_cksum.c:156-200 | storing in_cksum_shouldbe's result in the aligned field makes the packet check to 0 |
| `Crc10.RemainderIsLinear` | trunk/package/nfq-example/src/checksum.c:117-129 | from a zero start the remainder is linear over XOR of messages of equal length |
| `Crc10.MultiplesVanish` | trunk/package/nfq-example/src/checksum.c:94-115 | adding any multiple of the generator 0x633 to a message does not change its remainder |
| `Crc10.MultipleLeavesZero` | trunk/package/nfq-example/src/checksum.c:94-115 | every multiple of the generator leaves 0 |
| `Crc10.TableStepDivides` | trunk/package/nfq-example/src/checksum.c:117-129 | one table look-up does eight steps of long division, whatever stands above the ten bits |
| `Crc10.InitTable` | trunk/package/nfq-example/src/checksum.c:94-115 | the nested loops fill the table with the remainders of all octets |
| `Crc10.VerifyCrc10` | trunk/package/nfq-example/src/checksum.c:117-129 | for messages of any length and any start: the register is the remainder of bit-by-bit division |
| `Crc10.StoreAdds` | trunk/package/nfq-example/src/checksum.c:117-129 | writing c over ten trailing zero bits adds c to the remainder |
| `Crc10.StoredRemainderChecks` | trunk/package/nfq-example/src/checksum.c:117-129 | a message whose last ten bits were zero checks to 0 if and only if they now hold its own remainder |
| `BlockList.CountIsCardinality` | trunk/package/abrloop/src/abrloop.c:335-348 | the bit count is the number of set positions |
| `BlockList.CntPorts` | trunk/package/abrloop/src/abrloop.c:337-348 | eight table look-ups count the set bits of the vector |
| `BlockList.Blocks.Lookup` | trunk/package/abrloop/src/abrloop.c:383-391 | the first entry of the linked list for the MAC |
| `BlockList.Blocks.Alloc` | trunk/package/abrloop/src/abrloop.c:353-366 | a new entry at the head, or nothing if memory is short |
| `BlockList.Blocks.Unlink` | trunk/package/abrloop/src/abrloop.c:371-377 | the entry is unlinked through the pointer that led to it, all others stay |
| `BlockList.Blocks.Restart` | trunk/package/abrloop/src/abrloop.c:464-475 | vector, state and timer are replaced, and a block sent, only for strictly more ports |
| `BlockList.Blocks.HandleMac` | trunk/package/abrloop/src/abrloop.c:440-476 | list and requests after one report |
| `BlockList.Blocks.AgeAll` | trunk/package/abrloop/src/abrloop.c:501-508 | the pointer-to-pointer loop takes a round from every timer, and unblocks and unlinks those at zero, in order |
| `BlockList.Blocks.ProcMacs` | trunk/package/abrloop/src/abrloop.c:480-509 | one whole round |
| `BlockRuns.RunKeeps` | trunk/package/abrloop/src/abrloop.c:440-509 | in every run no MAC is listed twice, timers stay between 1 and BLOCK_TIME, only blocked MACs are unblocked, and the listed MACs are those blocked by the requests sent |
| `BlockRuns.LoopsIsLooping` | trunk/package/abrloop/src/abrloop.c:491-493 | a MAC is taken for looping if and only if its state is set or two different positions of its port vector are |
| `BlockRuns.RoundLists` | trunk/package/abrloop/src/abrloop.c:440-509 | a looping MAC that is reported while there is memory is listed and, if it was not before, blocked; one that no report shows looping is neither listed anew nor blocked |
| `BlockRuns.NewEntryTimer` | trunk/package/abrloop/src/abrloop.c:440-476 | a MAC listed in a round has its whole time before it |
| `BlockRuns.RestartLaw` | trunk/package/abrloop/src/abrloop.c:464-475 | a report of a listed MAC restarts it, with a new block, if and only if it shows strictly more ports; otherwise it changes nothing |
| `BlockRuns.AgedEntry` | trunk/package/abrloop/src/abrloop.c:501-508 | a round removes exactly the entries whose timer was 1, and sends exactly one unblock for each of them |
| `BlockRuns.PotentialFalls` | trunk/package/abrloop/src/abrloop.c:440-509 | from any list without duplicates, every round uses up one of at most BLOCK_TIME * 33 |
| `BlockRuns.LeavesInTime` | trunk/package/abrloop/src/abrloop.c:464-475 | no MAC stays listed for BLOCK_TIME * 33 rounds, whatever is reported |
| `BlockRuns.StaysForItsTimer` | trunk/package/abrloop/src/abrloop.c:464-475 | a listed MAC stays for every round its timer still has |
| `BlockRuns.HandleMirrors` | trunk/package/abrloop/src/abrloop.c:396-475 | a report that marks its MAC as blocked if the port holds it keeps what the port blocks in step with the list; any other report does if and only if it does not move the MAC off the port |
| `BlockRuns.AgeMirrors` | trunk/package/abrloop/src/abrloop.c:501-508 | removal always keeps them in step |
| `BlockRuns.RunMirrors` | trunk/package/abrloop/src/abrloop.c:396-509 | in every run each port blocks exactly the listed MACs last seen on it |
| `BlockRuns.ReportedIsFreed` | trunk/package/abrloop/src/abrloop.c:396-509 | a port that holds a MAC unknown to the list is freed within BLOCK_TIME * 33 + 1 rounds of a report of it |
| `BlockRuns.HeldIsFreed` | trunk/package/abrloop/src/abrloop.c:396-509 | from any list without duplicates, such as that of a restarted daemon, every held MAC that is reported while it is held is freed within BLOCK_TIME * 66 + 1 rounds |
| `Calibration.CalList.FindPlace` | trunk/package/mfgtest/sdrsvr/bladerf.c:1396-1405 | the place between smaller and larger entries, or the news that the point is there already |
| `Calibration.CalList.Insert` | trunk/package/mfgtest/sdrsvr/bladerf.c:1396-1408 | the linked list stays strictly sorted by frequency and gain and gains exactly the new point, or is left alone for a duplicate |
| `Calibration.CalList.Load` | trunk/package/mfgtest/sdrsvr/bladerf.c:1347-1409 | reading ends at the first duplicate; without one the list holds exactly the points read, sorted |
| `Calibration.CalList.Lookup` | trunk/package/mfgtest/sdrsvr/bladerf.c:851-873 | a nearest point for the gain, the lower of two; none exactly if the first point for the gain is farther than 2^40 or all are that far |
| `Calibration.TooFar` | trunk/package/mfgtest/sdrsvr/bladerf.c:866-871 | leaving the loop early loses nothing: past the frequency distances only grow |
| `Calibration.CalList.Aligned` | trunk/package/mfgtest/sdrsvr/bladerf.c:1411-1432 | the check passes exactly if the other table's frequencies are those the list begins with |
| `Escaping.EscapedSize` | trunk/scripts/config/symbol.c:903-922 | the first pass measures the result exactly |
| `Escaping.EscapeStringValue` | trunk/scripts/config/symbol.c:903-944 | the second pass fills a buffer of exactly that size with the quoted string and its terminator |
| `Escaping.UnescapeBody` | trunk/scripts/config/confdata.c:153-165 | escaping is undone exactly, whatever follows the closing quote |
| `Escaping.Unescape` | trunk/scripts/config/confdata.c:154-166 | the in-place loop leaves the unescaped text and a terminator in the line, stops within the line, and changes nothing before it or behind its end |
| `Escaping.RemoveAt` | trunk/scripts/config/confdata.c:164-164 | the memmove that drops a backslash |
| `ConfigFile.LinesJoined` | trunk/scripts/config/confdata.c:206-238 | a text made of lines is read as those lines |
| `ConfigFile.AssignParses` | trunk/scripts/config/confdata.c:343-366 | an assignment line gives back name and value |
| `ConfigFile.UnsetParses` | trunk/scripts/config/confdata.c:316-342 | an "is not set" line gives back the name |
| `ConfigFile.SettingRead` | trunk/scripts/config/confdata.c:480-500 | the line printed for a symbol is read as a setting of that symbol to its value, without a warning |
| `ConfigFile.RoundTrip` | trunk/scripts/config/confdata.c:265-403 | writing any list of symbols and menu titles and reading the text restores every written value, leaves all others unset, and warns about nothing |
| `ConfigFile.ExpectedIs` | trunk/scripts/config/confdata.c:265-403 | the restored value is the one written, wherever in the file it stands |
| `ConfigLaws.TextGives` | trunk/scripts/config/confdata.c:120-403 | whatever the text, exactly the symbols of the table have a user value afterwards, and one that fits their type |
| `ConfigLaws.LineChanges` | trunk/scripts/config/confdata.c:311-378 | a line sets one symbol, or warns once, or does nothing |
| `ConfigLaws.LinesSplit` | trunk/scripts/config/confdata.c:206-238 | every text is cut behind each newline and nowhere else, and nothing of it is lost |
| `ConfigLaws.LogicAssigned` | trunk/scripts/config/confdata.c:124-145 | an assignment to a bool or tristate symbol, with any line ending: the first character decides, m only for a tristate, anything else warns |
| `ConfigLaws.NumberAssigned` | trunk/scripts/config/confdata.c:172-181 | int and hex: valid text is taken as it stands, anything else warns |
| `ConfigLaws.StringAssigned` | trunk/scripts/config/confdata.c:153-171 | a string is what was escaped, whatever follows its closing quote; without an opening quote nothing is said, without a closing one there is a warning |
| `ConfigLaws.UnsetRead` | trunk/scripts/config/confdata.c:314-342 | "is not set", whatever follows, makes a bool or tristate symbol n and says nothing about any other |
| `ConfigLaws.IntTextIs` | trunk/scripts/config/symbol.c:547-559 | an int text is valid if and only if it is -0 or the decimal notation of a number |
| `ConfigLaws.HexTextIs` | trunk/scripts/config/symbol.c:560-568 | a hex text is valid if and only if it is hexadecimal digits, with or without prefix |
| `ConfigLaws.PrintedAs` | trunk/scripts/config/confdata.c:480-500 | the line printed, by value: m as n without modules, n as a comment |
| `ConfigFile.Symbols.ConfSetSymVal` | trunk/scripts/config/confdata.c:120-183 | all types, with the quoted string unescaped in the line buffer |
| `ConfigFile.Symbols.ReadConfigLine` | trunk/scripts/config/confdata.c:314-378 | a line of any kind, cut in place |
| `ConfigFile.Symbols.ReadRaw` | trunk/scripts/config/confdata.c:311-316 | what the reader sees of a line with terminators in it: a comment is looked at from its third character on, even behind a terminator |
| `ConfigFile.Symbols.CutValue` | trunk/scripts/config/confdata.c:349-354 | the value without newline and carriage return |
| `ConfigFile.Symbols.ConfReadSimple` | trunk/scripts/config/confdata.c:305-378 | the reading loop over any text but one that ends in a line of a lone hash sign without newline |
| `ConfigFile.WriteSymbol` | trunk/scripts/config/confdata.c:621-640 | one symbol, strings escaped |
| `ConfigFile.WriteItems` | trunk/scripts/config/confdata.c:782-801 | symbols and titles in order |
| `ConfigFile.WriteThenRead` | trunk/scripts/config/confdata.c:265-403 | the two loops, one after the other, restore every value |
| `SaveReload.Recalculated` | trunk/scripts/config/symbol.c:292-420 | with its saved value as user value a symbol gets the same fields, if and only if it is not y with a prompt visible at m only and nothing that selects it to y |
| `SaveReload.RestoredProps` | trunk/scripts/config/confdata.c:405-465 | after writing and reading the file, every symbol printed has its calculated value as user value, and every other one none |
| `SaveReload.SaveThenReload` | trunk/scripts/config/confdata.c:405-465 | on an acyclic graph, saved, read back and calculated again all symbols have their old fields if and only if there is no such symbol |
| `SaveReload.ComesBackAsM` | trunk/scripts/config/symbol.c:292-420 | such a symbol: a default of y below a prompt visible at m is read back as m |

## Left out

- InCksum: a sum that leaves int is undefined in C; what becomes of it is not modelled.
- Calibration: gains are real numbers, so a gain that strtof reads as not-a-number is not modelled; frequencies are unbounded, the parsing of the lines and the closing of the file are not modelled.
- VerifyCrc10: the constants of crc10_table are not repeated; the table is the one init_crc10_table computes and compares them with when the program starts.
- Finalize: the outcome of the nesting test is a parameter of MenuTree, so that the tree theorems hold for every one; what the test decides is the subject of Visibility.
- CalcSymbols: symbols with ranges, choices and their members are not part of SymbolValues; choices are modelled in Choice with the rest of the configuration as input. modules_val is fixed during a calculation.
- Choice: boolean choices with boolean members; SYMBOL_CHANGED and SYMBOL_WRITE of choices and members are not modelled.
- DependencyCheck: choices, environment properties and expression lists are not modelled, and the text of the report is not.
- EliminateDups: expr_join_or, expr_join_and and expr_extract_eq are modelled on values, and the tree of the two duplicate passes as one value that is replaced slot by slot; the reuse of their nodes is not captured.
- Visibility: expr_trans_compare and the dependency tests are modelled on values, as they build or compute results; expr_alloc_and's null operands are the value None.
- NestedIsVisible: for assignments with nothing negated at m and no undefined or text symbol both used as a value and compared; otherwise it can be false (NestedUnderHidden, NestedUnderUndefined). A quoted word as a condition by itself is not covered.
- IncludedIsYes: asks that neither condition can be simplified any further, since two operands that are merged can hide the outer one (MergedNotNested).
- ConfReadSimple: a last line that is a lone hash sign without newline is skipped, where the code looks at what an earlier line left in the buffer.
- SaveThenReload: symbols set from the environment have no user value, and the texts written are valid for their types and can stand in a line; choices and ranges are not included.
- PowerSequencer: interrupts inside a main-loop pass, the i2c bit handshake and message buffer, EEPROM sequencing, LEDs and the time counters are not modelled; the values read from pins, tick flags and EEPROM, and what RAM and timer hold after a reset, are arbitrary inputs.
- BlockRuns: a failing ioctl ends mac_block early and is not modelled; memory running out is an input of every report.
- RunMirrors: the reports of a round are for different MACs, and one for a MAC that the port holds carries the mark that sw_merge makes of an entry without ports, which is what mac_block wrote.
- HeldIsFreed: asks that the MAC is reported; which MACs a round reports is an input.
- ConfigFile: symbols of type S_OTHER while reading, choice state set by a file, unknown names beyond their being ignored, the other printers, default configuration files and file handling are not modelled. A title is any text that does not begin with CONFIG_.
- sw_merge and create_osi_cksum: not part of this model; nothing is claimed of them.
- expr_print, expr_simplify_unmet_dep, help texts and the interactive front ends: display only.
- Memory reclamation: expr_free and free are not modelled; that nodes given back are not used again is not stated.
- Flash, DMI and EEPROM utilities, socket and ioctl code, protocol headers, spectra and the modem dialogue: they move bytes to and from devices and peers, and format what they find.
