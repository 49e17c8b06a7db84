# Kconfig engine and boot image tool

This project models the Kconfig engine that decides every configuration value,
and the tool that makes boot images for one family of boards, and proves what
they promise.

The engine has four parts, and the model follows them.

* **Expressions** (`Expr`, `Eliminate`, `Equality`, `Join`, `QuotedJoin`, `Dups`,
  `NoRepeats`, `Transform`, `Visibility`, `Submenu`, `Rewriter`).  A dependency is
  an expression over three values, n < m < y, with minimum, maximum and 2 - x.  The
  rewriter cancels, joins and normalises.  Each pass is a function on expression
  trees; `Rewriter` holds the passes as they work, in place on the slots of a
  tree and with the global counter of replacements, and proves them equal to the
  functions.  A slot is named by its path from the root.
* **Menus** (`Menu`, `MenuFinalize`, `MenuConditions`, `MenuShape`,
  `SubmenuTaken`, `MenuRelink`, `MenuWalk`).  Entries are objects linked by list,
  next and parent.  A ghost forest says what the links stand for; relinking in
  place is proved equal to functions on forests.  `SubmenuTaken` says which
  entries move into a submenu, `MenuShape` what stays where it was.
* **Evaluation** (`Numbers`, `Compare`, `CompareOrder`, `Ranges`, `Evaluation`,
  `SymbolValue`, `Reads`, `Evaluator`, `Choices`, `CycleCheck`, `SymbolHash`).
  `Evaluation` gives the meaning of a configuration without a cache, by recursion
  over an acyclic graph; `SymbolValue` and `CompareOrder` say in plain terms what
  values and comparisons come out, and `Reads` what a calculation looks at.
  `Evaluator` is the memoising evaluator with its valid marks; `Choices` treats
  choice groups; `CycleCheck` the search for recursive dependencies;
  `SymbolHash` the table of symbols.
* **Text** (`ConfigText`, `AssignedText`, `BrokenStrings`, `ConfigReader`,
  `Reload`).  Escaping, the lines of a configuration file and what they set, the
  reader that edits its line buffer in place, and saving and loading.

The boot image tool is modelled in `Crc` and `BootImage`.

## What is assumed

* A state is *sane* if y, m and n have their values, no bool is m, and comparing
  a bool or tristate with y, m or n decides equality of their values.
  `Evaluation.EvalSane` shows that every state of the evaluator is sane.
* Plain operands are bools, tristates or y, m, n, and a bool or tristate that is
  compared with a constant is compared with y, m or n.  Where that is not so,
  `Joins.JoinExactIff` says which joins are exact.
* The evaluator's dependencies go down in some rank, and what the modules symbol
  depends on holds no tristate; the modules symbol is calculated first, as the
  program does whenever it drops its valid marks.
* In `Choices` the conditions are evaluated in a state given from outside, in
  which the choice has its new value; all defaults of a choice are members of it.
* The prefix of symbol names in a file is a parameter.  Files hold no NUL.

## What the proofs found

* `sym_set_tristate_value` can accept a value without effect, in two ways.  It
  judges by the state kept from the last calculation, even if that is no longer
  valid: y is accepted for a symbol whose prompt has gone since, and gives n.  And
  on a valid symbol, exactly y for one that is y already, visible only as m, and
  neither selected nor implied to y: the user value counts as m, but because the
  value seemed unchanged the valid marks are kept and the cache goes on saying y.
  A value entered without dropping marks is harmless otherwise, also on a symbol
  that is not valid: no valid symbol has looked at it.
* Such a y, and the text of a number with an empty range, are what saving and
  loading does not keep.
* `sym_check_deps`, called from outside on symbols that are in no choice, never
  returns a symbol: whatever cycle it meets closes at a symbol on its path, and
  there the result is dropped.  A cycle is printed but never counted as an error.
* By the comment above `expr_eq`, A && A && B and A && B would be equal; the
  function does not find them so.  It compares how often each operand occurs, which
  is what the comment says only where no operand is repeated; and only where no
  operand is y or n, for with n operands the test is not transitive.
* Joining s=a with s!=b to s=a is wrong exactly where s equals both constants.  For
  y, m and n that cannot be, but the quoted number "2" equals y.
* `expr_trans_compare` is exact on a negation only if what is negated is not m.
  With a negated tristate an entry can be put into a submenu it does not belong
  in.
* `expr_trans_bool` keeps on negation normal forms whether a condition is n.
  Below a negation it may not: on !(T!=n) it does if and only if T is not m.
* An expression can depend outright on a string or number without being n where
  that symbol's value as a tristate is: the submenu test takes in S!=n under a
  string S whose prompt is hidden.
* A string value with a newline is lost, and a line inside it can set another
  symbol.
* Clamping to an empty range (lo > hi) does not settle, and a negative bound of a
  hex symbol is printed as its two's complement and not read back.
* A choice member that cannot be seen and has a default of its own can be y
  beside the chosen one.
* `sym_find` prefers a named choice to an older ordinary symbol of that name.
* The minimum input of 80 bytes that mkpimage demands is too small for version 1
  without a barebox header: with 80 bytes the buffer ends before the branch behind
  the header, and with 81 to 84 the CRC word is written over that branch.

## Model

| member | source | states |
|---|---|---|
| Eliminate.EliminateYnVal | buildroot-2024.02.9/support/kconfig/expr.c:308-389 | Removing y and n operands keeps the value of every expression in every state. |
| Eliminate.CancelLevelFactor | buildroot-2024.02.9/support/kconfig/expr.c:149-189 | Cancelling common operands of a level takes one common factor out of both sides: there is a value c with e1 = c op e1' and e2 = c op e2'. |
| Eliminate.EliminateEqReflectsOrder | buildroot-2024.02.9/support/kconfig/expr.c:220-240 | In every state, if the reduced sides are ordered one way, so were the originals; both ways round. The mutual recursion with the equality test and the cancelling of one level terminates. |
| Eliminate.ExprEqSound | buildroot-2024.02.9/support/kconfig/expr.c:251-295 | Expressions found equal have the same value in every state. |
| NoRepeats.ExprEqReflexive | buildroot-2024.02.9/support/kconfig/expr.c:251-295 | The equality test finds every expression equal to itself, although it compares by cancelling inside copies. |
| Equality.CancelTakesCommon | buildroot-2024.02.9/support/kconfig/expr.c:149-189 | Cancelling a level against another, with the nested comparison of every pair, takes exactly the common part of the two multisets of operands away from both. |
| Equality.ExprEqDecides | buildroot-2024.02.9/support/kconfig/expr.c:251-295 | For expressions without y or n as an operand, at any level: found equal if and only if they are the same up to the order and the grouping of operands at every level. |
| Equality.PlainEquivalence | buildroot-2024.02.9/support/kconfig/expr.c:251-295 | There the test is symmetric and transitive. |
| Equality.OrderAndGrouping | buildroot-2024.02.9/support/kconfig/expr.c:242-249 | There neither order nor grouping of operands matters. |
| Equality.ExprEqCounts | buildroot-2024.02.9/support/kconfig/expr.c:242-295 | Two such levels are found equal if and only if every operand of either occurs equally often on both sides, counted by the test itself. |
| Equality.CommentHolds | buildroot-2024.02.9/support/kconfig/expr.c:242-249 | What the comment above the function says, where no side repeats an operand: equal if and only if every operand of each side equals some operand of the other. |
| Equality.ExprEqCountsOperands | buildroot-2024.02.9/support/kconfig/expr.c:242-295 | With a repeated operand the comment is wrong: A && A && B and A && B have the same operands and are not found equal, and so for ||. |
| Equality.YesNoOperandsBreak | buildroot-2024.02.9/support/kconfig/expr.c:251-295 | With n operands the test is not even transitive: three expressions of which the first equals the second and the second the third, but not the first the third. |
| Equality.EliminatedIsPlain | buildroot-2024.02.9/support/kconfig/expr.c:308-389 | After y/n elimination no operand is y or n, so all this applies. |
| Joins.JoinVal | buildroot-2024.02.9/support/kconfig/expr.c:423-579 | Whatever two operands of an && or || level are joined into has exactly the value of the two together, for comparisons of bools and tristates with y, m, n. |
| Joins.TristateJoins | buildroot-2024.02.9/support/kconfig/expr.c:423-579 | Which comparisons of a tristate are joined and to what: two different s!=c under && to the third s=c, two different s=c under || to the third s!=c, s=a with s!=b to s=a, s=a with s!=a to n; in both orders. |
| Joins.SymbolJoins | buildroot-2024.02.9/support/kconfig/expr.c:517-530 | A symbol takes in its own comparison: s with s=y or s!=m is s=y, s with s!=n is s. |
| Joins.ExcludedMiddle | buildroot-2024.02.9/support/kconfig/expr.c:466-471 | A bool or its negation is y. |
| Joins.JoinExactIff | buildroot-2024.02.9/support/kconfig/expr.c:423-579 | Whatever is compared with whatever, a join is exact in a state if and only if it is not made of s=a and s!=b in a state where s equals both a and b. |
| QuotedJoin.QuotedJoinInexact | buildroot-2024.02.9/support/kconfig/expr.c:536-554 | Such a state exists in the evaluator: with T at y, T="2" && T!=y is n but is joined to T="2", which is y. |
| Joins.JoinKeepsForm | buildroot-2024.02.9/support/kconfig/expr.c:423-579 | A join keeps negation normal form and the kinds of operands and comparisons. |
| Dups.StepVal | buildroot-2024.02.9/support/kconfig/expr.c:588-643 | One comparison of two slots of a level, with its recursion into the first slot and the replacement of the joined pair by unit and join, keeps the value of the level. |
| Dups.PassUnit | buildroot-2024.02.9/support/kconfig/expr.c:588-643 | A pass that counted a simplification leaves a y or n operand that the next y/n elimination removes: why the outer loop ends. |
| Dups.EliminateDupsVal | buildroot-2024.02.9/support/kconfig/expr.c:656-678 | Duplicate elimination keeps the value in every state, and negation normal form where it was given. |
| Dups.EliminateDupsSettled | buildroot-2024.02.9/support/kconfig/expr.c:656-678 | On exit no two distinct operands of any && or || level can be joined any more. |
| Dups.EliminateDupsIdempotent | buildroot-2024.02.9/support/kconfig/expr.c:656-678 | A second call changes nothing. |
| NoRepeats.EliminateDupsNoRepeats | buildroot-2024.02.9/support/kconfig/expr.c:645-678 | No level of the result holds the same operand twice. |
| Transforms.TransformVal | buildroot-2024.02.9/support/kconfig/expr.c:686-841 | The transformation keeps the value in every state; it terminates by a weight that counts a negation double. |
| Transforms.TransformNnf | buildroot-2024.02.9/support/kconfig/expr.c:686-841 | The result is in negation normal form, and no bool is compared for (in)equality with y, m or n. |
| Transforms.TransformFixpoint | buildroot-2024.02.9/support/kconfig/expr.c:686-841 | An expression is left unchanged if and only if it is in that form already. |
| Transforms.TransformIdempotent | buildroot-2024.02.9/support/kconfig/expr.c:686-841 | A second call changes nothing. |
| Rewriting.Rewriter.EliminateYn | buildroot-2024.02.9/support/kconfig/expr.c:308-389 | The elimination in place, on slots of the tree, leaves in its slot what the function gives and changes no other slot. |
| Rewriting.Rewriter.Transform | buildroot-2024.02.9/support/kconfig/expr.c:686-841 | The same for the transformation. |
| Rewriting.Rewriter.TransBool | buildroot-2024.02.9/support/kconfig/expr.c:394-418 | The same for the bool form. |
| Rewriting.Rewriter.CancelLevel | buildroot-2024.02.9/support/kconfig/expr.c:149-189 | Cancelling in place in two trees at once, with the count of replacements. |
| Rewriting.Rewriter.EliminateEq | buildroot-2024.02.9/support/kconfig/expr.c:220-240 | Removal of common operands in place. |
| Rewriting.Rewriter.ExprEq | buildroot-2024.02.9/support/kconfig/expr.c:251-295 | The equality test works on copies and restores the replacement counter. |
| Rewriting.Rewriter.EliminateDups1 | buildroot-2024.02.9/support/kconfig/expr.c:588-643 | The aliased pass, where both arguments are slots of one tree and each write is seen through the other, does what a pass over the list of operands does. |
| Rewriting.Rewriter.EliminateDups | buildroot-2024.02.9/support/kconfig/expr.c:656-678 | The loop driven by the global counter ends, restores the counter and leaves the function's result in the slot. |
| Submenu.TransCompareExact | buildroot-2024.02.9/support/kconfig/expr.c:914-977 | For y and n the comparison is y exactly when the value does (does not) equal the constant and n otherwise, wherever no negated part is m. |
| Submenu.TransCompareNegation | buildroot-2024.02.9/support/kconfig/expr.c:925-932 | On a negation the comparison is exact if and only if what is negated is not m. |
| Submenu.TransCompareNnf | buildroot-2024.02.9/support/kconfig/expr.c:914-977 | On a negation normal form "differs from n" is never claimed of an expression that is n. |
| Submenu.DependsSymbolSound | buildroot-2024.02.9/support/kconfig/expr.c:871-898 | An absolute dependency on a symbol is n wherever the symbol is. |
| Visibility.RewriteMVal | buildroot-2024.02.9/support/kconfig/menu.c:81-104 | After the rewriting of m an operand m counts only as far as the modules symbol allows; all else keeps its value. |
| Visibility.TransBoolStatus | buildroot-2024.02.9/support/kconfig/expr.c:394-418 | On a negation normal form the bool form is n in exactly the same states. |
| Visibility.TransBoolForm | buildroot-2024.02.9/support/kconfig/expr.c:394-418 | No comparison of a tristate with n by != is left, and an expression without one is not changed. |
| Visibility.TransBoolNeedsNnf | buildroot-2024.02.9/support/kconfig/expr.c:394-418 | Below a negation this can fail: on !(T!=n) it holds if and only if T is not m. |
| Visibility.PropagateVal | buildroot-2024.02.9/support/kconfig/menu.c:342-351 | The condition stored in an entry has exactly the value of the conjunction with what is inherited, and is in negation normal form. |
| Visibility.PropConditionStatus | buildroot-2024.02.9/support/kconfig/menu.c:376-388 | The condition stored in a property is n exactly where the plain conjunction is, and for tristates has its value. |
| Visibility.SimplifiedVisibility | buildroot-2024.02.9/support/kconfig/symbol.c:209-239 | The visibility calculated from the simplified prompts of a symbol is that of the unsimplified conjunctions. |
| Submenu.SubmenuJustified | buildroot-2024.02.9/support/kconfig/menu.c:448-494 | An entry taken into the submenu of a symbol of any type is non-n only where the symbol is, or where the symbol's prompt is visible, in every state in which what it negates is y or n; for both routes of the test, the first one for bools and tristates. |
| Submenu.SubmenuNegatedTristate | buildroot-2024.02.9/support/kconfig/menu.c:448-494 | With a negated tristate in the condition this fails: a concrete entry is taken in although it is enabled where neither the symbol nor its prompt is. |
| SubmenuTaken.DependsOperand | buildroot-2024.02.9/support/kconfig/expr.c:871-898 | Exactly: an operand of the outermost && is the symbol itself, s=y, s=m or s!=n. |
| SubmenuTaken.ContainsMentions | buildroot-2024.02.9/support/kconfig/expr.c:843-866 | Exactly: the symbol occurs somewhere in the expression. |
| SubmenuTaken.OperandTaken | buildroot-2024.02.9/support/kconfig/menu.c:448-494 | An entry with such an operand is always taken in. |
| SubmenuTaken.MentionTaken | buildroot-2024.02.9/support/kconfig/menu.c:448-494 | Under a prompt without a condition, or with one that simplifies to y, an entry is taken in if and only if it mentions the symbol. |
| SubmenuTaken.TakenIff | buildroot-2024.02.9/support/kconfig/menu.c:448-494 | Otherwise, where no operand of the simplified conditions is y or n: if and only if it mentions the symbol, and has such an operand or is an && with every operand of the prompt's condition, at least as often, up to order and grouping inside. |
| SubmenuTaken.OperandAbsorbed | buildroot-2024.02.9/support/kconfig/menu.c:448-494 | Of the siblings behind a symbol, judged by the condition of their prompt or else by their own: a next one with such an operand is taken in, and the first one left behind has none. |
| SubmenuTaken.FinalizeTakes | buildroot-2024.02.9/support/kconfig/menu.c:416-494 | Only an entry with a symbol and without children takes in siblings, all that follow it, and the first one left does not. |
| SubmenuTaken.ListSeparated | buildroot-2024.02.9/support/kconfig/menu.c:408-494 | Of finalized siblings none that has a symbol and had no children is left with one right behind it that should be below it. |
| MenuShape.MenusKept | buildroot-2024.02.9/support/kconfig/menu.c:296-605 | Over a whole run an entry with prompt text that had children keeps exactly what was below it, in order. |
| Submenu.SubmenuStringHead | buildroot-2024.02.9/support/kconfig/menu.c:448-494 | By the first route it also fails under a string: S!=n depends on S, but is y where S holds another text and its prompt is hidden. |
| MenuFinalize.CallsOnce | buildroot-2024.02.9/support/kconfig/menu.c:416-486 | The calls made by finalizing an entry are one each for it and for every node that ends up below it. |
| MenuFinalize.FinalizeFlat | buildroot-2024.02.9/support/kconfig/menu.c:556-567 | Afterwards no entry without prompt text keeps children, at any depth. |
| MenuFinalize.FinalizeNodes | buildroot-2024.02.9/support/kconfig/menu.c:416-567 | Of children and younger siblings no node is lost or doubled. |
| MenuFinalize.MovesJustified | buildroot-2024.02.9/support/kconfig/menu.c:448-494 | Over a whole run from the root: in a sane state every move of an entry whose negated parts are y or n there is justified, whatever the type of the symbol, unless it depends outright on a symbol that is no bool or tristate. |
| MenuConditions.FinalizeRecords | buildroot-2024.02.9/support/kconfig/menu.c:338-605 | Moving, absorbing and flattening change no stored condition: a run leaves in preorder what inheritance alone, down the original tree, would. |
| MenuConditions.ConditionsOverRun | buildroot-2024.02.9/support/kconfig/menu.c:338-410 | Over a whole run every entry ends up with a condition that is n exactly where the conjunction of the rewritten conditions on its original path from the root is, and the same for its prompt; with the exact value where children stand only as they do when parsed. |
| MenuRelink.InheritChildren | buildroot-2024.02.9/support/kconfig/menu.c:338-410 | The loop over the children stores in each the condition it inherits, in place. |
| MenuRelink.FlattenChildren | buildroot-2024.02.9/support/kconfig/menu.c:499-568 | Relinking list, next and parent lifts the children of entries without prompt text behind them. |
| MenuRelink.AbsorbSiblings | buildroot-2024.02.9/support/kconfig/menu.c:448-490 | Relinking cuts off the run of siblings that follow a symbol and hangs it below it. |
| MenuRelink.FinalizeTree | buildroot-2024.02.9/support/kconfig/menu.c:296-605 | The whole in-place run: same nodes in the same preorder, every child's parent pointer right, each node finalized once, and nothing without prompt text left with children. |
| Menus.PreorderOnce | buildroot-2024.02.9/support/kconfig/menu.c:296-605 | In a well-linked tree the preorder names every node once. |
| MenuWalk.Walk | buildroot-2024.02.9/support/kconfig/confdata.c:680-735 | The walk without recursion or stack ends and visits exactly the descendants of the root in preorder. |
| Compare.TriCompareExact | buildroot-2024.02.9/support/kconfig/expr.c:991-1104 | Comparing a bool, a tristate or y, m, n with y, m, n finds them equal exactly when their values are. |
| Compare.TriEqualsNumber | buildroot-2024.02.9/support/kconfig/expr.c:991-1024 | A quoted number takes another path: "2" equals y. |
| Compare.TriOrderIsAlphabetical | buildroot-2024.02.9/support/kconfig/expr.c:1063-1082 | Smaller and greater follow the letters: m comes before n, n before y. |
| CompareOrder.NumberComparison | buildroot-2024.02.9/support/kconfig/expr.c:991-1104 | A comparison of two numbers, ints, hexes or constants, in any of the six relations is y or n as the numbers are; a hex and a negative number excepted. |
| CompareOrder.NegativeAboveHex | buildroot-2024.02.9/support/kconfig/expr.c:1083-1089 | A hex counts as smaller than every negative number. |
| CompareOrder.StringComparison | buildroot-2024.02.9/support/kconfig/expr.c:1063-1104 | Two strings are compared as text, by the first character that differs or their length, even where both look like numbers. |
| CompareOrder.TextComparison | buildroot-2024.02.9/support/kconfig/expr.c:1063-1104 | So are all others as soon as one of the two is no number. |
| CompareOrder.NoNumber | buildroot-2024.02.9/support/kconfig/expr.c:991-1024 | A text that starts with neither space, sign nor digit is none. |
| CompareOrder.TriComparison | buildroot-2024.02.9/support/kconfig/expr.c:991-1104 | Two bools or tristates are ordered n, m, y. |
| SymbolValue.ConnectiveValues | buildroot-2024.02.9/support/kconfig/expr.c:1026-1062 | && is the smaller of two values, || the larger, a negation exchanges y and n and keeps m. |
| SymbolValue.DefaultedValue | buildroot-2024.02.9/support/kconfig/symbol.c:399-452 | Without a user value that counts: let k be the first default whose condition is not n; the smaller of its value and its condition, but at least what implies and what selects the symbol, and y for m where there is no m or y is implied. |
| SymbolValue.UndefaultedValue | buildroot-2024.02.9/support/kconfig/symbol.c:399-452 | The same with n in place of a default if no condition holds. |
| SymbolValue.UserValue | buildroot-2024.02.9/support/kconfig/symbol.c:399-452 | A visible user value: as far as it is visible, but at least what selects the symbol; what implies it does not count, except that y for m. |
| SymbolValue.LimitValues | buildroot-2024.02.9/support/kconfig/symbol.c:239-269 | The limits as values of their expressions: a missing dependency is y, a missing select or imply n, nothing is implied where the dependencies are n, and m is y for a symbol without m. |
| SymbolValue.VisibleValue | buildroot-2024.02.9/support/kconfig/symbol.c:209-234 | The visibility is the largest value of a prompt, and y for m unless for a tristate with modules; n exactly if all prompts are. |
| SymbolValue.TextValue | buildroot-2024.02.9/support/kconfig/symbol.c:453-480 | Of an int, hex or string: a visible user's text, else that of the symbol which the first active default names, else nothing; with a first active range that text if its number lies inside, else the printed bound that it misses. |
| SymbolValue.AcceptedIff | buildroot-2024.02.9/support/kconfig/symbol.c:511-530 | Accepted are the value held and, for a symbol visible above what selects it, exactly the values up to its visibility that it would get. |
| SymbolValue.MAccepted | buildroot-2024.02.9/support/kconfig/symbol.c:511-530 | So m for a tristate visible as y that is neither selected nor implied to y. |
| Evaluation.ComputeAgrees | buildroot-2024.02.9/support/kconfig/symbol.c:209-498 | What is calculated for a symbol depends on nothing but the symbols its definition mentions. |
| Evaluation.EvalUnfold | buildroot-2024.02.9/support/kconfig/symbol.c:357-498 | On an acyclic graph the recursive evaluation without a cache satisfies the defining equation of every symbol. |
| Evaluation.ValueBounds | buildroot-2024.02.9/support/kconfig/symbol.c:399-452 | In every evaluated state a value is at least what selects it, a bool is never m, and a visible user value is at most the greatest of visibility, select and imply. |
| Evaluation.EvalSane | buildroot-2024.02.9/support/kconfig/expr.c:1026-1104 | The states produced satisfy what the simplifier relies on, so all its results apply to them. |
| Evaluation.AssignmentTakesEffect | buildroot-2024.02.9/support/kconfig/symbol.c:511-566 | After an assignment that the true state of the symbol accepts, evaluation gives exactly the value, if and only if it is not y for a symbol visible as m that is neither selected nor implied to y; then it gives m. |
| Evaluation.AcceptedButLost | buildroot-2024.02.9/support/kconfig/symbol.c:532-566 | A concrete symbol of that kind: the assignment of y is accepted and gives m. |
| Evaluation.EnteredValue | buildroot-2024.02.9/support/kconfig/symbol.c:399-452 | Whatever state the assignment was judged by: it changes the value alone, and gives the value asked for if and only if the true state of the symbol before can reach it, which is spelled out for n, m and y. |
| Evaluation.KeptStateMisleads | buildroot-2024.02.9/support/kconfig/symbol.c:511-566 | A concrete pair of bools: S is asked about only if R, is calculated while R is y, then R is set to n; y for S is still accepted, by the state kept, but gives n. |
| Evaluation.ConeUnchanged | buildroot-2024.02.9/support/kconfig/symbol.c:484-498 | A change of the modules value does not reach what was calculated on the way to the modules symbol, if that holds no tristate. |
| Reads.ReadsDecide | buildroot-2024.02.9/support/kconfig/symbol.c:155-270 | A calculation looks at prompts and limits, at defaults and ranges up to the first active one, at what implies the symbol only where its own dependencies hold, at the upper bound only where the lower one does; where all that is the same it looks at the same and comes to the same. |
| Reads.KnownUnchanged | buildroot-2024.02.9/support/kconfig/symbol.c:357-498 | A set of symbols with all that their calculations look at is not reached by user values outside it. |
| Evaluator.SymbolTable.CalcExpr | buildroot-2024.02.9/support/kconfig/expr.c:1026-1104 | Evaluation of an expression, with calculation of its symbols on demand, gives its value in the cache-free evaluation. |
| Evaluator.SymbolTable.CalcValue | buildroot-2024.02.9/support/kconfig/symbol.c:357-498 | A valid symbol is left alone; any other is calculated, in whatever order it is asked for; every valid symbol holds its cache-free value afterwards, all that was looked at for it is valid as well, and values already valid stay. |
| Evaluator.SymbolTable.CalcVisibility | buildroot-2024.02.9/support/kconfig/symbol.c:209-270 | The limits stored are those of the evaluation, read from the cached conditions. |
| Evaluator.SymbolTable.ValidateRange | buildroot-2024.02.9/support/kconfig/symbol.c:155-187 | The stored text is clamped to the first range whose condition is not n. |
| Evaluator.SymbolTable.ClearAllValid | buildroot-2024.02.9/support/kconfig/symbol.c:500-509 | Dropping all valid marks and calculating the modules symbol restores the invariant, whatever changed before. |
| Evaluator.SymbolTable.SetTristateValue | buildroot-2024.02.9/support/kconfig/symbol.c:511-566 | On any symbol, marked valid or not: accepts exactly the values that the kept state has or allows; changes no other user value; the new value is the one asked for if and only if the true state can reach it, and for a valid symbol, where none lags, if it is not too high. If the kept value is another one the cache is right afterwards; else no mark is dropped, and exactly a valid symbol with a value too high then lags. |
| Evaluator.SymbolTable.Run | buildroot-2024.02.9/support/kconfig/symbol.c:357-566 | Over any sequence of questions, assignments and clearings, to symbols valid or not, the invariant holds; afterwards the cache agrees with what the user has entered if and only if no symbol lags, and one lags only if it did before or y was assigned to it. |
| Evaluator.SymbolTable.FreshIff | buildroot-2024.02.9/support/kconfig/symbol.c:357-566 | All valid symbols hold the values that evaluation gives them from what the user has entered, if and only if none lags: is valid as y, visible as m, neither selected nor implied to y, and has had y entered. |
| Reload.WrittenIff | buildroot-2024.02.9/support/kconfig/symbol.c:395-436 | A bool or tristate is marked to be written if and only if it is visible or not n: so also when it is only selected. |
| Reload.TextWrittenIff | buildroot-2024.02.9/support/kconfig/symbol.c:453-464 | Any other symbol if and only if it is visible or its first active default is a symbol. |
| Reload.ReloadKeeps | buildroot-2024.02.9/support/kconfig/confdata.c:407-475 | Loading what was saved leaves every symbol as it was, its value and all limits on it, if and only if no visible bool or tristate is y where a user value counts only as m, and no visible number has an empty range (or, where a hex bound is negative, a text that clamping moves again). |
| Reload.FileReloads | buildroot-2024.02.9/support/kconfig/confdata.c:740-835 | Through the text: the lines of all symbols marked to be written, read into an empty configuration, give exactly these user values; a number that is none gives no value. |
| Reload.SaveAndLoad | buildroot-2024.02.9/support/kconfig/confdata.c:407-835 | Both together, from configuration to file and back. |
| Reload.SavedYLost | buildroot-2024.02.9/support/kconfig/confdata.c:740-835 | A concrete tristate that is y by default and visible as m: it is written as y and is m after loading. |
| Numbers.PrintIntParses | buildroot-2024.02.9/support/kconfig/symbol.c:180-182 | Printing with %lld and reading with strtoll in base 10 gives the number back. |
| Numbers.PrintHexParses | buildroot-2024.02.9/support/kconfig/symbol.c:183-184 | The same in base 16 for numbers that are not negative. |
| Numbers.DigitsRead | buildroot-2024.02.9/support/kconfig/symbol.c:139-153 | Leading space, a sign and digits are read up to the first other character; with base 0 a leading zero makes them octal. |
| Numbers.PrefixRead | buildroot-2024.02.9/support/kconfig/symbol.c:139-153 | Behind 0x or 0X, with base 16 or 0, hexadecimal digits are read. |
| Numbers.NumberLimited | buildroot-2024.02.9/support/kconfig/symbol.c:139-153 | A number beyond long long reads as the nearest end of its range. |
| Numbers.DigitsInOrder | buildroot-2024.02.9/support/kconfig/symbol.c:139-153 | The digits 0 to 9, and a to f in both cases, stand for 0 to 15 in order. |
| Numbers.OnlyDigits | buildroot-2024.02.9/support/kconfig/symbol.c:139-153 | No other character is a digit. |
| Numbers.DigitsPrintedLower | buildroot-2024.02.9/support/kconfig/symbol.c:180-184 | The lower-case ones are printed. |
| Numbers.UpperHexParses | buildroot-2024.02.9/support/kconfig/symbol.c:139-153 | Printed hex in upper case, with 0X, reads as the same number. |
| Ranges.IntTextIff | buildroot-2024.02.9/support/kconfig/symbol.c:591-613 | The texts accepted for an int are exactly the printed decimal numbers, and "-0". |
| Ranges.HexTextIff | buildroot-2024.02.9/support/kconfig/symbol.c:614-626 | Those for a hex are hexadecimal digits in either case, alone or behind 0x or 0X. |
| Ranges.SymStringValid | buildroot-2024.02.9/support/kconfig/symbol.c:591-632 | The character loop accepts exactly the texts of the described form for each type. |
| Ranges.ClampExact | buildroot-2024.02.9/support/kconfig/symbol.c:172-186 | With lo at most hi the text left reads as the nearest number in the range, is the old text exactly when that was inside, and is valid when it was rewritten. |
| Ranges.ClampSettles | buildroot-2024.02.9/support/kconfig/symbol.c:172-186 | A second call changes nothing, whatever the value, if and only if lo is at most hi. |
| Ranges.NegativeHexBound | buildroot-2024.02.9/support/kconfig/symbol.c:139-153 | A negative bound of a hex symbol does not survive printing: it reads back as the largest number. |
| Choices.VisibleTwoValued | buildroot-2024.02.9/support/kconfig/symbol.c:223-239 | While the choice is y a member is visible as y or not at all. |
| Choices.MemberVisibleIff | buildroot-2024.02.9/support/kconfig/symbol.c:209-239 | A member is visible if one of its prompts counts, where m does not for a tristate while the choice is y; as y if a prompt is y or it can only be y or n, else as m. |
| SymbolValue.DefaultIs | buildroot-2024.02.9/support/kconfig/symbol.c:409-436 | The default of a member: the smaller of the value and the condition of its first active default, n without one. |
| Choices.Choice.Default | buildroot-2024.02.9/support/kconfig/symbol.c:278-302 | The first default that applies and is visible, else the first visible member, else none. |
| Choices.Choice.CalcChoice | buildroot-2024.02.9/support/kconfig/symbol.c:304-334 | All members' visibilities are calculated; the result is the user's pick if visible, else the default; the choice counts as set only as long as all its visible members do. |
| Choices.Choice.CalcGroup | buildroot-2024.02.9/support/kconfig/symbol.c:357-498 | The value of the choice is the larger of what selects it and of the user's value as far as it is visible, y for m where it has no m or y is implied, and n for y if no member can be seen; defaults do not count. If it is y exactly one visible member is y, the one described, and all other fully visible ones are n. A member that is not fully visible, as while the choice is m, has the user's value as far as it is visible, else its default. |
| Choices.Choice.SetMember | buildroot-2024.02.9/support/kconfig/symbol.c:511-566 | Which assignments to a member are accepted, and that y makes it the pick and all visible members set by the user. |
| Choices.MemberAcceptsIff | buildroot-2024.02.9/support/kconfig/symbol.c:511-530 | Accepted are the value held, y for a fully visible member, and for one visible as m what it would get, up to m. |
| Choices.Choice.PickAndCalc | buildroot-2024.02.9/support/kconfig/symbol.c:532-566 | A member accepted as y is the chosen one after recalculation, if the choice is y and the member fully visible. |
| CycleCheck.PropAdds | buildroot-2024.02.9/support/kconfig/symbol.c:1241-1273 | A property of a symbol leads the search to the symbols of its condition, a default also to those of its value, a select or choice property nowhere. |
| CycleCheck.SelectorsFollowed | buildroot-2024.02.9/support/kconfig/symbol.c:1241-1255 | Besides, it goes to what selects the symbol. |
| CycleCheck.PathReport | buildroot-2024.02.9/support/kconfig/symbol.c:1128-1204 | The path from the symbol reached again upwards, with its lines, is a genuine cycle, and each line says truly how it goes on: selected by, depends on, or default contains. |
| CycleCheck.GenuineIsCycle | buildroot-2024.02.9/support/kconfig/symbol.c:1128-1204 | Such a report is a cycle of the relation that is followed. |
| CycleCheck.RankedPath | buildroot-2024.02.9/support/kconfig/symbol.c:1312-1344 | The order in which symbols are finished goes down along every dependency, so no path returns. |
| CycleCheck.Checker.CheckDeps | buildroot-2024.02.9/support/kconfig/symbol.c:1312-1344 | The search restores path and marks; a result names a symbol on the path; if nothing was reported the symbol and all it follows are finished. |
| CycleCheck.Checker.CheckSymDeps | buildroot-2024.02.9/support/kconfig/symbol.c:1241-1273 | If nothing was reported, everything the symbol follows has been finished. |
| CycleCheck.Checker.CheckExprDeps | buildroot-2024.02.9/support/kconfig/symbol.c:1206-1238 | The same for the symbols of an expression, left to right, up to the first result. |
| CycleCheck.Checker.CheckAll | buildroot-2024.02.9/support/kconfig/zconf.y:553-558 | Nothing is reported if and only if no cycle exists; every report is one; and the number of errors counted is 0 either way. |
| CycleCheck.EvaluatorAcyclic | buildroot-2024.02.9/support/kconfig/symbol.c:1241-1273 | A check that reported nothing makes the evaluator's dependencies acyclic, if those it does not follow (imply, range bounds, a symbol's own "depends on") agree with its order. |
| ConfigText.SymEscapeStringValue | buildroot-2024.02.9/support/kconfig/symbol.c:962-1003 | The result is the escaped string in quotes, and the length counted beforehand is exactly one more than what is written. |
| ConfigText.UnescapeEscape | buildroot-2024.02.9/support/kconfig/confdata.c:162-176 | Decoding an escaped string, up to the closing quote, gives the string back, whatever follows. |
| BrokenStrings.StringRestoredIff | buildroot-2024.02.9/support/kconfig/confdata.c:125-193 | A string value comes back from the text written for it if and only if it holds no newline; otherwise no line that it falls into gives a value to any string symbol. |
| BrokenStrings.EmbeddedLineSets | buildroot-2024.02.9/support/kconfig/confdata.c:312-380 | Such a line can set another symbol: a value that holds a newline and the line for a bool, read back, sets the bool to y. |
| AssignedText.TriLine | buildroot-2024.02.9/support/kconfig/confdata.c:125-150 | What a line NAME=text sets for any text: for a bool or tristate the first letter decides, y and n for both, m for a tristate; any other text changes nothing. |
| AssignedText.TriValueLine | buildroot-2024.02.9/support/kconfig/confdata.c:125-150 | So NAME=y, NAME=m and NAME=n set these values. |
| AssignedText.NumberLine | buildroot-2024.02.9/support/kconfig/confdata.c:177-193 | An int or hex takes every text that is a number of its kind and no other. |
| AssignedText.StringLine | buildroot-2024.02.9/support/kconfig/confdata.c:162-193 | A string takes what stands between the opening and the closing quote, with backslashes before any characters, whatever follows. |
| AssignedText.UnquotedLine | buildroot-2024.02.9/support/kconfig/confdata.c:162-176 | Without such quotes nothing changes. |
| AssignedText.NotSetLine | buildroot-2024.02.9/support/kconfig/confdata.c:315-344 | A line "# NAME is not set" makes a bool or tristate n, and no other symbol. |
| AssignedText.UnknownLine | buildroot-2024.02.9/support/kconfig/confdata.c:315-370 | Lines for a name that no symbol has change nothing. |
| AssignedText.ReturnIgnored | buildroot-2024.02.9/support/kconfig/confdata.c:345-360 | A carriage return at the end of a line does not count. |
| AssignedText.ForeignLine | buildroot-2024.02.9/support/kconfig/confdata.c:315-370 | Lines and comments without the prefix change nothing. |
| AssignedText.WrittenLines | buildroot-2024.02.9/support/kconfig/confdata.c:486-507 | The lines as written: n as a comment, numbers plainly, strings in quotes. |
| ConfigText.LineRestores | buildroot-2024.02.9/support/kconfig/confdata.c:486-507 | One line: what was written for a symbol of any type gives it its value back, including "is not set". |
| ConfigText.FileRestores | buildroot-2024.02.9/support/kconfig/confdata.c:312-380 | Reading the lines written for any list of symbols with possible values restores all of them. |
| ConfigText.SavedExactly | buildroot-2024.02.9/support/kconfig/confdata.c:312-380 | If no symbol was written twice each one has exactly the value written, and no other symbol has gained or lost one. |
| ConfigReader.UnescapeInPlace | buildroot-2024.02.9/support/kconfig/confdata.c:165-176 | Decoding in the line buffer by shifting the rest of the text over each backslash leaves the decoded string there, ended by a NUL; it fails exactly without a closing quote. |
| ConfigReader.Reader.SetSymVal | buildroot-2024.02.9/support/kconfig/confdata.c:125-193 | The text at the pointer becomes the user value of the symbol if it is one for its type, and is refused otherwise. |
| ConfigReader.Reader.AddByte | buildroot-2024.02.9/support/kconfig/confdata.c:195-214 | The buffer grows when needed and keeps what it held. |
| ConfigReader.Reader.GetLine | buildroot-2024.02.9/support/kconfig/confdata.c:216-248 | Gives the next line with its newline and a NUL, or -1 exactly at the end of the file. |
| ConfigReader.Reader.UnsetLine | buildroot-2024.02.9/support/kconfig/confdata.c:315-344 | A line that starts with # unsets the bool or tristate it names, by the NULs written into it, or does nothing. |
| ConfigReader.Reader.AssignLine | buildroot-2024.02.9/support/kconfig/confdata.c:345-370 | A line with an = sign sets the symbol it names to the text up to the end of the line. |
| ConfigReader.Reader.ReadSimple | buildroot-2024.02.9/support/kconfig/confdata.c:312-402 | The whole loop: the user values afterwards are those of the file's lines, one after the other. |
| SymbolHash.HashOf | buildroot-2024.02.9/support/kconfig/symbol.c:832-839 | The loop computes the 32-bit FNV-1a hash. |
| SymbolHash.KnownHashes | buildroot-2024.02.9/support/kconfig/symbol.c:832-839 | It has the known values of that hash; a byte from 128 on counts with its sign. |
| SymbolHash.SymbolTable.Lookup | buildroot-2024.02.9/support/kconfig/symbol.c:841-880 | The buckets refine a map: a symbol of that name and kind is found if there is one, else made and added; y, m and n are the constants. |
| SymbolHash.SymbolTable.AtMostOne | buildroot-2024.02.9/support/kconfig/symbol.c:841-880 | No two symbols in the table share both name and kind. |
| SymbolHash.SymbolTable.Find | buildroot-2024.02.9/support/kconfig/symbol.c:882-907 | Finds the newest symbol of that name that is not a constant, or null exactly when there is none: so a named choice made later hides the ordinary symbol. |
| SymbolHash.SymbolTable.LookupAll | buildroot-2024.02.9/support/kconfig/symbol.c:841-880 | Over any sequence of lookups, on any table, of any names and of anonymous symbols: two of them give the same symbol if and only if they name the same constant or the same name and kind; every answer is what was asked for. |
| SymbolHash.SymbolTable.FindAgrees | buildroot-2024.02.9/support/kconfig/symbol.c:841-907 | sym_find and sym_lookup(name, 0) give the same symbol if and only if there is an ordinary one and no choice of that name is newer; for y, m and n always. |
| Crc.TableEntries | buildroot-2024.02.9/package/mkpimage/mkpimage.c:104-148 | All 256 entries of the table are what eight division steps make of their index. |
| Crc.ByteIsSteps | buildroot-2024.02.9/package/mkpimage/mkpimage.c:150-158 | One byte by way of the table is eight steps of the register. |
| Crc.FeedDivides | buildroot-2024.02.9/package/mkpimage/mkpimage.c:150-158 | Feeding a message to the 32-bit register digit by digit leaves the remainder of its long division. |
| Crc.CrcIsRemainder | buildroot-2024.02.9/package/mkpimage/mkpimage.c:150-158 | The table-driven checksum is the remainder on dividing the message, with the start value in its first 32 digits and 32 zeros behind it, by the polynomial of IEEE 802.3. |
| Crc.CrcComposes | buildroot-2024.02.9/package/mkpimage/mkpimage.c:150-158 | The checksum of two parts in a row goes on from that of the first. |
| Crc.Crc32 | buildroot-2024.02.9/package/mkpimage/mkpimage.c:150-158 | The loop computes that checksum of the bytes of the buffer. |
| BootImage.Branch | buildroot-2024.02.9/package/mkpimage/mkpimage.c:160-171 | The four bytes decode to the intended target, forwards and backwards, up to 32 megabytes away. |
| BootImage.PutChecksum | buildroot-2024.02.9/package/mkpimage/mkpimage.c:236-249 | The checksum field holds the sum of the header's bytes up to it. |
| BootImage.AddHeader | buildroot-2024.02.9/package/mkpimage/mkpimage.c:175-255 | Fails exactly for sizes that are no multiple of 4 and then changes nothing; otherwise the header is right and the CRC word then closes it, and nothing outside the two changes; where they do not overlap, validation word, version, lengths, entry, branches, byte sum and CRC word of the image all decode to what they should. |
| BootImage.AcceptedFits | buildroot-2024.02.9/package/mkpimage/mkpimage.c:262-332 | For every input length that is accepted the image size is a multiple of 4 under its limit, and header, trampoline and CRC word fit without overlap, if and only if it is not version 1 without barebox header and at most 84 bytes. |
| BootImage.TrampolineOverwritten | buildroot-2024.02.9/package/mkpimage/mkpimage.c:223-255 | Where the buffer ends right behind the branch the entry field leads to a word that is the CRC of all before it: the image is consistent if and only if that CRC happens to be the branch. |
| BootImage.ShortInputs | buildroot-2024.02.9/package/mkpimage/mkpimage.c:299-332 | Of the lengths accepted only 80 bytes, for version 1 without barebox header, leaves no room for the branch; 81 to 84 bytes leave no room for the CRC word. |
| BootImage.BareboxBranches | buildroot-2024.02.9/package/mkpimage/mkpimage.c:41-62 | The branch at the front of a barebox header leads to byte 512, the seven vectors behind it to themselves. |
| BootImage.BuildImage | buildroot-2024.02.9/package/mkpimage/mkpimage.c:299-359 | For every input: refused exactly by the limits on its length; no room exactly for the 80 bytes; else the image has the input wherever the header does not stand and is consistent, for 81 to 84 bytes in version 1 without barebox header if and only if the CRC is that one word. |

## Left out

- MenuFinalize.Finalize: selects and implies are not gathered into the other symbol's conditions, a symbol's own "depends on" is not extended, choice members are not entered into the choice's list (with the extra condition for bool members of tristate choices), and types are not set from the choice; each entry has one prompt.
- Rewriting.Rewriter.EliminateDups: nodes have no identity and nothing is freed, so what the model does not capture is a node reached from two slots at once; only slots are aliased.
- Evaluator.SymbolTable.CalcValue: the flags for writing and for changes, and the warning about unmet dependencies, do not influence values and are not kept; symbols of type "other" and the random setting of choice values are not part of this model.
- Evaluator.SymbolTable.SetTristateValue: stated for symbols outside choices; for members see Choices.
- Reload.SaveAndLoad: from values as evaluated, for symbols outside choices; values that hold a newline, which no line can, are treated in BrokenStrings. That user values out of range are dropped after loading is left out, and so is the count of differences.
- Choices.Choice.CalcGroup: members take their conditions from a given state instead of from the evaluator, because a choice and its members are calculated in the midst of each other.
- CycleCheck.Checker.CheckDeps: choices and their members are followed in the program by entering the whole group; here symbols are in no choice.
- ConfigReader.Reader.ReadSimple: only the reading of user values; a last line that is a lone # without newline is skipped, where the program would look behind the end of the line. Warnings, choice bookkeeping and the fallback to default files are left out.
- ConfigText.FileRestores: about the lines written for symbols; headings and menu comments between them are left out, since a prompt can be worded to look like an unset symbol.
- MenuWalk.Walk: what is written at each entry is left to ConfigText; the walk records the entry.
- BootImage.BuildImage: reading and writing files and the options are left out; words are stored with the lowest byte first.
- BootImage.AddHeader: demands a buffer that holds the header and the branch behind it; what becomes of the 80 bytes for which the program writes behind the end is not modelled.
- expr_print and the other printers of expressions, and lists and ranges as expressions: output, or treated as what they stand for.
- The grammar and the functions that build menus while parsing: the model starts from what they have built.
- The front ends, the search by regular expression, the random configuration, and the split and header forms of the written configuration.
- Memory that runs out, and buffers of a fixed size.
