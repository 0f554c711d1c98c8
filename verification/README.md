# Verification of the configuration tools, the boot-selector writer and mkhash

This project models five parts of the repository and proves what they are for.

* **Dependency expressions** (`scripts/config/expr.c`). A small optimiser over a three-valued logic (n, m, y)
  that rewrites trees in place. `Expr` defines expressions and their meaning in an environment; `ExprEq`,
  `ExprDups`, `ExprTransform` and `Nesting` give each rewriting as a function on trees and prove that it keeps the
  meaning, ends, and reaches a normal form; `ExprEqComplete` and `ExprEqExact` say which expressions are found equal,
  `ExprReduced` and `ExprLast` what is left when duplicates are eliminated. `ExprHeap`, `ExprCursors` and
  `ExprSimplifier` run the same rewritings on nodes in memory, with overwritten nodes, cursors into one shared tree and
  the global counter, and prove them equal to the functions. `ExprPrint` prints expressions and reads them back.
* **The menu tree** (`scripts/config/menu.c`, `scripts/config/confdata.c`). `MenuTree` says what the next, list and
  parent pointers stand for, `MenuLayout` what finalizing makes of a tree and of the conditions of its nodes and
  properties, `MenuChoices` what becomes of the values of choices; `MenuFinalize` does all of it on the pointers,
  `MenuWalk` is the walk without a stack, and `MenuRun` puts them together.
* **The macro language** (`scripts/config/preprocess.c`). `Macro` defines expansion, `MacroText` says
  how the text of a reference is taken apart, `MacroLaws` proves the laws of expansion, `MacroDefinition` says exactly
  when a text comes to need the variable it belongs to, and `Preprocess` is the scanning, counting implementation.
* **The boot-selector writer** (`package/rt3bcwrite.c`). `BootSelector` models the two flash copies with erases, reads
  and writes that may fail and leave anything behind, and proves what holds in every state passed through.
* **Hashing** (`scripts/mkhash.c`). `Sha256Spec` and `Md5Spec` are the definitions of FIPS 180-4 and RFC 1321,
  `Sha256Constants` proves that the constants are the roots of primes they should be, and `Sha256` and `Md5` are the
  buffered, unrolled implementations.

The environment of `Expr` stands for symbol evaluation, which is not part of this model. `Proper` says what is assumed
of it: y, m and n have their values and spellings, a bool symbol is never m, and a bool or tristate symbol reads as its
value. `SomeEnvironment` shows that there are such environments.

Joining a=B && a!=C into a=B is right only if the constants B and C denote different values: `JoinConstantsExact` has
the exact condition on their spellings. So the results about `EliminateDups` ask that the constants which the
expression itself compares a tristate with, by = or !=, and y, m and n denote different values (`ConstantsApart`, or
`Apart` for a set of constants), and ask nothing if it compares with y, m and n only.

A method whose effect is on memory is proved equal to a function, and the properties are lemmas about that function:
`EliminateDupsInPlace` and `EliminateDups`, `Finalize` and `Finalized`, `ExpandString` and `Expand`, `Transform` and
`Compress`.

Where code and documentation of the repository disagree, the code is followed:

* The comment at scripts/config/expr.c:246-250 promises that expressions with equal operands are found equal;
  `RepeatedOperandsAreNotFoundEqual` refutes it for repeated operands, and `EqualExactly` says what is found equal.
* The comment at scripts/config/expr.c:569 says that a!='m' && a!='n' becomes a='m'; the code, correctly, makes it
  a='y'.
* The comment at scripts/config/expr.c:659 keeps the first of two duplicates; the code keeps the last, so that
  A || B || A becomes B || A (`LastOnesStay`).
* The comments at package/rt3bcwrite.c:70-77 give the second copy exit codes of its own, but a failure there ends
  with the first copy's code plus 2 (line 427): 7 for a failed write, which is also the code for a failed first
  verification, 9 for a failed verification, 6 for a failed block read. `SetSelector` states what each code says.
  A 4 after the final reading (lines 432-433) does not mean that nothing was written.
* A := definition of a variable that refers to itself reads a released or unset value (scripts/config/preprocess.c:291
  and 299-310). The model reports that as the error `Undefined`; `SimpleDefinitionExactly` says when it happens.

## Model

| member | source | states |
|---|---|---|
| Expr.CompareLiteral | scripts/config/expr.c:1060-1102 | comparing a bool or tristate symbol with y, m or n comes down to comparing the two tristate values, through the string comparison the evaluator uses |
| Expr.CompareConstant | scripts/config/expr.c:1060-1102 | a bool or tristate symbol equals a constant exactly if the spelling of the constant, read as a number or as n, m or y, denotes the value of the symbol |
| Expr.NumbersCompare | scripts/config/expr.c:990-1102 | int symbols are compared as decimal numbers, hex symbols as hexadecimal ones modulo 2^64 and constants by their prefix, and each of the six relations holds exactly if it holds of the numbers |
| Expr.StringsCompare | scripts/config/expr.c:1060-1102 | strings, and what is not both a number, are compared in the order of a dictionary, for all six relations |
| Expr.TristatesCompare | scripts/config/expr.c:990-1102 | bool and tristate symbols are compared by value, n before m before y, for all six relations |
| Expr.SomeEnvironment | scripts/config/symbol.c:811-815 | the assumptions about environments can be met: because quoted symbols get no type, any values for the other symbols go together with constants that are all apart |
| Expr.ComparedWithLiteralsOnly | scripts/config/expr.c:495-588 | an expression that compares tristates with y, m and n only asks nothing more of the environment than that it is proper |
| Expr.AllocAnd | scripts/config/expr.c:52-57 | in every environment the conjunction has the smaller of the two values, an absent operand counting as y |
| ExprEq.EliminateYnKeepsValue | scripts/config/expr.c:316-400 | dropping the literals y and n from an and/or tree changes its value in no environment |
| ExprEq.EliminateYnShrinks | scripts/config/expr.c:316-400 | the result is no larger than the input, strictly smaller as soon as a literal was an operand, and a literal or free of literal operands |
| ExprEq.CancelPairsSound | scripts/config/expr.c:150-219 | the mutual walk of two trees finds one common value k with op(new1, k) = old1 and op(new2, k) = old2 |
| ExprEq.EliminateEqSound | scripts/config/expr.c:221-241 | the same for the whole elimination over an or level and then an and level below it |
| ExprEq.ExprEqualSound | scripts/config/expr.c:252-303 | expressions found equal have the same value in every environment |
| ExprEqComplete.CancelPairsComplete | scripts/config/expr.c:150-219 | after one walk no operand left on one side is found equal to an operand left on the other |
| ExprEqComplete.LiteralCancelsNothing | scripts/config/expr.c:165-170 | y and n as operands are never cancelled, whatever they meet |
| ExprEqComplete.EliminateEqComplete | scripts/config/expr.c:221-241 | the whole elimination leaves nothing common either at the level of the first expression or at that of the second |
| ExprEqComplete.EveryExprEqualsItself | scripts/config/expr.c:252-303 | equality is found for every expression and itself, although the two copies are rewritten while they are compared |
| ExprEqComplete.RepeatedOperandsAreNotFoundEqual | scripts/config/expr.c:246-250 | the more generous claim of the comment fails: a && a && b and a && b && b have the same value everywhere and are not found equal |
| ExprEqExact.CancelPairsExactly | scripts/config/expr.c:150-219 | of operands without y and n among them, the walk takes away exactly what the two sides have in common, each operand as often as both have it, and the same on both sides |
| ExprEqExact.EqualExactly | scripts/config/expr.c:252-303 | two expressions without y and n as operands are found equal if and only if they are the same up to the order and grouping of the operands of every level, however deep, repetitions counted |
| ExprEqExact.SymbolChainsEqual | scripts/config/expr.c:246-303 | for chains of symbols this means the same symbols equally often, where the comment speaks of the same symbols |
| ExprEqExact.SupersetExactly | scripts/config/menu.c:479-488 | cancelling leaves y of the second condition if and only if that is y or the first is an "and" with all its operands, as often; y and n as operands aside |
| ExprDups.JoinOrKeepsValue | scripts/config/expr.c:431-493 | every pair of operands that "or" replaces by one has the same value as that one, in every proper environment |
| ExprDups.JoinAndKeepsValue | scripts/config/expr.c:495-588 | the same for "and", where the constants compared by the two operands denote different values |
| ExprDups.JoinKeepsValue | scripts/config/expr.c:431-588 | where the constants compared by the two operands denote different values, every join keeps the value |
| ExprDups.JoinConstantsExact | scripts/config/expr.c:540-553 | the join of a=B && a!=C into a=B is wrong in some proper environment if and only if the spellings of B and C, read as numbers or as n, m or y, denote the same tristate value |
| ExprDups.JoinConstantsWrong | scripts/config/expr.c:540-553 | such spellings: '1' and '0x1', where a is m |
| ExprDups.WalkKeepsValue | scripts/config/expr.c:596-657 | one pass of the two cursors over one and the same tree keeps the value, and compares with no constants but those compared before and y, m and n |
| ExprDups.EliminateDupsKeepsValue | scripts/config/expr.c:664-687 | the repeated passes keep the value of every expression that compares tristates with y, m and n only, in every proper environment, and of every other expression wherever the constants it compares, and y, m and n, denote different values |
| ExprDups.JoinsLeaveLiterals | scripts/config/expr.c:659-687 | a pass that joined something leaves a literal operand behind, so the cleaning up that follows makes the tree smaller: the reason the loop ends |
| ExprReduced.JoinExactly | scripts/config/expr.c:431-588 | two operands are joined if and only if they are found equal or are one of the pairs named by their forms: under "or" two of a=y, a=m, a=n of a tristate, or a and !a of a bool; under "and" a with a=y, a!=n or a!=m, a=b with a!=c for constants, or two of a!=y, a!=m, a!=n |
| ExprReduced.PassReduces | scripts/config/expr.c:596-657 | a pass makes no join if and only if no two different operands of any level are such a pair, and then it changes nothing |
| ExprReduced.EliminateDupsReduces | scripts/config/expr.c:664-687 | the result has no such pair at any level that "and"s and "or"s lead to, and an expression without one is returned as it is |
| ExprLast.LastOnesStay | scripts/config/expr.c:664-687 | of a chain of symbols other than y and n, exactly the last occurrence of each is left, in order |
| ExprTransform.TransformKeepsValue | scripts/config/expr.c:694-849 | rewriting comparisons with y, m, n and moving negations inward keeps the value in every environment |
| ExprTransform.TransformNormal | scripts/config/expr.c:694-849 | the result has negations only directly above symbols other than y, m and n, and no bool symbol compared by = or != with one of them |
| ExprTransform.DeMorganWeight | scripts/config/expr.c:794-811 | the weight that doubles under a negation goes down when a negation moves inward although nodes are added: the reason the rewriting ends |
| ExprTransform.NormalIsFixed | scripts/config/expr.c:694-849 | an expression in that normal form is returned as it is |
| ExprTransform.TransformIdempotent | scripts/config/expr.c:694-849 | transforming twice is the same as transforming once |
| ExprTransform.EliminateDupsNormal | scripts/config/expr.c:664-687 | eliminating duplicates keeps the normal form |
| ExprTransform.TransBoolLowersToVisible | scripts/config/expr.c:402-426 | on normal forms the value never rises and is n exactly when it was n before |
| ExprTransform.TransBoolExactly | scripts/config/expr.c:402-426 | the value is that of the expression with every tristate a!=n read as a; no such comparison is left, and without one nothing changes |
| ExprTransform.TransBoolNeedsNormalForm | scripts/config/expr.c:402-426 | below a negation, which normal forms exclude, the value can rise |
| ExprTransform.RewriteMCapsM | scripts/config/menu.c:81-104 | the literal m is read as the smaller of m and MODULES; with MODULES not n nothing changes |
| ExprTransform.PropagateIsMinimum | scripts/config/menu.c:355-405 | an entry's condition below a parent condition is exactly the smaller of the two, wherever the constants that the two compare denote different values |
| ExprTransform.PropagateNormal | scripts/config/menu.c:355-405 | and it is in normal form, without operands that could be joined |
| Nesting.ComparedWithNo | scripts/config/expr.c:922-985 | the inserted comparisons with n are two-valued, the = and != forms are complements, and the != form is y exactly when the condition is not n with every negated m counted as n |
| Nesting.ComparedWithNoIsSound | scripts/config/expr.c:922-985 | so it is never y where the condition is n, and agrees with the condition wherever no negated symbol is m |
| Nesting.NegatedMIsMissed | scripts/config/expr.c:922-985 | where a negated symbol is m the comparison does miss a condition that is not n |
| Nesting.ComparedWithYes | scripts/config/expr.c:922-985 | the inserted comparisons with y are exact where no negated symbol is m |
| Nesting.ContainsExactly | scripts/config/expr.c:851-877 | an expression is found to contain exactly the symbols that occur in it |
| Nesting.NotContainedNotRead | scripts/config/expr.c:851-877 | an expression not found to contain a symbol has the same value whatever that symbol holds |
| Nesting.DependsExactly | scripts/config/expr.c:879-906 | an expression is found to depend on s if and only if some operand of its top-level "and" is s, s=y, s=m or s!=n |
| Nesting.DependsForcesNo | scripts/config/expr.c:879-906 | an expression found to depend on a bool or tristate symbol is n whenever the symbol is n |
| Nesting.CancelledIsImplied | scripts/config/menu.c:478-491 | if cancelling common parts leaves y of the second condition, the first is never above the second |
| Nesting.PreparedValue | scripts/config/menu.c:455-457 | the condition prepared for the superset test is n or y, and y exactly when the original is not n without a negated m |
| Nesting.PreparedNormal | scripts/config/menu.c:455-457 | and it is in normal form, without operands that could be joined |
| Nesting.GoesBelow | scripts/config/menu.c:462-490 | an entry is to go below a symbol if and only if its condition mentions the symbol and either an operand of its top-level "and" is s, s=y, s=m or s!=n, or cancelling it leaves y of the condition of the symbol |
| Nesting.GoesBelowSound | scripts/config/menu.c:455-491 | an entry put below a symbol because it depends on it is n whenever the symbol is; one put there by the superset test is n whenever the symbol's own prompt is, unless it rests on a negated m |
| ExprHeap.Copy | scripts/config/expr.c:66-105 | the copy denotes the same expression in nodes that are all new, and the original is untouched |
| ExprHeap.EliminateYnInPlace | scripts/config/expr.c:316-400 | overwriting the nodes leaves the tree that the value-level elimination gives, within the old nodes |
| ExprHeap.TransBoolInPlace | scripts/config/expr.c:402-426 | the same for the lowering of comparisons |
| ExprHeap.RewriteMInPlace | scripts/config/menu.c:81-104 | the same for the patched child pointers |
| ExprHeap.TransformInPlace | scripts/config/expr.c:694-849 | the same for the transformation, De Morgan steps included |
| ExprHeap.TransformNotInPlace | scripts/config/expr.c:730-845 | the cases below a negation, which reuse and add nodes |
| ExprCursors.Write | scripts/config/expr.c:596-657 | assigning through a cursor replaces exactly the operand it points to in the tree that both cursors walk |
| ExprSimplifier.Simplifier.CancelPairsInPlace | scripts/config/expr.c:150-219 | both trees become what the value-level walk gives, both cursors being advanced past rewritten nodes |
| ExprSimplifier.Simplifier.EliminateEqInPlace | scripts/config/expr.c:221-241 | the same for the whole elimination |
| ExprSimplifier.Simplifier.ExprEqualNodes | scripts/config/expr.c:252-303 | the answer is that of the value-level test, the compared trees stay as they are and the global counter is put back |
| ExprSimplifier.JoinOrNodes | scripts/config/expr.c:431-493 | the rules of the or join, tried on two nodes in the order of the code, come to the comparison that the value-level join gives, or to none |
| ExprSimplifier.JoinAndNodes | scripts/config/expr.c:495-588 | the same for the and join |
| ExprSimplifier.Simplifier.JoinNodes | scripts/config/expr.c:431-588 | a node is made if and only if the operands are equal or one of the named pairs, and it denotes the value-level join |
| ExprSimplifier.Simplifier.WalkInPlace | scripts/config/expr.c:596-657 | the aliased walk over one tree leaves the tree and the count that the value-level walk gives |
| ExprSimplifier.Simplifier.EliminateDupsInPlace | scripts/config/expr.c:664-687 | the endless-looking loop on the global counter ends with the value-level result, in which no two operands of a level are equal or one of the named pairs, and the counter is put back |
| ExprPrint.PrintedIsRead | scripts/config/expr.c:1138-1228 | every printed expression is read back by the grammar, regrouped to the left: the same expression exactly if it was grouped so before, and equal in every environment always |
| ExprPrint.AbsentIsReadAsY | scripts/config/expr.c:1142-1145 | an absent expression is printed as y and read back with the value it has |
| ExprPrint.RegroupedOperands | scripts/config/expr.c:1194-1203 | reading back changes neither the operands of a chain nor their order |
| ExprPrint.RegroupedValue | scripts/config/expr.c:1138-1228 | regrouping keeps the value in every environment |
| ExprPrint.UnaryRead | scripts/config/expr.c:1104-1136 | the parentheses are enough: an operand printed below a negation is read back as one operand whatever follows |
| ExprPrint.MoreRead | scripts/config/parser.y:88-92 | further operands of a chain are grafted one by one onto what has been read |
| MenuLayout.ConditionsSettle | scripts/config/menu.c:340-406 | for every linked tree there are conditions that hand down as the propagation does |
| MenuLayout.ConditionsAreMinima | scripts/config/menu.c:340-406 | with them every entry has exactly the smallest condition on the way from the top (a choice counting as itself), and every property of it, prompt or other, is never above the smaller of that and its own condition, is n just when one of them is, and equals it unless the symbol is not tristate: then its exact value is that with every tristate a!=n read as a |
| MenuLayout.PropertyIsMinimum | scripts/config/menu.c:394-405 | the same of a single property below a given condition |
| MenuLayout.FlattenedOrder | scripts/config/menu.c:541-583 | taking lists out of untitled nodes keeps the order of the file |
| MenuLayout.FlattenedExposed | scripts/config/menu.c:541-583 | and leaves no untitled node with a list |
| MenuLayout.FlattenedKeeps | scripts/config/menu.c:574-583 | a node that has a prompt with a text keeps exactly the list it had |
| MenuLayout.AbsorbedExactly | scripts/config/menu.c:458-501 | the siblings taken in all mention the symbol and demand it or cover its condition, as for GoesBelow; the first one left does not; and together they are the siblings there were, in order |
| MenuLayout.NotMentionedEnds | scripts/config/menu.c:463-465 | a sibling whose condition does not mention the symbol is not taken in, nor is anything after it |
| MenuLayout.FinalizedTakesIn | scripts/config/menu.c:432-501 | finalizing a symbol without a list takes in exactly such a stretch of siblings, judged by the condition of their prompts or else their own; any other node takes in none |
| MenuLayout.FinalizedOrder | scripts/config/menu.c:305-584 | through absorption and flattening the pre-order listing of the tree and its remaining siblings is what it was: nothing lost, duplicated or moved |
| MenuLayout.FinalizedExposed | scripts/config/menu.c:541-583 | after finalizing, no untitled node anywhere below has a list of its own |
| MenuLayout.FinalizedKeeps | scripts/config/menu.c:541-583 | a node that has a prompt with a text and a list still has one after finalizing |
| MenuLayout.OrderDistinct | scripts/config/menu.c:305-584 | in a linked tree no node occurs twice in that listing |
| MenuChoices.FinalizedRunLog | scripts/config/menu.c:305-584 | every node below is finalized exactly once, in the order of the file, also where it is taken in by an earlier sibling |
| MenuChoices.FinalizedRunOnce | scripts/config/menu.c:505-544 | in the end the conditions of a node are those handed down, or these joined once with one tristate choice being y, and then its symbol is not tristate and is a value of a choice |
| MenuChoices.ListRunExactly | scripts/config/menu.c:505-544 | the last loop over the list of a choice makes all its symbols values, and gives the condition to exactly the first node of each symbol that is not tristate, if the choice is and the symbol was not a value before |
| MenuChoices.FinalizedRunExactly | scripts/config/menu.c:505-544 | so it is after finalizing, and nothing finalized before or after takes a value away or changes the conditions of a node whose symbol is one |
| MenuChoices.UnderChoiceValue | scripts/config/menu.c:522-537 | the condition added to a value of a choice leaves the others as they are while the choice is y, and otherwise makes them n |
| MenuChoices.UnderChoiceValues | scripts/config/menu.c:528-537 | that is so of the condition of the node and of those of all its properties |
| MenuFinalize.Finalizer.Finalize | scripts/config/menu.c:305-584 | the pointers end up linked as the layout function says, with every parent pointer at the owner of its list; every node come to has its final conditions, those of values of choices included, and was finalized once, in its turn; the siblings that remain still await theirs |
| MenuFinalize.Finalizer.PropagateToChildren | scripts/config/menu.c:340-406 | every node of the list, and none below it, has what the parent hands down, and so has every property that its symbol got at this node |
| MenuFinalize.Finalizer.Receive | scripts/config/menu.c:355-405 | the loop over the properties gives each its condition and changes no other node |
| MenuFinalize.Finalizer.FinalizeChildren | scripts/config/menu.c:426-431 | the loop goes over the list while nodes of the list are moved below others |
| MenuFinalize.Finalizer.AbsorbSiblings | scripts/config/menu.c:432-501 | the following siblings that go below the symbol become the list of the node, and the rest stays linked behind it |
| MenuFinalize.Finalizer.ShownGoesBelow | scripts/config/menu.c:461-490 | a sibling is judged by the condition of its prompt or, without one, by its own |
| MenuFinalize.Finalizer.TakeInAll | scripts/config/menu.c:458-496 | the loop takes in siblings, each finalized with what it takes in itself, up to the first whose condition does not mention the symbol or neither demands it nor covers its condition |
| MenuFinalize.Finalizer.Adopt | scripts/config/menu.c:497-501 | the pointer surgery that makes a stretch of siblings a list |
| MenuFinalize.Finalizer.Flatten | scripts/config/menu.c:505-584 | the loop that also goes through the nodes it has just taken out makes each a value of the choice it is in and leaves no untitled node with a list |
| MenuFinalize.Finalizer.AddToChoice | scripts/config/menu.c:506-544 | a node in the list of a choice makes its symbol a value of the choice, only once, and gets the condition that values need |
| MenuFinalize.Finalizer.RequireChoice | scripts/config/menu.c:528-537 | its own condition and those of its properties are each joined with choice=y |
| MenuFinalize.Finalizer.Splice | scripts/config/menu.c:574-583 | the list of a node goes between the node and its next sibling, every parent pointer corrected |
| MenuWalk.Walk | scripts/config/confdata.c:871-915 | the loop without a stack ends and meets, and leaves, the nodes exactly as the recursive traversal does |
| MenuWalk.Climb | scripts/config/confdata.c:901-914 | its inner loop goes up to the next owner that has a later sibling, ending every menu it leaves |
| MenuWalk.VisitedIsOrder | scripts/config/confdata.c:871-915 | the nodes met are the pre-order listing |
| MenuWalk.LeavingIsPostOrder | scripts/config/confdata.c:901-914 | every node with a list is left once, after everything below it and before what follows it |
| MenuRun.FinalizeAndWrite | scripts/config/confdata.c:827-915 | a menu tree finalized from its root is written in the order of the file, every entry once, under settled conditions, joined with its choice being y where it is a value that is not tristate of one that is; afterwards only nodes with a prompt text have lists, and those that had one have one |
| Macro.CloseMatches | scripts/config/preprocess.c:467-483 | the parenthesis found is the first one before which as many are closed as are opened, and none is found only if there is no such |
| Macro.SplitJoins | scripts/config/preprocess.c:384-398 | joining the parts of a clause with commas gives the clause back |
| Macro.BudgetSpent | scripts/config/preprocess.c:251-277 | starting the expansion of a variable spends the budget of expansions that can still be nested: with the length of the text, the reason expansion ends |
| MacroText.ArgNumberExactly | scripts/config/preprocess.c:362-365 | a clause is the number k if and only if, behind white space, it is the decimal spelling of k, with naughts before it, a plus sign, or as a minus sign and what is missing to 2^64 |
| MacroText.SplitExactly | scripts/config/preprocess.c:367-400 | a clause is split at exactly those commas before which as many parentheses are closed as are opened |
| MacroText.SplitOfJoin | scripts/config/preprocess.c:367-400 | parts whose parentheses match and whose commas are inside them come out again when they are joined by commas |
| MacroText.CloseOfJoin | scripts/config/preprocess.c:467-483 | and the parenthesis behind them is the one that is found |
| MacroText.TokenCharExactly | scripts/config/preprocess.c:559-563 | a token is made of letters, digits, _, -, . and / |
| MacroLaws.PlainText | scripts/config/preprocess.c:495-537 | text without a dollar sign expands to itself |
| MacroLaws.PlainToken | scripts/config/preprocess.c:559-575 | as a token exactly the characters up to the first that cannot be part of one are taken |
| MacroLaws.LoneDollar | scripts/config/preprocess.c:459-467 | a dollar sign that no parenthesis follows stands for itself |
| MacroLaws.UnclosedFails | scripts/config/preprocess.c:467-483 | a reference that is never closed is an error |
| MacroLaws.ExpandPieces | scripts/config/preprocess.c:495-537 | a text cut anywhere but between $ and ( expands piece by piece |
| MacroLaws.ArgumentIs | scripts/config/preprocess.c:362-365 | a clause that is the number k of an argument stands for the k-th argument |
| MacroLaws.OtherClauseIs | scripts/config/preprocess.c:367-440 | any other clause is split, its parts are expanded in order, and the first is looked up with the others as arguments |
| MacroLaws.ReferenceIs | scripts/config/preprocess.c:346-537 | a reference by a plain name stands for the k-th argument if the name spells k, or else for what has that name, and the text after it goes on as by itself |
| MacroLaws.CallIs | scripts/config/preprocess.c:346-440 | a reference with parts joined by commas expands the parts and calls what the first names with the others as arguments, and the text after it goes on as by itself |
| MacroLaws.UserFunctionIs | scripts/config/preprocess.c:251-277 | a call of a recursive variable is the expansion of its text with the arguments of the call, also inside itself |
| MacroLaws.FunctionIs | scripts/config/preprocess.c:190-223 | each built-in function takes its own number of arguments, fewer or more being an error, and yields the file, the line, what the shell gives, an error or nothing |
| MacroLaws.UnknownNameIs | scripts/config/preprocess.c:418-440 | any other name is that of an environment variable, if no arguments are given, or stands for nothing |
| MacroLaws.TooDeepFails | scripts/config/preprocess.c:251-277 | beyond a thousand expansions of a variable inside each other a call is an error |
| MacroLaws.TooManyFails | scripts/config/preprocess.c:384-398 | so are more than sixteen commas between parts |
| MacroLaws.SelfReferenceFails | scripts/config/preprocess.c:251-264 | an instance: a text that refers to its own variable behind a part that expands |
| MacroLaws.CountersOnlyCut | scripts/config/preprocess.c:251-277 | expansion counters and missing values can only cut an expansion off with one of three errors; they never change what it yields |
| MacroLaws.ApplyOnlyCut | scripts/config/preprocess.c:418-444 | the same for what a name is looked up to be |
| MacroLaws.DefinitionKeepsOthers | scripts/config/preprocess.c:279-320 | a definition leaves every other variable alone, and gives the flavor it has; += makes a new variable recursive and keeps the flavor of another |
| MacroLaws.RecursiveDefinition | scripts/config/preprocess.c:304-307 | = stores the text as it is, whatever is in it, and cannot fail |
| MacroLaws.RecursiveReference | scripts/config/preprocess.c:251-277 | a reference to a recursive variable is the expansion of its text with the variables as they are then |
| MacroLaws.SimpleDefinition | scripts/config/preprocess.c:279-320 | a successful := gives the variable what its text expands to before the definition, and references yield that ever after, whatever other variables become |
| MacroLaws.SimpleSelfReference | scripts/config/preprocess.c:285-310 | a := whose text begins with a reference to the variable itself reads a value that is not there |
| MacroLaws.AppendedValue | scripts/config/preprocess.c:285-316 | += keeps the flavor: a simple variable gets the expansion appended, any other the text |
| MacroLaws.AppendedParts | scripts/config/preprocess.c:309-316 | an appended recursive value expands to the expansions of both parts with a space between: no reference reaches across |
| MacroDefinition.SelfReferenceExactly | scripts/config/preprocess.c:251-264 | a reference to a recursive variable ends in its self-reference error if and only if expanding its text comes to refer to it again without arguments, through whatever other variables, before it fails otherwise |
| MacroDefinition.BareAsking | scripts/config/preprocess.c:251-264 | the same of any text while the variable is being expanded |
| MacroDefinition.AskingFails | scripts/config/preprocess.c:251-277 | without the value of one variable an expansion fails exactly if it comes to apply that variable, and otherwise yields what it yields with the value |
| MacroDefinition.SimpleDefinitionExactly | scripts/config/preprocess.c:285-310 | a := reads a value that is not there if and only if expanding its text with the old variables comes to apply the variable itself; otherwise the variable gets exactly that old expansion, or the definition that error |
| Preprocess.Preprocessor.ExpandString | scripts/config/preprocess.c:495-537 | the scanning loop yields the expansion and the place where it ended, every counter restored on success |
| Preprocess.Preprocessor.ExpandDollar | scripts/config/preprocess.c:453-488 | a reference is delimited and evaluated as defined, or a lone dollar sign stands for itself |
| Preprocess.Preprocessor.FindClose | scripts/config/preprocess.c:467-483 | the counting loop finds the matching parenthesis or the end |
| Preprocess.Preprocessor.SplitClause | scripts/config/preprocess.c:384-398 | the loop over the clause yields its parts, or reports more than sixteen commas |
| Preprocess.Preprocessor.EvalClause | scripts/config/preprocess.c:346-440 | arguments by number, then variables, functions and the environment, in that order |
| Preprocess.Preprocessor.VariableExpand | scripts/config/preprocess.c:251-277 | the result is the defined one and on success every counter is as it was |
| Preprocess.Preprocessor.FunctionExpand | scripts/config/preprocess.c:202-223 | the table is searched by name and the number of arguments checked before the call |
| Preprocess.Preprocessor.EnvExpand | scripts/config/preprocess.c:64-88 | the value is that of the environment, and every variable used is remembered once with that value |
| Preprocess.Preprocessor.VariableAdd | scripts/config/preprocess.c:279-320 | the variables afterwards are those of the definition rules, or the error they give |
| BootSelector.Reassembled | package/rt3bcwrite.c:78-94 | four little-endian bytes make up the word they were taken from |
| BootSelector.PutLe32 | package/rt3bcwrite.c:87-94 | the four bytes are those of the word and no other byte changes |
| BootSelector.BootableBytes | package/rt3bcwrite.c:61-68 | a valid image begins with the bytes a0 a1 a2 a3, version 1 and eight records, has "rootfs" and a zero byte at 0x070 and b0 b1 b2 b3 at 0x14c |
| BootSelector.PatchedSelects | package/rt3bcwrite.c:266-276 | a valid image with only bytes 0x80 to 0x83 replaced is valid and has the new selector, because the record is forced to be number 5 and its selector to sit there |
| BootSelector.PatchedUnique | package/rt3bcwrite.c:266-276 | there is exactly one such image |
| BootSelector.SelectsPrefix | package/rt3bcwrite.c:217-223 | validity and selector depend on the first 336 bytes only, so the short read and the block read agree |
| BootSelector.CopyInfo.Parse | package/rt3bcwrite.c:155-186 | a structure is accepted exactly if it is valid, and then the selector of record 5 is known |
| BootSelector.CopyInfo.ReadStruct | package/rt3bcwrite.c:217-223 | a read either fails or judges the media as they are |
| BootSelector.CopyInfo.Transaction | package/rt3bcwrite.c:232-335 | success means the old copy was valid and is the same image with the selector replaced; refusals and read failures leave everything alone; the other copy is untouched in every state passed through; without faults it succeeds |
| BootSelector.CopyInfo.Reprogram | package/rt3bcwrite.c:278-330 | once the byte compare passes, parsing again and checking the selector cannot fail |
| BootSelector.SetSelector | package/rt3bcwrite.c:380-441 | in every state, including after any failed or torn erase or write, the old mtd2 is intact and valid or mtd3 is valid at the target; without faults both copies reach the target and only those that differed are written; refusals write nothing; what each exit code says about the media |
| BootSelector.WriteBoth | package/rt3bcwrite.c:401-441 | no erase of mtd2 is so much as tried before mtd3 has been read back and found at the target, with or without faults, and without faults these are the only erases and checks; what each exit code says about the media |
| BootSelector.FirstIsVerified | package/rt3bcwrite.c:401-428 | whatever is tried after the first copy has been set comes after its verification |
| BootSelector.VerifyBoth | package/rt3bcwrite.c:368-385 | without read faults the answer is whether both copies are valid at the value |
| BootSelector.Run | package/rt3bcwrite.c:337-445 | only --set with 0 or 1 touches the media, and all is said of the number on the command line itself: success puts it into both copies and changes nothing else, every state passed through boots at it or as before, copies that are invalid, or that disagree without --force-unequal, are refused and left as they are, without faults it succeeds, and --verify-only succeeds exactly if both copies have it |
| Sha256.RoundByUpdates | scripts/mkhash.c:450-502 | the updates of one RND line are one round of section 6.2.2 of FIPS 180-4 |
| Sha256Constants.PrimesInOrder | scripts/mkhash.c:462-479 | the table of primes begins with 2 and goes from each to the next, by the definition of a prime |
| Sha256Constants.ConstantsAreCubeRoots | scripts/mkhash.c:462-479 | the t-th round constant is the first 32 bits of the fractional part of the cube root of the t-th prime, as section 4.2.2 of FIPS 180-4 has it |
| Sha256Constants.InitialValueIsSquareRoots | scripts/mkhash.c:605-617 | the initial value has those of the square roots of the first eight, as in section 5.3.3 |
| Sha256.ConstantsAgree | scripts/mkhash.c:462-479 | the table of the program is that of the standard |
| Sha256.IndexRotates | scripts/mkhash.c:496-502 | the rotating indices move every working variable by one place |
| Sha256.ChRewritten | scripts/mkhash.c:450-451 | the rewritten choice function is that of section 4.1.2 |
| Sha256.MajRewritten | scripts/mkhash.c:450-451 | the rewritten majority function is that of section 4.1.2 |
| Sha256.RoundInPlace | scripts/mkhash.c:488-502 | changing two places of the rotating array is one round |
| Sha256.Transform | scripts/mkhash.c:458-563 | sixteen rounds at a time, with the schedule extended between them, is the compression of section 6.2.2 |
| Sha256.Context.Update | scripts/mkhash.c:621-659 | whatever the size of a piece, the context stands for everything hashed so far |
| Sha256.Context.Pad | scripts/mkhash.c:573-600 | the state becomes that of the message padded as in section 5.1.1, in one block or two |
| Sha256.Context.Final | scripts/mkhash.c:664-675 | the digest is that of the whole message, and the context is cleared |
| Sha256.Be64EncIs | scripts/mkhash.c:110-117 | the eight bytes, got by dividing and taking remainders by powers of two, are the big-endian form of the count |
| Sha256Spec.BigEndianIs | scripts/mkhash.c:98-117 | the k bytes written stand for n modulo 256^k, the most significant first |
| Sha256.PadTwo | scripts/mkhash.c:573-600 | a padding that does not fit takes two blocks, whose compression is that of the padded message |
| Sha256.HashFile | scripts/mkhash.c:715-728 | however the input arrives, the digest is the SHA-256 of the whole |
| Md5.CountsAdd | scripts/mkhash.c:315-319 | adding to the two counters with the carry test keeps lo + 2^29 hi equal to the number of bytes modulo 2^61 |
| Md5.LengthIs | scripts/mkhash.c:367-375 | the appended eight bytes are the length in bits modulo 2^64, least significant first |
| Md5Spec.LittleEndianIs | scripts/mkhash.c:367-396 | the k bytes written stand for n modulo 256^k, the least significant first |
| Md5.FRewritten | scripts/mkhash.c:150-152 | the rewritten F is that of section 3.4 of RFC 1321 |
| Md5.GRewritten | scripts/mkhash.c:150-152 | the rewritten G is that of section 3.4 |
| Md5.FourSteps | scripts/mkhash.c:160-163 | four STEP lines bring the registers back to their order and are four operations of section 3.4 |
| Md5.FirstRound | scripts/mkhash.c:212-219 | the named words, constants and shifts are those of the operations 0 to 7 |
| Md5.FirstRoundEnd | scripts/mkhash.c:220-227 | those of the operations 8 to 15 |
| Md5.SecondRound | scripts/mkhash.c:230-237 | those of the operations 16 to 23 |
| Md5.SecondRoundEnd | scripts/mkhash.c:238-245 | those of the operations 24 to 31 |
| Md5.ThirdRound | scripts/mkhash.c:248-255 | those of the operations 32 to 39 |
| Md5.ThirdRoundEnd | scripts/mkhash.c:256-263 | those of the operations 40 to 47 |
| Md5.FourthRound | scripts/mkhash.c:266-273 | those of the operations 48 to 55 |
| Md5.FourthRoundEnd | scripts/mkhash.c:274-281 | those of the operations 56 to 63 |
| Md5.Context.Block | scripts/mkhash.c:204-289 | the sixty-four STEP lines and the final additions are the processing of one block in section 3.4 |
| Md5.Context.Body | scripts/mkhash.c:188-297 | the unrolled block loop hashes all given blocks as section 3.4 says |
| Md5.Context.Hash | scripts/mkhash.c:310-342 | whatever the size of a piece, registers, buffer and counters stand for everything hashed so far |
| Md5.Context.Count | scripts/mkhash.c:315-321 | the counters stand for the new length, and the old fill of the buffer is known |
| Md5.Context.LastBlocks | scripts/mkhash.c:347-377 | the registers become those of the message padded as in sections 3.1 and 3.2, in one block or two |
| Md5.Context.End | scripts/mkhash.c:345-396 | the result is the digest of the whole message, and the context is cleared |
| Md5.HashFile | scripts/mkhash.c:700-713 | however the input arrives, the digest is the MD5 of the whole |

## Left out

- EliminateDupsKeepsValue: asks that compared constants denote different values also where no two of them are joined; for a single join `JoinConstantsExact` has the exact condition.
- ComparedWithNoIsSound: the second half needs that no negated symbol is m; the exact condition for all environments is the one of `ComparedWithNo`.
- EqualExactly: covers expressions without y and n as operands of "and" and "or"; with them, `ExprEqualSound` and `EveryExprEqualsItself` hold.
- SupersetExactly: covers conditions without y and n as operands of "and" and "or"; with them, `CancelledIsImplied` holds.
- LastOnesStay: covers chains of symbols other than y and n; of other expressions `EliminateDupsReduces` says what cannot be left.
- ComparedWithYes: covers conditions where no negated symbol is m; no caller asks for the comparison with y.
- ReferenceIs: covers fewer than 2^64 - 1 arguments, up to which strtoul gives the number that is written.
- SelfReferenceFails: covers one form of text; for all texts there is `SelfReferenceExactly`.
- SimpleSelfReference: covers texts that begin with the reference; for all texts there is `SimpleDefinitionExactly`.
- SimpleDefinitionExactly: asks that no other variable lacks its value, which holds between definitions that succeed.
- Be64EncIs: the encoder divides and takes remainders by powers of two where the source shifts and masks.
- E_LIST and E_RANGE nodes, the freeing of memory and the DEBUG_EXPR output of expr.c.
- expr_trans_compare against a symbol other than y, m and n, which no caller asks for; against m it leaves "and" and "or" as they are, and nothing is claimed about that value.
- Absent expressions (NULL) are modelled only where they can stand: at the top of a condition, not below an operator.
- sym_calc_value and the rest of symbol.c: what symbols currently hold is the environment.
- expr_print of nameless choice symbols and of quoted constants, whose printed names are not read back as the same symbol, and the widths and line breaks of expr_gstr_print.
- The bison tables: the grammar is the one of parser.y with its precedences, written as a recursive reader.
- In the menu tree conditions are values; the rewriting of their nodes in memory is the subject of `ExprSimplifier`.
- menu_finalize: the types that a choice and its values give each other, the list of values of a choice, what selects and implies do to other symbols, dir_dep, and all warnings.
- conf_write: symbol evaluation, flags and the text that is printed; a node is an event of the walk.
- do_shell and getenv are functions given from outside; what info, warning-if and error-if print is not modelled.
- eval_clause: arguments are a sequence, so nothing is claimed about the sixteen-slot array.
- rt3bcwrite: opening devices, ioctl numbers, option parsing, printed lines, reboot, the mock hooks, and the copy_info fields that only serve printing and comparison.
- Flash faults: an erase or write passes through arbitrary contents of its own partition and may fail, or claim success, with any bytes left in the erase block; a read fails or returns the media; `reliable` stands for a run without faults. The other partition and the bytes behind the erase block are never affected.
- mkhash: file handling, hexadecimal output and the choice of hash; be16dec and the packing of bytes by shifts are functions on words.
- User interfaces, image builders, packers and download scripts.
