# Frosted: a verified model

A Dafny model of the hard parts of the Frosted kernel and of the Kconfig library that configures
it, with proofs. `dafny verify dfyconfig.toml` checks the whole project.

Code that computes by recursion is modelled by functions, and the lemmas are about those. Code that
works in place (expression nodes, menu pointers, symbol flags, block headers, arrays, task lists,
cipher contexts) is modelled by classes and methods with loops; each of them is proved to do what
such a function says, and the properties are then proved of the function or kept as an invariant.

## Parts

- **Expressions** (`KconfigExpr`, `Expr*`): the optimiser over n, m and y. Specification: the value
  of an expression in an environment. A consistent environment is one in which boolean symbols are
  never m, strings of bool and tristate symbols spell their value, m only occurs with modules on,
  and constants are distinct. Cursors into a tree are slots of a chain of one operator
  (`ExprRegion`); `ExprNodes` and `ExprRewriter` do the same work on linked nodes. Against a second
  definition, the multiset of operands (`ExprKeys`), it is exact what is accepted, cancelled, shared and
  left over (`ExprReflexive`, `ExprShares`, `ExprSettled`).
- **Symbols** (`Symbol*`): cycle detection, values over an acyclic graph, the memoised calculation,
  what the values are in terms of prompts, defaults and selects (`SymbolDefaults`), and what becomes of
  values set by the user.
- **Menus** (`Menu*`): `menu_finalize` as a rearrangement of a tree (`MenuTree`, `MenuShape`), on linked
  entries, and what its implication test means (`MenuInside`) and takes (`MenuImplied`).
- **Configuration files** (`ConfText`, `ConfNumbers`, `ConfBuffer`): writing and reading back, on text
  and on zero-terminated buffers, and which values are taken.
- **Allocator** (`Malloc*`): the pool as a list of blocks, all its runs, the headers in memory with
  next and prev links, and the class that refines the list.
- **Timers** (`TimerSlots`, `TimerDelete`, `TimerHeap`, `KernelTimers`): the heap, when a deletion keeps
  its order, and the tasklet that fires timers.
- **Pipes** (`CirBuf`, `Pipe`): the ring buffer as a queue, and all runs of a reader and a writer.
- **Scheduler** (`TaskLists`, `TaskTurns`, `Scheduler`): the two task lists and the steps between them.
- **Path lookup** (`VfsPath`, `VfsLookup`, `VfsNodes`): finding a node by its path, what is not found,
  and writing the path of a node.
- **Ciphers** (`CryptoWords`, `Sha256*`, `Sha*`, `Aes*`): SHA-256 against FIPS 180-4; AES-256 against FIPS
  197 and CBC against section 6.2 of NIST SP 800-38A. The specifications are tied to where the standards
  take them from: the constants to the roots of primes (`ShaConstants`), the S-box to inverses in the field
  (`AesField`), and both to published examples (`ShaVector`, `AesVector`).
- **Shared notions**: `Sequences` and `Machine`.

## What the code does not do

The model follows the code where the code falls short of what one would expect of it. Each of these
has a proof of when it happens.

- The excluding rule of `expr_eliminate_dups2` is two-valued. The loop keeps every value but m
  (`EliminateDupsKeepsValue`); an m can be lost (`ThreeValuedLoss`), at one store exactly when the
  operands it stands among are m (`ExcludeLeafExact`).
- `expr_trans_compare` computes in two-valued logic (`TransCompareTwo`) and is right exactly where that
  agrees with the value (`TransCompareExact`). What `menu_finalize` concludes from it holds in that logic
  (`ImpliedByTwo`); where a negated part is m, it can put an entry below one that is hidden while the
  entry is not (`TakenTooLoosely`).
- `expr_eq` looks through order and grouping where no operand is y or n, and there exactly (`ExprEqExact`).
  With y or n inside operands it is not transitive (`NotTransitive`), and an expression can be refused
  with its operands in another order (`OrderMatters`).
- Two disjunctions are never recognised as implying each other when entries are put below one another,
  even if they are the same (`DisjunctionExact`).
- A dependency cycle is always reported, but the loop over all symbols never counts it as an error,
  because the outermost call always returns null (`CheckAll`).
- Setting a tristate to its present value skips the range test (`SetToCurrent`).
- A menu title that begins with "CONFIG_X is not set" is read back as a setting if X is a bool or
  tristate symbol, and changes it if it is not n yet (`TitleTaken`).
- `split_block` leaves the prev link of the next block as it was, so prev undoes next afterwards
  exactly if the block was the last (`SplicedPrev`); merging along a stale link loses blocks
  (`StalePrevLoses`). `f_malloc` and `f_free` never read prev.
- `f_sbrk` takes an int. If size and header come to 2^31 or more and memory is granted all the same, the
  block granted is larger than the memory behind it; nothing else in `f_malloc` breaks the pool
  (`MallocKeepsInv`), and `WrappedGrant` says which of these sizes are granted. A double free is counted twice
  (`DoubleFreeMiscounts`).
- `heap_delete` can lose heap order, though not the minimum in front. For which sizes and slots it does
  is known exactly (`DeleteKeepsOrderExactly`).
- `ktimers_check_tasklet` takes out what is first after the handler has run. If the handler added a timer
  that expires earlier, that one goes unfired and the handler runs again (`FireFirst`).
- A blocking pipe write that has gone in partly never completes: the loop compares the offset with
  the room that is left, not with the offset plus the room (`PartialWriteNeverCompletes`).
- `task_terminate` calls `task_resume_vfork` on the child (kernel/scheduler.c:2402), so the parent stays
  forked (`Terminate`). Neither it nor `task_stop` has a guard for the kernel task (`Terminate`, `Stop`).
- A path with two slashes in a row inside is never found (`DoubledSlashMisses`).
- `fno_fullpath` drops an ancestor whose name does not fit without an error (`AncestorPassedOver`) and
  writes its zero byte one place late, so it needs two bytes more than it is told.

## Model

| member | source | states |
|---|---|---|
| ExprYn.EliminateYnKeepsValue | kconfig/expr.c:231-312 | dropping y and n operands keeps the value in every environment, even an inconsistent one |
| ExprYn.EliminateYnComplete | kconfig/expr.c:231-312 | no y or n is left below an AND or OR |
| ExprYn.EliminateYnStable | kconfig/expr.c:231-312 | an expression without such operands is not touched |
| ExprYn.EliminateYnSize | kconfig/expr.c:231-312 | the result is never bigger, and of equal size exactly if there was nothing to drop |
| ExprEquality.CancelFactors | kconfig/expr.c:130-162 | one cancellation pass keeps a common factor C: in every environment each old tree is C op the new one |
| ExprEquality.SameRestSameValue | kconfig/expr.c:164-184 | two trees that leave the same rest after both phases have the same value everywhere |
| ExprEquality.ExprEqSound | kconfig/expr.c:189-229 | expressions that expr_eq accepts have the same value in every environment, through the mutual recursion |
| ExprKeys.ExprEqExact | kconfig/expr.c:189-229 | where no operand is y or n, expr_eq accepts exactly the expressions that are the same up to the order and the grouping of operands |
| ExprKeys.ChainEqExact | kconfig/expr.c:200-211 | two chains of one operator that may have y and n in them are accepted exactly if both have an operand that absorbs the others, or none has and the other operands are the same |
| ExprKeys.ExprEqRegroups | kconfig/expr.c:200-211 | so an expression is accepted with its operands turned around or bracketed differently |
| ExprReflexive.ExprEqReflexive | kconfig/expr.c:189-229 | every expression, y and n included, is accepted against itself |
| ExprOrder.NotTransitive | kconfig/expr.c:189-229 | with y or n inside operands expr_eq is not transitive: (B OR n) AND (C OR n), B AND (C OR n) and B AND C |
| ExprOrder.OrderMatters | kconfig/expr.c:189-229 | so a disjunction of these three is not accepted against the same three in another order |
| ExprReflexive.SelfCancels | kconfig/expr.c:130-162 | cancelling part of a chain against the chain takes out that part where it stands, if nothing in front of it is left |
| ExprKeys.CancelLive | kconfig/expr.c:130-162 | one cancellation pass takes from each chain exactly the operands it shares with the other, counting repetitions |
| ExprEquality.CancelledImplies | kconfig/expr.c:164-184 | if nothing of e2 is left, e1 is never above e2, whatever the operators of both trees and in both phases |
| ExprKeys.EliminateEqExact | kconfig/expr.c:164-184 | nothing is left of a chain exactly if the other one has all its operands |
| ExprTransform.Transform | kconfig/expr.c:636-771 | terminates: the weight that doubles at NOT never grows, which pays for the repeated self-calls |
| ExprTransform.TransformKeepsValue | kconfig/expr.c:636-771 | keeps the value in every consistent three-valued environment |
| ExprTransform.TransformNormal | kconfig/expr.c:636-771 | in the result NOT stands only above named symbols, and no boolean comparison with a constant is left |
| ExprTransform.TransformFixesNormal | kconfig/expr.c:636-771 | expressions of that form are not touched |
| ExprTransform.TransformIdempotent | kconfig/expr.c:636-771 | a second run changes nothing; the normal forms are exactly the fixed points |
| ExprJoin.RuleOrKeepsValue | kconfig/expr.c:346-408 | every rule of expr_join_or keeps the value of the disjunction in every consistent environment |
| ExprJoin.RuleAndKeepsValue | kconfig/expr.c:410-502 | every rule of expr_join_and keeps the value of the conjunction in every consistent environment |
| ExprJoin.RuleAndTristateKeepsValue | kconfig/expr.c:442-499 | the rules for two comparisons of one tristate symbol, and the combinations of = and !=, keep it too |
| ExprJoin.JoinKeepsValue | kconfig/expr.c:346-502 | whatever either join function returns has the value of its two operands taken together |
| ExprJoin.ComparisonsJoin | kconfig/expr.c:346-502 | two comparisons of one tristate symbol with different constants join into the comparison with the third, in either order |
| ExprJoin.EqualUnequalJoin | kconfig/expr.c:410-502 | s = c and s != d join into s = c, or into n if c is d, for all constants and in either order |
| ExprJoin.SymbolJoins | kconfig/expr.c:346-502 | a symbol joins with the comparisons that follow from it or sharpen it, and a boolean symbol with its negation |
| ExprExtract.ExtractEqSplits | kconfig/expr.c:848-875 | collected part and remainders make up both trees again: e op acc keeps its value on both sides |
| ExprExtract.ExcludesSound | kconfig/expr.c:556-610 | if the test of the second pass succeeds, one operand is beyond the negation of the other |
| ExprExtract.ExcludesExact | kconfig/expr.c:577-597 | the rule behind that test is right in exactly the environments in which not both operands are m |
| ExprShares.ExtractShares | kconfig/expr.c:848-875 | of two chains without an operand that absorbs the others, expr_extract_eq collects exactly the operands they share and leaves each the others, counting repetitions |
| ExprShares.WholeExtracted | kconfig/expr.c:826-875 | so, where no operand is y or n, nothing is left of the first exactly if the second has all its operands |
| ExprShares.ExcludesIncludes | kconfig/expr.c:556-610 | the test of the second pass succeeds exactly if the other operand has all operands of the negation |
| ExprRegion.PutTwoValue | kconfig/expr.c:529-547 | two stores through different leaves of a chain of one operator keep its value if the two values together are kept |
| ExprRegion.PutOther | kconfig/expr.c:504-554 | a store through one leaf slot is not seen through another |
| ExprDups.Dups1 | kconfig/expr.c:504-554 | terminates with its inner calls, keeps the shape of the region the cursors walk over, never adds weight, and removes some whenever it counts |
| ExprDups.Dups2 | kconfig/expr.c:556-610 | the same for the second pass, which takes away weight exactly when it counts |
| ExprDups.RoundProgress | kconfig/expr.c:612-634 | every round of the loop ends without stray y and n, and a counted round shrinks the tree: the loop terminates |
| ExprDupsSound.Dups1KeepsValue | kconfig/expr.c:504-554 | the joining pass keeps the value in every consistent three-valued environment |
| ExprDupsSound.Dups2Sharpens | kconfig/expr.c:556-610 | the excluding pass keeps every value but m in every consistent three-valued environment |
| ExprDupsSound.ExcludeLeafExact | kconfig/expr.c:577-597 | when its test fires, the store keeps the value of the region in exactly the environments where that is not m |
| ExprDupsSound.EliminateDupsKeepsValue | kconfig/expr.c:612-634 | the whole loop keeps the value in every consistent environment wherever it is not m, and everywhere if the excluding rule never fires |
| ExprDupsSound.EliminateDupsTwoValued | kconfig/expr.c:612-634 | in particular it keeps the value wherever no symbol of the expression is m |
| ExprDupsSound.EliminateDupsComplete | kconfig/expr.c:612-634 | the result is a fixed point: neither pass finds anything more, and a second run changes nothing |
| ExprSettled.Dups1Exact | kconfig/expr.c:504-554 | the first pass counts nothing exactly if no two operands below the cursors join, nor any within an operand |
| ExprSettled.Dups2Exact | kconfig/expr.c:556-610 | the second pass counts nothing exactly if no operand excludes another one or a group of them |
| ExprSettled.RoundExact | kconfig/expr.c:612-634 | the loop stops exactly where neither is the case |
| ExprSettled.EliminateDupsSettles | kconfig/expr.c:612-634 | its result has no such operands, and exactly the expressions without them are not touched |
| ExprDupsExample.ThreeValuedLoss | kconfig/expr.c:577-586 | (A OR n) AND NOT A becomes n although it is m when A is m: the excluding rule is two-valued |
| ExprCompare.TransCompareTwo | kconfig/expr.c:877-936 | against y or n the comparison computes, for every expression and environment, what two-valued logic makes of the expression |
| ExprCompare.TransCompareExact | kconfig/expr.c:877-936 | so it says whether the expression has that value exactly where two-valued logic gets that right |
| ExprCompare.TwoComparable | kconfig/expr.c:877-936 | two-valued logic gets it right wherever nothing negated is m |
| ExprCompare.TransCompareValue | kconfig/expr.c:877-936 | there the comparison says, as y or n, whether the expression has the value |
| ExprCompare.NotCompareExact | kconfig/expr.c:908-909 | above a part without a negated m, the comparison of a negation is right exactly when the part is not m |
| ExprCompare.TwoSided | kconfig/expr.c:877-936 | above plain symbols two-valued logic errs on one side only: what it takes for visible is not n |
| ExprCompare.ImpliedByTwo | kconfig/menu.c:342-360 | an entry that passes the implication test implies the upper one in two-valued logic, in every consistent environment |
| ExprCompare.ImpliedByCorrect | kconfig/menu.c:342-360 | if only plain symbols or nothing that is m is negated in the upper condition, that is not n wherever two-valued logic makes the entry visible, and wherever the entry is visible and nothing negated in its own condition is m |
| ExprCompare.ContainsFrames | kconfig/expr.c:773-795 | an expression that does not contain a symbol keeps its value when only that symbol changes |
| ExprCompare.DependsCorrect | kconfig/expr.c:797-824 | an expression that depends on a symbol contains it, and is n whenever the symbol is, in three-valued and in two-valued logic |
| ExprCompare.DependsExact | kconfig/expr.c:797-824 | the test succeeds exactly if one conjunct is the symbol, symbol = y, symbol = m or symbol != n |
| ExprCompare.TransBoolKeepsNo | kconfig/expr.c:317-341 | the rewrite for non-tristate symbols never changes what is n, and can only lower y to m |
| ExprCompare.TransBoolExact | kconfig/expr.c:317-341 | no comparison != n of a tristate symbol is left, and exactly the expressions without one are not touched |
| ExprNodes.CopyNodes | kconfig/expr.c:62-97 | a copy is made of new nodes only and stands for the same expression |
| ExprNodes.EliminateYnNodes | kconfig/expr.c:231-312 | rewriting the nodes in place yields the tree of the specification and takes in no node from outside |
| ExprNodes.TransformNodes | kconfig/expr.c:636-771 | the node returned stands for the transformed tree; only nodes of the tree and new ones are touched |
| ExprNodes.PushNot | kconfig/expr.c:715-732 | De Morgan in place: one new node, and the old operator node becomes the first NOT |
| ExprRewriter.Rewriter.CancelNodes | kconfig/expr.c:130-162 | both trees are cancelled in place, stay apart, and trans_count goes up once for each pair removed |
| ExprRewriter.Rewriter.EliminateEqNodes | kconfig/expr.c:164-184 | both phases and the clean-up in place, with the exact count |
| ExprRewriter.Rewriter.ExprEqNodes | kconfig/expr.c:189-229 | works on copies: answers as specified, changes neither tree, and puts trans_count back |
| ExprRewriter.Rewriter.ExtractNodes | kconfig/expr.c:848-875 | both trees lose in place what they share; the flag says whether anything was found |
| ExprJoinNodes.JoinOr | kconfig/expr.c:353-407 | the tests of kinds and symbols on the nodes find exactly the rule for a disjunction and build its result |
| ExprJoinNodes.JoinAnd | kconfig/expr.c:417-501 | the same for a conjunction |
| ExprRewriter.Rewriter.JoinNodes | kconfig/expr.c:346-502 | null exactly when no rule applies, else a new tree for the joined expression; operands stay as they are |
| ExprRewriter.Rewriter.ExcludesNodes | kconfig/expr.c:577-597 | the test is carried out on copies and leaves tree and counter alone |
| ExprRewriter.Rewriter.Dups1Nodes | kconfig/expr.c:504-554 | the joining pass through cursors into the tree does what its specification says and counts exactly |
| ExprRewriter.Rewriter.Dups2Nodes | kconfig/expr.c:556-610 | the same for the excluding pass |
| ExprRewriter.Rewriter.EliminateDupsNodes | kconfig/expr.c:612-634 | the loop runs until a round counts nothing; the tree is the specified one and trans_count is put back |
| SymbolGraph.AcyclicListed | kconfig/symbol.c:1153-1216 | the graph of reverse-dependency, visibility and default edges has no cycle exactly if its symbols can be listed so that each comes after all it depends on |
| SymbolGraph.SymbolsOccur | kconfig/expr.c:773-795 | the symbols followed for an expression are exactly those expr_contains_symbol finds in it |
| SymbolGraph.EdgeMeans | kconfig/symbol.c:1184-1212 | a symbol depends exactly on what occurs in its reverse dependencies, in the conditions of its properties except select and choice, and in the expressions of its defaults |
| SymbolGraph.RankDescends | kconfig/symbol.c:293-440 | over a graph without cycles every dependency leads to a symbol of smaller rank, so that the calculation ends |
| SymbolCheck.Checker.CheckDeps | kconfig/symbol.c:1255-1287 | keeps the invariants of the search: every flag SYMBOL_CHECK is on the stack, every report is a real cycle, and a symbol passed silently has everything it reaches in order |
| SymbolCheck.Checker.CheckSymDeps | kconfig/symbol.c:1184-1216 | the symbol on the stack is left with all its edges followed, or something was reported |
| SymbolCheck.Checker.CheckExprDeps | kconfig/symbol.c:1153-1181 | the same for every symbol of an expression |
| SymbolCheck.Checker.PrintRecursive | kconfig/symbol.c:1081-1151 | adds one report, which is a cycle of the graph through the symbol met again |
| SymbolCheck.Checker.CheckAll | kconfig/zconf.tab.c_shipped:2314-2317 | after all symbols were checked nothing has been reported if and only if the graph is acyclic; every report is a cycle; no flag SYMBOL_CHECK remains; and the result counted as an error is never set |
| SymbolValues.DefaultProp | kconfig/symbol.c:115-125 | a default that is chosen is one of the symbol's defaults |
| SymbolValues.CalcAgrees | kconfig/symbol.c:293-440 | the value, visibility and reverse dependency of a symbol look at nothing but the symbols it has edges to |
| SymbolValues.ValueEquation | kconfig/symbol.c:293-440 | over a graph without cycles, which is what the dependency check establishes, the values solve the equations of the code |
| SymbolDefaults.VisibleMeans | kconfig/symbol.c:189-199 | a symbol is visible exactly if the condition of some prompt is not n, and visible as y exactly if one is y, or not n where the symbol cannot be m |
| SymbolDefaults.RevDepMeans | kconfig/symbol.c:215-219 | the reverse dependency is the value of its expression, n without one, with m raised to y where the symbol cannot be m |
| SymbolDefaults.DefaultValue | kconfig/symbol.c:355-384 | without a user value that counts, the value is the minimum of expression and condition of the first default whose condition is not n, at least the reverse dependency, and m is raised to y where the symbol cannot be m |
| SymbolDefaults.NoDefaultValue | kconfig/symbol.c:355-384 | if there is no such default, it is the reverse dependency |
| SymbolDefaults.UserValue | kconfig/symbol.c:341-384 | with a user value it is the minimum of that and the visibility, at least the reverse dependency, raised in the same way |
| SymbolDefaults.TextDefault | kconfig/symbol.c:385-403 | a string or number without a user value takes the string of the symbol in the first default whose condition is not n |
| SymbolDefaults.TextOtherwise | kconfig/symbol.c:385-403 | and otherwise the user value, or the empty string if there is none |
| SymbolUser.OthersKeep | kconfig/symbol.c:493-527 | a symbol that does not reach s keeps its value when s is set |
| SymbolUser.BoundsKeep | kconfig/symbol.c:189-227 | setting s does not move its own visibility and reverse dependency |
| SymbolUser.SetTristate | kconfig/symbol.c:293-415 | the set value is the value exactly if it lies between the bounds, or is the lower one, and is not m for a symbol that is only y or n; an invisible symbol ignores it |
| SymbolUser.SetToCurrent | kconfig/symbol.c:493-527 | setting a symbol to its present value skips the range test; the value then survives exactly if it is not above the visibility, is the lower bound, or the symbol is invisible |
| SymbolUser.InvisibleIgnores | kconfig/symbol.c:339-384 | an invisible symbol ignores what the user set |
| SymbolUser.AcceptedValueSticks | kconfig/symbol.c:474-527 | over a graph without cycles a value within range is the value after recalculation, symbols that do not reach it keep theirs, and modules_val stays right if modules_sym does not reach it |
| SymbolUser.ValuesConsistent | kconfig/symbol.c:293-440 | calculated values form a consistent environment, so what is shown of the rewriter holds of them |
| SymbolCalc.Calculator.CalcValue | kconfig/symbol.c:293-440 | the memoised calculation ends in the specified value for the symbol, whatever was calculated before, and keeps every memo right |
| SymbolCalc.Calculator.CalcVisible | kconfig/symbol.c:189-205 | the first half of the visibility: the maximum over the prompts |
| SymbolCalc.Calculator.CalcRevDep | kconfig/symbol.c:206-226 | the second half: the reverse dependencies |
| SymbolCalc.Calculator.CalcTristate | kconfig/symbol.c:339-384 | the boolean and tristate case, from user value, defaults and reverse dependencies |
| SymbolCalc.Calculator.OwnString | kconfig/symbol.c:385-403 | the string, int and hex case |
| SymbolCalc.Calculator.FindDefault | kconfig/symbol.c:115-125 | finds the first default whose condition is not n |
| SymbolCalc.Calculator.CalcExpr | kconfig/expr.c:938-977 | calculates the symbols it meets and returns the value of the expression |
| MenuTree.Finalize | kconfig/menu.c:282-444 | keeps the order of all entries, whatever the dependency tests answer, and terminates |
| MenuTree.Absorb | kconfig/menu.c:346-366 | entries taken over and entries left behind are the old ones in the old order |
| MenuTree.AbsorbIsMaximal | kconfig/menu.c:346-366 | every entry taken over passes the test and the first one left does not |
| MenuTree.Hoist | kconfig/menu.c:375-425 | making entries below an entry without a text its siblings keeps the order |
| MenuTree.FinalizeHeaded | kconfig/menu.c:375-425 | below a finalized entry only entries with a prompt text have entries below them |
| MenuTree.WholeMenu | kconfig/menu.c:282-444 | from the root no entry is lost, added or moved in the order |
| MenuShape.HoistExact | kconfig/menu.c:375-425 | an entry stands among the siblings with a list below it exactly if it was one of them and keeps the list, or loses it for want of a prompt text, or was below such an entry |
| MenuShape.FinalizeOwn | kconfig/menu.c:339-425 | an entry with entries of its own takes over nothing, and neither does one without a symbol |
| MenuShape.FinalizeTakesOver | kconfig/menu.c:341-371 | a symbol with nothing below it takes over the entries behind it up to the first that does not belong below it |
| MenuNodes.Finalizer.HoistOne | kconfig/menu.c:415-424 | the list below an entry is spliced in behind it and gets the new parent |
| MenuNodes.Finalizer.HoistAll | kconfig/menu.c:375-425 | the loop over the list rewires next, list and parent as specified |
| MenuNodes.Finalizer.TakeAll | kconfig/menu.c:345-366 | entries taken over are finalized once each, and then name their new parent |
| MenuNodes.Finalizer.TakeOver | kconfig/menu.c:341-371 | after relinking, the entries taken over are the list of the parent and the others its siblings |
| MenuNodes.Finalizer.MenuFinalize | kconfig/menu.c:282-444 | the pointers form the specified tree, every parent pointer names the actual parent, and each entry of the new list was finalized exactly once |
| MenuNodes.Finalizer.FinalizeRoot | kconfig/zconf.tab.c_shipped:2313 | from the root: same entries in the same order, each finalized exactly once, all parents right, no untitled entry with entries below it |
| MenuInside.NullIsYes | kconfig/menu.c:342-344 | the condition of a parent without a visibility expression comes out as y |
| MenuInside.InsideMeans | kconfig/menu.c:346-361 | an entry that belongs below another one is visible in two-valued logic only where the symbol of the other is not n or the other is so visible |
| MenuInside.ShowsMeans | kconfig/menu.c:342-361 | where nothing negated is m, being visible in two-valued logic is being visible; where only plain symbols are negated, it implies that |
| MenuInside.TakenOverMeans | kconfig/menu.c:346-366 | so is every entry that menu_finalize takes from behind a symbol; under the same conditions on negations it is never visible where the upper entry is not |
| MenuInside.TakenTooLoosely | kconfig/menu.c:352-360 | where a negated part is m it can be: an entry that depends on NOT A passes below one visible if A=n, and with A being m only the entry is visible |
| MenuImplied.InsideExact | kconfig/menu.c:346-361 | of two conjunctions, or a conjunction and one condition, an entry belongs below the other exactly if it mentions its symbol and either depends on it or has all conjuncts of the upper condition |
| MenuImplied.UnconditionalExact | kconfig/menu.c:342-361 | below an entry that is always visible belongs exactly what mentions its symbol |
| MenuImplied.DisjunctionExact | kconfig/menu.c:346-361 | if both conditions are disjunctions, exactly what depends on the symbol: an entry with the very condition of the upper one is not recognised by it |
| ConfText.UnquoteUndoes | kconfig/confdata.c:155-170 | taking the escapes off gives any string back, whatever follows the closing quote |
| ConfText.WrittenLineRestores | kconfig/confdata.c:623-642 | reading the line that was written for a symbol restores its value and changes no other, for every bool, tristate, valid int and hex, and every string without newline |
| ConfText.FileRestores | kconfig/confdata.c:311-377 | reading a whole written file sets every symbol as written and nothing else, if no menu title reads like a symbol that is not n at that point |
| ConfText.SettingsOfSymbol | kconfig/confdata.c:311-377 | the last line written for a symbol decides its value |
| ConfText.SettingsOfOther | kconfig/confdata.c:311-377 | a symbol without a line is not touched |
| ConfText.ReadAssigned | kconfig/confdata.c:346-377 | a line with = is taken apart into the name and the value that were put together |
| ConfText.ReadUnset | kconfig/confdata.c:314-345 | the line for a symbol that is n sets it to n |
| ConfText.TitleTaken | kconfig/confdata.c:314-345 | the line of a menu title changes the settings exactly if the title begins like the line of a bool or tristate symbol that is n and that symbol is not n yet; it becomes n |
| ConfText.WrittenForm | kconfig/confdata.c:481-502 | the two forms of a line, in full |
| ConfText.StringTaken | kconfig/confdata.c:155-169 | a string value is taken exactly if a closing quote follows in which escapes are skipped |
| ConfNumbers.IntValidExact | kconfig/symbol.c:559-574 | the valid int values are exactly the decimal numerals of the integers, and -0 |
| ConfNumbers.HexValidExact | kconfig/symbol.c:575-583 | the valid hex values are exactly the hexadecimal numerals of the natural numbers, in either case, with leading zeros or 0x or not |
| ConfBuffer.EscapedSize | kconfig/symbol.c:918-935 | the first loop computes the exact size of the escaped text, quotes and zero included |
| ConfBuffer.EscapeStringValue | kconfig/symbol.c:915-956 | the second loop fills a buffer of that size with the quoted text, character for character |
| ConfBuffer.UnquoteInPlace | kconfig/confdata.c:155-170 | on every text the in-place loop finds the closing quote exactly if there is one, and then leaves the unescaped string where the text was; after a backslash at the very end it meets the old zero |
| ConfBuffer.SetString | kconfig/confdata.c:155-170 | a string value is accepted exactly as specified and lies behind the opening quote |
| ConfBuffer.ThereAndBack | kconfig/confdata.c:155-170 | through both buffers every string without a zero comes back |
| MallocHeap.RoundUp | kernel/malloc.c:449-451 | the rounded size is a multiple of four, at least the size asked, less than four more; or 0 after wrap-around |
| MallocHeap.BestIsSmallest | kernel/malloc.c:162-184 | the block chosen is the first of the smallest that fit, and none is chosen only if none fits |
| MallocHeap.CutKeeps | kernel/malloc.c:120-141 | the two halves cover exactly the old block, the first is as large as asked, and it is cut exactly if it is more than twice as large as block and header |
| MallocHeap.MallocGrants | kernel/malloc.c:445-531 | the caller gets an aligned block of its own, of sufficient size unless rounding wrapped, and inside the heap exactly if it was reused or its size fits; every other block in use is untouched |
| MallocHeap.MallocReuses | kernel/malloc.c:445-525 | if a free block is large enough, the first of the smallest is handed out, cut to size if it is more than twice as large, and all others are left alone |
| MallocHeap.MallocGrows | kernel/malloc.c:483-525 | if none is, the pool grows by header and rounded size exactly if that stays within its limits, and otherwise nothing changes |
| MallocHeap.MallocKeepsInv | kernel/malloc.c:445-531 | the pool stays tiled with exact counters, except in one case: nothing fits and memory is granted although size and header do not fit the int that f_sbrk takes |
| MallocHeap.WrappedGrant | kernel/malloc.c:275-282 | with room left, such a size is granted exactly if heap end, header and size together wrap around zero |
| MallocHeap.FreeKeepsInv | kernel/malloc.c:552-574 | freeing a block in use takes exactly that block out of use and keeps tiling and counters |
| MallocHeap.DoubleFreeMiscounts | kernel/malloc.c:552-574 | freeing a block twice makes the counters wrong |
| MallocHeap.TilingDisjoint | kernel/malloc.c:445-531 | blocks of a tiled pool do not overlap |
| MallocRuns.RunKeeps | kernel/malloc.c:445-574 | over every run the pool stays tiled with exact counters and the blocks in use are those granted and not freed |
| MallocRuns.RunDisjoint | kernel/malloc.c:445-574 | after any run from the empty pool no two callers share memory |
| MallocRuns.MergeKeeps | kernel/malloc.c:96-112 | merging two free neighbours keeps tiling, blocks in use and counters |
| MallocRuns.RearrangeInv | kernel/malloc.c:533-549 | blk_rearrange keeps the pool tiled and the blocks in use as they are |
| MallocRuns.RearrangeKeeps | kernel/malloc.c:533-549 | with no other free neighbours before, none are left after; the end of the heap moves back to the free stretch around the block exactly if that is last and not first; a free last block remains exactly if there was one away from the block |
| MallocLinks.SplicedPrev | kernel/malloc.c:133-140 | a split leaves the prev links right exactly if the block was the last |
| MallocLinks.SplitLinks | kernel/malloc.c:120-141 | the next links go through both halves, and the rest of the chain is untouched |
| MallocLinks.GrowLinks | kernel/malloc.c:485-505 | a new last block is linked in with right next and prev |
| MallocMerge.MergeLinks | kernel/malloc.c:96-112 | merging in memory is merging in the list, and prev still undoes next |
| MallocMerge.CompactLinks | kernel/malloc.c:286-305 | giving a free last block back does to memory what it does to the list |
| MallocMerge.RearrangeLinks | kernel/malloc.c:533-549 | where prev undoes next, blk_rearrange does to memory what the list version does, and prev undoes next again |
| MallocMerge.StalePrevLoses | kernel/malloc.c:96-112 | with a prev link left stale by a split, merging back loses the blocks in between |
| MallocPool.Pool.FindBestFit | kernel/malloc.c:162-184 | walking the chain finds the specified block and its last one |
| MallocPool.Pool.SplitBlock | kernel/malloc.c:120-141 | writes both headers as specified; null exactly if too little is left; prev links right exactly for the last block |
| MallocPool.Pool.Sbrk | kernel/malloc.c:201-284 | moves the end, a 32-bit pointer, by the increment, or fails at the limit or the stack and moves nothing |
| MallocPool.Pool.Malloc | kernel/malloc.c:445-531 | refines the specification on headers in memory and says exactly when the pool and the prev links stay right |
| MallocPool.Pool.Free | kernel/malloc.c:552-574 | refines the specification, also for null, foreign and already free pointers; a stale header of a merged block only moves the counters |
| MallocPool.Pool.BlkRearrange | kernel/malloc.c:533-549 | refines the specification on the linked headers and keeps all invariants |
| TimerSlots.RiseOrders | kernel/heap.h:40-44 | the loop of heap_insert restores heap order |
| TimerSlots.IdsDiffer | kernel/heap.h:33-35 | the counter gives no id again before all others have been given |
| TimerSlots.RiseContents | kernel/heap.h:40-44 | and puts in exactly the new element |
| TimerSlots.RiseKeepsRoot | kernel/heap.h:40-44 | even out of order, the first timer still expires first |
| TimerSlots.SinkOrders | kernel/heap.h:57-70 | the loop of heap_peek restores heap order |
| TimerSlots.SinkContents | kernel/heap.h:57-70 | and loses nothing |
| TimerSlots.BubbleContents | kernel/heap.h:98-106 | the pass of heap_delete only swaps |
| TimerSlots.DeleteEffect | kernel/heap.h:73-107 | exactly the slot goes, and the first timer stays the first to expire |
| TimerDelete.DeleteKeepsOrderExactly | kernel/heap.h:98-106 | deleting slot f keeps the order of every heap of n timers exactly if f is n, or n is at most 5, or n is 6 and f is 3, or n is odd and f is n - 1 |
| TimerDelete.DeleteKeepsOrder | kernel/heap.h:73-107 | under that condition the pass leaves every ordered heap in order |
| TimerDelete.DeleteCanLoseOrder | kernel/heap.h:98-106 | for every other n and f a heap of n timers that is in order before and not after |
| TimerDelete.TakenOutOfOrder | kernel/heap.h:98-106 | what that leads to: two timers later one is first that does not expire first |
| TimerHeap.Heap.FirstIsLeast | kernel/heap.h:47-71 | in an ordered heap no timer expires before the first |
| TimerHeap.Heap.Insert | kernel/heap.h:19-45 | grows by the size rule, adds exactly one element under the id of the counter, which moves on, keeps order or at least the minimum in front; says what a failed krealloc leaves |
| TimerHeap.Heap.Peek | kernel/heap.h:47-71 | takes out exactly the first, keeps order; -1 exactly on an empty heap |
| TimerHeap.Heap.Delete | kernel/heap.h:73-107 | removes exactly the first slot with the id, -1 exactly if there is none; away from the front the first timer stays first, and order is kept for the slots that keep it |
| TimerHeap.SiftUp | kernel/heap.h:40-44 | the loop in the array does what is specified |
| TimerHeap.SiftDown | kernel/heap.h:57-70 | the loop in the array does what is specified |
| TimerHeap.BubblePass | kernel/heap.h:98-106 | the loop in the array does what is specified |
| KernelTimers.Timers.Add | kernel/systick.c:79-93 | adds one timer with a 32-bit expiry time under the id returned, the next in turn; -1 if there is no memory |
| KernelTimers.Timers.Del | kernel/systick.c:96-107 | removes exactly one timer with the id; -1 exactly for a negative or unknown id, and then nothing changes; order and minimum as for heap_delete |
| KernelTimers.Timers.CheckTasklet | kernel/systick.c:118-145 | fires exactly the timers that were due, once each, in the order of their times; nothing else leaves the heap, and what comes in is exactly what the handlers of those timers add |
| KernelTimers.Timers.FireFirst | kernel/systick.c:132-140 | one turn runs the handler of the first timer and takes that timer out, exactly if the handler adds none that expires before it; otherwise one that was added goes unfired |
| CirBuf.CirBuf.constructor | kernel/cirbuf.c:32-53 | starts empty |
| CirBuf.CirBuf.WriteByte | kernel/cirbuf.c:56-73 | appends the byte, or refuses exactly when size - 1 bytes are there |
| CirBuf.CirBuf.ReadByte | kernel/cirbuf.c:76-92 | takes the oldest byte, or refuses exactly when empty |
| CirBuf.CirBuf.ReadBytes | kernel/cirbuf.c:94-116 | takes the oldest bytes in order, as many as asked or as there are, and leaves the rest of the destination alone |
| CirBuf.CirBuf.CopyToEnd | kernel/cirbuf.c:136-144 | the first part of a wrapping write appends up to the end of the buffer |
| CirBuf.CirBuf.CopyAppends | kernel/cirbuf.c:145-150 | the second part, or a write that does not wrap, appends the rest |
| CirBuf.CirBuf.WriteBytes | kernel/cirbuf.c:119-153 | appends a prefix as long as there is room for, through one or two copies |
| CirBuf.CirBuf.BytesFree | kernel/cirbuf.c:155-166 | free and used bytes add up to one less than the size |
| CirBuf.CirBuf.BytesInUse | kernel/cirbuf.c:168-179 | is the number of bytes in the queue |
| Pipe.StepConserves | kernel/pipe.c:169-247 | a step moves bytes forward: accepted plus still to come stays the same, and what was delivered stays delivered |
| Pipe.RunDeliversPrefix | kernel/pipe.c:169-247 | over every interleaving of reads and retried blocking writes the reader has a prefix of the written buffers; delivered plus buffered is what was accepted |
| Pipe.FromEmptyPipe | kernel/pipe.c:169-247 | the same from an empty pipe |
| Pipe.ReadDelivers | kernel/pipe.c:184-204 | a read takes bytes off the front, as many as asked for or all there are, and reports their number; only an empty pipe makes it wait or refuse |
| Pipe.WriteAccepts | kernel/pipe.c:223-247 | a write that starts a buffer takes all of it that there is room for, a retry only what exceeds the offset within the room; the result and the offset left behind follow from that |
| Pipe.ReaderCatchesUp | kernel/pipe.c:169-204 | after any run, a reader that asks for the capacity has every byte accepted so far |
| Pipe.AllArrive | kernel/pipe.c:169-247 | buffers that fit into the pipe all arrive in order when the writer and such a reader take turns |
| Pipe.WriteCompletes | kernel/pipe.c:206-247 | a blocking call completes exactly if nothing of the buffer went in before and all of it fits now |
| Pipe.PartialWriteNeverCompletes | kernel/pipe.c:222-241 | so a blocking write that went in partly is never completed by any run |
| Pipe.PipePriv.PipeRead | kernel/pipe.c:169-204 | refines the specified step on the ring buffer and notes the waiting reader |
| Pipe.PipePriv.PipeWrite | kernel/pipe.c:206-247 | refines the specified step on the ring buffer and notes the waiting writer |
| TaskLists.TasklistAdd | kernel/scheduler.c:292-296 | the task is the new first of the list |
| TaskLists.TasklistDel | kernel/scheduler.c:298-315 | takes out the task and keeps the order; -1 exactly if it is not there, and then no link changes |
| TaskTurns.TurnsAround | kernel/scheduler.c:2113-2134 | from any task on, as many switches as there are tasks go once around the list |
| TaskTurns.EachOnce | kernel/scheduler.c:2113-2134 | any n switches over an unchanged list of n tasks select each exactly once, also from a task that has left the list |
| Scheduler.Sched.constructor | kernel/scheduler.c:2215-2239 | the kernel task alone is running |
| Scheduler.TimeSliceRange | kernel/scheduler.c:134-136 | the slice is 20 ticks at nice 0 and 1, one less for every two steps of nice, never grows with it, and lies between 10 and 30 |
| Scheduler.Sched.IdlingToRunning | kernel/scheduler.c:352-356 | moves an idling task to the front of the running list, and does nothing to others |
| Scheduler.Sched.RunningToIdling | kernel/scheduler.c:358-364 | moves a running task to the front of the idling list; never the kernel task |
| Scheduler.Sched.TaskSwitch | kernel/scheduler.c:2113-2134 | the next task of the list, or the first, becomes the only running one, with a fresh time slice; all others keep state and slice |
| Scheduler.Sched.PendSv | kernel/scheduler.c:2140-2160 | one interrupt takes the running mark from the old task and gives it to the next one |
| Scheduler.Sched.Interrupts | kernel/scheduler.c:2140-2160 | as many interrupts as there are running tasks select each of them exactly once |
| Scheduler.Sched.SuspendTo | kernel/scheduler.c:2241-2253 | the current task leaves the running list for the given state; the kernel task never does; no other task changes |
| Scheduler.Sched.Stop | kernel/scheduler.c:2260-2270 | keeps the invariant if and only if the task is not the kernel's own |
| Scheduler.Sched.Resume | kernel/scheduler.c:2298-2320 | wakes a waiting task, changes no other, and leaves a task in another state alone |
| Scheduler.Sched.Continue | kernel/scheduler.c:2329-2335 | wakes a stopped task only |
| Scheduler.Sched.ResumeVfork | kernel/scheduler.c:2337-2343 | wakes a forked task only |
| Scheduler.Sched.TasklistGet | kernel/scheduler.c:329-338 | finds a main thread with the pid if there is one |
| Scheduler.Sched.Terminate | kernel/scheduler.c:2383-2417 | the task becomes a zombie outside the running list, and no other task changes its state: a forked parent stays forked; the invariant is kept if and only if the task is not the kernel's own |
| Scheduler.Sched.TellParent | kernel/scheduler.c:2388-2416 | neither list nor any state changes while the parent is told |
| Scheduler.Sched.Reap | kernel/scheduler.c:2666-2679 | a zombie that was waited for keeps its place until it is destroyed |
| Scheduler.Sched.Destroy | kernel/scheduler.c:374-382 | the task is in no list any more, the others stay in order |
| Scheduler.Sched.Create | kernel/scheduler.c:1353-1357 | the new task is runnable, first in the running list and in no other |
| VfsPath.SearchFinds | kernel/vfs.c:278-313 | searching for names that lead to an entry of a tree with slash-free, sibling-unique names finds that entry |
| VfsPath.PathFinds | kernel/vfs.c:315-346 | the path of every entry leads to it, that of the root to the root |
| VfsLookup.SearchExact | kernel/vfs.c:278-313 | a search for names finds an entry exactly if the names lead to it, and stops at a link exactly if they come to it |
| VfsLookup.MissingExact | kernel/vfs.c:288-292 | it comes back with nothing exactly if the names lead to no entry and no link |
| VfsLookup.PathExact | kernel/vfs.c:315-346 | the same from the root, with any number of slashes in front and behind |
| VfsLookup.DoubledSlashMisses | kernel/vfs.c:227-249 | two slashes in a row inside a path are never passed |
| VfsLookup.RelativeMisses | kernel/vfs.c:278-346 | a path without a slash in front finds nothing |
| VfsPath.CheckOwn | kernel/vfs.c:256-275 | a path matches the entry of its first name as itself or as a directory above, and walking goes on behind it |
| VfsPath.CheckOther | kernel/vfs.c:256-275 | a path whose first name is another one does not match, not even when one name begins the other |
| VfsNodes.CheckPath | kernel/vfs.c:256-275 | the loop answers as specified |
| VfsNodes.WalkPath | kernel/vfs.c:227-247 | the loops stop where the rest of the path begins |
| VfsNodes.SearchNodes | kernel/vfs.c:278-313 | the recursion over child and sibling pointers finds what is specified |
| VfsNodes.SearchFrom | kernel/vfs.c:315-346 | the same from the root, with the leading slashes |
| VfsNodes.KeptAll | kernel/vfs.c:82-97 | no name is dropped exactly if the whole path fits |
| VfsNodes.FullPathInto | kernel/vfs.c:70-98 | writes the names that fit, each with a slash, and says whether the last one did; the rest of the buffer keeps its content but for the zero bytes |
| VfsNodes.FullPath | kernel/vfs.c:100-118 | leaves the zero-terminated path of the names that fit, whatever the buffer held before, or an error exactly if the last name does not fit |
| VfsNodes.TakeOffSlash | kernel/vfs.c:108-113 | takes off the last slash, and the stale byte behind it if that was counted |
| VfsNodes.ThereAndBack | kernel/vfs.c:70-118 | searching for the full path of a node below nodes that are no links finds that node, if the path fits |
| VfsNodes.AncestorPassedOver | kernel/vfs.c:82-97 | an ancestor whose name does not fit is silently left out, and the result is another path |
| CryptoWords.ByteReverseReads | kernel/crypto/misc.c:35-40 | reversing the bytes of a word in memory gives the word that the standards read there; twice gives it back |
| CryptoWords.ByteReverseWords | kernel/crypto/misc.c:42-48 | reverses exactly the words counted, in place |
| CryptoWords.StoreBytes | kernel/crypto/sha256.c:143-146 | bytes copied into the word buffer are seen at their place and nowhere else |
| Sha256Words.RotrRotates | kernel/crypto/misc.c:25-33 | shift, shift and or is rotation, for every amount the hash uses |
| Sha256Words.ChCode | kernel/crypto/sha256.c:47 | the shortened Ch is that of section 4.1.2 of FIPS 180-4 |
| Sha256Words.MajCode | kernel/crypto/sha256.c:48 | the shortened Maj is that of section 4.1.2 of FIPS 180-4 |
| Sha256Words.BigSigma0Code | kernel/crypto/sha256.c:52 | the macro is the function of section 4.1.2 |
| Sha256Words.BigSigma1Code | kernel/crypto/sha256.c:53 | the macro is the function of section 4.1.2 |
| Sha256Words.SmallSigma0Code | kernel/crypto/sha256.c:54 | the macro is the function of section 4.1.2 |
| Sha256Words.SmallSigma1Code | kernel/crypto/sha256.c:55 | the macro is the function of section 4.1.2 |
| Sha256Words.ReversedIsParsed | kernel/crypto/sha256.c:149-151 | a byte-reversed buffer is the block as section 5.2.1 parses it |
| Sha256Code.Rnd | kernel/crypto/sha256.c:57-61 | one macro step with renamed registers is one round of section 6.2.2 |
| Sha256Code.Expand | kernel/crypto/sha256.c:78-82 | W is the message schedule |
| Sha256Code.AllRounds | kernel/crypto/sha256.c:84-93 | the unrolled loop with rotated registers makes the 64 rounds |
| Sha256Code.Sha256.Transform | kernel/crypto/sha256.c:63-103 | one block is compressed as in section 6.2.2; a failed allocation changes nothing |
| Sha256Code.Sha256.AddLength | kernel/crypto/sha256.c:107-112 | the two words count modulo 2^64, carry included |
| Sha256Code.Sha256.Init | kernel/crypto/sha256.c:114-131 | nothing has been absorbed |
| Sha256Code.Sha256.Update | kernel/crypto/sha256.c:133-161 | on success exactly the new bytes have been absorbed behind the old ones, however they fall on the blocks; after a failed allocation all full blocks before the failing one are hashed and counted, and that one stays in the buffer as words |
| Sha256Code.Sha256.PadZeros | kernel/crypto/sha256.c:168-185 | one bit and zeros as in section 5.1.1, over one block or two |
| Sha256Code.Sha256.ShiftLength | kernel/crypto/sha256.c:187-190 | the length in bits modulo 2^64, from the length in bytes |
| Sha256Code.Sha256.Final | kernel/crypto/sha256.c:163-208 | on success the output is the SHA-256 of all bytes absorbed, and the state is fresh; after a failed allocation there is no output, and digest, buffer, fill and length are those of the first or the last block of padding |
| Sha256Code.HashChunks | kernel/crypto/sha256.c:114-208 | any chunking of a message gives the SHA-256 of the whole |
| ShaConstants.ConstantsAreRoots | kernel/crypto/sha256.c:31-45 | the 64 constants are the first 32 bits of the fractional parts of the cube roots of the first 64 primes |
| ShaConstants.InitialIsRoots | kernel/crypto/sha256.c:117-124 | the initial hash value is the same of the square roots of the first eight primes |
| ShaVector.Example | kernel/crypto/sha256.c:47-111 | the specification gives the digest of "abc" that the standard publishes |
| AesProofs.InvMixUndoes | kernel/crypto/aes.c:773-795 | InvMixColumns inverts MixColumns on every column |
| AesProofs.InvMixAdds | kernel/crypto/aes.c:773-795 | InvMixColumns is linear, which lets it pass through the round keys |
| AesProofs.InvCipherUndoes | kernel/crypto/aes.c:816-1080 | the inverse cipher undoes the cipher for any round keys |
| AesProofs.EqInvCipherAgrees | kernel/crypto/aes.c:950-1080 | with modified round keys the equivalent inverse cipher of section 5.3.5 of FIPS 197 is the inverse cipher |
| AesSpec.InvSBoxUndoes | kernel/crypto/aes.c:35-700 | the literal S-boxes are inverse to each other |
| AesField.SBoxIsInverse | kernel/crypto/aes.c:301-364 | section 5.1.1 of FIPS 197: each value of the S-box is the affine map of the inverse of its argument in the field, and that of 0 for 0 |
| AesField.MulConstants | kernel/crypto/aes.c:35-300 | the multiplications in MixColumns and its inverse are those by 2, 3, 9, 11, 13 and 14 in the field |
| AesVector.Example | kernel/crypto/aes.c:715-948 | example C.3 of FIPS 197: the specification turns that key and plaintext into the ciphertext published |
| AesTables.MixWord | kernel/crypto/aes.c:852-857 | four table look-ups and a round key are one column of SubBytes, MixColumns and AddRoundKey |
| AesTables.InvMixWord | kernel/crypto/aes.c:985-990 | the same for the inverse tables |
| AesTables.LastWord | kernel/crypto/aes.c:912-917 | masked look-ups in the fifth table are one column of the last round |
| AesTables.InvLastWord | kernel/crypto/aes.c:1044-1049 | the same for the inverse cipher |
| AesCode.MixRound | kernel/crypto/aes.c:852-875 | four words go through one full round |
| AesCode.InvMixRound | kernel/crypto/aes.c:985-1008 | four words go through one round of the equivalent inverse cipher |
| AesCode.EncryptBlock | kernel/crypto/aes.c:816-948 | two rounds per turn of the loop and the last one make the cipher of FIPS 197, byte order included |
| AesCode.DecryptBlock | kernel/crypto/aes.c:950-1080 | the decryption loop is the equivalent inverse cipher with the keys as they lie in memory |
| AesKeys.Expand | kernel/crypto/aes.c:728-752 | the loop fills in the 60 words of the key schedule |
| AesKeys.Reverse | kernel/crypto/aes.c:764-769 | the round keys change their order, each kept whole |
| AesKeys.InvMixKey | kernel/crypto/aes.c:775-794 | S-box and inverse tables together are InvMixColumns of a word |
| AesKeys.MixKeys | kernel/crypto/aes.c:773-795 | all round keys but the first and the last go through InvMixColumns |
| AesKeys.Invert | kernel/crypto/aes.c:764-795 | both together give the round keys of the equivalent inverse cipher, last one first |
| AesCbc.DecBlockUndoes | kernel/crypto/aes.c:816-1080 | decryption undoes encryption for every key and block |
| AesCbc.CbcUndoes | kernel/crypto/aes.c:1082-1113 | chained decryption undoes chained encryption for every key, vector and number of blocks |
| AesCbc.CbcEncBlock | kernel/crypto/aes.c:1082-1096 | block by block: the encryption of the plaintext xored with the ciphertext before it |
| AesCbc.CbcDecBlock | kernel/crypto/aes.c:1098-1113 | block by block: the decryption of the ciphertext xored with the ciphertext before it |
| AesCbc.CbcEncSplits | kernel/crypto/aes.c:1082-1096 | two calls, the second with the register of the first, encrypt as one |
| AesCbc.CbcDecSplits | kernel/crypto/aes.c:1098-1113 | and so they decrypt |
| AesCbc.AnyCallsUndo | kernel/crypto/aes.c:1082-1113 | however plaintext and ciphertext are cut into calls, the plaintext comes back |
| AesContext.Xorbuf | kernel/crypto/misc.c:57-68 | by words or by bytes, the buffer is xored in place and nothing around it changes |
| AesContext.Aes.SetIV | kernel/crypto/aes.c:702-713 | sets the register, to zeros for a null vector |
| AesContext.Aes.SetKey | kernel/crypto/aes.c:715-814 | takes 256-bit keys only; the key material is that of the standard for the direction asked, and the vector is set |
| AesContext.Aes.EncryptAt | kernel/crypto/aes.c:816-948 | a context set up for a key encrypts with that key, and one without a key leaves the output alone |
| AesContext.Aes.DecryptAt | kernel/crypto/aes.c:950-1080 | a context set up for decryption undoes what that key encrypts, and one without a key leaves the output alone |
| AesContext.Aes.CbcEncrypt | kernel/crypto/aes.c:1082-1096 | encrypts all whole blocks by CBC, also in place, leaves the rest alone, and leaves the last block in the register |
| AesContext.Aes.CbcDecrypt | kernel/crypto/aes.c:1098-1113 | decrypts all whole blocks by CBC, also in place, and leaves the last ciphertext block in the register |
| AesContext.ThereAndBack | kernel/crypto/aes.c:801-1113 | two contexts with one key and vector: what one encrypts in place the other turns back |

## Left out

- ExprDupsSound.EliminateDupsKeepsValue: says nothing of an expression that is m when the excluding rule fires; whether the m is lost then depends on where in the tree the store happens. Exact for the single store (`ExcludeLeafExact`).
- ExprCompare.ImpliedByCorrect: visibility of the entry is taken in two-valued logic, and only where that differs from its value, as `TransCompareExact` says, can the conclusion about values fail (`TakenTooLoosely`); one direction, since the test is an implication.
- MenuInside.InsideMeans: visibility in two-valued logic for the same reason.
- ExprRewriter.Rewriter.ExtractNodes: the collected tree `*ep`, which its caller only tests for null and then frees, is kept as a flag; the specification has the tree.
- ExprRewriter.Rewriter.Dups1Nodes: the two cursors are paths from the top of the chain of operators, not pointers to pointers.
- MenuTree.Finalize: dependency propagation into properties, choice handling and the checks for defaults and types (kconfig/menu.c:290-338, 376-414, 427-443) are not modelled; the dependency tests may answer anything.
- SymbolUser.AcceptedValueSticks: choices are not part of the model; setting a value is a change of the configuration that is then calculated anew, not an update of flags.
- SymbolCalc.Calculator.CalcValue: `modules_val` is fixed during a calculation; the flags for writing and the warnings for unmet dependencies are left out.
- MallocRuns.RunKeeps: callers free only what they were given and are not granted a size beyond an int (`MallocKeepsInv` and `DoubleFreeMiscounts` say what happens otherwise).
- MallocPool.Pool.Free: payload bytes that happen to look like a header are not considered.
- KernelTimers.Timers.CheckTasklet: handlers add timers that expire at or after jiffies, as `ktimer_add` does short of 32-bit wrap-around (`FireFirst` allows any); handlers that delete timers, and wrap-around of jiffies, are left out, and so is the unused `next_t`, for which the code reads through a null pointer when the last timer has fired.
- Scheduler.Sched.TaskSwitch: for a current task that is no longer marked running, as its only caller leaves it; signals, stack pointers and context are left out.
- Scheduler.Sched.Resume: not for tasks with the real-time priority, which go to `forced_task`.
- Scheduler.Sched.Terminate: the signal to the parent is left out.
- Scheduler.Sched.TellParent: the signal and the copy of the parent's stack are left out.
- Scheduler.Sched.SuspendTo: the request to reschedule is left out.
- Scheduler.Sched.Destroy: effect on the lists only; memory, files and thread groups of the task are left out.
- VfsNodes.FullPath: for nodes that are no links, below nodes that are no links, with names that are not empty and have no slash; the buffer has the two bytes more that the code writes.
- VfsNodes.ThereAndBack: symbolic links may form cycles and are not followed.
- VfsNodes.SearchNodes: a link on the way ends the search with its own answer; what it points to is not searched.
- SymbolUser.SetToCurrent: the flags that decide what is calculated again are left out.
- SymbolCalc.Calculator.CalcRevDep: the direct dependency, which only serves a warning, is left out.
- SymbolCalc.Calculator.OwnString: the range check behind it is left out.
- Sha256Code.Sha256.Update: what a further call makes of a context after a failed allocation is not followed.
- AesContext.Aes.CbcEncrypt: for contexts with a key; input and output are the same array or different ones, not shifted against each other.
- ExprKeys.ExprEqExact: where no operand is y or n, since otherwise expr_eq is no equivalence (`ExprOrder.NotTransitive`); that an expression is accepted against itself holds for all (`ExprReflexive.ExprEqReflexive`).
- MenuImplied.InsideExact: for conditions that come out as conjunctions or as single ones, without y and n inside; disjunctions are in `MenuImplied.DisjunctionExact`.
- ExprShares.ExtractShares: for chains whose operands have no y or n inside, like `ExprKeys.ExprEqExact`.
- SymbolDefaults.TextDefault: without the range check.
- VfsLookup.SearchExact: up to the first link, like `VfsNodes.SearchNodes`.
- Kconfig: E_LIST and E_RANGE, int and hex ranges, symbol search, printing of expressions, freeing of nodes, and failing allocation.
- Kconfig files: line buffers, duplicate and unknown symbols, the auto.conf variant, warnings.
- Allocator: the pools of user tasks (one of them grows downwards), realloc, the lock, call statistics, and payload bytes, which no modelled operation writes: blocks in use are conserved as addresses, sizes and flags.
- Pipes: poll, close, and the ends of the pipe as file nodes.
- Scheduler: vfork stacks, exec, threads, pid wrap-around.
- VFS: creating and unlinking nodes, mount points.
- AES: the tables Te and Td are given by their defining formulas over literal S-boxes, not as 1 KB literals; 128- and 192-bit keys are refused, as in the code.
- SHA-256 and AES: little-endian memory, as on the target; an allocation in `Transform` may fail at any call.
- Device drivers, network, system calls, user interfaces of Kconfig, assembly.
