# Verified models of the repository's cores

Dafny models of the parts of this repository whose correctness is least obvious
from the code, with proofs of what they keep. `dafny verify dfyconfig.toml`
checks everything.

**Kconfig (`tools/kconfig`).** `KconfigExpr` holds expressions and their
three-valued meaning: n, m, y are 0, 1, 2, and an environment gives every symbol
a value and every pair of symbols one comparison result. `ExprSlots` models the
`struct expr **` arguments as a cell and a path, so that the in-place rewrites
of `expr.c` stay in-place: `DuplicateElimination` runs them on one tree walked
against itself, `ExprTransform` pushes negations and comparisons down, and
`ExprEquality` and `ExprJoin` hold the functions they are proved against.
`ExprCompleteness` says which expressions `expr_eq` finds equal, `ExprSuperset`
when the dependency test of `menu_finalize` says yes.
`ExprPrint` connects `expr_print` with the grammar of `parser.y`. `SymbolDeps`
is the cycle check, `SymbolValues` the memoised evaluation of symbols,
`ValueRules` the value of a symbol rule by rule, and
`PromptConditions` the rewriting of conditions in `menu_finalize`, tied to the
visibility that evaluation computes.
`MenuTree` and `MenuFinalize` are the restructuring of the menu tree, first as
functions on forests, then as pointer operations, with the stackless walk of
`conf_write`; `MenuParents` says who is whose parent afterwards. `ConfigQuoting`, `ConfigFile`, `ConfigRoundTrip` and `ConfigReading`
write a `.config` file and read it back through the one line buffer of
`conf_read_simple`; `SavedConfig` calculates the symbols again after that.
`MacroExpansion` and `MacroProperties` are the recursive macro expansion with its
counters, `MacroLaws` what each form of reference is replaced by.

**SDRAM controller (`vsrc/perip/sdram/core_sdram_axi4`).** `SdramCore` is the
controller, one step per clock, `SdramProtocol` what every run of it keeps.
`SdramMemory` is the bank, row and column array of `csrc/memory/mmio.cpp` behind
the command decoder, and `SdramRefinement` shows that controller and array
together are one flat memory of 32 MB. `SdramPort` and `SdramBursts` are the
queues, burst addresses and registers of the AXI front end; `SdramAxi` connects
all of them, up to the data of each beat on the AXI read channel and the order of
write responses, and `SdramProgress` bounds how long an address waits. A run is a pair of functions from cycles to registers and
inputs, so every statement about runs covers unbounded time. The controller relies on a request staying until it is accepted;
`SdramAxi.PortHoldsRequests` derives that from the AXI rule that valid signals
stay until they are taken (section A3.2.1 of ARM IHI 0022E).

**Instruction cache (`ICache.scala`).** `InstructionCache` has the registers,
the synchronous RAMs and the refill state machine in the configuration of the
core (16 sets, 2 ways, blocks of 4 words, bursts enabled, no bypassed region);
`CacheCoherence` shows that it agrees with plain memory, `CacheProgress` that
every fetch is answered.

**Smaller cores.** `MulDiv` is the signed multiplication and division of
`EXE.scala` for every word width; `Watchpoints` the watchpoint allocator.
`Division` holds the arithmetic they share with the SDRAM modules.

Where the source works in place, the models are classes with methods, each
proved against a function of the old state; the properties are then lemmas
about these functions.

What the proofs found:

- The rewriting of `(a=b && a!=c)` to `a=b` (`expr.c:541-553`) is exact only where
  the symbol does not have a value that both constants denote. Quoted numbers may
  denote the same: `"0"` and `"00"` both stand for n, and at n the rewritten
  expression is y (`ExprJoin.JoinAndAt`, `ExprJoin.JoinAndExact`,
  `ExprJoin.NumericConstantsBreakJoin`). So `expr_eliminate_dups` never lowers a
  value, and keeps it in every environment that tells apart the constants of the
  tests that can meet while the expression is simplified; termination, the
  fixpoint and the counter need no condition. An expression without such a pair
  of tests (`ExprJoin.Unaliased`) keeps its value everywhere.
- `expr_trans_compare` is wrong on a negated symbol at m
  (`ExprTransform.TransCompareFailsOnNegatedMod`). Comparing with y or n is right
  throughout an expression exactly when nothing it negates is m, comparing with m
  exactly when it negates nothing and all its operators yield n
  (`ExprTransform.TransCompareExactIff`, `ExprTransform.TransCompareModExactIff`).
- The comment at `expr.c:246-251` promises that operands need not appear in the
  same order. That holds for expressions without y or n as operands, where
  repeated operands must be repeated equally often
  (`ExprCompleteness.EqualIfRearranged`); with such constants a mere change of
  order can be missed (`ExprCompleteness.ConstantsHideOrder`).
- The superset test of `menu_finalize` says yes exactly when the base dependency
  is y or its operands are among those of a conjunction; equal single operands
  are not enough, as `expr_eliminate_eq` looks into chains only
  (`ExprSuperset.SupersetExact`).
- The comment at `expr.c:566-570` announces `a='m'` where the code returns `a='y'`
  with the operands of that line; the code is followed.
- A quoted constant prints without its quotes and is read back as the symbol of
  that name, so an expression comes back identically only without such constants
  (`ExprPrint.RoundTrip`). Its value is kept when no symbol of such a name is
  defined (`ExprPrint.RoundTripKeepsValue`); for a single quoted operand or
  comparison the exact conditions are `ExprPrint.QuotedOperandExact` and
  `ExprPrint.QuotedComparisonExact`, and `ExprPrint.QuotedOperandFails` is a
  failing input.
- A `#` alone at the end of a file is read together with what the line before it
  left in the buffer (`ConfigReading.ReadStale`); every other line is read as its
  text says (`ConfigReading.ReadSimple`, `ConfigReading.LoneHashIsLast`).
- Loading a configuration that was just saved gives every symbol its old value
  unless a tristate is y by default under a prompt visible at m: then it ends at
  m (`SavedConfig.ReloadExact`, `SavedConfig.DefaultAbovePrompt`).
- `eval_clause` tests its limit of 16 arguments at commas only, so a clause of
  exactly 17 pieces is stored one cell beyond `new_argv`
  (`MacroExpansion.SplitTokens`, `MacroExpansion.CommasOverflow`).
- `free_wp` loses its node when no other node is free, as the loop that inserts it
  does not run on an empty list (`Watchpoints.FreeKeepsPool`,
  `Watchpoints.FullPoolLosesNode`).

## Model

| member | source | states |
|---|---|---|
| KconfigExpr.CompareLogicWithConst | tools/kconfig/expr.c:1016-1098 | a bool or tristate compares equal to a constant exactly when the constant's text, read as a letter or as a number, denotes its value |
| KconfigExpr.EnvironmentIsWellTyped | tools/kconfig/expr.c:1016-1098 | comparisons computed from strings as expr_calc_value does form one of the environments that all expression results quantify over |
| ExprEquality.EliminateYnValue | tools/kconfig/expr.c:316-397 | removing y and n operands keeps the value in every environment |
| ExprEquality.EliminateYnShrinks | tools/kconfig/expr.c:316-397 | no operand of && or || is a constant afterwards; operators never increase, and decrease exactly when some operand was constant |
| ExprEquality.EliminateCommonSound | tools/kconfig/expr.c:150-190 | there is a common value c such that each original operand equals c joined (max for or, min for and) with its residue |
| ExprEquality.ExprEqSound | tools/kconfig/expr.c:252-303 | expressions found equal have the same value in every environment |
| ExprEquality.ExprEqReflexive | tools/kconfig/expr.c:252-303 | every expression is found equal to its copy, with duplicated and constant operands at any place of its chains |
| ExprCompleteness.EqualIfRearranged | tools/kconfig/expr.c:246-303 | for expressions without y or n as operands: found equal if and only if the operands can be paired off one to one, in any order and grouping, at every level |
| ExprCompleteness.ChainsEqual | tools/kconfig/expr.c:150-303 | two such chains are found equal if and only if every expression is found equal to as many operands of the one as of the other |
| ExprCompleteness.EquivalenceHolds | tools/kconfig/expr.c:252-303 | on such expressions being found equal is symmetric and transitive |
| ExprCompleteness.ConstantsHideOrder | tools/kconfig/expr.c:246-251 | with n as an operand deeper down, two expressions that differ in the order of their operands only are not found equal |
| ExprEquality.SupersetTestSound | tools/kconfig/menu.c:480-490 | when the residue of the second expression is y, the value of the first never exceeds that of the second |
| ExprSuperset.SupersetExact | tools/kconfig/menu.c:486-497 | for reduced expressions the residue of the second is y if and only if it is y, or the first is a conjunction and every expression is found equal to at most as many operands of the second as of the first |
| ExprSuperset.OperandsIncluded | tools/kconfig/menu.c:473-483 | in particular when the operands of the base dependency occur among those of the dependency, in any order |
| ExprJoin.ConstantsDenoteThemselves | tools/kconfig/expr.c:1078-1098 | comparing a bool or tristate with y, m or n tests its value |
| ExprJoin.JoinOrSound | tools/kconfig/expr.c:431-493 | a joined pair has the value of the disjunction of the two operands, whatever constants occur |
| ExprJoin.JoinAndAt | tools/kconfig/expr.c:495-587 | in every environment a joined pair is not less than the conjunction, and equal to it if and only if it is no pair of a = and a != test of one tristate whose constants both denote the value the symbol has there |
| ExprJoin.JoinAndExact | tools/kconfig/expr.c:495-587 | a joined pair has the value of the conjunction in every environment if and only if it is not a = and a != test of one tristate against different constants that denote the same value |
| ExprJoin.JoinStaysWithin | tools/kconfig/expr.c:431-587 | joining makes no test outside a set that contains the tests of the operands and what joining them makes |
| ExprJoin.ReachableStays | tools/kconfig/expr.c:431-587 | the tests reachable from an expression contain its own and all that joining them, and what comes of it, can make |
| ExprJoin.PlainIsUnaliased | tools/kconfig/expr.c:541-553 | without quoted constants that read as 0, 1 or 2 in tests of tristate symbols no two reachable tests confuse constants |
| ExprJoin.JoinShape | tools/kconfig/expr.c:431-587 | a joined operand has no more operators than the first of the pair and is no chain of the joined operator |
| ExprJoin.JoinsExactly | tools/kconfig/expr.c:431-587 | two operands join if and only if they are found equal or are one of the listed pairs, in either order; equal ones join into the first |
| ExprJoin.OrPairJoins | tools/kconfig/expr.c:460-483 | a bool and its negation join into y; two different ones of s=y, s=m, s=n join into s differing from the third, in either order |
| ExprJoin.AndPairJoins | tools/kconfig/expr.c:527-572 | a symbol with its own test for y, not n or not m joins into what both say; s=c with s!=d into n or s=c; two different ones of s!=y, s!=m, s!=n into s equal to the third |
| ExprJoin.NumericConstantsBreakJoin | tools/kconfig/expr.c:541-553 | the replacement is made for the constants "0" and "00" of a tristate, and changes the value |
| ExprSlots.PutAppend | tools/kconfig/expr.c:596-651 | writing through a pointer into a subexpression is writing the subexpression back changed there |
| DuplicateElimination.ReplacePair | tools/kconfig/expr.c:596-651 | replacing two different operands of a chain that is walked against itself changes the value only through the joined value of the two |
| DuplicateElimination.JoinStep | tools/kconfig/expr.c:609-651 | for every expression one join keeps the chain, adds no operator, leaves a constant operand and never lowers the value; where the constants are told apart it keeps the value |
| DuplicateElimination.Simplifier.EliminateDups1 | tools/kconfig/expr.c:596-651 | in place, with p and q walking the same tree, for every expression: trans_count rises exactly when some pair of the two subtrees joins, then a constant operand is left for the next pass, else nothing changes; the value never falls, and is kept where the constants are told apart |
| DuplicateElimination.Simplifier.CompareOperands | tools/kconfig/expr.c:609-651 | one pair of leaves: the counter stays exactly when the pair does not join and the first leaf is settled |
| DuplicateElimination.Simplifier.JoinOperands | tools/kconfig/expr.c:623-650 | the counter rises exactly when the two leaves join; then a constant operand is left |
| DuplicateElimination.Simplifier.EliminateConstants | tools/kconfig/expr.c:316-397 | expr_eliminate_yn in place is the function EliminateYn on the slot and changes nothing else |
| DuplicateElimination.Simplifier.EliminateCommonOperands | tools/kconfig/expr.c:150-190 | __expr_eliminate_eq in place on two trees is the function EliminateCommon on the two slots |
| DuplicateElimination.Simplifier.EliminateEqual | tools/kconfig/expr.c:221-241 | expr_eliminate_eq in place on two trees is the function EliminateEq |
| DuplicateElimination.Simplifier.EliminateDups | tools/kconfig/expr.c:664-686 | for every expression: terminates, ends where no further pass joins anything, leaves such expressions alone, restores trans_count, never lowers the value, and keeps it in every environment that tells apart the constants of tests that can meet |
| DuplicateElimination.SettledIsQuiet | tools/kconfig/expr.c:664-686 | no further pass joins anything means no pair of different operands of any chain joins |
| ExprTransform.TransformReachesNormalForm | tools/kconfig/expr.c:694-849 | afterwards negations stand on symbols other than y, m, n only, and no bool is compared with y, m or n by = or !=; the recursion ends by a weight that pays for the growth of De Morgan |
| ExprTransform.NormalFormIsFixed | tools/kconfig/expr.c:694-849 | a normal form is left alone |
| ExprTransform.TransformIdempotent | tools/kconfig/expr.c:694-849 | transforming twice is transforming once |
| ExprTransform.TransformValue | tools/kconfig/expr.c:694-849 | the value is kept in every environment |
| ExprTransform.TransformedNegatesSymbols | tools/kconfig/expr.c:694-849 | negations of a normal form stand on symbols only |
| ExprTransform.TransBoolKeepsNo | tools/kconfig/expr.c:402-426 | on expressions that negate only symbols, the rewritten expression is n exactly when the original is, and never more |
| ExprTransform.TransBoolRemoves | tools/kconfig/expr.c:402-426 | no comparison of a tristate with n by != is left, and an expression without one, and no other, is left alone |
| ExprTransform.TransCompareExact | tools/kconfig/expr.c:922-985 | a comparison with y or n pushed down holds exactly when the value compares so, if no negated part is m |
| ExprTransform.TransCompareExactIff | tools/kconfig/expr.c:922-985 | rewriting a comparison with y or n, for either relation, is right for an expression and for all its parts if and only if nothing negated in it is m |
| ExprTransform.TransCompareModExactIff | tools/kconfig/expr.c:922-985 | rewriting a comparison with m is right for an expression and for all its parts if and only if it holds no negation and every operator yields n |
| ExprTransform.TransCompareFailsOnNegatedMod | tools/kconfig/expr.c:922-985 | for a tristate at m, (!a != n) is pushed down to an expression that is n although !a is m |
| ExprTransform.DependsOnSound | tools/kconfig/expr.c:879-906 | an expression that depends on a symbol is n whenever the symbol is n |
| ExprTransform.DependsOnExact | tools/kconfig/expr.c:879-906 | an expression depends on a symbol if and only if an operand of its conjunction is the symbol, its test for y or m, or its test against n |
| ExprTransform.ContainsSound | tools/kconfig/expr.c:851-877 | the value does not change with a symbol that the expression does not contain |
| ExprTransform.ContainsExact | tools/kconfig/expr.c:851-877 | a symbol is contained if and only if some leaf is the symbol or compares it, on either side |
| ExprTransform.Normaliser.TransformInPlace | tools/kconfig/expr.c:694-849 | expr_transform in place, with its recursion into rewritten nodes, is the function Transform on the slot |
| ExprTransform.Normaliser.TransBoolInPlace | tools/kconfig/expr.c:402-426 | expr_trans_bool in place is the function TransBool on the slot |
| ExprTransform.TransComparePolarity | tools/kconfig/expr.c:922-985 | even where something negated is m: the comparison with n is y or n, and it is right whenever the value is n or y |
| ExprTransform.Normaliser.IsSuperset | tools/kconfig/menu.c:461-499 | the dependency test on copies: after an affirmative answer the base dependency is not n where the dependency is y, nor where it is m unless it negates an m; where nothing is left to join, the answer is yes exactly when the residue of the base dependency is y |
| ExprPrint.GraftValue | tools/kconfig/parser.y:87-91 | appending a chain operand by operand has the value of joining it |
| ExprPrint.LeftAssociatedIdentity | tools/kconfig/parser.y:87-91 | left association is the identity exactly on chains already nested to the left |
| ExprPrint.BodyParses | tools/kconfig/expr.c:1138-1228 | the tokens printed for an expression, at any place where they may stand, reduce to that expression left-associated |
| ExprPrint.PrintThenParse | tools/kconfig/expr.c:1138-1228 | parsing the printed tokens with the declared precedences gives the expression with its chains left-associated |
| ExprPrint.ParensPrinted | tools/kconfig/expr.c:1138-1228 | one pair of parentheses is printed for every || directly below && and for every chain directly below !, and no others |
| ExprPrint.RoundTrip | tools/kconfig/parser.y:447-458 | the parsed expression always exists; in every environment it has the value of the original with each symbol read as the one found under its name, hence the same value without quoted constants; it is identical if and only if chains are left-nested and no constant is quoted |
| ExprPrint.RoundTripKeepsValue | tools/kconfig/parser.y:461-465 | for calculated symbols the value is kept when the name of every quoted constant is that of no defined symbol |
| ExprPrint.QuotedOperandExact | tools/kconfig/parser.y:461-465 | a quoted operand keeps its value for all calculated symbols if and only if its name is not that of y, m, or a bool or tristate symbol |
| ExprPrint.QuotedOperandFails | tools/kconfig/parser.y:461-465 | the quoted operand "FOO" does not, when FOO is a bool |
| ExprPrint.QuotedComparisonExact | tools/kconfig/parser.y:447-465 | a comparison of a typed symbol with a quoted constant keeps its value for all calculated symbols if and only if the name of the constant is that of no symbol with a type |
| SymbolDeps.OrderExcludesCycles | tools/kconfig/symbol.c:1250-1279 | an order in which every symbol follows what it depends on excludes cycles |
| SymbolDeps.EdgeExact | tools/kconfig/symbol.c:1165-1211 | a symbol depends on exactly the symbols in its direct and reverse dependency, its implications, the conditions of its properties other than choice, select and imply, and the values of its defaults |
| SymbolDeps.StackCloses | tools/kconfig/symbol.c:1250-1262 | a symbol met again on the stack closes a cycle of dependencies |
| SymbolDeps.AcyclicOrder | tools/kconfig/symbol.c:1250-1279 | conversely, without a cycle all symbols can be put in such an order |
| SymbolDeps.DependencyChecker.CheckExprDeps | tools/kconfig/symbol.c:1130-1162 | every symbol of an expression is completely checked afterwards, or a cycle exists |
| SymbolDeps.DependencyChecker.CheckSymDeps | tools/kconfig/symbol.c:1165-1211 | all scanned expressions of the symbol on top are completely checked, or a cycle exists |
| SymbolDeps.DependencyChecker.CheckDeps | tools/kconfig/symbol.c:1250-1279 | restores stack and check marks; reports only when a cycle exists; otherwise appends the symbol to the dependency order |
| SymbolDeps.DependencyChecker.CheckAll | tools/kconfig/parser.y:514-517 | the loop over all symbols counts an error if and only if the graph of scanned dependencies has a cycle |
| SymbolValues.DefinedDepends | tools/kconfig/symbol.c:325-467 | the defining equation of a symbol uses the values of the symbols in its scanned expressions only |
| SymbolValues.SolutionUnique | tools/kconfig/symbol.c:325-467 | on an acyclic graph at most one valuation solves all defining equations |
| SymbolValues.SolutionExists | tools/kconfig/symbol.c:325-467 | on an acyclic graph one exists |
| SymbolValues.BoolIsNeverMod | tools/kconfig/symbol.c:403-435 | a bool, or a tristate without modules, never ends at m |
| SymbolValues.NotBelowReverseDependency | tools/kconfig/symbol.c:403-435 | a bool or tristate is never below its reverse dependency |
| SymbolValues.UserValueStands | tools/kconfig/symbol.c:386-435 | a user value between the reverse dependency and the visibility is the result |
| ValueRules.LogicFromDefault | tools/kconfig/symbol.c:386-435 | a bool or tristate without applying user value: the smaller of value and condition of its first default whose condition is not n, or n; raised to an implication that is not n and then cut to the direct dependency; raised to the reverse dependency; m rounded to y for bools |
| ValueRules.LogicFromUser | tools/kconfig/symbol.c:386-435 | with a user value and a prompt shown: the user value cut to the largest prompt condition and raised to the reverse dependency |
| ValueRules.TextFromUserOrDefault | tools/kconfig/symbol.c:416-433 | an int, hex or string: the user text if a prompt is shown, else the text of the symbol that the first default whose condition is not n names, else empty |
| ValueRules.FirstUsedExists | tools/kconfig/symbol.c:83-95 | exactly one default is the first whose condition is not n, or there is none |
| ValueRules.VisibilityIsLargest | tools/kconfig/symbol.c:177-206 | the visibility is the largest condition of a prompt, m counting as y for symbols that act as bools |
| SymbolValues.SolutionIsCalculated | tools/kconfig/symbol.c:325-467 | constants and symbols without type are n and stand for their name, bool and tristate symbols for their letter, others are n with their text |
| SymbolValues.SolutionIsWellTyped | tools/kconfig/symbol.c:325-467 | the solved values form an environment of the kind the expression results assume |
| SymbolValues.Evaluator.CalcExpr | tools/kconfig/expr.c:1030-1102 | evaluation that computes missing symbols on the way gives the value under the unique solution and keeps every finished symbol |
| SymbolValues.Evaluator.CalcVisibility | tools/kconfig/symbol.c:177-238 | visibility, direct, reverse and implied dependencies are those under the unique solution |
| SymbolValues.Evaluator.CalcValue | tools/kconfig/symbol.c:325-467 | the memoised computation leaves the symbol valid with its value in the unique solution |
| SymbolValues.Evaluator.CalcSequence | tools/kconfig/symbol.c:325-467 | whatever order symbols are evaluated in, each ends with its value in the unique solution |
| SymbolValues.Evaluator.constructor | tools/kconfig/symbol.c:325-467 | an acyclic table is all that evaluation needs; the solution its results are compared with exists |
| PromptConditions.RewriteMValue | tools/kconfig/menu.c:82-105 | after rewrite_m an expression reads as before with m capped by the value of the modules symbol |
| PromptConditions.VisibilityUnchanged | tools/kconfig/symbol.c:189-203 | the visibility sym_calc_visibility computes is the same from conditions of the same value, and for a symbol that is not tristate from conditions that are n where the original ones are |
| PromptConditions.ConditionRewriter.RewriteModInPlace | tools/kconfig/menu.c:82-105 | rewrite_m in place is the function RewriteM on the slot |
| PromptConditions.ConditionRewriter.RewriteCondition | tools/kconfig/menu.c:400-406 | rewrite_m, expr_transform, conjunction with the dependency of the entry, duplicate elimination and expr_trans_bool together keep the value of the plain conjunction, or, with expr_trans_bool, whether it is n, in every environment that tells apart the constants that can meet; without expr_trans_bool the value never falls |
| PromptConditions.ConditionRewriter.RewriteProperties | tools/kconfig/menu.c:376-406 | after the loop over the properties of a symbol its visibility is that of the plain conjunctions, in every environment that tells apart the constants that can meet |
| MenuTree.FinalizeKeeps | tools/kconfig/menu.c:427-585 | creating submenus and flattening keeps the preorder sequence of all nodes, for any dependency relation |
| MenuTree.FinalizeFlattens | tools/kconfig/menu.c:556-585 | no child without a prompt keeps children of its own |
| MenuTree.AbsorbIsMaximal | tools/kconfig/menu.c:427-555 | a symbol takes exactly the longest run of following siblings that depend on it |
| MenuParents.FinalParents | tools/kconfig/menu.c:427-585 | after menu_finalize the parent of a node is the node that took it, if that has a prompt or is the one finalized, else the parent of the node that took it; a childless symbol takes the following siblings that depend on it, the innermost submenu still open first |
| MenuParents.FinalSiblings | tools/kconfig/menu.c:427-555 | the siblings left behind a node are taken as if the node and what it took were not there |
| MenuParents.TakerIsNear | tools/kconfig/menu.c:427-555 | a node is taken by its own parent or by a symbol beside it on which it depends |
| MenuParents.FlattenSettles | tools/kconfig/menu.c:556-585 | flattening hangs every node below the nearest node with a prompt above it, and moves no other |
| MenuParents.PointersAfterwards | tools/kconfig/menu.c:427-585 | the parent pointers of the finalized tree are those parents, for every node below the root |
| MenuFinalize.FinalizeMenu | tools/kconfig/menu.c:427-585 | the pointer version computes the forest function; next, list and parent links are those of the result |
| MenuFinalize.FinalizeRun | tools/kconfig/menu.c:427-555 | the loop over following siblings, each finalized in turn, links the absorbed run below the symbol |
| MenuFinalize.SpliceChildren | tools/kconfig/menu.c:564-585 | the children of a promptless entry become its following siblings, with the grandparent as parent |
| MenuFinalize.Walk | tools/kconfig/confdata.c:868-912 | the walk without a stack visits the nodes below the root in preorder and stops |
| MenuFinalize.FinalizeAndWalk | tools/kconfig/confdata.c:868-912 | after menu_finalize the walk visits every node below the root exactly once, in the original preorder, and every parent pointer names the nearest node with a prompt above, among those that take each other |
| ConfigQuoting.EscapeStringValue | tools/kconfig/symbol.c:875-916 | the first pass computes exactly the number of bytes, terminator included, that the second pass writes |
| ConfigQuoting.UnescapeEscape | tools/kconfig/confdata.c:258-274 | unescaping gives back the escaped string, whatever follows the closing quote |
| ConfigQuoting.DropByte | tools/kconfig/confdata.c:266-266 | moving strlen bytes down by one drops a byte and keeps the terminator |
| ConfigQuoting.UnescapeInPlace | tools/kconfig/confdata.c:258-274 | the loop over the buffer leaves the unescaped string in place, and reports an unclosed one exactly then |
| ConfigFile.CheckString | tools/kconfig/symbol.c:558-582 | int and hex strings are accepted exactly when they are numerals of the documented form |
| ConfigFile.ConfigReader.SetSymVal | tools/kconfig/confdata.c:234-293 | the value text sets the symbol exactly as its type prescribes, malformed text not at all |
| ConfigFile.ConfigReader.ReadLine | tools/kconfig/confdata.c:413-487 | one line, cut up in its buffer, updates the values as the parsed line says, a # alone as the bytes behind its terminator say; plain data leave the buffer alone |
| ConfigRoundTrip.ConfigWriter.WriteSymbol | tools/kconfig/confdata.c:713-731 | the text written for a symbol of each type |
| ConfigRoundTrip.ConfigWriter.PrintComment | tools/kconfig/confdata.c:614-631 | one output line for every line of the comment, the last one included |
| ConfigRoundTrip.ValueReadBack | tools/kconfig/confdata.c:234-293 | the text of a value is read as that value if and only if a symbol of the type can hold it |
| ConfigRoundTrip.SettingSurvives | tools/kconfig/confdata.c:713-731 | a setting written to a file is read back if and only if its value fits its type |
| ConfigRoundTrip.CommentSkipped | tools/kconfig/confdata.c:420-424 | no comment without a line that begins with CONFIG_ sets anything |
| ConfigRoundTrip.ConfigRoundTrip | tools/kconfig/confdata.c:824-937 | writing any list of distinct symbols among headings and comments and reading it restores every value and nothing else |
| ConfigRoundTrip.WriteConfig | tools/kconfig/confdata.c:868-912 | the entries are written in order, and the text reads back as their settings |
| ConfigReading.AddByte | tools/kconfig/confdata.c:295-314 | the buffer grows when it is full and keeps all other bytes |
| ConfigReading.GetLine | tools/kconfig/confdata.c:316-348 | the line up to its newline or the end of the file, and a terminator, over the bytes the buffer held before |
| ConfigReading.ReadLineAt | tools/kconfig/confdata.c:411-500 | one turn of the loop applies the line as parsed, or, for a # alone, what the rest of the buffer says |
| ConfigReading.ReadSimple | tools/kconfig/confdata.c:350-511 | through one reused buffer the values are those of the text, except that each # alone may unset what stale bytes name; without such a line they are exactly those of the text |
| ConfigReading.LoneHashIsLast | tools/kconfig/confdata.c:413-424 | a text without NUL has such a line if and only if its last line is a # without newline |
| ConfigReading.ReadStale | tools/kconfig/confdata.c:413-449 | a line of plain data followed by a # alone is read as if the # continued with the data from the third byte on |
| ConfigReading.WriteThenRead | tools/kconfig/confdata.c:824-937 | writing distinct settings among headings and comments and reading the file through the buffer gives back every setting and nothing else |
| SavedConfig.ReloadedSymbol | tools/kconfig/symbol.c:365-435 | with the saved values as user values a symbol keeps its value if and only if it is not a tristate at y whose prompt is visible at m only and whose reverse dependency is not y; such a symbol ends at m |
| SavedConfig.ReloadExact | tools/kconfig/symbol.c:325-467 | on an acyclic graph calculating the loaded configuration gives all symbols their old values if and only if there is no such symbol |
| SavedConfig.DefaultAbovePrompt | tools/kconfig/symbol.c:386-401 | a tristate with default y and a prompt visible at m is one |
| SavedConfig.FileReloads | tools/kconfig/confdata.c:350-511 | the values read from the file that was written are those user values |
| MacroExpansion.EnteringSpendsBudget | tools/kconfig/preprocess.c:266-269 | every entry of a variable lowers the sum of the remaining counter budgets, the first component of the termination measure |
| MacroExpansion.SplitJoined | tools/kconfig/preprocess.c:384-399 | cutting a clause at its top-level commas loses nothing |
| MacroExpansion.SplitTokens | tools/kconfig/preprocess.c:384-400 | the token loop cuts the clause at its top-level commas, or reports too many pieces; its stores stay inside the array if and only if it reports or there are at most 16 pieces |
| MacroExpansion.CommasOverflow | tools/kconfig/preprocess.c:384-400 | a clause of 16 commas has 17 pieces, so its last store falls outside the array |
| MacroExpansion.Expander.ExpandString | tools/kconfig/preprocess.c:495-537 | terminates with the expansion defined by recursion, and restores every counter when it returns |
| MacroExpansion.Expander.ExpandDollar | tools/kconfig/preprocess.c:453-488 | expands one reference up to its matching parenthesis, or reports that it is missing |
| MacroExpansion.Expander.EvaluateClause | tools/kconfig/preprocess.c:346-439 | an argument, else a call with name and arguments expanded in order |
| MacroExpansion.Expander.VariableExpand | tools/kconfig/preprocess.c:251-277 | raises and lowers the counter around the expansion; reports self-reference and excessive depth |
| MacroLaws.ArgumentLaw | tools/kconfig/preprocess.c:358-365 | a reference whose clause is the decimal numeral k is the k-th argument |
| MacroLaws.VariableLaw | tools/kconfig/preprocess.c:402-417 | a reference whose pieces expand to given texts, the first the name of a variable, is the variable's value as it stands, or expanded with the other texts as arguments; it is an error below itself without arguments or below more than 1000 expansions of itself |
| MacroLaws.OtherNameLaw | tools/kconfig/preprocess.c:419-431 | any other name is a built-in function, else without arguments an environment variable, else nothing |
| MacroLaws.CallLaw | tools/kconfig/preprocess.c:346-439 | a call of a recursive variable is its value with every reference to an argument replaced by the text of that argument |
| MacroLaws.PlainPieces | tools/kconfig/preprocess.c:495-537 | pieces without a dollar sign are the texts they expand to, so that the call law holds of them as written |
| MacroLaws.ValueLaw | tools/kconfig/preprocess.c:495-537 | expanding a value made of texts and references to arguments fills the arguments in at their places |
| MacroLaws.PiecesAreFound | tools/kconfig/preprocess.c:384-400 | pieces with matching parentheses and no comma outside of them are found again in the clause they make up |
| MacroLaws.UnterminatedLaw | tools/kconfig/preprocess.c:469-480 | a reference that nothing closes is an error |
| MacroLaws.TooManyLaw | tools/kconfig/preprocess.c:384-393 | so is a clause of more than 16 commas outside parentheses |
| MacroLaws.FailingPieceLaw | tools/kconfig/preprocess.c:402-414 | the first piece whose expansion fails decides the error |
| MacroLaws.LoneDollarLaw | tools/kconfig/preprocess.c:459-467 | a dollar sign with no parenthesis behind it stands for itself |
| MacroProperties.FewerEntries | tools/kconfig/preprocess.c:260-269 | with smaller counters an expansion that returns returns the same text |
| MacroProperties.ExpansionIsUnique | tools/kconfig/preprocess.c:260-269 | the counters never change a result: two expansions of a string that return agree |
| MacroProperties.SelfReferenceReported | tools/kconfig/preprocess.c:260-262 | a variable that reaches itself without arguments, through names (computed ones too), arguments and variables with any arguments, is reported by every expansion of a string that refers to the chain |
| MacroProperties.SelfMentionReported | tools/kconfig/preprocess.c:260-262 | the same for references written in the values, at any nesting, whatever the arguments on the way expand to |
| MacroProperties.EndlessReported | tools/kconfig/preprocess.c:264-265 | references that go on for ever are reported, even if every entry has other arguments |
| MacroProperties.RankedExpands | tools/kconfig/preprocess.c:260-266 | when every reference, nested or computed, leads to variables of lower rank, every closed text expands: the counters report nothing but recursion |
| SdramCore.SupportedClocks | vsrc/perip/sdram/core_sdram_axi4/sdram_axi_core.v:79-124 | every clock from 7 to 166 MHz gives delays that fit the 4-bit counter and the power-up sequence |
| SdramCore.SdramController.NextState | vsrc/perip/sdram/core_sdram_axi4/sdram_axi_core.v:189-334 | the combinational state block with its defaults |
| SdramCore.SdramController.IssueCommand | vsrc/perip/sdram/core_sdram_axi4/sdram_axi_core.v:483-646 | the command register, the open-row flags and the active-row table after a clock |
| SdramCore.SdramController.Clock | vsrc/perip/sdram/core_sdram_axi4/sdram_axi_core.v:189-700 | all registers after a clock |
| SdramProtocol.ServiceHolds | vsrc/perip/sdram/core_sdram_axi4/sdram_axi_core.v:205-282 | while the controller works for a request, that request is still made and its row is the one being opened or open |
| SdramProtocol.TableIsTrue | vsrc/perip/sdram/core_sdram_axi4/sdram_axi_core.v:548-586 | the open-row table is what the commands issued so far made of the banks |
| SdramProtocol.CommandsAllowed | vsrc/perip/sdram/core_sdram_axi4/sdram_axi_core.v:483-646 | ACTIVE only to a closed bank, READ and WRITE only with the addressed row open, REFRESH only with all banks closed, on every run with held requests |
| SdramProtocol.WaitedFor | vsrc/perip/sdram/core_sdram_axi4/sdram_axi_core.v:346-437 | a waiting time that a command starts has passed, or is what the delay counter still holds |
| SdramProtocol.CommandsAreSpaced | vsrc/perip/sdram/core_sdram_axi4/sdram_axi_core.v:346-437 | at least tRP, tRFC and tRCD cycles between any two related commands of a run, power-up included |
| SdramProtocol.RefreshComesNearer | vsrc/perip/sdram/core_sdram_axi4/sdram_axi_core.v:205-334 | every cycle, whatever is requested, brings a pending refresh nearer |
| SdramProtocol.PendingRefreshStarts | vsrc/perip/sdram/core_sdram_axi4/sdram_axi_core.v:205-458 | a pending refresh starts within a fixed number of cycles |
| SdramProtocol.RefreshesAreFrequent | vsrc/perip/sdram/core_sdram_axi4/sdram_axi_core.v:442-458 | consecutive refreshes are at most the refresh period plus one plus that number apart: 794 cycles as instantiated |
| SdramProtocol.FirstRefresh | vsrc/perip/sdram/core_sdram_axi4/sdram_axi_core.v:192-200 | the initialisation ends and the first refresh follows |
| SdramProtocol.PowerUp | vsrc/perip/sdram/core_sdram_axi4/sdram_axi_core.v:515-546 | at fixed cycles after reset, ten cycles apart: all banks are precharged, two refreshes and the mode register follow, and nothing else is issued before |
| SdramProtocol.ReadsMoveOn | vsrc/perip/sdram/core_sdram_axi4/sdram_axi_core.v:653-697 | the read pipeline and the acknowledgement record where the state machine was one to four cycles ago |
| SdramProtocol.AcceptComesNearer | vsrc/perip/sdram/core_sdram_axi4/sdram_axi_core.v:205-346 | every cycle lowers the number of cycles to the acceptance of a request, except that an expiring timer may add one refresh |
| SdramProtocol.HeldIsAccepted | vsrc/perip/sdram/core_sdram_axi4/sdram_axi_core.v:205-346 | after initialisation a held request is accepted, unchanged, within a fixed number of cycles, whatever refreshes fall due |
| SdramProtocol.InstantiatedAcceptance | vsrc/perip/sdram/core_sdram_axi4/sdram_axi_core.v:205-346 | which is 35 for the clock of the instance |
| SdramProtocol.AckArrives | vsrc/perip/sdram/core_sdram_axi4/sdram_axi_core.v:679-699 | every accepted request is acknowledged, a read after four cycles, a write after one |
| SdramProtocol.AckOwner | vsrc/perip/sdram/core_sdram_axi4/sdram_axi_core.v:679-699 | every acknowledgement belongs to an accepted request |
| SdramProtocol.AcksInOrder | vsrc/perip/sdram/core_sdram_axi4/sdram_axi_core.v:679-699 | acknowledgements come in the order of acceptance, never two in a cycle |
| SdramProtocol.InFlightBalance | vsrc/perip/sdram/core_sdram_axi4/sdram_axi_core.v:653-697 | the number of unacknowledged requests changes by acceptance and acknowledgement only |
| SdramMemory.SlicesRecompose | vsrc/perip/sdram/core_sdram_axi4/sdram_axi_core.v:180-183 | row, bank and column of an address determine its word within 32 MB |
| SdramMemory.WordsDiffer | vsrc/perip/sdram/core_sdram_axi4/sdram_axi_core.v:180-183 | different words lie in different cells |
| SdramMemory.SdramArray.SdramWrite | csrc/memory/mmio.cpp:145-170 | each supported mask stores exactly its byte lanes of the word |
| SdramMemory.SdramArray.SdramRead | csrc/memory/mmio.cpp:120-135 | the word at bank, selected row and column |
| SdramMemory.SdramArray.Clock | vsrc/ysyxSoCFull.sv:5971-6052 | one clock of the command decoder; a command is ignored while a read is delivered |
| SdramMemory.PlaceInChunk | csrc/memory/mmio.cpp:172-185 | a 1024-byte piece of the image lands in the cells of its addresses and of no others |
| SdramMemory.SdramArray.InitDdr | csrc/memory/mmio.cpp:172-185 | the loop places every image byte where the controller looks for its address, the last one read if the image repeats every 32 MB, and changes no other cell |
| SdramRefinement.WriteKeepsHolding | csrc/memory/mmio.cpp:145-170 | a masked write changes the same bytes of the flat memory and of the array |
| SdramRefinement.AgreementHolds | vsrc/perip/sdram/core_sdram_axi4/sdram_axi_core.v:483-646 | in every cycle the command is one the array functions accept, and the array holds every write accepted so far |
| SdramRefinement.ReadsReturnMemory | vsrc/perip/sdram/core_sdram_axi4/sdram_axi_core.v:653-697 | every accepted read is acknowledged four cycles later with the flat memory word at its address |
| SdramRefinement.LatestWriteWins | csrc/memory/mmio.cpp:145-170 | a byte of the flat memory is the one its latest write put there, or the initial one |
| SdramRefinement.ReadReturnsLatestWrite | vsrc/perip/sdram/core_sdram_axi4/sdram_axi_core.v:653-697 | each lane of a read is the latest accepted write to that byte, or the initial content |
| SdramRefinement.ImageIsInPlace | csrc/memory/mmio.cpp:172-185 | after loading, the initial content is the image, whatever its size |
| SdramRefinement.ReadReturnsImage | csrc/memory/mmio.cpp:172-185 | a byte no accepted write has touched is read as the image byte of its address, or as 0 behind the image |
| SdramPort.Fifo2.Clock | vsrc/perip/sdram/core_sdram_axi4/sdram_axi_pmem.v:390-415 | the ring buffer is a queue that takes at the back when it has room and gives at the front |
| SdramPort.BurstAddresses | vsrc/perip/sdram/core_sdram_axi4/sdram_axi_pmem.v:86-117 | the addresses of a fixed, incrementing or wrapping burst in closed form, wrapping bursts staying in their window |
| SdramBursts.SdramAxiPort.UpdateBurst | vsrc/perip/sdram/core_sdram_axi4/sdram_axi_pmem.v:138-204 | burst continuation, overridden by an accepted address |
| SdramBursts.SdramAxiPort.Combine | vsrc/perip/sdram/core_sdram_axi4/sdram_axi_pmem.v:301-339 | arbitration, handshakes and queue signals |
| SdramBursts.SdramAxiPort.Clock | vsrc/perip/sdram/core_sdram_axi4/sdram_axi_pmem.v:138-339 | all registers and both queues after a clock |
| SdramAxi.OneSideAtATime | vsrc/perip/sdram/core_sdram_axi4/sdram_axi_pmem.v:301-305 | reads and writes are never served in the same cycle |
| SdramAxi.RequestStays | vsrc/perip/sdram/core_sdram_axi4/sdram_axi_pmem.v:206-223 | a request that is not accepted is made again unchanged, although priorities and new addresses may change |
| SdramAxi.PortHoldsRequests | vsrc/perip/sdram/core_sdram_axi4/sdram_axi_pmem.v:206-223 | so the port meets the assumption of the controller, given a master that keeps valid signals until they are taken |
| SdramAxi.QueuesBalance | vsrc/perip/sdram/core_sdram_axi4/sdram_axi_pmem.v:226-293 | queued responses plus requests in flight equal the request queue, so there is always room for a response |
| SdramAxi.BeatsOfBurst | vsrc/perip/sdram/core_sdram_axi4/sdram_axi_pmem.v:230-245 | a burst of length n + 1 has n + 1 beats with the last mark on the final one only |
| SdramAxi.BeatsBalance | vsrc/perip/sdram/core_sdram_axi4/sdram_axi_pmem.v:138-204 | what is outstanding plus what begins is what is issued plus what stays outstanding |
| SdramAxi.BurstsAreIssued | vsrc/perip/sdram/core_sdram_axi4/sdram_axi_pmem.v:138-245 | the beats issued are those of the accepted bursts in order, nothing lost or added |
| SdramAxi.NextIsAcked | vsrc/perip/sdram/core_sdram_axi4/sdram_axi_core.v:679-699 | the n-th acknowledgement belongs to the n-th accepted request |
| SdramAxi.QueuesAlwaysMatch | vsrc/perip/sdram/core_sdram_axi4/sdram_axi_pmem.v:226-293 | the request queue holds the unanswered requests in order, the response queue the answers of the first of them |
| SdramAxi.ReadChannelIsCorrect | vsrc/perip/sdram/core_sdram_axi4/sdram_axi_pmem.v:326-339 | every beat of the read channel bears identifier and last mark of the next request and the flat memory word at its address |
| SdramAxi.IssuedAreAccepted | vsrc/perip/sdram/core_sdram_axi4/sdram_axi_pmem.v:226-245 | the beats issued are the requests accepted, in order, each with its tracking entry and address |
| SdramAxi.ReadBeatIsCorrect | vsrc/perip/sdram/core_sdram_axi4/sdram_axi_pmem.v:326-339 | a beat on the read channel is the k-th one of an accepted read burst: it bears the identifier of the burst, the last mark on its final beat only, and the flat memory word at the k-th address of the burst, held when that beat was accepted |
| SdramAxi.WriteBeatIsCorrect | vsrc/perip/sdram/core_sdram_axi4/sdram_axi_pmem.v:301-320 | a write the controller accepts is the k-th beat of an accepted write burst, goes to the k-th address of the burst, and carries data and strobes of the write beat taken in that cycle |
| SdramAxi.WriteDataAreTaken | vsrc/perip/sdram/core_sdram_axi4/sdram_axi_pmem.v:301-320 | a write beat is taken in exactly the cycles in which the controller accepts a write |
| SdramAxi.ResponsesBalance | vsrc/perip/sdram/core_sdram_axi4/sdram_axi_pmem.v:226-339 | on each channel the responses due for the accepted addresses are those given, in order, then those queued, then those of beats not yet issued |
| SdramAxi.WriteChannelIsCorrect | vsrc/perip/sdram/core_sdram_axi4/sdram_axi_pmem.v:326-339 | write responses are given once for each accepted write burst, in order, with its identifier, after its last beat has been acknowledged |
| SdramProgress.AddressIsTakenInTime | vsrc/perip/sdram/core_sdram_axi4/sdram_axi_pmem.v:301-309 | after initialisation, with responses taken and write data offered, a valid read or write address is taken within a fixed number of cycles, 18981 as instantiated, whatever the other channel does |
| SdramProgress.NextBeat | vsrc/perip/sdram/core_sdram_axi4/sdram_axi_pmem.v:301-309 | with an address or a burst waiting, the controller accepts a next beat at most one cycle later than its own bound |
| SdramProgress.SidesAlternate | vsrc/perip/sdram/core_sdram_axi4/sdram_axi_pmem.v:301-305 | while both channels have addresses, two addresses taken one after the other are of different channels |
| InstructionCache.SyncRam.Clock | npc_chisel/npc_chisel/src/utils/memory/SDPRAM.scala:49-58 | the RAM output shows what the cell held before the clock |
| InstructionCache.ICache.ClockState | npc_chisel/npc_chisel/src/utils/cache/ICache.scala:174-276 | counters, replaced way, valid bit and state after a clock |
| InstructionCache.ICache.Clock | npc_chisel/npc_chisel/src/utils/cache/ICache.scala:83-291 | registers, valid bits and RAM contents after a clock |
| CacheCoherence.CountedStep | npc_chisel/npc_chisel/src/utils/cache/ICache.scala:181-276 | the words asked for and not yet answered are those the counters stand for, burst or word by word |
| CacheCoherence.UniqueStep | npc_chisel/npc_chisel/src/utils/cache/ICache.scala:247-266 | no refill makes two ways of a set bear the same tag |
| CacheCoherence.HitStep | npc_chisel/npc_chisel/src/utils/cache/ICache.scala:92-147 | a registered lookup that hits delivers the memory word, from one way only |
| CacheCoherence.CoherentRefill | npc_chisel/npc_chisel/src/utils/cache/ICache.scala:204-268 | a refill ends with a block that matches memory and disturbs no other |
| CacheCoherence.InvariantKept | npc_chisel/npc_chisel/src/utils/cache/ICache.scala:83-291 | every step keeps the invariant, memory changes and fence.i included |
| CacheCoherence.OneResponseEach | npc_chisel/npc_chisel/src/utils/cache/ICache.scala:278-291 | a request stays until it is answered and makes room when it is |
| CacheCoherence.EveryResponseIsMemory | npc_chisel/npc_chisel/src/utils/cache/ICache.scala:285-291 | every word returned is the one memory holds at the requested address, in any run of hits and refills |
| CacheCoherence.AtMostOneWayMatches | npc_chisel/npc_chisel/src/utils/cache/ICache.scala:123-134 | at most one valid way of a set matches an address |
| CacheProgress.ComesNearer | npc_chisel/npc_chisel/src/utils/cache/ICache.scala:181-276 | every grant and every answer of memory lowers the number still needed before the response, and nothing raises it |
| CacheProgress.FetchIsAnswered | npc_chisel/npc_chisel/src/utils/cache/ICache.scala:83-291 | when memory grants and answers within d cycles, every fetch accepted is answered with the memory word of its address, at most eight times d + 1 cycles after the lookup |
| CacheProgress.FreeIsReady | npc_chisel/npc_chisel/src/utils/cache/ICache.scala:278-283 | a cache without a request accepts a fetch at once |
| CacheProgress.HeldBlockHits | npc_chisel/npc_chisel/src/utils/cache/ICache.scala:92-134 | a fetch of a block the cache holds is answered in the next cycle, with nothing asked of memory |
| CacheProgress.RefillIsKept | npc_chisel/npc_chisel/src/utils/cache/ICache.scala:247-266 | a completed refill leaves its block in the way replaced |
| CacheProgress.BlockStays | npc_chisel/npc_chisel/src/utils/cache/ICache.scala:204-268 | a block stays until fence.i or until a refill of the same set and way ends |
| MulDiv.HalvesOfCorrected | npc_chisel/npc_chisel/src/core/EXE.scala:126-134 | complement and increment of a double-width product gives both halves of its negation |
| MulDiv.MultiplicationIsExact | npc_chisel/npc_chisel/src/core/EXE.scala:109-134 | for every width, MUL, MULH, MULHSU and MULHU are the halves of the exact product |
| MulDiv.TruncatedDivisionUnique | npc_chisel/npc_chisel/src/core/EXE.scala:136-177 | division rounding towards zero has one quotient and one remainder |
| MulDiv.DivisionIsExact | npc_chisel/npc_chisel/src/core/EXE.scala:136-177 | for every width, DIV, DIVU, REM and REMU are exact, zero divisors and the most negative value included |
| Watchpoints.NewTakesSmallest | csrc/sdb/watchpoint.cpp:38-73 | new_wp moves the smallest unused number to the used list and nothing else, and takes none only when all are in use |
| Watchpoints.FreeKeepsPool | csrc/sdb/watchpoint.cpp:75-117 | releasing a used number keeps all numbers on the two lists if and only if some number was free; then that number and no other changes its list |
| Watchpoints.CallsKeepPool | csrc/sdb/watchpoint.cpp:38-117 | so does any sequence of calls that meets this condition |
| Watchpoints.FullPoolLosesNode | csrc/sdb/watchpoint.cpp:25-117 | from init_wp_pool, as many calls of new_wp as there are nodes lead to a state in which free_wp loses its node |
| Watchpoints.WatchpointPool.InsertNode | csrc/sdb/watchpoint.cpp:56-70 | the insertion loop links the node at its place, although it visits an appended node again |
| Watchpoints.WatchpointPool.NewWp | csrc/sdb/watchpoint.cpp:38-73 | both lists stay linked, sorted and disjoint while the first free node moves over |
| Watchpoints.WatchpointPool.FreeWp | csrc/sdb/watchpoint.cpp:75-117 | unlinks the node and inserts it into the free list unless that list is empty; reports numbers that are not in use |
| Watchpoints.WatchpointPool.constructor | csrc/sdb/watchpoint.cpp:25-35 | initially every node is free, in order |

## Left out

- Choices, ranges and lists: `sym_calc_choice`, `sym_check_choice_deps`, `sym_validate_range`, E_RANGE and E_LIST nodes. Choices would double the model with links in both directions.
- Node identity and freeing in `expr.c`: an expression tree is a value in a cell, addressed by paths. Pointer equality of slots is equality of paths; sharing and double frees are not modelled.
- The lexer: `ExprPrint` prints and parses tokens, not characters, and takes quoted and unquoted words as given.
- `sym_set_tristate_value`, `sym_toggle_tristate_value`, SYMBOL_WRITE and SYMBOL_CHANGED flags, warnings about unmet dependencies: bookkeeping of the user interface.
- Properties other than prompts, defaults and the three dependency expressions contribute only the expressions that `sym_check_sym_deps` scans.
- The dependency relation of `menu_finalize` is any relation on nodes. `PromptConditions` covers the rewriting of conditions at the head of that function, but not the reverse dependencies it collects from selects and implies.
- Files, environment variables, time and processes: texts and environment are parameters, built-in macro functions are total functions that may stop the program.
- Memory that was never written: bytes of the line buffer beyond the longest line so far count as zeroed.
- What a store beyond the array of macro arguments overwrites; the model keeps the piece in a sequence.
- `variable_add`, whose expansion of simple variables happens at definition time, is not modelled; the variable list is fixed during an expansion.
- Pin-level SDRAM timing: inverted clocks, input and output register placement, the data enable flag, clock enable and mode register of the memory model. Its latency is the one the read pipeline expects, and the burst length is one.
- SdramRefinement.ReadsReturnMemory: assumes strobes that `sdram_write` supports; others stop the simulation with an assertion.
- Failing reads from the image file in `init_ddr`; they are taken to succeed.
- AXI beats with an empty strobe, and write bursts whose first beat is marked last although more follow: the port loses count of such bursts.
- CacheCoherence.EveryResponseIsMemory: assumes that responses are taken when valid, that one word is requested at a time, and that memory changes only while the cache is idle and is followed by fence.i before the next request.
- Which way of the cache is replaced: any replacement bit will do for what is proved. The bit read for a lookup is the one before an update made in the same cycle.
- The bypass of the on-chip SRAM region, direct-mapped configurations and FPGA memory primitives of the cache.
- The handshake registers `mulReqFired` and `divReqFired`, the latency of multiplier and divider, and vendor cores.
- Watchpoint expressions, values and printing.
- Terminal user interfaces, simulator plumbing, the remaining peripherals, and pipeline control across stages.
