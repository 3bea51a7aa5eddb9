# LALR(1) table construction and parsing

This project models the LALR(1) pipeline of the `com.compiler.parser.lr` package in Dafny:

- `LR1Automaton`: FIRST of a symbol sequence, the post-dot suffix of an item, the worklist CLOSURE and GOTO.
- `LALR1Table.build()`, in order:
  - group the canonical LR(1) states by kernel;
  - merge the lookaheads of each group into one LALR(1) state;
  - map old state ids to new ones;
  - carry the canonical transitions over to the merged states;
  - `fillActionGoto()`: fill ACTION (asymmetric conflict policy) and GOTO.
- `LALR1Parser.parse()`: the shift/reduce/goto/accept stack loop over the token list with `$` appended.

The modules follow the classes:

- `Grammar`: symbols, productions, LR(1) items and kernel entries as values, and `Pick`, a choice of the next element of a set.
- `Automaton` (`LR1Automaton.java`):
  - FIRST as written, where the shared FIRST map is mutated, and as documented;
  - CLOSURE as written and as documented;
  - GOTO as written and as documented.
- `LalrMerge` (`LALR1Table.build()`, steps 2a-3):
  - the loops that group, merge, map and remap;
  - the pure functions they are proved against, and the lemmas about them.
- `ActionGoto` (`fillActionGoto()` as values):
  - the effect of one item on ACTION and the conflict list (`ItemStep`);
  - the fold over items and states (`FillItems`, `FillStates`);
  - what ends up in each cell, whatever the hash order;
  - GOTO as the non-terminal part of the merged transitions.
- `Table`: the class `LALR1Table`, whose methods update these fields in place:
  - `lalrStates`, `lalrTransitions`, `action`, `gotoTable`, `conflicts`, `initialState`;
  - `Build` runs the steps in the order `build()` does.
- `Parser`:
  - `Parse`: the loop as written, where the action is carried between iterations and the lookup is by key name;
  - `ParseFixed`: the loop as intended;
  - concrete inputs on which the two differ.

`HashMap`/`HashSet` iteration is modelled in two ways:

- each loop over a `HashMap`/`HashSet` chooses its next element with `:|`, directly or through `Pick`. The same holds for `Enumerate`, which lists a set in an arbitrary order, and for the parser's `Lookup`, which picks any key of the given name;
- the pure folds take the visiting order as an argument, or return it as a ghost out-parameter, and the lemmas hold for every order.

The canonical LR(1) collection is an input, because `LR1Automaton.build()` is an empty stub. The augmented production and the `$` symbol are constructor parameters: `LALR1Table` reads them from the automaton, which does not define them.

## Model

| member | source | states |
|---|---|---|
| Automaton.FirstOfSequenceMembers | src/main/java/com/compiler/parser/lr/LR1Automaton.java:144-182 | b is in FIRST(X1..Xn) iff one of two holds: b is epsilon and every FIRST(Xi) contains epsilon; or b is not epsilon and b is in some FIRST(Xi) whose predecessors are all nullable. For the empty sequence this gives {epsilon}. |
| Automaton.FirstOfSequenceBound | src/main/java/com/compiler/parser/lr/LR1Automaton.java:160-179 | FIRST of a sequence holds only symbols taken from the FIRST map, plus epsilon |
| Automaton.FirstOfSequenceFrame | src/main/java/com/compiler/parser/lr/LR1Automaton.java:160-179 | FIRST of a sequence, and the set of symbols the scan visits, depend only on the FIRST sets of the sequence's own symbols |
| Automaton.VisitedWithin | src/main/java/com/compiler/parser/lr/LR1Automaton.java:160-173 | the scan only looks up (and strips epsilon from) symbols of the sequence |
| Automaton.FirstScanOnDistinct | src/main/java/com/compiler/parser/lr/LR1Automaton.java:144-182 | on a repetition-free sequence whose symbols all have FIRST sets, the as-written scan returns the documented FIRST. It leaves the map with epsilon removed from the FIRST set of every visited symbol, and nothing else changed. |
| Automaton.FirstScanKeys | src/main/java/com/compiler/parser/lr/LR1Automaton.java:160-179 | the scan never adds or removes map keys, and fails only when a symbol of the sequence has no FIRST set |
| Automaton.RepeatedNullableSymbolCutsScan | src/main/java/com/compiler/parser/lr/LR1Automaton.java:164-173 | for FIRST(A) = {epsilon, x}, scanning A A b returns {x} where the documented FIRST is {x, b}. The first visit of A strips epsilon, so the second visit stops the loop. |
| Automaton.SecondScanDiffers | src/main/java/com/compiler/parser/lr/LR1Automaton.java:167 | two scans of the same sequence A b on the shared map give different results ({x, b}, then {x}) |
| Automaton.ComputeFirstOfSequence | src/main/java/com/compiler/parser/lr/LR1Automaton.java:144-182 | the method returns the scan's result and leaves the shared FIRST map as the scan leaves it, with the same keys. It fails (a null dereference) exactly when the scan reaches a symbol without a FIRST set. |
| Automaton.ProductionPostDot | src/main/java/com/compiler/parser/lr/LR1Automaton.java:190-199 | the result is right[dot..]: its length is \|right\| - dot (0 past the end) and its k-th symbol is right[dot + k] |
| Automaton.ProductionsOf | src/main/java/com/compiler/parser/lr/LR1Automaton.java:84-89 | p is in the result iff p is a grammar production whose left side is B |
| Automaton.Enumerate | src/main/java/com/compiler/parser/lr/LR1Automaton.java:61-64 | the worklist built from the input set holds every item of it exactly once, in hash order |
| Automaton.AddLookaheadItems | src/main/java/com/compiler/parser/lr/LR1Automaton.java:106-120 | the closure gains exactly [B -> . gamma, b] for each terminal b other than epsilon in the lookahead set. Exactly the newly added items are enqueued, so an unchanged closure leaves the worklist unchanged. |
| Automaton.ProcessItem | src/main/java/com/compiler/parser/lr/LR1Automaton.java:77-125 | after an item is dequeued, the closure grows by exactly the items it generates that were not there yet, and those (and only those) are enqueued |
| Automaton.GeneratedInBound | src/main/java/com/compiler/parser/lr/LR1Automaton.java:74-126 | every generated item lies in a finite set fixed by the grammar, the FIRST map and the input, so the worklist loop terminates |
| Automaton.ClosureLoopStep | src/main/java/com/compiler/parser/lr/LR1Automaton.java:74-126 | one iteration keeps the worklist invariant. The closure lies between the input and the finite bound and contains the worklist. Every item in the closure but not in the worklist has its generated items in the closure. Added items have dot 0 and a terminal lookahead. The closure lies inside every closed superset of the input. |
| Automaton.Closure | src/main/java/com/compiler/parser/lr/LR1Automaton.java:43-130 | the documented CLOSURE. The result contains the input and contains every item generated by one of its members, and it is the least such set. Every added item has its dot at 0, a grammar production and a terminal lookahead other than epsilon. |
| Automaton.ClosureOfClosed | src/main/java/com/compiler/parser/lr/LR1Automaton.java:44-57 | the closure of a set that is already closed is that set, so CLOSURE is idempotent |
| Automaton.ClosureUnique | src/main/java/com/compiler/parser/lr/LR1Automaton.java:44-57 | the closure is uniquely determined, whatever the worklist order |
| Automaton.ClosureAsWritten | src/main/java/com/compiler/parser/lr/LR1Automaton.java:61-129 | closure() as written returns exactly its input, because the dequeued item is re-added in place of the new one. It does not fail when every FIRST lookup is defined. Each call works on its own copy of the FIRST sets, as the Java computes them afresh per call, so the epsilon removals do not outlive it. |
| Automaton.ClosureAsWrittenMissesItems | src/main/java/com/compiler/parser/lr/LR1Automaton.java:114-115 | for S' -> S, S -> a, the set {[S' -> . S, $]} is covered by the FIRST map but is not closed: it generates [S -> . a, $], which the as-written closure does not add |
| Automaton.AdvanceMembers | src/main/java/com/compiler/parser/lr/LR1Automaton.java:218-230 | m is a moved item iff some item of the state has X after its dot and m has the same production and lookahead with dot + 1; then X is the symbol just before m's dot |
| Automaton.MoveDot | src/main/java/com/compiler/parser/lr/LR1Automaton.java:213-230 | the loop collects exactly the moved items |
| Automaton.GoTo | src/main/java/com/compiler/parser/lr/LR1Automaton.java:210-234 | the documented GOTO is the closure of the moved items. It is empty when no item of the state has X after its dot. |
| Automaton.GoToAsWritten | src/main/java/com/compiler/parser/lr/LR1Automaton.java:210-234 | goTo() as written fails (remove(0) on an empty list) whenever the state has a completed item. Otherwise it returns the moved items, with no closure added. It does not fail when no item is completed and every FIRST lookup of the moved items is defined. |
| Automaton.GoToAsWrittenFailsOnCompletedItem | src/main/java/com/compiler/parser/lr/LR1Automaton.java:222 | the state {[S -> . a, $], [S -> a ., $]} has a completed item, so goTo() on a fails, although the documented GOTO on a is non-empty |
| LalrMerge.KernelOfState | src/main/java/com/compiler/parser/lr/LALR1Table.java:94-99 | the loop collects the state's kernel, the set of its (production, dot) pairs |
| LalrMerge.GroupsOfStep | src/main/java/com/compiler/parser/lr/LALR1Table.java:102 | computeIfAbsent(kernel).add(s) keeps the grouping invariant: every id so far sits in its kernel's list, in increasing order |
| LalrMerge.GroupByKernel | src/main/java/com/compiler/parser/lr/LALR1Table.java:88-103 | the keys are exactly the distinct kernels of the canonical states. Each list is non-empty and increasing, and holds exactly the states with that kernel, so two states share a group iff their kernels are equal. |
| LalrMerge.KernelCount | src/main/java/com/compiler/parser/lr/LALR1Table.java:113-151 | there are no more distinct kernels than canonical states, so no more merged states than canonical ones |
| LalrMerge.LookaheadMapAdd | src/main/java/com/compiler/parser/lr/LALR1Table.java:128-129 | adding one item's lookahead under its kernel entry keeps the map equal to "kernel entry -> lookaheads of the items seen" |
| LalrMerge.AddLookaheads | src/main/java/com/compiler/parser/lr/LALR1Table.java:126-132 | the inner loop adds every item of one state to the lookahead map |
| LalrMerge.GroupItemsSnoc | src/main/java/com/compiler/parser/lr/LALR1Table.java:121-123 | the items of the first j + 1 group members are those of the first j plus those of member j |
| LalrMerge.CollectLookaheads | src/main/java/com/compiler/parser/lr/LALR1Table.java:118-133 | the keys are the kernel entries of the group's items, and each maps to the union of their lookaheads across the group |
| LalrMerge.BuildState | src/main/java/com/compiler/parser/lr/LALR1Table.java:136-147 | the new state holds (p, d, a) exactly for each entry (p, d) and each of its lookaheads a |
| LalrMerge.MergeGroup | src/main/java/com/compiler/parser/lr/LALR1Table.java:113-150 | the merged state holds (p, d, a) iff some member state of the group holds (p, d, a) |
| LalrMerge.MergedStateKernel | src/main/java/com/compiler/parser/lr/LALR1Table.java:136-150 | the merged state of a kernel has that kernel |
| LalrMerge.LastContainingIsLast | src/main/java/com/compiler/parser/lr/LALR1Table.java:163-171 | the scan's final index names a merged state containing the canonical state, and no later merged state contains it |
| LalrMerge.StateMapFacts | src/main/java/com/compiler/parser/lr/LALR1Table.java:155-172 | the map sends each canonical state to the last merged state containing all its items. It maps exactly the states some merged state contains. |
| LalrMerge.StateMapStep | src/main/java/com/compiler/parser/lr/LALR1Table.java:159-171 | one more old index adds at most its own entry to the map |
| LalrMerge.ScanMerged | src/main/java/com/compiler/parser/lr/LALR1Table.java:163-171 | the inner loop writes old index o to the last containing merged index, or writes nothing |
| LalrMerge.MapStates | src/main/java/com/compiler/parser/lr/LALR1Table.java:155-172 | the loops build exactly the old-to-new map that StateMapFacts describes |
| LalrMerge.EveryStateMapped | src/main/java/com/compiler/parser/lr/LALR1Table.java:159-172 | after merging, every canonical state has an image |
| LalrMerge.Put | src/main/java/com/compiler/parser/lr/LALR1Table.java:200 | computeIfAbsent(l).put(x, t) sets entry (l, x) to t, opens row l if needed and keeps every other entry |
| LalrMerge.RemapAlongPresent | src/main/java/com/compiler/parser/lr/LALR1Table.java:189-202 | every visited transition s -x-> t leaves an entry at (m(s), x) |
| LalrMerge.RemapAlongKeeps | src/main/java/com/compiler/parser/lr/LALR1Table.java:189-202 | entries already in lalrTransitions are never removed |
| LalrMerge.RemapAlongRows | src/main/java/com/compiler/parser/lr/LALR1Table.java:189-202 | the rows after remapping are the earlier rows plus the images of visited source states |
| LalrMerge.RemapAlongValues | src/main/java/com/compiler/parser/lr/LALR1Table.java:189-202 | each entry holds m(t) of the last visited transition landing on it, or its earlier value when no transition lands on it |
| LalrMerge.LandsIffWritten | src/main/java/com/compiler/parser/lr/LALR1Table.java:189-202 | with every canonical transition visited, a pair is landed on iff some canonical transition maps onto it |
| LalrMerge.RemapAlongOk | src/main/java/com/compiler/parser/lr/LALR1Table.java:189-202 | remapping every canonical transition, in any order, gives merged transitions in which: every s -x-> t has an entry at (m(s), x); every entry some transition lands on holds m(t) for one of them; every other entry is the earlier one |
| LalrMerge.RemapAlongSnoc | src/main/java/com/compiler/parser/lr/LALR1Table.java:192-201 | visiting one more transition is one Put |
| LalrMerge.RowDoneStep | src/main/java/com/compiler/parser/lr/LALR1Table.java:192-201 | one inner-loop iteration keeps the row invariant |
| LalrMerge.RemapRow | src/main/java/com/compiler/parser/lr/LALR1Table.java:190-201 | the inner loop fails iff some target of the row has no image. Otherwise it extends the visiting order by exactly the row's transitions, and the result is the remap along that order. |
| LalrMerge.StatesDoneStep | src/main/java/com/compiler/parser/lr/LALR1Table.java:189-202 | one outer-loop iteration keeps the invariant |
| LalrMerge.RemapTransitions | src/main/java/com/compiler/parser/lr/LALR1Table.java:189-202 | step 3 fails (unboxing a null id) iff some canonical transition has an endpoint without an image. Otherwise the result satisfies everything RemapAlongOk states. |
| ActionGoto.ItemStepCell | src/main/java/com/compiler/parser/lr/LALR1Table.java:246-304 | visiting one more item keeps each cell's rule. A cell is filled iff an item writes it. It holds ACCEPT iff it is `$` with the accept item present. It holds SHIFT(trans[s][a]) iff not ACCEPT and some item shifts on a. A REDUCE comes from an item reducing on a by that production. |
| ActionGoto.ItemStepFrame | src/main/java/com/compiler/parser/lr/LALR1Table.java:246-304 | one item touches only row s and opens it exactly when it shifts with a transition or is completed. It appends a conflict exactly when it shifts or reduces on a cell already filled in row s, and then exactly one conflict, naming s and that cell. An ACCEPT and a write into an empty cell record nothing. |
| ActionGoto.FillItemsCell | src/main/java/com/compiler/parser/lr/LALR1Table.java:244-305 | after a state's items are visited in any order, every cell of its row obeys the cell rule for that state's item set |
| ActionGoto.FillItemsFrame | src/main/java/com/compiler/parser/lr/LALR1Table.java:244-305 | filling state s changes no other row and only appends to the conflict list |
| ActionGoto.FillStatesRows | src/main/java/com/compiler/parser/lr/LALR1Table.java:235-306 | ACTION has a row for exactly the states that have a completed item or a terminal item with a transition |
| ActionGoto.FillStatesCell | src/main/java/com/compiler/parser/lr/LALR1Table.java:235-306 | after every state is filled, each cell of each state obeys the cell rule |
| ActionGoto.FillItemsConflict | src/main/java/com/compiler/parser/lr/LALR1Table.java:262-298 | an item that shifts or reduces on a cell already written by an earlier item of the state records a conflict for that cell. The earlier item may have written SHIFT, REDUCE or ACCEPT. |
| ActionGoto.FillItemsConflictSource | src/main/java/com/compiler/parser/lr/LALR1Table.java:262-298 | the converse of FillItemsConflict: every conflict recorded while filling a state names that state and a cell that an earlier item of it wrote and a later item shifted or reduced on |
| ActionGoto.FillStatesConflictSource | src/main/java/com/compiler/parser/lr/LALR1Table.java:235-306 | every conflict in the final report names a real state and a cell with such a clash in that state's visiting order |
| ActionGoto.FillStatesConflict | src/main/java/com/compiler/parser/lr/LALR1Table.java:235-306 | for items at positions i < j of a state's visiting order, with item i writing the cell and item j shifting or reducing on it, a conflict is recorded and stays recorded after all later states are filled |
| ActionGoto.FillStatesSound | src/main/java/com/compiler/parser/lr/LALR1Table.java:235-306 | for any item order, every cell obeys the cell rule and rows exist only for real states. Two distinct items shifting or reducing on the same cell are always reported as a conflict. A SHIFT or REDUCE on `$` visited after the accept item is reported too, and the cell keeps ACCEPT. Conversely, every reported conflict names a real state and a cell where an earlier item wrote and a later one shifted or reduced. This includes two items that shift on the same terminal to the same target. In state 0 of `L -> a L | a`, the items `[L -> . a L, $]` and `[L -> . a, $]` both shift on `a`, and a conflict is logged. |
| ActionGoto.FillDeterministic | src/main/java/com/compiler/parser/lr/LALR1Table.java:237-306 | when no two items of a state reduce on the same terminal by different productions, ACTION does not depend on the hash order, so a second fill gives the same ACTION |
| ActionGoto.GotoOf | src/main/java/com/compiler/parser/lr/LALR1Table.java:310-334 | GOTO has a row for exactly the states below n with transitions, and GOTO[s][B] = t exactly for the transitions s -B-> t on non-terminals B |
| Table.NonTerminalRow | src/main/java/com/compiler/parser/lr/LALR1Table.java:321-332 | the loop keeps exactly the non-terminal entries of a transition row |
| Table.GotoOfStep | src/main/java/com/compiler/parser/lr/LALR1Table.java:310-334 | one more state adds exactly its non-terminal row, if it has transitions |
| Table.LALR1Table.constructor | src/main/java/com/compiler/parser/lr/LALR1Table.java:22-49 | a new table holds the canonical collection with empty merged states, transitions, ACTION, GOTO and conflicts, and initial state 0 |
| Table.LALR1Table.FillItem | src/main/java/com/compiler/parser/lr/LALR1Table.java:248-304 | visiting one item changes ACTION and the conflict list exactly as ItemStep does (see ItemStepCell and ItemStepFrame) |
| Table.LALR1Table.FillState | src/main/java/com/compiler/parser/lr/LALR1Table.java:244-305 | the items of state s are each visited once, and the tables become the fold over that visiting order |
| Table.LALR1Table.FillGoto | src/main/java/com/compiler/parser/lr/LALR1Table.java:310-334 | GOTO becomes the non-terminal part of the merged transitions |
| Table.LALR1Table.FillActionGoto | src/main/java/com/compiler/parser/lr/LALR1Table.java:235-335 | after clearing, ACTION and the conflicts are the fill of every merged state in some hash order, and GOTO is GotoOf. FillStatesSound and FillDeterministic state what that implies. |
| Table.LALR1Table.MergeStates | src/main/java/com/compiler/parser/lr/LALR1Table.java:113-151 | one merged state is appended per distinct kernel, each kernel once, and earlier states are kept |
| Table.LALR1Table.Rewire | src/main/java/com/compiler/parser/lr/LALR1Table.java:189-207 | either every canonical id involved has an image, the transitions are remapped (RemapOk) and the tables filled, or the status is UnmappedTransition and nothing is written |
| Table.LALR1Table.Connect | src/main/java/com/compiler/parser/lr/LALR1Table.java:155-207 | the initial state becomes the image of canonical state 0, and Rewire's outcome follows. With no canonical state the status is NoInitialState. |
| Table.LALR1Table.Build | src/main/java/com/compiler/parser/lr/LALR1Table.java:78-209 | the whole of build(). The merged states are one per kernel, with no more new ones than canonical states. Every canonical state has an image. The initial state, the transitions and the tables are as Connect states. |
| Parser.Input | src/main/java/com/compiler/parser/lr/LALR1Parser.java:44-49 | the input is the caller's tokens unchanged, followed by one `$` token |
| Parser.PopCount | src/main/java/com/compiler/parser/lr/LALR1Parser.java:127-141 | a reduce pops \|right\| states, and pops none exactly for an empty right side or one consisting of `epsilon` alone |
| Parser.FindSymbol | src/main/java/com/compiler/parser/lr/LALR1Parser.java:92-102 | the scan finds a row key whose name is the token type, and finds none iff no key has that name |
| Parser.LookupUnique | src/main/java/com/compiler/parser/lr/LALR1Parser.java:92-102 | when names are unique in each row, any key the scan finds is the one the function Lookup picks |
| Parser.StepRules | src/main/java/com/compiler/parser/lr/LALR1Parser.java:76-177 | one iteration as written: SHIFT pushes its target and advances ip by one. REDUCE pops PopCount states, keeps at least one and pushes one. The stack is never empty when the loop goes on. ACCEPT comes from a row entry matching the token unless the carried action was ACCEPT. |
| Parser.PopAndGoto | src/main/java/com/compiler/parser/lr/LALR1Parser.java:118-166 | the reduce branch is ReduceStep. Popping more states than the stack holds throws; an empty stack after the pops, or a missing GOTO entry, is a rejection; otherwise the GOTO target is pushed. |
| Parser.Iterate | src/main/java/com/compiler/parser/lr/LALR1Parser.java:76-177 | one pass of the loop body as written, including the stale action and the three exceptions, is Step when no ACTION row has two keys with the same name |
| Parser.RunUnfold | src/main/java/com/compiler/parser/lr/LALR1Parser.java:76-177 | the run takes one step, then stops or continues with one less fuel |
| Parser.Parse | src/main/java/com/compiler/parser/lr/LALR1Parser.java:38-180 | parse() as written: from the stack [initialState] and ip 0 over the tokens plus `$`, the loop's outcome is Run's when no ACTION row has two keys with the same name |
| Parser.StepFixedRules | src/main/java/com/compiler/parser/lr/LALR1Parser.java:76-177 | one iteration as intended never throws. It goes on or accepts only through an ACTION entry of the current row whose name is the token type, and that entry is the action taken. |
| Parser.RunFixedNeverCrashes | src/main/java/com/compiler/parser/lr/LALR1Parser.java:76-177 | the intended run never ends in an exception |
| Parser.RunFixedUnfold | src/main/java/com/compiler/parser/lr/LALR1Parser.java:76-177 | the intended run takes one step, then stops or continues with one less fuel |
| Parser.IterateFixed | src/main/java/com/compiler/parser/lr/LALR1Parser.java:76-177 | one pass of the intended loop body never throws, and is StepFixed when no ACTION row has two keys with the same name |
| Parser.RunFrom | src/main/java/com/compiler/parser/lr/LALR1Parser.java:76-177 | the intended loop from any configuration never throws, and yields RunFixed's outcome when no ACTION row has two keys with the same name |
| Parser.ParseFixed | src/main/java/com/compiler/parser/lr/LALR1Parser.java:38-180 | parse() as intended never throws, and yields RunFixed's outcome from [initialState] over the tokens plus `$` when no ACTION row has two keys with the same name |
| Parser.StepAgrees | src/main/java/com/compiler/parser/lr/LALR1Parser.java:76-177 | the two loops take the same step whenever the row exists, has an entry for the token, and a reduce leaves a state on the stack |
| Parser.StaleActionAccepts | src/main/java/com/compiler/parser/lr/LALR1Parser.java:74-107 | with the LALR(1) table of L -> a L \| a, the input `a x` is accepted by the loop as written, which replays SHIFT on x (a token with no entry), and rejected by the intended loop |
| Parser.MissingRowThrows | src/main/java/com/compiler/parser/lr/LALR1Parser.java:85-93 | with no ACTION row for the initial state, the loop as written throws a NullPointerException, where the intended loop rejects |
| Parser.PopPastBottomThrows | src/main/java/com/compiler/parser/lr/LALR1Parser.java:139-150 | a reduce that pops more states than the stack holds throws before the emptiness check, where the intended loop rejects |

## Left out

- `System.out.println` tracing in all three classes: output only.
- The `StaticAnalyzer` computation of FIRST sets for the grammar: its code is not part of this model, so the FIRST map is a parameter.
- `LR1Automaton.build()` and `parseSecondTry`: both are empty stubs. The canonical LR(1) states and transitions are inputs to `LALR1Table`.
- The `Grammar`, `Production`, `Symbol`, `LR1Item` and `Token` classes are modelled as datatypes with structural equality. Their `hashCode` arithmetic and the order it induces are replaced by nondeterministic choice.
- `getAugmentedProduction()` and `dollar` are not defined on the automaton, so both are parameters of the table.
- Conflict messages are records (state, symbol, and for a reduce the existing action's type and the production), not strings.
- Aliasing: the automaton's state list and `lalrStates` are values, so a caller that later mutates a state object is not modelled.
- Parser.Parse: its ensures holds only when no ACTION row has two keys with the same name. Otherwise the Java scan returns whichever same-named key the hash order gives first, and the model leaves that choice open.
- Parser.Iterate: same condition as Parse, for the same reason.
- Parser.IterateFixed: its equation with StepFixed holds only when no ACTION row has two keys with the same name, for the same reason as Parse. That it never throws holds unconditionally.
- Parser.RunFrom: its equation with RunFixed holds only when no ACTION row has two keys with the same name, for the same reason as Parse. That it never throws holds unconditionally.
- Parser.ParseFixed: its equation with RunFixed holds only when no ACTION row has two keys with the same name, for the same reason as Parse.
- Parser.ParseFixed: the `while(true)` loop of the intended parser is written as the recursion `RunFrom` over the remaining fuel.
- Parser.RunFixed: the `while(true)` loop need not terminate for an arbitrary table, so both runs stop after a given number of iterations and report `OutOfFuel`.
- Table.LALR1Table.FillActionGoto: it states the tables as the fill along a hash order chosen during the call, recorded in the ghost field `itemOrders`. Running it twice gives the same ACTION whenever no state has reduce/reduce competition (FillDeterministic). The conflict list and a reduce/reduce winner may depend on the order.
- Table.LALR1Table.Rewire: when a canonical transition touches an id without an image, the Java has already written the entries visited before it into `lalrTransitions`, then throws a NullPointerException. The model writes nothing and returns UnmappedTransition; the partial write and the exception are not modelled.
- Table.LALR1Table.Build: when a canonical transition touches an id without an image, the Java throws partway through step 3, after some entries were written. The model reports UnmappedTransition and leaves the fields unchanged.
- LalrMerge.RemapTransitions: it states that an entry holds the image of one of the transitions landing on it. Which one is the last in hash order, and RemapAlongValues states that only relative to a given visiting order.
- Automaton.Closure: the documented closure also excludes `epsilon` as a lookahead, where the Java only checks the symbol kind. For an item [A -> α . B β, a], they differ only when `epsilon` is in FIRST(β a), that is, when every symbol after B and the lookahead a have `epsilon` in their FIRST sets. If the map gives FIRST(t) = {t} for every terminal t, that needs the lookahead to be `epsilon`.

## Findings

| source | as written | input that shows it | evidently intended | confidence | as-written member | corrected member |
|---|---|---|---|---|---|---|
| src/main/java/com/compiler/parser/lr/LR1Automaton.java:114-115 | `closure.add(item)` re-adds the dequeued item, so closure() returns its input unchanged | grammar S' -> S, S -> a, with items {[S' -> . S, $]}: [S -> . a, $] is never added | add and enqueue `newItem` | high (not executed) | Automaton.ClosureAsWrittenMissesItems | Automaton.Closure |
| src/main/java/com/compiler/parser/lr/LR1Automaton.java:167 | `first.remove(epsilon)` strips epsilon from the FIRST sets that the rest of the closure() call keeps using | FIRST(A) = {epsilon, x}: FIRST(A A b) comes out {x}, not {x, b}; scanning A b twice gives {x, b}, then {x} | test membership without mutating the shared map | high (not executed) | Automaton.RepeatedNullableSymbolCutsScan | Automaton.FirstOfSequenceMembers |
| src/main/java/com/compiler/parser/lr/LR1Automaton.java:222 | `postDot.remove(0)` on a completed item's empty suffix throws | state {[S -> . a, $], [S -> a ., $]}, symbol a | skip completed items | high (not executed) | Automaton.GoToAsWrittenFailsOnCompletedItem | Automaton.GoTo |
| src/main/java/com/compiler/parser/lr/LALR1Parser.java:75 | `action` is never reset, so a token with no ACTION entry replays the previous action | grammar L -> a L \| a, input `a x`: the loop replays SHIFT on x and accepts | reset the action each iteration and reject on no entry | high (not executed) | Parser.StaleActionAccepts | Parser.ParseFixed |
| src/main/java/com/compiler/parser/lr/LALR1Parser.java:85-93 | a missing ACTION row is dereferenced and throws | an empty ACTION table and empty input | reject (syntax error) | high (not executed) | Parser.MissingRowThrows | Parser.RunFixedNeverCrashes |
| src/main/java/com/compiler/parser/lr/LALR1Parser.java:139-150 | pops happen before the emptiness check, so popping past the bottom throws | stack [0], ACTION[0][a] = REDUCE by a production with two right-hand symbols | check the stack before popping and reject | high (not executed) | Parser.PopPastBottomThrows | Parser.ParseFixed |
