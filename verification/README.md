# A verified model of the tick C compiler's core algorithms

This Dafny project models the algorithms of the `tickc` compiler that carry its correctness, and
proves what they are for:

* **The icode back end** (`src/icode`). A stream of instructions becomes basic blocks with edges and
  use/def vectors; strongly connected components are numbered by two depth-first searches; live
  intervals are built over component numbers and allocated by linear scan. The end-to-end theorem is
  that a run over the allocated registers and stack slots reads the same value at every use as a run
  over the locals themselves. Liveness by counter-driven relaxation, graph colouring, the linked
  rings and the bit vectors are proved against their specifications, too.
* **The instruction selector** (`src/lburg`, `reduce` in `src/rcc/gen.c`). Labels are the least costs
  of all derivations; the cover read back attains them.
* **Control-flow lowering** (`src/rcc/stmt.c`, `src/rcc/dag.c`). Switches become buckets, a binary
  search and tables; conditions become jumping code; jumps and labels are cleaned up as the list grows.
* **The text peephole optimizer** (`src/copt/copt.c`). Its output is a normal form, reached by rule
  rewrites only.
* **The 32-bit integer constant folder** (`src/rcc/simp.c`, `root` in `src/rcc/tree.c`). It keeps the
  value of every tree and the order of its effects, folds constant expressions with exact exceptions, and
  stops exactly when none of its rules applies any more.

One module per file, named after it. Code that updates state in place is modelled by classes and
loops whose contracts tie the new state to a specification on values; the lemmas about those
specifications are beside it.

| part | modules, in the order they build on each other |
|---|---|
| flow graph | Graphs, Icode, FlowGraph, Machine |
| liveness | Liveness, Relaxation, InstructionLiveness, LiveLocals |
| components, intervals | Scc, Intervals |
| linear scan | Ring, Registers, LinearScan, ScanPolicy, LinearScanAllocator |
| meaning of allocation | Allocation, Separation, RegAlloc |
| graph colouring | Coloring, ColoringAllocator |
| instruction selection | Grammar, Labeller, Reducer |
| words | Bits, BitWords, BitVectors |
| switches | Switches, Buckets, TableAddresses, SwitchTables, SwitchCode, SwitchGen |
| jumps, labels, conditions | CodeList, Cleanup, Tidiness, CodeWriter, Conditions, Lister |
| peephole optimizer | Patterns, Peephole, Copt |
| constant folding | Folding, Operators, Simplifier, FoldingMeaning, ConstantExpressions, NormalForms |

## What the source demands

The preconditions of the main results are those the source relies on:

* An icode stream ends in a return, every branch target is defined exactly once (`FlowGraph.WellFormed`).
* Parameters are placed before allocation, in distinct cells, and fresh stack slots are new
  (`RegAlloc.Unit.ParamsIn`). The ring for active intervals has at least two elements, as its creation
  needs.
* A local is written before it is read, unless it is a parameter (`Execution.Legal`): the source
  allocates by the blocks in which a local occurs and gives no meaning to other runs.
* Interference graphs are built from cliques (`Coloring.IsGraph`, kept by `Coloring.AddClique`).
* Rule costs are nonnegative constants (`Labeller.ValidRule`).
* Cases have no duplicates, and the default label is no case label (`SwitchGen.Generate`).
* The selector of a switch is an `int` or `unsigned` word after promotion. A `long` selector stays long
  (`src/rcc/types.c:332`) but is compared and looked up as an int (`src/rcc/stmt.c:689-693`), so the
  theorems about switches, which range over all ints, say nothing about longs outside the int range.
* A rule of the peephole optimizer finds something, and puts in only variables it has found
  (`Peephole.Rule.Valid`).
* The compiler's own int arithmetic on case values wraps around (`Bits.WrapInt`); there is no bound on
  how far apart cases are.
* Trees are typed as the front end builds them (`Folding.WellTyped`).

## Properties that do not hold

**Tables of switches.** The table of a dense switch bucket is filled by an unsigned counter that runs
up to the next case, with the comparison made on unsigned values (`src/rcc/dag.c:713-723`). When two
neighbouring cases are below -1 and at or above 0, the gap between them is not filled, and all later
entries are shifted. `SwitchTables.SkippedExample` gives the cases -2, 0, 1 and 2: -1 goes to the label
of 0 and 0 to the default label, against section 6.6.4.2 of ISO/IEC 9899:1990.

The jump looks for its entry by an int, too (`src/rcc/stmt.c:661-666`). The distance of the selector from
the lowest case is multiplied by the size of an entry as an int (`src/rcc/enode.c:303-315`); every
interface makes that size 8 (`src/rcc/c-backend.c:59`). The product becomes 8 * x - 8 * low by
distribution (`src/rcc/simp.c:656-666`), where 8 * low is a constant if it is an int
(`TableAddresses.IndexScaled`). That constant is then taken off the address of the table
(`src/rcc/simp.c:486-489`) by adding its negative, again as an int (`src/rcc/simp.c:746-748`), and only
8 * x remains to wrap around. So for a table from low to high the lookup fails in three ways: 8 * low is
an int and 8 * high is not (`SwitchGen.CloseExample`, the four ints from 2^28 - 2 on); 8 * low is the
most negative int, whose negative is not an int (`SwitchGen.LowestExample`, four ints from -2^28 on); or
8 * low is not an int, nor is 8 * (high - low) (`SwitchGen.WideExample`, the three lowest ints and the
highest, which become one bucket because the int size of the range wraps around to 0 in
`src/rcc/stmt.c:5`). `TableAddresses.Far` is that condition on the two ends.

`SwitchTables.TableRightIff` and `SwitchGen.RightIff` prove that nothing else fails: the code is right for
every `int` if and only if no bucket with a table has neighbouring cases that jump over -1, or ends that
are `Far`. `SwitchGen.OneSided` gives a simpler sufficient condition on the case list alone.

**Parameters whose address is taken.** Taking the address of a local puts it into the storage class of
the stack (`src/icode/cfg.c:234`), and the flow graph is built before registers are allocated
(`src/icode/icode.c:333`, `src/icode/icode.c:383`). For a parameter that has been put into a register
(`src/icode/icode.c:166`) the number of that register is then taken for a stack slot, and the register is
not withdrawn from the pool (`src/icode/reg.c:105`). `RegAlloc.AddressedParamExample` gives a parameter in
register 5 that is looked for in stack slot 5. `RegAlloc.ParamsStayIff` proves that every parameter is read
where it was put if and only if no parameter in a register has its address taken; under that
condition `RegAlloc.AllocatedRunAgrees` proves that allocation preserves meaning.

**Tests for overflow.** Whether ints are folded is decided by tests that are to tell whether the result is
an int (`src/rcc/simp.c:755-759`, `src/rcc/simp.c:842-888`). The test for products compares the wrong way
round when the first factor is positive and the second negative: `NormalForms.UnfoldedExample` gives
999 * -3, which is not folded, and `NormalForms.WrappedExample` gives 0x40000001 * -4, which is folded to
-4. The test for differences accepts 0 - INT_MIN, and the one for quotients refuses INT_MIN / 1, which is
folded by another rule before. `NormalForms.OverflowTests` proves that each test is right for exactly the
operands outside these families. Values are kept all the same, because what is folded wraps around as at
run time (`FoldingMeaning.FoldReplaces`).

**Constant expressions.** Where a constant is needed (`src/rcc/simp.c:110-127`), a tree of constants
is expected to become a constant. A remainder of ints by 1, and an unsigned comparison that 0 decides,
are rewritten so as to keep the effects of an operand before constants are folded, and stay trees even
when both operands are constants. `ConstantExpressions.KeptExample` gives `x >= 0` for an unsigned
constant x. `ConstantExpressions.ConstantFolds` proves the exact condition: a tree of constants that
has a value becomes that value if and only if no operation on the way to it, short circuits taken
into account, is one of these.

## Model

| member | source | states |
|---|---|---|
| RegAlloc.AllocateRegisters | src/icode/reg.c:95-160 | for every well-formed stream and every placement of parameters, through the whole driver (flow graph, classes of addressed locals, withdrawn registers, components, intervals, linear scan of both classes): a parameter stays where it was put, but for the class of one whose address is taken; every other local that occurs gets a free register of its class or a new stack slot, and only a stack slot if some `Lea` takes its address or it had to be in memory; unless a parameter in a register has its address taken, any two locals that may be in use together are in different registers or slots; if no component lies in more competing locals than there are registers, every local that competes, occurs and has its address taken nowhere gets a register; and each class is decided as by `ScanPolicy.Outcome` |
| RegAlloc.EnteredAt | src/icode/cfg.c:233-237 | the storage that allocation begins with is that on entry, but that a local whose address some instruction takes is not undecided and not in a register any more |
| RegAlloc.AllocatedRunAgrees | src/icode/reg.c:95-160 | the end-to-end theorem: for whatever the driver returns, in every run in which each local that is no parameter is written before it is read, with parameters put where they were on entry, executing over registers and slots passes through the same instructions with the same world, and reads the same value at every use, as executing over the locals; unless a parameter in a register has its address taken |
| RegAlloc.ParamsStayIff | src/icode/cfg.c:233-237 | every parameter is read where it was put if and only if no parameter in a register has its address taken |
| RegAlloc.AddressedParamExample | src/icode/cfg.c:233-237 | a parameter in register 5 whose address is taken is looked for in stack slot 5 |
| Allocation.AllocationPreservesMeaning | src/icode/reg-ls.c:104-182 | in every run in which each local that is no parameter is written before it is read, executing over the allocated registers and slots passes through the same instructions with the same world, and reads the same value at every use, as executing over the locals themselves |
| Allocation.InUseTogether | src/icode/li-scc.c:49-62 | the key step: a local written before an instruction and read after it has its first and last component around the component of that instruction, so it is in use together with whatever is written there |
| Allocation.MentionOccurs | src/icode/cfg.c:138-154 | every operand of every kind of instruction that can be reached, and every result, occurs in the component of the instruction |
| Allocation.OccursMentioned | src/icode/cfg.c:138-154 | conversely, what occurs in a component is an operand or a result of an instruction in it |
| Allocation.RunMonotone | src/icode/li-scc.c:64-78 | component numbers never fall along a run from the root |
| Allocation.StepAgrees | src/icode/reg-ls.c:104-182 | one instruction keeps the agreement of the two executions, because its write cannot hit the cell of another local that is still needed |
| Machine.FollowsEdge | src/icode/cfg.c:172-314 | wherever control can pass from one instruction to another, the two lie in one block or their blocks are joined by an edge of the graph that was built |
| Machine.OperandsExact | src/icode/cfg.c:138-154 | the locals that enter the vectors for an instruction are exactly those that executing it reads, or whose address it takes, and the one it gives a value |
| Machine.TailIff | src/icode/cfg.c:238-302 | blocks end exactly at calls, branches, jumps and returns, and before labels |
| Machine.HeadIff | src/icode/cfg.c:238-302 | blocks begin exactly at labels and behind calls, branches, jumps and returns |
| RegAlloc.ScanBoth | src/icode/reg-ls.c:185-190 | the integer scan and then the floating-point scan both meet their specification at the end, with slots of their own, whatever storage parameters have |
| RegAlloc.ScanClass | src/icode/reg-ls.c:104-182 | the intervals of one class are built, and their scan meets the specification `Job.Allocated` and moves no parameter and no local of the other class |
| RegAlloc.WithdrawParams | src/icode/reg.c:97-108 | exactly the registers that parameters of a class occupy leave the pool of that class |
| RegAlloc.NumberComponents | src/icode/li-scc.c:32-78 | the numbers never fall along edges, reachable blocks have equal numbers exactly when each reaches the other, and each component has collected exactly its blocks' variables |
| RegAlloc.ClassIntervals | src/icode/li-scc.c:150-173 | the intervals of a class are the hulls of all occurrences of its locals |
| Separation.AllSeparated | src/icode/reg-ls.c:104-182 | what the two scans and the withdrawn parameter registers achieve implies that no two locals in use together share a cell, across the classes and with parameters |
| Separation.ScanSpillsNoneNeedlessly | src/icode/reg-ls.c:120-181 | if no component lies in more competing locals of a class than there are registers, every one that occurs gets a register of the pool |
| FlowGraph.Builder.LinkBlocks | src/icode/cfg.c:90-98 | appends the edge to the successors of one block and the predecessors of the other, and the lists stay inverse as multisets |
| FlowGraph.LinkKeepsInverse | src/icode/cfg.c:90-98 | an edge added at the ends of both lists keeps predecessor lists the multiset inverse of successor lists |
| FlowGraph.Builder.LinkLabel | src/icode/cfg.c:99-114 | a branch to a label already met is linked at once, any other is remembered as a forward reference |
| FlowGraph.Builder.Finalize | src/icode/cfg.c:115-130 | ends the block at the given instruction, opens the next one if there is more code, and links the fall-through exactly when asked |
| FlowGraph.Builder.MarkOperands | src/icode/cfg.c:138-154 | reads enter the use vector unless defined already, writes enter the def vector unless used already, in the order of the operands |
| FlowGraph.Builder.StepStraight | src/icode/cfg.c:198-237 | an instruction that neither transfers control nor defines a label extends the open block and keeps the builder's invariant; an address taken is recorded |
| FlowGraph.Builder.StepLabel | src/icode/cfg.c:291-302 | a label heads a block: it opens one unless it stands at the head of the open one |
| FlowGraph.Builder.Split | src/icode/cfg.c:294-296 | the open block ends before a label inside it and falls through to the new one |
| FlowGraph.Builder.StepTransfer | src/icode/cfg.c:238-290 | a transfer of control ends the block with its successors linked or waiting, for every kind of transfer |
| FlowGraph.Builder.EndBlock | src/icode/cfg.c:248-254 | the successors of the finished block are its target, if met, followed by the fall-through, if any; a target not met becomes the newest reference |
| FlowGraph.Builder.ResolveOne | src/icode/cfg.c:308-309 | one forward reference becomes an edge and every block not waiting stays exact |
| FlowGraph.Builder.Resolve | src/icode/cfg.c:308-309 | no forward reference is left |
| FlowGraph.Builder.Step | src/icode/cfg.c:194-306 | each instruction keeps the invariant: blocks partition the code so far, edges and summaries are exact |
| FlowGraph.Builder.Build | src/icode/cfg.c:172-314 | blocks partition the stream into maximal straight runs with labels only at heads and transfers only at tails; successors are exactly the fall-through and the branch target; predecessors are their inverse as multisets; summaries are those of the blocks; and the recorded locals are exactly those whose address is taken |
| FlowGraph.ResolvedIsExact | src/icode/cfg.c:308-309 | when no reference waits, every block's successors are exactly its targets |
| FlowGraph.Builder.Finish | src/icode/cfg.c:307-314 | after the last instruction the graph that is handed over satisfies the whole specification |
| Liveness.SummaryExact | src/icode/cfg.c:138-154 | for blocks of every length the use and def vectors are disjoint and act on any live-out set exactly as the instructions do one at a time, backwards |
| Liveness.SummaryMentions | src/icode/cfg.c:138-154 | the two vectors together hold exactly the locals that the block mentions |
| Liveness.LivenessIsLeast | src/icode/cfg.c:332-440 | every solution of in = use + (out - def) contains what is live along some path, so path-based liveness is the least solution |
| Liveness.ClosedContainsPath | src/icode/cfg.c:332-423 | a solution contains a local at every block from which a path leads to an upward-exposed use with no definition on the way |
| InstructionLiveness.BlockLiveIffInsnLive | src/icode/cfg.c:172-314 | for the flow graph and vectors built from a stream, a local is live at the entry of a block if and only if some path of instructions from its head, as the machine executes them, reads the local, or takes its address, before writing it |
| LiveLocals.LiveLocalsOf | src/icode/cfg.c:425-440 | for the blocks of any stream, the relaxation ends with live-in vectors of each class that hold exactly the locals of the class that some path of instructions from the block's head reads before writing them |
| Relaxation.FlowLiveness.Solve | src/icode/cfg.c:425-440 | the relaxation terminates, and then the live-in and live-out vectors of both classes hold exactly the locals that are live along some path |
| Relaxation.FlowLiveness.Sweep | src/icode/cfg.c:432-438 | one pass comes closer to the solution in a well-founded order, unless nothing is outstanding |
| Relaxation.FlowLiveness.Relax | src/icode/cfg.c:332-423 | one visit, forced or not, keeps both classes' invariants; an unforced visit always makes progress |
| Relaxation.LiveVars.Join | src/icode/cfg.c:364-370 | the new live-out vector is the old one with the live-in vectors of all successors |
| Relaxation.LiveVars.Notify | src/icode/cfg.c:386-388 | each predecessor's counter rises by the number of its edges into the block, and the global counter by the number of predecessors |
| Relaxation.LiveVars.Recompute | src/icode/cfg.c:363-390 | a visited block satisfies its equation, and the global counter stays the sum of the blocks' counters |
| Relaxation.LiveVars.Store | src/icode/cfg.c:371-389 | vectors are stored and predecessors told only of a change; the invariant holds and a repeated visit makes progress |
| Relaxation.LiveVars.Sink | src/icode/cfg.c:345-361 | a block without successors has its uses live on entry and tells its predecessors |
| Relaxation.Unchanged | src/icode/cfg.c:380-384 | a visit that finds nothing new may clear the counter: the block is consistent with its successors |
| Relaxation.Changed | src/icode/cfg.c:380-389 | a visit that changes the live-in vector keeps the invariant once all predecessors have been counted |
| Relaxation.QuietIsExact | src/icode/cfg.c:425-440 | with the global counter at 0 the vectors are the least solution |
| Scc.SccFinder.Visit | src/icode/li-scc.c:17-30 | the first search finishes its start and otherwise only blocks that the start reaches, and keeps the finishing-order invariant |
| Scc.SccFinder.Descend | src/icode/li-scc.c:22-25 | a white successor is finished before the block is |
| Scc.SccFinder.Leave | src/icode/li-scc.c:26-30 | a finished block goes in front, and the order stays one in which every component that is finished comes before whatever it reaches |
| Scc.SccFinder.NumberBlocks | src/icode/li-scc.c:32-40 | the order holds exactly the blocks reachable from the root |
| Scc.SccFinder.Absorb | src/icode/li-scc.c:49-62 | the second search numbers its start and otherwise only white blocks that reach it, leaves no predecessor of theirs white, and collects exactly their variables |
| Scc.SccFinder.OpenComponent | src/icode/li-scc.c:70-77 | a search from the next white block of the order completes one component |
| Scc.SccFinder.MarkComponents | src/icode/li-scc.c:64-78 | blocks of the order are all numbered; two have the same number exactly when each reaches the other; numbers never fall along edges into numbered blocks, unreachable predecessors included |
| Scc.FinishNode | src/icode/li-scc.c:26-30 | finishing a block keeps the property of the order that the second search needs, through cycles with blocks still being visited |
| Scc.AbsorbedIsMutual | src/icode/li-scc.c:58-61 | a reachable block absorbed in a round is in the component of the block that started it |
| Scc.RoundSameIffMutual | src/icode/li-scc.c:64-78 | after every round, blocks of the order have equal numbers exactly when each reaches the other |
| Scc.MonotoneReaches | src/icode/li-scc.c:49-62 | whatever reaches a numbered block is numbered, no higher |
| Scc.ContentsGrow | src/icode/li-scc.c:56-57 | a component's vectors hold exactly the variables of the blocks with its number |
| Intervals.IntervalScan.Init | src/icode/li-scc.c:124-138 | a first occurrence starts an interval at the next free place, a further one moves the beginning down; there is always room |
| Intervals.IntervalScan.ScanComponent | src/icode/li-scc.c:140-148 | one component extends the intervals of exactly its locals |
| Intervals.IntervalScan.Scan | src/icode/li-scc.c:150-173 | afterwards the table holds, by increasing end, for each local that occurs exactly one interval from its first to its last component |
| Intervals.ScanDone | src/icode/li-scc.c:150-173 | an interval that covers all occurrences met is the hull when all components have been met |
| Ring.List.GetFree | src/icode/ll.h:128-141 | takes the head of the free ring; both rings stay circular lists of disjoint elements |
| Ring.List.InsertFwd | src/icode/ll.h:143-168 | the sequence held gets one item behind the given element, or at the end when none is given |
| Ring.List.InsertBwd | src/icode/ll.h:171-197 | the sequence held gets one item before the given element, or in front when none is given |
| Ring.List.Remove | src/icode/ll.h:200-233 | the sequence held loses exactly the given element, which joins the free ring; used and free elements still partition all |
| Ring.List.ReturnFree | src/icode/ll.h:220-231 | the element is linked behind the head of the free ring |
| Ring.Unlink | src/icode/ll.h:210-218 | redirecting the two neighbours' links leaves a doubly linked ring of the other elements |
| Ring.LinkAfter | src/icode/ll.h:143-168 | four link updates put an element behind another in a doubly linked ring |
| Registers.FirstBit | src/sup/bv.h:448-478 | the least member, or -1 exactly for the empty set |
| Registers.RegPool.Get | src/icode/reg-manager.h:18-37 | takes the lowest free register that is caller-saved in a function without calls, or callee-saved in one with calls, or the lowest free one when there is none of these; fails exactly when none is free |
| LinearScanAllocator.Allocator.Run | src/icode/reg-ls.c:104-182 | afterwards overlapping intervals in registers have different ones, all from the initial pool; the rest have stack slots of their own; a candidate is on the stack only if some component lies in more candidates than there are registers; and the storage is the outcome of a sequence of decisions, one for each interval from the last to the first, each as `ScanPolicy.Steps` demands |
| LinearScanAllocator.Allocator.Step | src/icode/reg-ls.c:120-181 | each interval keeps the invariant (the active list is sorted by start, active registers and the free pool partition the initial pool), and is decided as demanded: parameters are skipped, what has to be in memory gets a slot, anything else competes after later intervals have been retired |
| LinearScanAllocator.Allocator.Expire | src/icode/reg-ls.c:124-127 | exactly the active intervals that start after the current end are retired, from the back of the list, and exactly their registers become free; none of the retired overlaps the current interval or any to come |
| LinearScanAllocator.Allocator.ExpireOne | src/icode/reg-ls.c:44-57 | the last active interval gives back its register if it starts later, and stops the traversal otherwise |
| LinearScanAllocator.Allocator.LeastCost | src/icode/reg-ls.c:73-81 | the element found is the first of those with a least reference count as far as counts are whole numbers; there is none only if no count is below the limit |
| LinearScanAllocator.Allocator.ChooseVictim | src/icode/reg-ls.c:130-159 | with all registers taken, the victim is by counts the first least one, if its whole count is below that of the current interval, or equal to it and it starts earlier; without counts, the first of the list, if it starts earlier; and there is none exactly if no active interval meets that |
| LinearScanAllocator.Allocator.SpillActive | src/icode/reg-ls.c:141-145 | the victim gets a fresh slot and its register is in hand; nothing else moves |
| LinearScanAllocator.Allocator.FindStart | src/icode/reg-ls.c:87-93 | the last active element that starts before the current interval; all behind it start no earlier |
| LinearScanAllocator.Allocator.Enter | src/icode/reg-ls.c:168-177 | the interval is inserted where its start belongs |
| LinearScanAllocator.Allocator.Assign | src/icode/reg-ls.c:166-177 | the interval holds the register and the list stays sorted |
| LinearScanAllocator.Allocator.Place | src/icode/reg-ls.c:130-180 | taking a register never fails when the list is not full, and every case keeps the invariant |
| LinearScanAllocator.Allocator.Evict | src/icode/reg-ls.c:141-177 | the victim goes to the stack and exactly its register goes to the current interval, which takes its place in the list |
| ScanPolicy.OneLeast | src/icode/reg-ls.c:73-81 | at most one active interval is the first with a least count, so that the choice is determined |
| LinearScan.ExpireLast | src/icode/reg-ls.c:44-57 | an interval that starts after the current end may lose its place: it overlaps nothing to come |
| LinearScan.SpillVictim | src/icode/reg-ls.c:141-145 | spilling an active interval keeps the invariant and frees one register |
| LinearScan.TakeRegister | src/icode/reg-ls.c:161-177 | a register from the pool differs from those of all overlapping intervals seen |
| LinearScan.FullIsCrowded | src/icode/reg-ls.c:128-130 | when all registers are taken, the end of the current interval lies in more candidates than there are registers |
| LinearScan.NoNeedlessSpills | src/icode/reg-ls.c:120-181 | if no component lies in more candidates than there are registers, every candidate gets a register |
| Labeller.NodeState.Record | src/lburg/lburg.c:585-597 | the label of the left-hand side costs at most the offer; labels only improve, are explained by a rule, and whatever changed is closed under chain rules; terminates even with chain cycles of cost 0 |
| Labeller.NodeState.Closure | src/lburg/lburg.c:411-427 | afterwards no chain rule from the nonterminal improves a label, and labels that cost no more than it are as they were |
| Labeller.LabelNode | src/lburg/lburg.c:345-408 | no rule, chain rule or not, improves a label; each label is attained by its rule, with chain rules leading downwards in some ranking |
| Labeller.Label | src/lburg/lburg.c:510-526 | every node of the tree is so labelled, from the leaves up |
| Labeller.DecodePacked | src/lburg/lburg.c:600-617 | a stored rule number leads back to its rule |
| Reducer.LabelIsLeast | src/lburg/lburg.c:345-440 | no derivation of a tree from a nonterminal, chain rules included, costs less than the label |
| Reducer.PatternIsLeast | src/lburg/lburg.c:430-440 | the sum that is computed for a pattern is no more than the cost of covers of its operands |
| Grammar.MatchesIff | src/lburg/lburg.c:345-440 | a pattern matches exactly the trees that it becomes when trees are put in place of its nonterminals, from left to right, and those trees are the operands found |
| Grammar.DerivesIff | src/lburg/lburg.c:345-440 | a cover derives a tree from a nonterminal if and only if every rule in it has the nonterminal it is used for as its left-hand side, and its patterns put together make up that tree, operators included |
| Reducer.RecordedRule | src/rcc/gen.c:204-216 | a label below the limit has a recorded rule that matches, whose operands' labels and own cost add up to it, and whose operands come earlier in a well-founded order, so recorded chain rules never form a cycle |
| Reducer.Reduce | src/rcc/gen.c:217-236 | reading back terminates on every labelled tree, yields a derivation, and the rule costs used sum exactly to the label |
| Reducer.Select | src/rcc/gen.c:217-236 | the patterns of the cover selected make up the tree, beginning with the goal, and no such cover costs less; there is none only if every one costs at least 0x7fff |
| Reducer.KidsOf | src/lburg/lburg.c:466-479 | the subtrees taken as operands are those at the pattern's nonterminals, from left to right |
| Coloring.AddClique | src/icode/reg-gc.c:94-104 | every member's row gets all members; the graph stays symmetric and occurring nodes keep their own bit |
| Coloring.RemoveKeeps | src/icode/reg-gc.c:116-128 | after a removal the rows are exactly the original graph without the removed nodes |
| Coloring.PushNode | src/icode/reg-gc.c:237-243 | a node with at most as many bits left as there are registers, its own included, can be coloured later, whatever is removed meanwhile |
| Coloring.SpillNode | src/icode/reg-gc.c:130-137 | a spilled node gets a fresh slot and leaves the rest colourable |
| Coloring.FewColored | src/icode/reg-gc.c:336-347 | when a node is popped, fewer of its neighbours hold registers than there are registers |
| Coloring.ColorNode | src/icode/reg-gc.c:336-347 | a register that no coloured neighbour has keeps all coloured pairs apart |
| Coloring.AllColored | src/icode/reg-gc.c:153-349 | with all nodes gone and the stack empty the colouring is proper |
| ColoringAllocator.Colorer.RemoveNode | src/icode/reg-gc.c:116-128 | the node's bit leaves its neighbours' rows and its own row is cleared |
| ColoringAllocator.Colorer.Spill | src/icode/reg-gc.c:130-137 | only the node's local moves, to a fresh slot |
| ColoringAllocator.Colorer.Push | src/icode/reg-gc.c:237-243 | the node leaves the graph for the stack |
| ColoringAllocator.Colorer.Consider | src/icode/reg-gc.c:220-246 | parameters are dropped, stack locals spilled, absent nodes forgotten, easy ones stacked, and only contenders with too many neighbours are left |
| ColoringAllocator.Colorer.Pass | src/icode/reg-gc.c:214-247 | the count returned is exactly the number of nodes left |
| ColoringAllocator.Colorer.Dismantle | src/icode/reg-gc.c:213-248 | the first loop terminates with only contenders left; unless its first pass stacks nothing and takes out a parameter or a local that has to be in memory, what is left is a core: each node has more neighbours in it, itself included, than there are registers |
| ColoringAllocator.Colorer.FindTarget | src/icode/reg-gc.c:251-281 | a pass stacks what has become easy; a target is a node left that has more neighbours than registers and counts for less than twice the threshold, and there is none only if no node left counts for less |
| ColoringAllocator.Colorer.SpillCheap | src/icode/reg-gc.c:250-294 | the second loop terminates, spilling only nodes with too many neighbours that count for less than twice the threshold, and leaves none that does |
| ColoringAllocator.Colorer.FinalVisit | src/icode/reg-gc.c:303-330 | a node is stacked if it has become easy, and spilled if counts do not matter, it has been put off twice or it counts for less than three times the threshold, and else put off; a bounded quantity falls each time |
| ColoringAllocator.Colorer.FinalPass | src/icode/reg-gc.c:302-331 | every pass over a graph with nodes left makes progress |
| ColoringAllocator.Colorer.SpillRest | src/icode/reg-gc.c:296-332 | the last loop terminates with no node left |
| ColoringAllocator.Colorer.WithdrawNeighbours | src/icode/reg-gc.c:139-147 | no register of a coloured neighbour is free, and no more registers are gone than there are such neighbours |
| ColoringAllocator.Colorer.Threshold | src/icode/reg-gc.c:193-209 | half the average reference count of the nodes that compete for a register |
| ColoringAllocator.Colorer.ColorNext | src/icode/reg-gc.c:336-347 | a register is always found, and the pool is as it was afterwards |
| ColoringAllocator.Colorer.Color | src/icode/reg-gc.c:153-349 | all loops terminate; adjacent nodes in registers that are no parameters have different ones, from the unmasked pool; spilled nodes have slots of their own and either had to be in memory or had more neighbours than registers; parameters stay; if the graph has a core, some node that competes is spilled, and unless the first pass stacks nothing and takes out a parameter or a local that has to be in memory, some is spilled only then; and those that count for less than twice the threshold are spilled before all others |
| Coloring.CoreSpills | src/icode/reg-gc.c:213-332 | however the graph is dismantled, a core cannot be stacked completely |
| Switches.CaseList.Reserve | src/rcc/stmt.c:585-595 | room for one more case, with the cases kept |
| Switches.CaseList.Shift | src/rcc/stmt.c:596-600 | a gap opens behind exactly the smaller cases |
| Switches.CaseList.Place | src/rcc/stmt.c:596-605 | the case is inserted there in both arrays |
| Switches.CaseList.AddCase | src/rcc/stmt.c:582-608 | the list stays sorted, with labels beside their values; a duplicate is reported exactly when the value was there |
| Buckets.Group | src/rcc/stmt.c:609-621 | the buckets partition the sorted cases in order, each is a singleton or counts as dense, and no two neighbours together would; density is judged as the source does, on an int range size that may wrap around |
| Buckets.DenseEnoughIff | src/rcc/stmt.c:5 | where the range size is an int, that judgement is the true density compared with the required one |
| Buckets.MergeBack | src/rcc/stmt.c:615-618 | merging backwards while dense keeps the grouping |
| SwitchTables.FillTable | src/rcc/dag.c:713-723 | the table filled by the unsigned counter |
| TableAddresses.IndexScaled | src/rcc/simp.c:656-666 | by the model of the simplifier, 8 times the difference of the selector and the lowest case becomes the selector shifted by 3, less 8 times the lowest case, which is one constant exactly when it is an int |
| TableAddresses.OffsetOfEntry | src/rcc/simp.c:486-489 | whatever wraps around, the offset at which the jump looks is a multiple of the size of an entry |
| TableAddresses.IndexExact | src/rcc/stmt.c:661-666 | unless the ends of a table are far, every value between them is looked up at its distance from the lowest case |
| TableAddresses.IndexAstray | src/rcc/simp.c:743-748 | if the ends are far, some value between them is looked up below the table |
| SwitchTables.TableRightIff | src/rcc/dag.c:713-723 | the table serves every value of its range right if and only if no two neighbouring cases lie below -1 and at or above 0, because the fill compares as unsigned, and the ends are not far, because the offset of the entry is computed in ints: when 8 times the lowest case is an int, so are its negative and 8 times the highest; otherwise 8 times their distance is |
| SwitchTables.SkippedExample | src/rcc/dag.c:713-723 | with the cases -2, 0, 1, 2 the value -1, which is no case, goes to the label of 0, and 0 to the default |
| SwitchTables.EntriesRight | src/rcc/dag.c:713-723 | up to the first gap over -1 each value has its label, or the default label |
| SwitchTables.EntriesWrong | src/rcc/dag.c:713-723 | at the first gap over -1 the table holds a case label for a value that is no case |
| SwitchGen.Generator.Bucket | src/rcc/stmt.c:639-677 | up to three cases are compared one by one and guarded by one comparison; more are bounded by two comparisons and go through a table |
| SwitchGen.Generator.Search | src/rcc/stmt.c:622-688 | the code for a range of buckets sends every value where the bucket that serves it says, or to the default, and passes at most log2 of their number further buckets |
| SwitchGen.Generator.Half | src/rcc/stmt.c:678-687 | a half of the search, behind its label, if it has any buckets |
| SwitchCode.CodeRuns | src/rcc/stmt.c:622-688 | the code of one bucket in front of the code of both halves leads at once to the bucket's answer or on to the half on the value's side |
| SwitchGen.DecidesMiddle | src/rcc/stmt.c:622-688 | the bucket in the middle, with its halves, decides for the whole range |
| SwitchGen.RightIff | src/rcc/stmt.c:609-688 | for a selector of type int or unsigned, the code sends every int to the label of its case, or to the default, if and only if no bucket with a table has neighbouring cases that jump over -1 or ends between which the int offset of an entry goes astray; a value passes at most floor(log2 n) + 1 of n buckets |
| SwitchGen.Generate | src/rcc/stmt.c:609-688 | the same for the code that grouping and search produce, for every sorted list of ints and every density; in particular it is right for every int when no bucket has more than three cases, and so for every switch of at most three cases |
| SwitchGen.OneSided | src/rcc/dag.c:713-723 | if the sorted cases do not jump over -1, their ends are not far and -2^28 is no case, the code is right, however they are grouped |
| SwitchGen.WideExample | src/rcc/stmt.c:609-621 | with density 0.5 the three lowest ints and the highest can only become one bucket, whose table fails |
| SwitchGen.CloseExample | src/rcc/stmt.c:661-666 | at every density up to 1 the cases 2^28 - 2 to 2^28 + 1, which do not jump over -1, become one bucket, and its table fails: for 2^28 the jump looks 2^32 bytes below the entry |
| SwitchGen.LowestExample | src/rcc/simp.c:743-748 | at every density up to 1 the four cases from -2^28 on become one bucket, and its table fails: for -2^28 itself the jump looks 2^32 bytes below the entry |
| CodeList.FollowersEquivalent | src/rcc/stmt.c:757-842 | lists related by simulation in both directions have the same traces |
| CodeList.JumpGone | src/rcc/stmt.c:764-779 | a jump to a label reached by falling through marks and labels may go |
| CodeList.UnreachedGone | src/rcc/stmt.c:819-822 | a jump behind another transfer may go |
| CodeList.LabelGone | src/rcc/stmt.c:807-818 | a label from which control silently goes on to another may be equated with that and go |
| CodeList.SecondLabelGone | src/rcc/dag.c:534-541 | a label right behind another may be equated with that and go |
| CodeList.ResolvedEquivalent | src/rcc/dag.c:652-664 | replacing every label operand by its representative keeps the traces |
| Cleanup.EquateKeeps | src/rcc/stmt.c:831-835 | equating a label that represents itself with one it does not represent makes no cycle |
| Cleanup.OnWayIsRep | src/rcc/stmt.c:836-842 | a label that is not equated is met on the chain of another exactly when it is its representative |
| Cleanup.DropJump | src/rcc/stmt.c:764-779 | dropping a jump just before its label keeps agreement with the naive list, however the list goes on |
| Cleanup.DropLast | src/rcc/stmt.c:819-822 | so does dropping a jump behind a transfer |
| Cleanup.DropLabel | src/rcc/stmt.c:807-818 | so does equating the label before a jump with the jump's target |
| Cleanup.DropSecondLabel | src/rcc/dag.c:534-541 | so does equating a label with the one written just before it |
| CodeWriter.Writer.Equated | src/rcc/dag.c:665-674 | following the chain ends at the representative, which is not equated |
| CodeWriter.Writer.Equal | src/rcc/stmt.c:836-842 | whether the first label is met on the chain from the second |
| CodeWriter.Writer.EquateLabel | src/rcc/stmt.c:831-835 | chains stay acyclic and all labels that stood for the old one now stand for the new one's representative |
| CodeWriter.Writer.Append | src/rcc/stmt.c:85-112 | code is added at the end and agreement kept |
| CodeWriter.Writer.DefineLabel | src/rcc/stmt.c:757-780 | no jump to the label is left just before it, and the list still agrees with the naive list however it goes on |
| CodeWriter.Writer.BranchTo | src/rcc/stmt.c:798-830 | a label still listed just before the jump stands for its target already, behind another transfer the jump is gone, and the list still agrees with the naive list however it goes on |
| CodeWriter.Writer.LabelNode | src/rcc/dag.c:534-541 | a label is listed, or equated with the one just listed |
| CodeWriter.Writer.JumpOn | src/rcc/dag.c:163-167 | the label that ends an alternative is equated with the end of the choice before the jump there |
| CodeWriter.Writer.LabelOn | src/rcc/dag.c:170-174 | the same before the label at the end |
| CodeWriter.Writer.Finish | src/rcc/dag.c:652-664 | the finished list, with labels resolved, has exactly the traces of the naive list, and labels still listed represent themselves |
| CodeWriter.WriteAll | src/rcc/stmt.c:757-842 | for any sequence of code, jumps and label definitions the cleaned-up list has exactly the traces of the sequence as written; it is a part of the sequence, with labels resolved, in which no jump stands right before the label it names, behind another transfer of control, or behind a label other than its target |
| Tidiness.CleanDelete | src/rcc/stmt.c:764-779 | deleting a jump to the label being defined leaves no other jump in front of a label or a jump |
| Conditions.Negate | src/rcc/dag.c:300-311 | the opposite comparison, true exactly when the given one is false |
| Conditions.ListingTransfers | src/rcc/dag.c:119-194 | wherever it stands in a list, the code for a tree consumes exactly the events of left-to-right short-circuit evaluation (sections 6.3.13 and 6.3.14 of ISO/IEC 9899:1990) and then goes to the true label exactly when the condition is true, to the false label when it is false, and falls through otherwise |
| Lister.TreeLister.ListNodes | src/rcc/dag.c:119-194 | the list written for a tree agrees with the naive listing however it goes on, clean-up of labels included |
| Lister.TreeLister.ListAnd | src/rcc/dag.c:119-132 | both operands jump to the false label, which is made, and defined behind them, when there is none |
| Lister.TreeLister.ListOr | src/rcc/dag.c:133-148 | the first operand jumps to the true label, which is made when there is none |
| Lister.TreeLister.ListChoose | src/rcc/dag.c:153-179 | test, alternatives and their labels are listed in order |
| Lister.TreeLister.EndFirst | src/rcc/dag.c:163-167 | the first alternative ends with the jump over the second, which does not stand behind a label, and the label of the second |
| Lister.ListingDefines | src/rcc/dag.c:119-194 | a listing defines only labels made for it |
| Lister.ListedCodeTransfers | src/rcc/dag.c:119-194 | the list as written, followed by any other code, behaves after the events of the evaluation as that code does from the label for the value, or from its start |
| Lister.ListTree | src/rcc/dag.c:36-46 | listing one tree yields a list, and labels equated without cycles, to which that applies; no label stands right behind another |
| Patterns.MatchExpands | src/copt/copt.c:194-212 | a match binds every variable of the pattern, keeps earlier bindings, and substituting gives back the line |
| Patterns.MatchFinds | src/copt/copt.c:194-212 | conversely, whenever texts give the line, and the text of each variable goes up to the first occurrence of the character that follows the variable in the pattern, or to the end of the line, the match succeeds |
| Patterns.Match | src/copt/copt.c:194-212 | the loop with its cursor computes that match, binding variables in place |
| Patterns.VarIff | src/copt/copt.c:198-202 | a variable is a percent sign and a decimal digit, its number |
| Patterns.Subst | src/copt/copt.c:261-276 | the pattern with its variables' texts, or an error exactly when that has 100 characters or more |
| Peephole.MatchBackExpands | src/copt/copt.c:221-231 | a match of several lines, from the last to the first, gives exactly those lines back by substitution, and never takes the sentinel line |
| Peephole.MatchBackFinds | src/copt/copt.c:221-231 | lines that are an instance of the patterns with delimited texts are matched |
| Peephole.NormalHasNoInstance | src/copt/copt.c:179-180 | in the final text there is no instance of a rule with texts that a match could find |
| Copt.Optimizer.TryRule | src/copt/copt.c:222-229 | whether a rule matches lines ending with the cursor, and where |
| Copt.Optimizer.Replace | src/copt/copt.c:237-258 | exactly the matched lines are replaced by the substituted ones |
| Copt.Optimizer.Apply | src/copt/copt.c:230-231 | exactly the matched lines give way to the substituted right side, and no rule matches before the new cursor |
| Copt.Optimizer.Opt | src/copt/copt.c:215-234 | one step applies the first rule that matches lines ending at the cursor and goes back to the first line put in or, when none matches, advances by one line; no rule ever matches before the cursor |
| Copt.Optimizer.Optimize | src/copt/copt.c:179-180 | when rewriting decreases a well-founded measure the loop ends; the output is reached from the input by rule rewrites only, and no rule matches anywhere in it |
| Copt.ShorteningDecreases | src/copt/copt.c:179-180 | rules that shorten the text meet that condition |
| FoldingMeaning.FoldReplaces | src/rcc/simp.c:372-753 | for every well-typed integer, unsigned or boolean tree, in every world and after every history, the tree simplified on the way up has the same value whenever the original has one, the same effects in the same order, and the same type |
| FoldingMeaning.SimplifyReplaces | src/rcc/simp.c:372-753 | the same for one binary operation |
| NormalForms.SimplifyIff | src/rcc/simp.c:372-753 | an operation is left as it is exactly when none of the rules applies: constants in the wrong place, constants that may be folded, identities, powers of two, products of sums, unsigned comparisons with 0 and unsigned tests for equality |
| NormalForms.FoldNormal | src/rcc/simp.c:372-753 | no rule applies anywhere in a simplified tree |
| NormalForms.FoldIff | src/rcc/simp.c:372-753 | the trees left alone are exactly those to which no rule applies, and simplifying twice is simplifying once |
| NormalForms.OverflowTests | src/rcc/simp.c:842-888 | the tests tell which results are ints, for sums always, and for differences, products and quotients exactly outside one family each |
| NormalForms.UnfoldedExample | src/rcc/simp.c:868-881 | 999 * -3 is left as it is |
| NormalForms.WrappedExample | src/rcc/simp.c:868-881 | 0x40000001 * -4 is folded to -4 |
| Operators.WrapUnique | src/rcc/simp.c:372-753 | the result of an operation is the number of its type that differs from the exact one by a multiple of 2^32 |
| Operators.DivisionTruncates | src/rcc/simp.c:552-563 | quotient and remainder satisfy x = q * y + r with a remainder smaller than the divisor that has the sign of x, and exist but for division by zero and of INT_MIN by -1 |
| Operators.ShiftsScale | src/rcc/simp.c:605-623 | shifts by 0 to 31 multiply by a power of two, or divide by it rounding down |
| Operators.BitwiseBits | src/rcc/simp.c:447-455 | and, or, exclusive or bit by bit |
| Operators.FlipBits | src/rcc/simp.c:527-535 | the complement changes every bit |
| Operators.ComparisonsHold | src/rcc/simp.c:572-604 | comparisons give 1 when they hold, and 0 otherwise |
| Operators.BranchesAlike | src/rcc/dag.c:287-311 | a comparison branches exactly when the same comparison in a tree has the value 1 |
| FoldingMeaning.SumReplaces | src/rcc/simp.c:395-402 | addition and subtraction: folding under wrap-around, constants to the right |
| FoldingMeaning.ShiftReplaces | src/rcc/simp.c:605-623 | shifts: identity, folding of signed and unsigned shifts; undefined ones are left alone |
| FoldingMeaning.BitwiseReplaces | src/rcc/simp.c:447-455 | and, or, exclusive or: folding, identities, and a zero mask that keeps the other operand's effects |
| FoldingMeaning.DivideReplaces | src/rcc/simp.c:552-563 | division and remainder, by one, by powers of two as shift and mask, and of constants; division by zero is left alone |
| FoldingMeaning.MultipleReplaces | src/rcc/simp.c:656-670 | c1*(x ± c2) becomes c1*x ± c1*c2, recursively, and 2^n*r a shift |
| FoldingMeaning.ProductReplaces | src/rcc/simp.c:456-462 | multiplication of both types, constants to the left |
| FoldingMeaning.ComparisonReplaces | src/rcc/simp.c:572-604 | comparisons, with unsigned ones against 0 decided or turned into tests for equality |
| FoldingMeaning.NegationReplaces | src/rcc/simp.c:693-701 | negation, with the most negative int left alone unless a constant is needed |
| FoldingMeaning.ComplementReplaces | src/rcc/simp.c:527-535 | complement of both types, and of a complement |
| FoldingMeaning.ConvertReplaces | src/rcc/simp.c:412-432 | conversion of constants between int and unsigned |
| FoldingMeaning.InverseReplaces | src/rcc/simp.c:702-705 | logical not of a constant |
| FoldingMeaning.ConditionDecides | src/rcc/expr.c:1207-1217 | a tree as a condition has the truth value of the tree |
| NormalForms.ConditionIff | src/rcc/expr.c:1207-1217 | a tree whose value is that of a comparison or logical operation is a condition as it is, and any other but a constant is compared with 0 |
| FoldingMeaning.ConjunctionReplaces | src/rcc/simp.c:518-521 | and with a constant first operand |
| FoldingMeaning.DisjunctionReplaces | src/rcc/simp.c:522-526 | or with a constant first operand |
| ConstantExpressions.ConstantFolds | src/rcc/simp.c:110-127 | where a constant is needed, a well-typed tree of constants that has a value becomes exactly that constant if and only if no operation that counts for the value is a remainder of ints by 1 or an unsigned comparison that 0 decides |
| ConstantExpressions.ConstantsFold | src/rcc/simp.c:372-753 | a defined operation on two constants gives a constant exactly when it is not one of the exceptions |
| ConstantExpressions.OperationStays | src/rcc/simp.c:372-753 | an operation with an operand that could not be folded gives no constant, and no later operation makes it one |
| ConstantExpressions.KeptExample | src/rcc/simp.c:581-586 | an unsigned constant compared with >= 0 has the value 1 and is not folded |
| Folding.RootKeepsEffects | src/rcc/tree.c:154-221 | whenever a tree has a value, what `root` keeps of it has all its effects, in the same order |
| Folding.RootIsBare | src/rcc/tree.c:154-221 | nothing but effects is kept, and nothing at all exactly when the tree has none |
| Bits.Log2IsLog | src/rcc/simp.c:857-866 | a result other than 0 is the logarithm of a power of two |
| Bits.PowerHasLog2 | src/rcc/simp.c:857-866 | conversely, every power of two from 2 to 2^31 gives its logarithm |
| Bits.IsPow2 | src/rcc/simp.c:857-866 | the shifting loop computes that logarithm, 0 for anything else |
| BitVectors.BitVector.Set | src/sup/bv.h:108-118 | adds the member, ignoring numbers beyond the size |
| BitVectors.BitVector.ConditionalSet | src/sup/bv.h:139-151 | adds the member unless the other set has it |
| BitVectors.BitVector.Test | src/sup/bv.h:154-164 | membership, false beyond the size |
| BitVectors.BitVector.Unset | src/sup/bv.h:167-177 | removes the member |
| BitVectors.BitVector.Equal | src/sup/bv.h:223-230 | equality of sets: no excess bit makes equal sets differ |
| BitVectors.BitVector.Union | src/sup/bv.h:244-250 | union in place, also of a vector with itself |
| BitVectors.BitVector.Intersect | src/sup/bv.h:292-298 | intersection in place |
| BitVectors.BitVector.Subtract | src/sup/bv.h:328-334 | difference in place, also of a vector with itself |
| BitVectors.BitVector.EachBit | src/sup/bv.h:389-435 | enumerates exactly the members in increasing order |
| BitVectors.BitVector.FirstBit | src/sup/bv.h:448-478 | the least member, or -1 exactly for the empty set |
| BitVectors.BitVector.Count | src/sup/bv.h:480-508 | the cardinality |

## Left out

Deliberately weaker than the source, or than a reader may expect:

- RegAlloc.AllocateRegisters: covers linear scan over component intervals; the settings with intervals from `src/icode/li-full.c`, with the priority allocator or without allocation are not modelled. A class that has locals needs at least two free registers, as the ring of active intervals does.
- Allocation.AllocationPreservesMeaning: locals are cells of their own; a store through the address of a local is an effect on the world, so reads of such a local through its own name are not related to it. An instruction's meaning is an arbitrary function of the values it reads and the world.
- FlowGraph.Builder.Build: a call is one instruction here and two slots in the stream; indirect jumps are excluded; both classes of locals are in one set of tagged names, where the source has one vector for each class (`LiveLocals.ClassLive` shows that they do not interfere).
- LinearScanAllocator.Allocator.LeastCost: the count kept is truncated to a whole number as in the source, so among counts with the same whole part the element found need not be the least.
- LinearScanAllocator.Allocator.Run: types of locals and sizes of stack blocks are not modelled; every spill takes one fresh slot number.
- ColoringAllocator.Colorer.Color: the graph is an arbitrary one built from cliques; that `i_ig_build` adds every interference is not claimed. With no node that competes the threshold is 0 here, where the source divides by zero and never uses the result. When the first pass stacks nothing but takes out a parameter or a local that has to be in memory, the first loop ends early, and nothing is claimed about needless spills: the second loop may choose a node before it has seen an easy one that is left.
- Labeller.Label: operators have at most two operands; costs are unbounded integers; recalculation for shared subexpressions (`emitrecalc`, `reuse`) and dynamic costs are not modelled.
- Reducer.Reduce: instruction flags and use counts of temporaries are not set.
- SwitchGen.Generate: the code is written with its labels as made, before jumps and labels are cleaned up, which is a separate theorem. The offset of a table entry is modelled for entries of 8 bytes, up to where it is added to the address of the table as a signed number; that addresses are wide enough for the sum is taken for granted. Selectors of type `long`, switches in dynamic code and warnings about huge tables are left out, and density is a real number.
- CodeWriter.WriteAll: the forest under construction and the code list are one list of items; counts of label references, run-time labels (`KLABEL`), computed gotos and warnings are left out. A `Switch` item stands for the jump through a table together with the pseudo item behind it. A jump may still stand before a label that its own label has been equated with later, and a jump and its label may come to stand next to other labels only.
- Conditions.ListingTransfers: operands of comparisons and expressions with effects are single events; values other than truth values, and nodes shared by common subexpressions, are left out.
- Lister.TreeLister.ListChoose: the source takes it for granted that the list holds something, and not only a label, when an alternative ends; here an empty list is left as it is, and a label alone is taken off like any other.
- Patterns.Match: texts are sequences without NUL, and equal texts take the place of the interned strings that the source compares by address.
- Copt.Optimizer.Optimize: asks for a measure that rewriting decreases; rules without one can make the source run forever. Reading files and printing are left out.
- Folding.RootKeepsEffects: the special cases of `root` for a block-valued call and for the tree of `e++`, and conditional expressions, are not modelled.
- FoldingMeaning.FoldReplaces: 32-bit `int` and `unsigned` only. Characters, shorts, longs, pointers, floating point, bit fields and run-time constants are left out. The overflow tests are over exact reals. Division that overflows has no value, and is left unfolded here where the source would compute it for a needed constant.
- BitVectors.BitVector.Test: gives a truth value for the nonzero word of the source.

Not modelled at all:

- `src/icode/li-full.c`: its intervals presume a value is seen later in layout, which a back edge breaks.
- Caller-saved registers around calls, x86-64 encoding, code memory: outside the algorithms above.
- `src/bpo`: it does not advance after a match, so it has no normal form to prove; `copt` has.
- Copies, complement, fill, subset and printing of bit vectors, and words of eight bytes: only easy members.
- The lexer, declarations, C output, diagnostics, profiling, hash tables and printing: plumbing.
