# Sparse conditional constant propagation (SimpleSCCP), modelled in Dafny

SimpleSCCP is an LLVM function pass made of two parts.

* `SimpleSCCPAnalysis` runs Wegman–Zadeck sparse conditional constant
  propagation. It keeps a work set of CFG edges, a work set of SSA
  instructions, the set of executable edges and a map from instructions to
  a value of the flat lattice Top / constant / Bottom. The instruction
  visitor evaluates phis, branches, integer comparisons and binary
  operators on 64-bit signed integers.
* `SimpleSCCPTransform::foldConstants` uses the facts of the analysis in
  four phases:
  1. It replaces every instruction whose fact is a constant by a literal and
     detaches it.
  2. It turns conditional branches on the literal 1 or 0 into unconditional
     branches.
  3. It erases the blocks a depth-first search from the entry does not
     reach.
  4. It removes incoming entries from the phis that remain.

The model has seven modules:

* `Lattice` (lattice.dfy) holds the `ConstantValue` lattice, its meet, its
  equality and its order.
* `Int64Arith` (arith.dfy) holds the int64 arithmetic of the visitor:
  two's-complement wrap-around, C++ truncating division, bitwise operators,
  and the sign extension and truncation between an int64 and a literal of
  width i1/i8/i16/i32/i64.
* `IR` (ir.dfy) is a small arena IR standing in for LLVM's functions,
  blocks and instructions. Instructions and blocks are named by ids, and
  `Func` is a value. The module also defines CFG paths and reachability.
* `Visitor` (visitor.dfy) holds the transfer functions of
  `InstructionVisitor` and `getConstantValue`. They are pure functions of
  the executable edges and the facts.
* `Analysis` (analysis.dfy) holds the worklist engine.
  * The class `SCCPAnalysis` has the four members of the C++ object as
    fields; its methods update them in place.
  * The engine invariant `Inv` is a predicate on a snapshot of those fields.
    Lemmas prove that every step keeps it, and that a drained run is a
    fixpoint (`IsFixpoint`).
* `Transform` (transform.dfy) holds `foldConstants`.
  * Each phase is a method with loops. Each method is proved equal to a
    function that specifies the phase: `Substituted`, `SimplifiedBranches`,
    `Pruned` and `RepairedPhis`.
  * The composed result is `FoldedFunction`. The properties of the pass are
    proved as lemmas about these functions.
* `FoldWitness` (witness.dfy) holds a small concrete function on which
  `foldConstants` leaves a kept phi reading an instruction of an erased
  block, worked through phase by phase.

Some behaviours are modelled as the code has them, because the model follows
the code:

* The unsigned icmp predicates compare the signed values.
* UDiv divides the signed values.
* A phi reads the executable edge from the block that *defines* an incoming
  instruction, not from the incoming block recorded in the phi. Literal and
  argument incoming values are ignored.
* A branch whose condition is still Top enables all its successors.
* A block's non-phi instructions run only when the edge just taken is its
  single executable in-edge. A block first entered while two of its in-edges
  are already executable never runs its body on that pass.
* The engine loop is not proved to terminate. The model runs `Analyze` with
  a fuel bound.
* The phi repair removes entry i and then moves on to i + 1, which keeps
  exactly the entries at odd positions. This happens in every phi of every
  remaining block, whatever the entry's incoming block, after the
  unreachable blocks are erased. A kept phi can therefore keep an entry
  from an erased block and read an erased instruction. `madeChange` is set
  by a rewritten branch or by a phi with at least one entry. Substituting
  constants and erasing blocks do not set it.
* The analysis evaluates i1 (and other narrow) instructions at 64 bits.
  The literal `foldConstants` writes is that value truncated to the
  instruction's width. `FoldedLiteralReadsBack` proves that the literal
  reads back as the same constant modulo 2^width, and as that very
  constant when it fits the width. `FoldedBranchFollowsAnalysis` proves that a
  folded branch goes where the analysis decided for i1 constants -1, 0 and 1.
  For other constants, say -2 from an i1 `add`, the literal is 0 while the
  analysis took successor 0.

## Model

All sources are in `advcmp/project3/lib/SimpleSCCP.cpp`.

| member | source | states |
|---|---|---|
| Lattice.Equal | advcmp/project3/lib/SimpleSCCP.cpp:34-42 | operator== compares the tags and then the integers of two constants; it holds exactly when the two values are the same lattice element |
| Lattice.NotEqual | advcmp/project3/lib/SimpleSCCP.cpp:44 | operator!= holds exactly when the two values differ |
| Lattice.Meet | advcmp/project3/lib/SimpleSCCP.cpp:20-31 | ConstantValue::meet; its properties are the Meet lemmas below |
| Lattice.BelowIsPartialOrder | advcmp/project3/lib/SimpleSCCP.cpp:21-32 | the order Bottom <= Const(v) <= Top used by meet is reflexive, antisymmetric and transitive |
| Lattice.MeetIdentityAndIdempotence | advcmp/project3/lib/SimpleSCCP.cpp:21-32 | meet with Top on either side returns the other value; meet of a value with itself returns it |
| Lattice.MeetAlgebra | advcmp/project3/lib/SimpleSCCP.cpp:21-32 | meet is commutative and associative; Bottom absorbs on either side |
| Lattice.MeetOfConstants | advcmp/project3/lib/SimpleSCCP.cpp:21-32 | equal constants meet to themselves; different constants meet to Bottom |
| Lattice.MeetIsGreatestLowerBound | advcmp/project3/lib/SimpleSCCP.cpp:21-32 | meet is below both arguments, and every common lower bound is below the meet |
| Lattice.MeetMonotone | advcmp/project3/lib/SimpleSCCP.cpp:21-32 | lowering either argument lowers the meet |
| Lattice.StrictDescentLowersHeight | advcmp/project3/lib/SimpleSCCP.cpp:308-311 | every strict descent lowers the height, so a stored fact changes at most twice |
| Int64Arith.SignExtend | advcmp/project3/lib/SimpleSCCP.cpp:374-375 | getSExtValue yields the unique value in [-2^(w-1), 2^(w-1)) congruent to the bit pattern modulo 2^w |
| Int64Arith.Truncate | advcmp/project3/lib/SimpleSCCP.cpp:417 | ConstantInt::get keeps a bit pattern below 2^w |
| Int64Arith.TruncateThenSignExtend | advcmp/project3/lib/SimpleSCCP.cpp:417 | a value that fits the width survives being written as a literal and read back |
| Int64Arith.SignExtendThenTruncate | advcmp/project3/lib/SimpleSCCP.cpp:374-375 | a literal read as int64 and written back at its width is unchanged |
| Int64Arith.TruncateIsCongruent | advcmp/project3/lib/SimpleSCCP.cpp:417 | any int64 written as a literal reads back as a value congruent to it modulo 2^w |
| Int64Arith.Wrap | advcmp/project3/lib/SimpleSCCP.cpp:197-205 | the int64 result of Add/Sub/Mul is congruent to the exact result modulo 2^64 |
| Int64Arith.WrapWithinRange | advcmp/project3/lib/SimpleSCCP.cpp:197-205 | without overflow, wrap-around changes nothing |
| Int64Arith.WrapIsUnique | advcmp/project3/lib/SimpleSCCP.cpp:197-205 | the wrapped value is the only int64 congruent to the exact result |
| Int64Arith.TruncDivIsTruncatingDivision | advcmp/project3/lib/SimpleSCCP.cpp:206-209 | C++ `/` on int64: the remainder x - q*y is smaller than the divisor in magnitude and is zero or has the dividend's sign |
| Int64Arith.PatternsRoundTrip | advcmp/project3/lib/SimpleSCCP.cpp:210-218 | every 64-bit pattern produced by &, \| and ^ reads back as a signed int64 whose encoding is that pattern |
| Int64Arith.BitwiseOnPatterns | advcmp/project3/lib/SimpleSCCP.cpp:210-218 | int64 `&`, `|` and `^` give the int64 whose two's-complement pattern is the bitwise and, or and xor of the operands' patterns |
| IR.PhiPrefix | advcmp/project3/lib/SimpleSCCP.cpp:260 | BasicBlock::phis() is the leading run of phis of a block: a prefix, all phis, followed by a non-phi |
| Visitor.ConstantOf | advcmp/project3/lib/SimpleSCCP.cpp:373-382 | getConstantValue: an instruction reads its recorded fact, or Top when it has none; a literal reads as a constant in the signed range of its width, congruent to its bits (equal when they fit); an argument reads as Top |
| Visitor.ConstantOfMonotone | advcmp/project3/lib/SimpleSCCP.cpp:373-382 | reading an operand is monotone in the facts |
| Visitor.EvalICmp | advcmp/project3/lib/SimpleSCCP.cpp:127-170 | visitICmpInst on the operands' values; its table is ICmpTable, its monotonicity ICmpMonotone |
| Visitor.ICmpTable | advcmp/project3/lib/SimpleSCCP.cpp:127-170 | icmp gives Bottom exactly when an operand is Bottom, otherwise Top exactly when an operand is Top, otherwise the constant 1 or 0, with 1 exactly when the predicate holds |
| Visitor.UnsignedPredicatesCompareSigned | advcmp/project3/lib/SimpleSCCP.cpp:143-158 | the unsigned predicates as written agree with unsigned comparison exactly when the operands have the same sign, and give the opposite answer otherwise |
| Visitor.EvalBinOp | advcmp/project3/lib/SimpleSCCP.cpp:172-223 | visitBinaryOperator on the operands' values; its table is BinOpTable and BinOpAnd/BinOpOr/BinOpXor, its monotonicity BinOpMonotone |
| Visitor.BinOpTable | advcmp/project3/lib/SimpleSCCP.cpp:180-223 | binop gives Bottom on a Bottom operand, Top on a Top operand; on two constants an unsupported opcode gives Bottom, a supported one a constant or a trap; Add/Sub/Mul are the exact results modulo 2^64; UDiv/SDiv trap exactly on a zero divisor or MIN / -1 and otherwise give the truncating quotient |
| Visitor.BinOpAnd | advcmp/project3/lib/SimpleSCCP.cpp:210-212 | And on two constants gives the constant int64 `&` of them (whose pattern BitwiseOnPatterns gives) |
| Visitor.BinOpOr | advcmp/project3/lib/SimpleSCCP.cpp:213-215 | Or on two constants gives the constant int64 `|` of them |
| Visitor.BinOpXor | advcmp/project3/lib/SimpleSCCP.cpp:216-218 | Xor on two constants gives the constant int64 `^` of them |
| Visitor.TransferOutcomes | advcmp/project3/lib/SimpleSCCP.cpp:228-230 | visitInstruction and visitBranchInst give Bottom; only a UDiv/SDiv by a constant 0 or -1 can trap |
| Visitor.ICmpMonotone | advcmp/project3/lib/SimpleSCCP.cpp:127-170 | lowering the operands lowers the icmp result |
| Visitor.BinOpMonotone | advcmp/project3/lib/SimpleSCCP.cpp:180-223 | lowering the operands lowers the binop outcome (a trap sits between Bottom and Top) |
| Visitor.PhiMeet | advcmp/project3/lib/SimpleSCCP.cpp:73-88 | visitPhiNode's meet over the contributing incoming values; its properties are the PhiMeet lemmas below |
| Visitor.PhiMeetIsLowerBound | advcmp/project3/lib/SimpleSCCP.cpp:73-88 | the phi's value is below every incoming value whose defining block has an executable edge into the phi's block |
| Visitor.PhiMeetIsGreatest | advcmp/project3/lib/SimpleSCCP.cpp:73-88 | every common lower bound of those incoming values is below the phi's value |
| Visitor.PhiWithoutContributionIsTop | advcmp/project3/lib/SimpleSCCP.cpp:73-88 | a phi with no contributing incoming value (for instance only literals) is Top |
| Visitor.PhiMeetMonotone | advcmp/project3/lib/SimpleSCCP.cpp:73-88 | more executable edges and lower facts give a lower phi value |
| Visitor.PhiMeetLocal | advcmp/project3/lib/SimpleSCCP.cpp:73-88 | the phi reads only the facts of its incoming instructions and the edges into its block |
| Visitor.Transfer | advcmp/project3/lib/SimpleSCCP.cpp:73-230 | the value the instruction visitor computes for an instruction; stated by TransferOutcomes, TransferMonotone and TransferLocal |
| Visitor.BranchTargets | advcmp/project3/lib/SimpleSCCP.cpp:101-118 | the edges visitBranchInst enables; stated by BranchTable and BranchTargetsAreSuccessorEdges |
| Visitor.Queued | advcmp/project3/lib/SimpleSCCP.cpp:101-118 | the edges visitBranchInst inserts into the CFG work set: the decided edge, or the enabled edges not yet executable; VisitBranch ensures it |
| Visitor.SuccEdges | advcmp/project3/lib/SimpleSCCP.cpp:358-364 | the candidate edges are exactly the edges from the block to one of its successors |
| Visitor.BranchTable | advcmp/project3/lib/SimpleSCCP.cpp:101-118 | an unconditional or undecided (Top or Bottom) branch enables all successor edges; a constant condition enables exactly the edge to successor 0 if nonzero, to successor 1 if zero |
| Visitor.BranchTargetsAreSuccessorEdges | advcmp/project3/lib/SimpleSCCP.cpp:101-118 | every edge a branch enables leaves its block for one of its successors |
| Visitor.TransferMonotone | advcmp/project3/lib/SimpleSCCP.cpp:73-230 | every visitor is monotone: more executable edges and lower facts give a lower outcome |
| Visitor.TransferLocal | advcmp/project3/lib/SimpleSCCP.cpp:73-230 | a visitor's outcome and enabled edges depend only on its operands' facts and, for a phi, the edges into its block |
| Visitor.NonUserUnaffected | advcmp/project3/lib/SimpleSCCP.cpp:312-317 | changing the fact of an instruction leaves the transfer and the enabled edges of every instruction that does not read it unchanged, so re-queuing only the users loses nothing |
| Analysis.VisitState | advcmp/project3/lib/SimpleSCCP.cpp:300-326 | visit on a snapshot: stored value, queued users and queued edges; stated by VisitFactsDescend, VisitRecords, VisitCovered and VisitInv |
| Analysis.VisitStep | advcmp/project3/lib/SimpleSCCP.cpp:300-326 | one visit: VisitState, or the old state on a trap; VisitPending ensures it |
| Analysis.VisitAll | advcmp/project3/lib/SimpleSCCP.cpp:259-273 | the visits of a list of instructions in order, phis skipped in a body, stopping at a trap; VisitPhis and VisitBody ensure it |
| Analysis.EdgeRun | advcmp/project3/lib/SimpleSCCP.cpp:253-283 | one iteration of analyze on a queued edge; ProcessEdge ensures it and EdgeRunExec states its executable edges |
| Analysis.VisitAllStep | advcmp/project3/lib/SimpleSCCP.cpp:259-273 | the visits of one more instruction extend the visits of the prefix by that visit, unless a trap came first or the instruction is a skipped phi |
| Analysis.VisitAllTrapSticks | advcmp/project3/lib/SimpleSCCP.cpp:259-273 | after a trap no further instruction is visited |
| Analysis.VisitAllKeepsExec | advcmp/project3/lib/SimpleSCCP.cpp:259-273 | visits never change the executable edges |
| Analysis.EdgeRunExec | advcmp/project3/lib/SimpleSCCP.cpp:253-283 | an iteration on edge e adds e to the executable edges and, without a trap, the edge to the block's single successor if it has one; no other edge becomes executable |
| Analysis.EdgeEqual | advcmp/project3/lib/SimpleSCCP.cpp:60-64 | CFGEdge::operator== holds exactly for equal edges |
| Analysis.EdgeLessIsStrictTotalOrder | advcmp/project3/lib/SimpleSCCP.cpp:46-58 | CFGEdge::operator< is irreflexive and transitive, and two edges are equal exactly when neither is less |
| Analysis.InitInv | advcmp/project3/lib/SimpleSCCP.cpp:246-250 | the start state (only the edge from null to the entry block queued, everything else empty) satisfies the engine invariant, including that every executable edge is reached from the entry along executable edges and every processed edge has its facts |
| Analysis.PopEdgeInv | advcmp/project3/lib/SimpleSCCP.cpp:254-257 | taking a queued edge and marking it executable keeps the invariant, with the block's phis pending and the edge in process |
| Analysis.PopEdgeCovered | advcmp/project3/lib/SimpleSCCP.cpp:254-257 | the edge taken leaves the entry or an executable block, so every executable edge stays reachable from the entry along executable edges, and every other processed edge keeps its facts |
| Analysis.PopEdgeSettled | advcmp/project3/lib/SimpleSCCP.cpp:254-257 | an instruction not pending after the edge is taken was not pending before, and its visitor does not see the new edge |
| Analysis.ExecConnectedAdd | advcmp/project3/lib/SimpleSCCP.cpp:254-257 | adding the entry edge, or an edge out of an executable block, keeps every executable edge reachable from the entry along executable edges |
| Analysis.VisitFactsDescend | advcmp/project3/lib/SimpleSCCP.cpp:300-326 | a visit only lowers the stored facts |
| Analysis.VisitRecords | advcmp/project3/lib/SimpleSCCP.cpp:300-326 | a visit that does not trap records a fact for the visited instruction and keeps every other recorded instruction |
| Analysis.VisitCovered | advcmp/project3/lib/SimpleSCCP.cpp:300-326 | a visit keeps every processed edge processed: it only adds facts and queues edges |
| Analysis.VisitInv | advcmp/project3/lib/SimpleSCCP.cpp:300-326 | a visit of a phi or of an instruction of an executable block keeps the invariant and leaves the instruction up to date |
| Analysis.DeadPhiIsTop | advcmp/project3/lib/SimpleSCCP.cpp:73-88 | a phi in a block no executable edge enters computes Top |
| Analysis.JumpState | advcmp/project3/lib/SimpleSCCP.cpp:275-283 | the jump to a single successor: the edge becomes executable and queued; stated by JumpInv and JumpCovered |
| Analysis.JumpInv | advcmp/project3/lib/SimpleSCCP.cpp:275-283 | once the edge in process has its block's facts, making the single-successor out-edge executable and queued restores the invariant with nothing in process |
| Analysis.JumpCovered | advcmp/project3/lib/SimpleSCCP.cpp:275-283 | the jump edge leaves an executable block, so executable edges stay reachable from the entry along executable edges, and with the block of the edge in process recorded every executable edge out of the work set is processed |
| Analysis.PopInstInv | advcmp/project3/lib/SimpleSCCP.cpp:285-286 | taking an instruction from the SSA work set keeps the invariant with that instruction in process |
| Analysis.SkipInv | advcmp/project3/lib/SimpleSCCP.cpp:287-291 | skipping a non-phi in a non-executable block is harmless: it has no fact |
| Analysis.SkipPhiStep | advcmp/project3/lib/SimpleSCCP.cpp:266-272 | a phi met in the body loop is skipped without harm: the invariant holds with it no longer pending and it already has a fact |
| Analysis.DrainedIsFixpoint | advcmp/project3/lib/SimpleSCCP.cpp:252 | when both work sets are empty: the entry edge is executable, every fact equals its visitor's value, every enabled edge is executable, every executable edge is the entry edge or a CFG edge leaving an executable block, into a reachable block, and is reached from the entry along executable edges, non-phi facts lie in executable blocks, and for every executable edge its block's phis have facts, and so does the whole block when the edge is its only executable in-edge |
| Analysis.SCCPAnalysis.IsExecutableEdge | advcmp/project3/lib/SimpleSCCP.cpp:354-356 | true exactly when the edge is executable |
| Analysis.SCCPAnalysis.IsExecutableBlock | advcmp/project3/lib/SimpleSCCP.cpp:344-352 | true exactly when some executable edge enters the block |
| Analysis.SCCPAnalysis.IsFirstVisit | advcmp/project3/lib/SimpleSCCP.cpp:328-342 | true exactly when exactly one executable edge enters the block |
| Analysis.SCCPAnalysis.AppendExecutableSuccessors | advcmp/project3/lib/SimpleSCCP.cpp:358-364 | queues exactly the successor edges that are not executable; nothing else changes |
| Analysis.SCCPAnalysis.VisitBranch | advcmp/project3/lib/SimpleSCCP.cpp:101-118 | returns Bottom and queues the decided edge (even when executable) or the non-executable enabled edges |
| Analysis.SCCPAnalysis.VisitPhi | advcmp/project3/lib/SimpleSCCP.cpp:73-88 | the loop computes the meet of the contributing incoming values |
| Analysis.SCCPAnalysis.Evaluate | advcmp/project3/lib/SimpleSCCP.cpp:73-230 | dispatches to the visitor of the instruction's kind |
| Analysis.SCCPAnalysis.Visit | advcmp/project3/lib/SimpleSCCP.cpp:300-326 | stores the visitor's value and queues the users exactly when the fact is new or different; a trap leaves the state unchanged |
| Analysis.SCCPAnalysis.VisitPending | advcmp/project3/lib/SimpleSCCP.cpp:260-262 | the new state is one visit of the old (VisitStep): on a trap nothing changes, otherwise the visitor's value is stored and users and edges are queued; a pending phi or an instruction of an executable block gets a fact, every other recorded fact stays, the invariant holds and facts descend |
| Analysis.SCCPAnalysis.VisitPhis | advcmp/project3/lib/SimpleSCCP.cpp:259-262 | the new state is the visits of the block's phis in order from the old state, stopping at the first trap (VisitAll); without a trap every phi has a fact, none is pending, the invariant holds and facts descend |
| Analysis.SCCPAnalysis.VisitPhiAt | advcmp/project3/lib/SimpleSCCP.cpp:260-262 | one iteration of the phi loop: the visits from the loop's start state extend by this phi's visit; executable edges unchanged; without a trap the invariant holds with one fewer phi pending and the phis so far have facts |
| Analysis.SCCPAnalysis.VisitBody | advcmp/project3/lib/SimpleSCCP.cpp:264-273 | the new state is the visits of the block's non-phi instructions in order from the old state, stopping at the first trap (VisitAll, phis skipped); without a trap every instruction of the block has a fact, the invariant holds and facts descend |
| Analysis.SCCPAnalysis.VisitBodyAt | advcmp/project3/lib/SimpleSCCP.cpp:266-272 | one iteration of the body loop: the visits from the loop's start state extend by this instruction's visit; a phi (already visited) leaves the state unchanged and does not trap; without a trap the invariant holds with one fewer instruction pending and the instructions so far have facts |
| Analysis.SCCPAnalysis.TakeEdge | advcmp/project3/lib/SimpleSCCP.cpp:254-257 | removes a queued edge from the CFG work set and adds it to the executable edges |
| Analysis.SCCPAnalysis.QueueJump | advcmp/project3/lib/SimpleSCCP.cpp:275-283 | a single-successor block's out-edge becomes executable and queued; facts unchanged, executable edges only grow, the invariant holds with nothing in process |
| Analysis.SCCPAnalysis.ProcessEdge | advcmp/project3/lib/SimpleSCCP.cpp:253-283 | the new state is one iteration on the taken edge (EdgeRun); the executable edges grow by exactly that edge and, without a trap, the edge to a single successor; the body runs exactly when it is the block's only executable in-edge and then every instruction of the block gets a fact; facts descend and the invariant holds |
| Analysis.SCCPAnalysis.ProcessInst | advcmp/project3/lib/SimpleSCCP.cpp:284-292 | the new state is the old with the instruction taken from the SSA work set, followed by its visit (VisitStep) exactly when it is a phi or its block is executable; a visited one gets a fact; executable edges unchanged, facts descend |
| Analysis.SCCPAnalysis.Analyze | advcmp/project3/lib/SimpleSCCP.cpp:245-295 | starting from the entry edge, a drained run ends at a fixpoint (as in DrainedIsFixpoint: facts equal their visitors, every executable edge the entry edge or a CFG edge out of an executable block into a reachable block, reached from the entry along executable edges, every processed block recorded); a run out of fuel still satisfies the invariant |
| Transform.LiteralsFor | advcmp/project3/lib/SimpleSCCP.cpp:417 | each folded instruction is replaced by a literal of its own width |
| Transform.FoldedLiteralReadsBack | advcmp/project3/lib/SimpleSCCP.cpp:417 | the literal reads back as a constant congruent to the fact modulo 2^width, and equal to it when it fits the width |
| Transform.SubstRemovesUses | advcmp/project3/lib/SimpleSCCP.cpp:417 | after replaceAllUsesWith an instruction reads no replaced id and keeps every other operand |
| Transform.SubstituteConstants | advcmp/project3/lib/SimpleSCCP.cpp:411-422 | in any order of the facts map, the loop replaces every use of every folded instruction, and collects the folded instructions once each |
| Transform.DetachAll | advcmp/project3/lib/SimpleSCCP.cpp:424-427 | every abandoned instruction leaves its block and the arena |
| Transform.SubstituteAndDetach | advcmp/project3/lib/SimpleSCCP.cpp:411-427 | the first phase yields the substituted function with the folded instructions detached |
| Transform.SubstitutedDrops | advcmp/project3/lib/SimpleSCCP.cpp:411-427 | after the first phase no folded instruction is in the arena or a block, and nothing reads one |
| Transform.DecideProperties | advcmp/project3/lib/SimpleSCCP.cpp:433-450 | exactly the conditional branches on a literal 1 or 0 change, into a branch to successor 0 or 1; the result is decided, idempotent, and reads and reaches no more than before |
| Transform.SimplifyBranches | advcmp/project3/lib/SimpleSCCP.cpp:431-454 | rewrites every block's terminator; the change flag is set exactly when some terminator was a branch on a literal 1 or 0 |
| Transform.NoBranchOnBoolLiteralLeft | advcmp/project3/lib/SimpleSCCP.cpp:431-454 | afterwards no block ends in a conditional branch on a literal 1 or 0 |
| Transform.PathInClosedSet | advcmp/project3/lib/SimpleSCCP.cpp:470-480 | a set holding the entry and closed under successors holds every reachable block |
| Transform.PushSuccessors | advcmp/project3/lib/SimpleSCCP.cpp:474-479 | marks and pushes each successor not seen before, keeping the search invariants (seen blocks reachable, popped blocks' successors seen) |
| Transform.FindReachable | advcmp/project3/lib/SimpleSCCP.cpp:462-480 | the depth-first search returns exactly the blocks reachable from the entry |
| Transform.RemoveUnreachable | advcmp/project3/lib/SimpleSCCP.cpp:482-496 | erases exactly the blocks of the layout the search did not reach, with their instructions |
| Transform.RemoveAllUnreachable | advcmp/project3/lib/SimpleSCCP.cpp:462-496 | the third phase yields the pruned function and keeps the arena linked |
| Transform.PruneKeepsShape | advcmp/project3/lib/SimpleSCCP.cpp:462-496 | after pruning, the blocks left are exactly the reachable ones, each with the same instructions and successors |
| Transform.OddEntriesKeepOddPositions | advcmp/project3/lib/SimpleSCCP.cpp:501-508 | the repair keeps half of the entries: every entry at an odd position, and only those |
| FoldWitness.FoldLeavesDanglingPhi | advcmp/project3/lib/SimpleSCCP.cpp:489-508 | on a concrete well-formed function with no facts, foldConstants keeps a phi whose second entry comes from an erased block, and that phi still reads the erased instruction |
| Transform.RemoveEvenIncoming | advcmp/project3/lib/SimpleSCCP.cpp:501-508 | the loop leaves the odd-position entries and reports a change exactly when the phi had an entry |
| Transform.RepairBlock | advcmp/project3/lib/SimpleSCCP.cpp:500-509 | repairs every phi of one block; the flag is set exactly when one of them had an entry |
| Transform.RepairPhis | advcmp/project3/lib/SimpleSCCP.cpp:498-510 | repairs every phi of every block; the flag is set exactly when some phi had an entry |
| Transform.RepairKeepsEdges | advcmp/project3/lib/SimpleSCCP.cpp:498-510 | the repair keeps every block's successors and only drops operands |
| Transform.RemainingBlocksReachable | advcmp/project3/lib/SimpleSCCP.cpp:462-510 | after pruning and the repair, every block left is reachable in the result |
| Transform.FoldConstants | advcmp/project3/lib/SimpleSCCP.cpp:394-514 | the result is the four phases composed; madeChange exactly when a branch was rewritten or a phi entry removed; folded instructions gone and unread; the blocks left are those reachable after the branch rewrite, and are reachable; no branch on a literal 1 or 0 remains |
| Transform.FoldConstantsDetaches | advcmp/project3/lib/SimpleSCCP.cpp:411-427 | in the final function no folded instruction is present or read |
| Transform.FoldConstantsKeepsReachable | advcmp/project3/lib/SimpleSCCP.cpp:462-510 | the final blocks are exactly those reachable after the branch rewrite, and each is reachable in the result |
| Transform.FoldConstantsDecidesBranches | advcmp/project3/lib/SimpleSCCP.cpp:431-459 | no final block ends in a conditional branch on a literal 1 or 0 |
| Transform.FoldedBranchFollowsAnalysis | advcmp/project3/lib/SimpleSCCP.cpp:435-449 | for an i1 condition whose constant is -1, 0 or 1, the rewritten branch goes to exactly the successor the analysis enabled |

## Left out

- The pass glue (`run` of the analysis, transform and printer, the plugin registration at lines 232-236, 519-533 and 570-624) and the printers (lines 535-563) are not modelled. They are I/O and LLVM pass-manager plumbing.
- `SimpleSCCP.h` is not part of this model. The `ConstantValue` and `CFGEdge` declarations and the `InstructionVisitor` dispatch are inferred from their uses.
- The IR is an arena of ids, not LLVM's graph of objects linked by address. Use-lists are computed from operands. The order in which `std::set` and `DenseMap` iterate (address order) is modelled as an unspecified choice (`:|`). Block ids stand in for block addresses in `CFGEdge::operator<`.
- Analysis.SCCPAnalysis.Analyze: termination is not claimed, because the C++ loop can re-queue an executable edge forever. The run is bounded by a fuel parameter and reports `OutOfFuel`.
- Int64Arith.Wrap: signed overflow in the C++ `+`, `-` and `*` is undefined behaviour. The model takes two's-complement wrap-around.
- Visitor.EvalBinOp: a division by zero or MIN / -1 is undefined behaviour in C++. The model reports it as a trap, and `Analyze` stops with `DivisionTrap`.
- Integer types other than i1, i8, i16, i32 and i64, floating-point, address and vector values are not modelled. Operands are integer literals, instruction results or function arguments. A function argument reads as Top.
- Transform.FoldConstants: the transform works on `Func` values: each phase returns a new function instead of editing the IR in place. Aliasing between LLVM objects is not modelled.
- Transform.FoldConstants: `BB->replaceAllUsesWith(undef)` on an erased block is not modelled; the erased block simply disappears with its instructions.
- Transform.FoldConstants: the final function is not proved free of reads of erased instructions. The phi repair (lines 501-508) runs after the erasure (lines 491-495) and keeps the entries at odd positions whatever their incoming block. So a kept phi can keep an entry from an erased block and read an instruction of that block. `FoldWitness.FoldLeavesDanglingPhi` shows a well-formed function where this happens.
- Transform.FoldConstants: the new unconditional branch keeps the id of the branch it replaces, instead of being a fresh instruction.
- Transform.RepairPhis: `removeIncomingValue` erasing a phi that becomes empty is not modelled; the phi stays with no entries. The null-incoming-block `continue` is not modelled either, because an incoming block is never null in the model.
- Transform.FoldedBranchFollowsAnalysis: proved only for i1 constants -1, 0 and 1. The analysis computes narrow widths at 64 bits, so for other constants the truncated literal can select the other successor.
