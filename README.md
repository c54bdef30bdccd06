# Definite-assignment check of the Groovy control-flow utilities

This project models `ControlFlowUtil`, the Groovy plugin's helper that finds
reads of local variables that may happen before any write. A method body is
given as a control-flow graph: an array of instructions. Instruction 0 is the
entry. Each instruction has a list of successors and may read or write one
named variable. The helper works in three steps:

1. `postorder` and `doVisitForPostorder` rank the instructions by a
   depth-first traversal from the entry. A counter starts at the number of
   instructions. Each time an instruction finishes, the counter goes down by
   one and the instruction gets the new value as its rank. The entry finishes
   last, so it gets the smallest rank among the reachable instructions;
   unreachable instructions keep rank 0. `revpostorder` inverts the rank
   array.
2. `buildNamesIndex` numbers the variable names densely, in the order they
   first occur.
3. `findReadsBeforeWrites` handles the instructions in rank order. For each
   instruction it keeps the set of variable indices definitely assigned on
   entry to it. A `null` entry means no set yet. A read whose variable is
   not in the set is reported. A write adds its variable to the set. Then
   the set is sent along every edge that goes to a larger rank: a target
   with no set receives a copy, and a target that has one intersects it.
   Edges to a smaller or equal rank are skipped; such an edge from a
   reachable instruction closes a cycle.
   `getReadsWithoutPriorWrites` chains the three steps.

Modules:

- `Graph` (`graph.dfy`): instructions, flows, paths and reachability.
- `Postorder` (`postorder.dfy`): the ranking and its inverse. Each is a
  value-level specification (`Visit`/`VisitSuccs`, `RevPostorderOf`) plus a
  method over arrays that is proved to compute it. The specification's
  properties are proved from a depth-first invariant over a ghost stack.
- `NamesIndex` (`names_index.dfy`): the names index.
- `Analysis` (`analysis.dfy`): the sweep, for both ways of storing a fresh set
  (see Findings). It has a function specification per part of the loop body,
  methods proved equal to them, and properties that hold in both modes.
- `Intended` (`intended.dfy`): the sweep as evidently intended, and a proof
  that it reports exactly the reads that some forward path reaches without a
  prior write.
- `Examples` (`examples.dfy`): two small flows, worked through.

When an instruction is unreachable, the code only logs a failed assertion
(line 37) and continues. It stores fresh sets with `ArrayList.add(index,
set)`, which inserts. The model follows the code in both places.

## Model

| member | source | states |
|---|---|---|
| Postorder.DoVisitForPostorder | plugins/groovy/src/org/jetbrains/plugins/groovy/lang/psi/controlFlow/ControlFlowUtil.java:41-50 | the recursion leaves the counter, the rank array and the visited array exactly as the depth-first specification `Visit` from the old state says |
| Postorder.Postorder | plugins/groovy/src/org/jetbrains/plugins/groovy/lang/psi/controlFlow/ControlFlowUtil.java:29-39 | returns a rank array of length N that equals the specification's ranks; the final counter is returned too, and it is 0 exactly when every instruction is reachable from the entry |
| Postorder.PostorderCounter | plugins/groovy/src/org/jetbrains/plugins/groovy/lang/psi/controlFlow/ControlFlowUtil.java:34-37 | the counter checked by `LOG.assertTrue(N == 0)` ends at 0 if and only if every instruction is reachable |
| Postorder.PostorderVisitsReachable | plugins/groovy/src/org/jetbrains/plugins/groovy/lang/psi/controlFlow/ControlFlowUtil.java:41-47 | an instruction is visited if and only if it is reachable from the entry; unreachable ones keep rank 0 |
| Postorder.PostorderClosed | plugins/groovy/src/org/jetbrains/plugins/groovy/lang/psi/controlFlow/ControlFlowUtil.java:42-47 | the visited set contains the entry and is closed under successors |
| Postorder.PostorderRanksInRange | plugins/groovy/src/org/jetbrains/plugins/groovy/lang/psi/controlFlow/ControlFlowUtil.java:48 | every rank lies in [0, N), so `revpostorder` can index by it |
| Postorder.PostorderIsPermutation | plugins/groovy/src/org/jetbrains/plugins/groovy/lang/psi/controlFlow/ControlFlowUtil.java:29-50 | with every instruction reachable, the ranks are a permutation of 0..N-1 and the entry has rank 0 |
| Postorder.PostorderEntryFinishesLast | plugins/groovy/src/org/jetbrains/plugins/groovy/lang/psi/controlFlow/ControlFlowUtil.java:35-48 | the entry's rank is the final counter, and every other reachable instruction has a larger rank |
| Postorder.PostorderBackEdges | plugins/groovy/src/org/jetbrains/plugins/groovy/lang/psi/controlFlow/ControlFlowUtil.java:43-48 | an edge from a reachable instruction to a rank that is not larger is a back edge: its target reaches its source |
| Postorder.PostorderAcyclicForward | plugins/groovy/src/org/jetbrains/plugins/groovy/lang/psi/controlFlow/ControlFlowUtil.java:43-48 | in an acyclic flow, every edge from a reachable instruction goes to a larger rank |
| Postorder.PostorderParent | plugins/groovy/src/org/jetbrains/plugins/groovy/lang/psi/controlFlow/ControlFlowUtil.java:43-45 | every reachable instruction other than the entry has a reachable predecessor of smaller rank |
| Postorder.LastIndexOf | plugins/groovy/src/org/jetbrains/plugins/groovy/lang/psi/controlFlow/ControlFlowUtil.java:70-72 | the result is the last position holding `k`, or 0 when `k` does not occur |
| Postorder.RevPostorderOf | plugins/groovy/src/org/jetbrains/plugins/groovy/lang/psi/controlFlow/ControlFlowUtil.java:68-75 | the result is as long as the rank array, and every entry is an instruction number |
| Postorder.RevPostorder | plugins/groovy/src/org/jetbrains/plugins/groovy/lang/psi/controlFlow/ControlFlowUtil.java:68-75 | the loop fills `result[postorder[i]] = i`, later writes overwriting earlier ones; the result equals `RevPostorderOf` |
| Postorder.RevPostorderInverse | plugins/groovy/src/org/jetbrains/plugins/groovy/lang/psi/controlFlow/ControlFlowUtil.java:68-75 | on a permutation, `revpostorder` is its inverse in both directions |
| NamesIndex.GetAtAccess | plugins/groovy/src/org/jetbrains/plugins/groovy/lang/psi/controlFlow/ControlFlowUtil.java:103 | at every read or write, `namesIndex.get` finds the accessed name, so its default 0 for an absent key is never taken, and the index it returns is below the number of names |
| NamesIndex.BuildNamesIndex | plugins/groovy/src/org/jetbrains/plugins/groovy/lang/psi/controlFlow/ControlFlowUtil.java:77-89 | the loop builds the map given by `NamesIndexOf`, with `idx` equal to the number of names so far |
| NamesIndex.NamesIndexKeys | plugins/groovy/src/org/jetbrains/plugins/groovy/lang/psi/controlFlow/ControlFlowUtil.java:80-86 | a name is a key if and only if some instruction reads or writes it |
| NamesIndex.NamesIndexDense | plugins/groovy/src/org/jetbrains/plugins/groovy/lang/psi/controlFlow/ControlFlowUtil.java:79-85 | the values are pairwise distinct and are exactly 0 .. size-1 |
| NamesIndex.NamesIndexInjective | plugins/groovy/src/org/jetbrains/plugins/groovy/lang/psi/controlFlow/ControlFlowUtil.java:83-85 | two occurring names have the same index if and only if they are equal |
| NamesIndex.NamesIndexOrder | plugins/groovy/src/org/jetbrains/plugins/groovy/lang/psi/controlFlow/ControlFlowUtil.java:80-85 | a name that first occurs earlier gets a smaller index |
| Analysis.Put | plugins/groovy/src/org/jetbrains/plugins/groovy/lang/psi/controlFlow/ControlFlowUtil.java:112 | `ArrayList.add(p, x)` puts `x` at `p` and shifts every later entry up by one; `set(p, x)` overwrites position `p` only; earlier entries never change |
| Analysis.PutThenUpdate | plugins/groovy/src/org/jetbrains/plugins/groovy/lang/psi/controlFlow/ControlFlowUtil.java:110-114 | storing a fresh set and then adding to it in place leaves the updated set at that position |
| Analysis.AccessStep | plugins/groovy/src/org/jetbrains/plugins/groovy/lang/psi/controlFlow/ControlFlowUtil.java:101-116 | the access step grows the list by at most one entry, and by none when storing with `set`; an instruction that accesses no variable leaves the state unchanged |
| Analysis.EdgeStep | plugins/groovy/src/org/jetbrains/plugins/groovy/lang/psi/controlFlow/ControlFlowUtil.java:119-139 | following one edge grows the list by at most one entry, and by none when storing with `set`; an edge to a rank that is not larger is skipped and leaves the list unchanged |
| Analysis.EdgesFrom | plugins/groovy/src/org/jetbrains/plugins/groovy/lang/psi/controlFlow/ControlFlowUtil.java:118-140 | the loop over the successors grows the list, and keeps its length when storing with `set` |
| Analysis.Step | plugins/groovy/src/org/jetbrains/plugins/groovy/lang/psi/controlFlow/ControlFlowUtil.java:98-141 | one iteration of the outer loop grows the list, and keeps its length when storing with `set` |
| Analysis.SweepFrom | plugins/groovy/src/org/jetbrains/plugins/groovy/lang/psi/controlFlow/ControlFlowUtil.java:98-142 | the rest of the outer loop grows the list, and keeps its length when storing with `set` |
| Analysis.InitialFacts | plugins/groovy/src/org/jetbrains/plugins/groovy/lang/psi/controlFlow/ControlFlowUtil.java:56-58 | the starting list has one `null` entry per instruction |
| Analysis.RecordAccess | plugins/groovy/src/org/jetbrains/plugins/groovy/lang/psi/controlFlow/ControlFlowUtil.java:101-116 | the first half of the loop body returns exactly the state `AccessStep` specifies |
| Analysis.PropagateAlongEdges | plugins/groovy/src/org/jetbrains/plugins/groovy/lang/psi/controlFlow/ControlFlowUtil.java:118-140 | the loop over the successors returns exactly the list `EdgesFrom` specifies |
| Analysis.FindReadsBeforeWrites | plugins/groovy/src/org/jetbrains/plugins/groovy/lang/psi/controlFlow/ControlFlowUtil.java:91-143 | the outer loop leaves both lists exactly as the sweep `SweepFrom` says |
| Analysis.GetReadsWithoutPriorWrites | plugins/groovy/src/org/jetbrains/plugins/groovy/lang/psi/controlFlow/ControlFlowUtil.java:52-66 | the driver returns `ReadsWithoutPriorWrites`: the sweep over the ranks, their inverse, the names index and an all-`null` list |
| Analysis.AccessReports | plugins/groovy/src/org/jetbrains/plugins/groovy/lang/psi/controlFlow/ControlFlowUtil.java:105-108 | an access step either reports nothing or appends the read instruction it handles |
| Analysis.ReadReports | plugins/groovy/src/org/jetbrains/plugins/groovy/lang/psi/controlFlow/ControlFlowUtil.java:104-108 | in either mode, a read is reported exactly when its index is missing from the entry at `j` (a `null` entry holds nothing), and the list is left unchanged |
| Analysis.WriteAddsIndex | plugins/groovy/src/org/jetbrains/plugins/groovy/lang/psi/controlFlow/ControlFlowUtil.java:109-115 | in either mode, after a write the entry at `j` holds what it held plus the written index; a fresh set is stored with `Put` only when the entry was `null`, and otherwise no other entry changes |
| Analysis.EdgeStepMeets | plugins/groovy/src/org/jetbrains/plugins/groovy/lang/psi/controlFlow/ControlFlowUtil.java:119-138 | in either mode, a followed edge makes the target's entry a copy of the source's set when it had none, and otherwise the intersection of the two (empty for a `null` source), so a present set never grows; only a copy into a `null` entry stores a fresh set with `Put` |
| Analysis.SweepAppendsReads | plugins/groovy/src/org/jetbrains/plugins/groovy/lang/psi/controlFlow/ControlFlowUtil.java:98-108 | the sweep only appends to the result list, and only read instructions |
| Analysis.ReportsAreReads | plugins/groovy/src/org/jetbrains/plugins/groovy/lang/psi/controlFlow/ControlFlowUtil.java:52-66 | in either mode, every reported instruction is a read |
| Analysis.SweepRankSorted | plugins/groovy/src/org/jetbrains/plugins/groovy/lang/psi/controlFlow/ControlFlowUtil.java:98-108 | when `revpostorder` inverts the ranks, reports come out in strictly increasing rank |
| Analysis.ReportsInRankOrder | plugins/groovy/src/org/jetbrains/plugins/groovy/lang/psi/controlFlow/ControlFlowUtil.java:52-66 | with every instruction reachable, the reports are in strictly increasing rank, and no instruction is reported twice |
| Intended.EntryNotAssigned | plugins/groovy/src/org/jetbrains/plugins/groovy/lang/psi/controlFlow/ControlFlowUtil.java:58 | nothing is definitely assigned on entry to the entry instruction, matching its `null` start |
| Intended.Meet | plugins/groovy/src/org/jetbrains/plugins/groovy/lang/psi/controlFlow/ControlFlowUtil.java:119-138 | a variable is assigned before `m` on every forward path if and only if it is assigned through every forward predecessor of `m`: the intersection along edges is the meet over paths |
| Intended.SweepInitialInv | plugins/groovy/src/org/jetbrains/plugins/groovy/lang/psi/controlFlow/ControlFlowUtil.java:56-63 | the all-`null` start satisfies the sweep invariant |
| Intended.AccessKeepsInv | plugins/groovy/src/org/jetbrains/plugins/groovy/lang/psi/controlFlow/ControlFlowUtil.java:101-116 | the access step turns the current entry into exactly what is assigned through it, and reports the current instruction exactly when it must |
| Intended.EdgeKeepsInv | plugins/groovy/src/org/jetbrains/plugins/groovy/lang/psi/controlFlow/ControlFlowUtil.java:118-140 | following one more edge adds the current instruction to its target's contributors and keeps the invariant |
| Intended.EdgesKeepInv | plugins/groovy/src/org/jetbrains/plugins/groovy/lang/psi/controlFlow/ControlFlowUtil.java:118-140 | the whole loop over the successors keeps the invariant |
| Intended.StepKeepsInv | plugins/groovy/src/org/jetbrains/plugins/groovy/lang/psi/controlFlow/ControlFlowUtil.java:98-142 | one iteration of the outer loop carries the sweep invariant from `i` to `i + 1` |
| Intended.SweepKeepsInv | plugins/groovy/src/org/jetbrains/plugins/groovy/lang/psi/controlFlow/ControlFlowUtil.java:98-142 | the rest of the sweep carries the invariant to the end |
| Intended.PostorderRanked | plugins/groovy/src/org/jetbrains/plugins/groovy/lang/psi/controlFlow/ControlFlowUtil.java:60-61 | with every instruction reachable, the rank array and its inverse are inverse permutations, the entry has rank 0, and every other instruction has a forward predecessor |
| Intended.IntendedReportsExact | plugins/groovy/src/org/jetbrains/plugins/groovy/lang/psi/controlFlow/ControlFlowUtil.java:52-66 | with every instruction reachable, the intended sweep reports `m` if and only if `m` is a read and some forward path reaches it without writing its variable's index before it |
| Intended.WritesByIndex | plugins/groovy/src/org/jetbrains/plugins/groovy/lang/psi/controlFlow/ControlFlowUtil.java:103 | a write found by the read's index is a write of the very variable read |
| Intended.IntendedReadsExact | plugins/groovy/src/org/jetbrains/plugins/groovy/lang/psi/controlFlow/ControlFlowUtil.java:52-66 | the same, by variable name: reported if and only if some forward path from the entry reaches the read with no write of that name before it |
| Intended.AcyclicPathsAreForward | plugins/groovy/src/org/jetbrains/plugins/groovy/lang/psi/controlFlow/ControlFlowUtil.java:119 | in an acyclic flow, every path from the entry goes to larger ranks only |
| Intended.IntendedReadsExactAcyclic | plugins/groovy/src/org/jetbrains/plugins/groovy/lang/psi/controlFlow/ControlFlowUtil.java:52-66 | in an acyclic flow with every instruction reachable, reported if and only if some path from the entry reaches the read with no prior write of its variable: the exact definite-assignment check |
| Examples.ShiftFlowRanks | plugins/groovy/src/org/jetbrains/plugins/groovy/lang/psi/controlFlow/ControlFlowUtil.java:29-50 | on the three-instruction example, the ranks are 0, 1, 2 and every instruction is visited |
| Examples.AsWrittenFirstStep | plugins/groovy/src/org/jetbrains/plugins/groovy/lang/psi/controlFlow/ControlFlowUtil.java:110-136 | the first iteration as written inserts three sets and shifts the one meant for instruction 2 to position 3 |
| Examples.AsWrittenReportsAssignedRead | plugins/groovy/src/org/jetbrains/plugins/groovy/lang/psi/controlFlow/ControlFlowUtil.java:112 | as written, the helper reports the read at 2 although every path to it writes the variable first |
| Examples.IntendedReportsNothing | plugins/groovy/src/org/jetbrains/plugins/groovy/lang/psi/controlFlow/ControlFlowUtil.java:52-66 | storing with `set`, the same flow reports nothing |
| Examples.DeadCodeRanks | plugins/groovy/src/org/jetbrains/plugins/groovy/lang/psi/controlFlow/ControlFlowUtil.java:34-37 | with two unreachable instructions the entry gets rank 2, the others keep 0, the counter ends at 2, and `revpostorder` is `[2, 0, 0]` |
| Examples.DeadCodeReportedTwice | plugins/groovy/src/org/jetbrains/plugins/groovy/lang/psi/controlFlow/ControlFlowUtil.java:68-75 | with unreachable code the entry is handled twice, and its read is reported twice in either mode |

## Left out

- Logging: `LOG.assertTrue(N == 0)` only logs. `Postorder` returns the final counter instead, and `PostorderCounter` states when it is 0.
- Instruction objects: the result lists reported reads by instruction number, not as `ReadWriteVariableInstruction` objects. `num()` is the instruction's position in the flow (`WellFormed`), so the two carry the same information.
- In-place updates: the `definitelyAssigned` and `result` lists are passed in and their final contents returned. A set stored in the list is never stored at a second position, so updating it in place is the same as storing the updated set. Aliasing of the lists is not modelled.
- Recursion depth: the recursion of `doVisitForPostorder` is modelled as it is, with no bound on the depth of the Java call stack.
- Trove sets: `TIntHashSet` is a mathematical `set<int>`. Its hashing and `toArray` order do not affect the result.
- Analysis.AccessStep, Analysis.EdgeStep: besides how the list's length changes, the functions' own contracts state only the cases that change nothing. A `Generic` instruction leaves the state alone, and an edge to a rank that is not larger leaves the list alone. What the other cases compute is stated, in either mode, by `ReadReports`, `WriteAddsIndex`, `EdgeStepMeets` and `Put`.
- Analysis.EdgesFrom, Analysis.Step, Analysis.SweepFrom: the functions' own contracts state only how the list's length changes. What the loops compute is stated by `SweepAppendsReads`, `ReportsAreReads` and `ReportsInRankOrder` in either mode, and by the `Intended` lemmas for `set` storage.
- Intended.IntendedReportsExact: exactness is proved with respect to forward paths, meaning paths along edges to larger ranks. It is proved for all paths only in acyclic flows (`IntendedReadsExactAcyclic`). On a flow with cycles, the sweep skips back edges, and that is all it is shown to do.
- Intended.IntendedReportsExact: requires every instruction to be reachable. `Examples.DeadCodeReportedTwice` shows the reports are not exact otherwise.
- Exceptions: `WellFormed` requires a non-empty flow, with every successor inside it and every instruction's number equal to its position. In the code, an empty flow throws `ArrayIndexOutOfBoundsException` at `flow[0]` (line 35), and so does an out-of-range successor (line 44). The model does not cover these exception paths.
- Graph construction and the instruction classes come from other files, which are not part of this model. The flow is given directly as a sequence of instructions.

## Findings

| source | as written | input that shows it | evidently intended | confidence | as-written member | corrected member |
|---|---|---|---|---|---|---|
| plugins/groovy/src/org/jetbrains/plugins/groovy/lang/psi/controlFlow/ControlFlowUtil.java:112 | `definitelyAssigned.add(j, vars)` and the same calls at lines 127 and 136 insert into the `ArrayList`, shifting every later entry one position up, so later instructions read another instruction's set | flow `0: write x -> [2, 1]`, `1: no access`, `2: read x`; ranks 0, 1, 2; the set for 2 is shifted to position 3 and the read at 2 is reported although `x` is written on every path to it | store the fresh set at its own position (`set(j, vars)`), so the entry of every other instruction stays where it is | not executed | Examples.AsWrittenReportsAssignedRead | Intended.IntendedReadsExact |
