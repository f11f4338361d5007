# RVlyzer register heat maps, modelled in Dafny

RVlyzer analyses RISC-V assembly programs. This project models its
register-heat analysis. It also models the part of the program
representation that the analysis depends on.

The **heat** of a register measures how recently it was written:
- a write sets it to a user-chosen maximum `maxHeat`;
- every instruction then cools every register by one, never below zero.

The analysis works as follows:
- `node_register_heat` computes the heat of one basic block of the control-flow graph (CFG).
- `mediate_heat` averages the outgoing vectors of several predecessors wherever paths merge.
- `register_heatmap` walks the simple paths of the graph without its loop-back nodes. A merge point waits until all its predecessors are known.
- `close_cycles` fills in the loop-back nodes afterwards.
- Finally, every node's fragment is merged into one map from line numbers to heat vectors, one level per register.

The modules follow the source. Python exceptions become `Failure` values of a `Result`.

| module | file | models |
|---|---|---|
| `Wrappers` | wrappers.dfy | `Option` and `Result` |
| `Registers` | registers.dfy | the `Register` enumeration and lookup of a register by name |
| `Immediates` | immediates.dfy | `Instruction.ImmediateConstant`: masking, the signed reading `int_val` and `__str__` |
| `Instructions` | instructions.dfy | `imm_sizes`, the statement kinds, and the argument cleaning of `Instruction.__init__` |
| `Lines` | lines.dfy | `ASMLine` and `to_line_iterator` |
| `Opcodes` | opcodes.dfy | the `opcodes` classification table |
| `Heat` | heat.dfy | `node_register_heat` |
| `Mediation` | mediation.dfy | `mediate_heat` |
| `Engine` | engine.dfy | the path-walking loop of `register_heatmap` |
| `Cycles` | cycles.dfy | `close_cycles` |
| `Heatmaps` | heatmap.dfy | `register_heatmap` end to end |
| `Coverage` | coverage.dfy | which nodes `register_heatmap` reaches |
| `Order` | order.dfy | why the order of the paths does not change the result |

The coverage results assume a well-formed graph (`Coverage.WellFormed`):
- the simple paths climb in some ranking of the nodes, as they do in an acyclic view;
- every merge point on a path has two different predecessors;
- every predecessor of a merge point on a path steps into it along some simple path;
- the loop-back nodes are off every path and listed once each.

Under these conditions every node of every simple path is resolved, and no
stump stays parked. Without the third condition the source can silently leave
a merge point unresolved: a predecessor that no simple path from node 1
passes never gets a heat vector, so the merge point waits for ever and its
lines are missing from the result. `Coverage.UnfedMergeStaysParked` shows this
on a four-node graph.

The order in which the simple paths are listed also decides which predecessor
of a merge point is resolved first, and which node enters the scratch map
first. On a well-formed graph it changes nothing, provided one more condition
holds (`Order.FirstFed`): a path node other than 0 that is not a merge point is
entered from its first predecessor along some path, or from 0. This holds in a
graph, where such a node has a single predecessor in the view. Every resolved
node satisfies its dataflow equation, and each equation reads only node 0 and
nodes ranked lower, so the equations have one solution. Two successful runs
over the same paths, in any order, therefore end with the same scratch map,
before and after the cycle closing. The final heat map is the same as well
when no two nodes have a snapshot at the same line.

## Model

| member | source | states |
|---|---|---|
| Registers.Ordinal | rvlyzer/rep/base.py:9-43 | A register's value is below 32 and is its position in the declaration order `ZERO`, `RA`, …, `T6`, so it always indexes a heat vector |
| Registers.OrdinalInjective | rvlyzer/rep/base.py:9-43 | Two registers have the same value exactly when they are the same register |
| Registers.FromName | rvlyzer/rep/base.py:189-191 | `Register[s]`: a register that is found has exactly the name `s`; no register is found (`KeyError`) exactly when no register has that name |
| Registers.FromNameOfName | rvlyzer/rep/base.py:189-191 | Looking up a register by its own name always finds that register |
| Registers.ResolveName | rvlyzer/rep/base.py:189-191 | `Register[s.upper()]`: a register that is found has the upper-cased argument as its name; nothing is found (`KeyError`) exactly when no register has that name |
| Registers.ResolveNameAnyCase | rvlyzer/rep/base.py:189-191 | A register name written in any mix of upper and lower case resolves to that register after `upper()` |
| Immediates.MaskKeepsLowBits | rvlyzer/rep/base.py:119-124 | The mask built as the sum of `2**f` for `f < size`, ANDed with the value, leaves the value modulo `2**size`. This holds for negative values too, following Python's two's-complement `&` |
| Immediates.NewImmediate | rvlyzer/rep/base.py:101-130 | `ValueError` exactly when neither a symbol nor a value is given. Otherwise the constant keeps its size and symbol, and holds bits exactly when a value was given; those bits are the value modulo `2**size` |
| Immediates.IntVal | rvlyzer/rep/base.py:140-143 | `int_val` lies in the signed range `[-2**(size-1), 2**(size-1))` of the field and agrees with the stored bits modulo `2**size` |
| Immediates.SignedRoundTrip | rvlyzer/rep/base.py:117-143 | A value inside the field's signed range comes back unchanged from `int_val` after construction |
| Immediates.RebuildFromIntVal | rvlyzer/rep/base.py:117-143 | Building a constant from the `int_val` of a constant with a value gives back the same constant |
| Immediates.ImmediateToString | rvlyzer/rep/base.py:153-154 | `str` of a symbolic constant is its symbol. Otherwise it is a canonical decimal numeral that reads back as `int_val`: no leading zero except in `0`, and a minus sign only before a non-zero magnitude |
| Immediates.CanonicalIsPrinted | rvlyzer/rep/base.py:153-154 | A canonical numeral is exactly what `str` prints for the integer it denotes, so each integer has one |
| Instructions.CleanRegister | rvlyzer/rep/base.py:182-191 | An absent argument or `unused` becomes no register, and a `Register` is kept. A name resolves exactly when some register's name equals the upper-cased name; otherwise `KeyError` |
| Instructions.BuildImmediate | rvlyzer/rep/base.py:193-206 | Formats outside `imm_sizes` get no immediate. An integer literal becomes a valid constant of the format's size holding the literal modulo `2**size`. A symbol becomes a symbolic constant of that size, and a ready constant is kept as given |
| Instructions.NewInstruction | rvlyzer/rep/base.py:163-206 | `ValueError` exactly when some register argument is `reg_err`. Otherwise it succeeds exactly when every register argument cleans, and the instruction carries the opcode, format, labels, cleaned registers and built immediate |
| Lines.NumberLines | rvlyzer/rep/base.py:254-269 | One line per statement, in order: the line at position `i` carries statement `i` and the number `start + i` |
| Lines.NumberLinesAppend | rvlyzer/rep/base.py:254-269 | Numbering two runs of statements one after the other is numbering the second run from where the first stopped |
| Lines.NumberLinesDistinct | rvlyzer/rep/base.py:254-269 | No two numbered lines share a number |
| Opcodes.WritesDestination | rvlyzer/rep/base.py:276-297 | Loads, register-immediate and register-register arithmetic, multiplication and division, the atomics and the register-setting forms (`lui`, `auipc`, `jal`, `jalr`, `li`, `mv`, `sext.w`) write their destination; stores, branches, `j`, `jr`, `call` and `nop` are read-only; every other opcode is missing from the table (`KeyError`) |
| Heat.Decay | rvlyzer/analysis/heatmaps.py:45-48 | Every positive level drops by one and every other level stays, so no level falls below zero |
| Heat.Step | rvlyzer/analysis/heatmaps.py:45-54 | One instruction raises exactly when its opcode is unknown, or when it writes and has no usable destination. Otherwise every register cools by one, not below zero, except the destination of a writing opcode, which is set to `max_heat` |
| Heat.StepBounded | rvlyzer/analysis/heatmaps.py:45-52 | A step keeps every level within `[0, max_heat]` |
| Heat.RefreshThenDecay | rvlyzer/analysis/heatmaps.py:45-52 | A register refreshed to `max_heat` reads `max_heat - k` after `k` further cooling steps, and 0 once `k` reaches `max_heat` |
| Heat.DecayInPlace | rvlyzer/analysis/heatmaps.py:45-48 | The in-place cooling loop gives the pointwise cooled vector |
| Heat.StepInPlace | rvlyzer/analysis/heatmaps.py:45-52 | The in-place body of the per-line loop computes the same vector as one step |
| Heat.NodeRegisterHeat | rvlyzer/analysis/heatmaps.py:36-38 | An external node gives no snapshots and an outgoing vector of 32 zeros, whatever the incoming vector |
| Heat.FoldShape | rvlyzer/analysis/heatmaps.py:42-56 | The fold over a block's numbered lines keeps the width of the incoming vector in every snapshot and in the outgoing vector, and keeps levels within `[0, max_heat]` when the incoming vector's are |
| Heat.FoldFailure | rvlyzer/analysis/heatmaps.py:44-54 | The fold raises exactly when some instruction line has an unknown opcode or writes without a usable destination |
| Heat.FoldFailureSticks | rvlyzer/analysis/heatmaps.py:44-54 | Once the lines up to some point raise, the whole fold raises that same exception: the loop stops at the first one |
| Heat.FoldKeys | rvlyzer/analysis/heatmaps.py:44-54 | Snapshots are taken at exactly the numbers of the instruction lines |
| Heat.FoldSnapshot | rvlyzer/analysis/heatmaps.py:44-54 | With distinct line numbers, the snapshot at an instruction line is that instruction's step from the outgoing vector of the lines before it |
| Heat.NodeHeatShape | rvlyzer/analysis/heatmaps.py:36-56 | The snapshots and the outgoing vector have 32 levels for an external node, and the width of the initial vector for a block. Their levels stay within `[0, max_heat]` when the initial vector's do |
| Heat.NodeHeatFailure | rvlyzer/analysis/heatmaps.py:44-54 | A block raises exactly when one of its instructions has an opcode outside the table, or writes without a destination inside the vector |
| Heat.NodeHeatLines | rvlyzer/analysis/heatmaps.py:44-54 | The snapshot lines are exactly `begin + i` for the positions `i` of the block's instructions; directives keep their numbers but get no snapshot |
| Heat.NodeHeatSnapshot | rvlyzer/analysis/heatmaps.py:44-54 | The snapshot at an instruction's line is that instruction's step from the outgoing vector of the statements before it |
| Heat.NodeHeatFinal | rvlyzer/analysis/heatmaps.py:42-56 | The outgoing vector is the snapshot of the block's last instruction |
| Heat.NodeHeatNoInstructions | rvlyzer/analysis/heatmaps.py:42-56 | A block without instructions has no snapshots and passes its initial vector on unchanged |
| Heat.ComputeNodeHeat | rvlyzer/analysis/heatmaps.py:22-56 | The nested loops of `node_register_heat` compute exactly the heat of the node |
| Heat.ThreeInstructionExample | rvlyzer/analysis/heatmaps.py:42-56 | Writing `RA` and then `SP` and then reading `RA` with `max_heat` 4 ends with `RA` at 2 and `SP` at 3; after the second line they read 3 and 4 |
| Mediation.Mediate | rvlyzer/analysis/heatmaps.py:59-78 | The mean has one entry per position of the first vector; its entries are characterised by `Mediation.MediateFloor` and `Mediation.MediateWithin` |
| Mediation.MediateWithin | rvlyzer/analysis/heatmaps.py:67-78 | Each entry of the mean lies between the smallest and largest entries of the vectors at that position |
| Mediation.MediateBounded | rvlyzer/analysis/heatmaps.py:59-78 | The mean of vectors whose levels are within `[0, max_heat]` is within `[0, max_heat]` |
| Mediation.MediateFloor | rvlyzer/analysis/heatmaps.py:72-76 | For non-negative levels each entry is the floor of the column sum divided by the number of vectors |
| Mediation.MediateCopies | rvlyzer/analysis/heatmaps.py:59-78 | The mean of copies of one vector is that vector |
| Mediation.TruncDivBetween | rvlyzer/analysis/heatmaps.py:76 | `int(a / n)` of a sum of `n` values between `lo` and `hi` lies between `lo` and `hi` |
| Mediation.MediateExamples | rvlyzer/analysis/heatmaps.py:76 | The quotient is truncated: `[[4,0],[0,4]]` gives `[2,2]` and `[[1,2],[2,1]]` gives `[1,1]` |
| Mediation.MediateHeat | rvlyzer/analysis/heatmaps.py:59-78 | The nested loops of `mediate_heat` compute the mean vector |
| Engine.Compute | rvlyzer/analysis/heatmaps.py:154-157 | A node's entry exists only for a node of the graph, is that node's heat from the given vector, and has the expected shape |
| Engine.Assign | rvlyzer/analysis/heatmaps.py:154-167 | `node_heatmaps[n] = …`: the key maps to the new entry and every other entry stays. A new key goes last in insertion order, an existing key keeps its place, and each key is listed once |
| Engine.Delete | rvlyzer/analysis/heatmaps.py:171 | `del node_heatmaps[0]` removes the key and keeps every other entry. The insertion order is the old order without that key, listing each key once |
| Engine.WithoutKeepsOrder | rvlyzer/analysis/heatmaps.py:171 | Removing a key keeps the relative order of every other pair of keys, which the final merge depends on |
| Engine.MergeArrival | rvlyzer/analysis/heatmaps.py:142-162 | A visit to an unresolved merge point that succeeds keeps each key listed once and every vector at 32 levels within `[0, max_heat]`; its three branches are stated by `Engine.MergeProtocol` |
| Engine.PlainArrival | rvlyzer/analysis/heatmaps.py:163-167 | A visit to an unresolved node off the merge points that succeeds always continues the path, and keeps the layout and the shape of every vector |
| Engine.Visit | rvlyzer/analysis/heatmaps.py:142-167 | One visit that succeeds keeps each key listed once and every vector at 32 levels within `[0, max_heat]` |
| Engine.Walk | rvlyzer/analysis/heatmaps.py:138-167 | Walking one path from a position keeps the layout and the shape of every vector; what it resolves is stated by `Engine.WalkPreserves` and `Coverage.WalkCovers` |
| Engine.MergeProtocol | rvlyzer/analysis/heatmaps.py:142-162 | At an unresolved merge point, the first arrival parks the path's stump and stops. A later arrival parks its stump after the others while a predecessor is unresolved. The path continues exactly when stumps were waiting and every predecessor is resolved; then the node is computed from the mean of the predecessors' outgoing vectors, its stumps are pushed back and its waiting entry is removed |
| Engine.PlainProtocol | rvlyzer/analysis/heatmaps.py:163-167 | An unresolved node off the merge points is computed from its first predecessor's outgoing vector, and the path continues. It fails when the node has no predecessor or its first predecessor is unresolved |
| Engine.VisitPreserves | rvlyzer/analysis/heatmaps.py:141-167 | Processing one unresolved node keeps the worklist invariant and never changes a resolved entry. Under the invariant each resolved node satisfies its dataflow equation, and each parked stump starts at its unresolved merge point. The visit leaves the stack alone unless it resolves a node |
| Engine.WalkPreserves | rvlyzer/analysis/heatmaps.py:141-167 | Walking a path keeps the invariant and never changes a resolved entry. It never adds unresolved nodes, and it leaves the stack alone unless it resolves one |
| Engine.Start | rvlyzer/analysis/heatmaps.py:129-135 | The loop starts with every simple path on the stack and only node 0 resolved, to the cold seed, and the invariant holds |
| Engine.RoundProgress | rvlyzer/analysis/heatmaps.py:137-167 | One round of the outer loop keeps the invariant and never changes an existing entry. It resolves a node, or else it shrinks the stack, so the loop terminates |
| Engine.ResolveFrom | rvlyzer/analysis/heatmaps.py:137-167 | When the first loop ends, the stack is empty. Every resolved node other than 0 has the heat its dataflow equation gives: the mean of all predecessors at a merge point, and the first predecessor elsewhere |
| Engine.ResolvePaths | rvlyzer/analysis/heatmaps.py:127-167 | The first loop of `register_heatmap` ends with an empty stack in a state satisfying the invariant |
| Cycles.FirstMapped | rvlyzer/analysis/heatmaps.py:99-103 | The first predecessor the scratch map holds; there is none exactly when it holds no predecessor |
| Cycles.CloseStep | rvlyzer/analysis/heatmaps.py:96-106 | A round that succeeds keeps each key listed once and every vector at 32 levels within `[0, max_heat]` |
| Cycles.Close | rvlyzer/analysis/heatmaps.py:95-106 | A closing that succeeds keeps the same layout and vector shape |
| Cycles.CloseFuelMonotone | rvlyzer/analysis/heatmaps.py:95-106 | A closing that succeeds with some fuel gives the same result with any larger fuel |
| Cycles.CloseProtocol | rvlyzer/analysis/heatmaps.py:96-106 | A round pops the head of the queue. A node with no held predecessor goes back to the end of the queue. Otherwise the node is computed from its first held predecessor's outgoing vector, without mediation, and leaves the queue |
| Cycles.CloseStepFrame | rvlyzer/analysis/heatmaps.py:96-106 | A round leaves the nodes held or pending unchanged, only drops or rotates the head, and keeps every other entry |
| Cycles.CloseDomain | rvlyzer/analysis/heatmaps.py:95-106 | On success the scratch map holds exactly its earlier nodes plus the loop-back nodes |
| Cycles.CloseKeepsOthers | rvlyzer/analysis/heatmaps.py:95-106 | On success an entry for a node that was never queued is unchanged |
| Cycles.CloseSeeds | rvlyzer/analysis/heatmaps.py:95-106 | On success every loop-back node holds the heat computed from the outgoing vector of one of its predecessors in the full graph, provided no loop-back node was already held or listed twice |
| Cycles.CloseStuck | rvlyzer/analysis/heatmaps.py:96-106 | When no pending node has a held predecessor, the queue only rotates and the loop never ends; the model reports this as failure for every fuel |
| Cycles.CloseCycles | rvlyzer/analysis/heatmaps.py:81-106 | The loop of `close_cycles` computes the closing, and on success it adds exactly the loop-back nodes to the scratch map |
| Heatmaps.Flatten | rvlyzer/analysis/heatmaps.py:175-176 | Every line of the last fragment in insertion order is in the merged map with that fragment's vector |
| Heatmaps.FlattenDomain | rvlyzer/analysis/heatmaps.py:175-176 | A line is in the merged map exactly when some node fragment has it |
| Heatmaps.FlattenLastWins | rvlyzer/analysis/heatmaps.py:175-176 | A line takes its vector from the last fragment, in insertion order, that has it |
| Heatmaps.FlattenScratch | rvlyzer/analysis/heatmaps.py:169-176 | The `dict.update` loop computes the in-order merge of the fragments |
| Heatmaps.Scratchpad | rvlyzer/analysis/heatmaps.py:127-173 | After both passes the scratch map lists each key once, and every vector has 32 levels within `[0, max_heat]` |
| Heatmaps.Heatmap | rvlyzer/analysis/heatmaps.py:169-178 | The heat map fails exactly when the scratch map after both passes fails, with the same error. Otherwise a line is in the map exactly when some node of the final scratch map has a snapshot at it, and every line maps to 32 levels, each within `[0, max_heat]` when `max_heat` is non-negative |
| Heatmaps.HeatmapFuelMonotone | rvlyzer/analysis/heatmaps.py:169-178 | A heat map computed with some fuel is the one computed with any larger fuel |
| Heatmaps.ScratchpadDomain | rvlyzer/analysis/heatmaps.py:169-173 | After both passes the scratch map holds the nodes the path walk resolved, minus node 0, plus every loop-back node |
| Heatmaps.NoLoopsNoFuel | rvlyzer/analysis/heatmaps.py:95-96 | Without loop-back nodes the closing pass changes nothing, and the result does not depend on the fuel |
| Heatmaps.RegisterHeatmap | rvlyzer/analysis/heatmaps.py:110-178 | `register_heatmap` runs the path walk, drops node 0, closes the cycles and merges the fragments. Every line of the result has 32 levels within `[0, max_heat]` |
| Coverage.StartCovers | rvlyzer/analysis/heatmaps.py:129-135 | The start state, with every simple path on the stack, holds every predecessor edge into a merge point on some path still to be walked |
| Coverage.WalkCovers | rvlyzer/analysis/heatmaps.py:138-167 | Walking a path keeps the coverage invariant: every unresolved path node lies ahead on a path still to be walked, every edge into an unresolved merge point that is still needed lies on one, and every parked merge point waits for an unresolved predecessor or for another path that reaches it |
| Coverage.ResolveCovers | rvlyzer/analysis/heatmaps.py:137-167 | Every round of the outer loop keeps the coverage invariant |
| Coverage.PathsResolved | rvlyzer/analysis/heatmaps.py:127-167 | On a well-formed graph a successful first loop leaves no stump parked, and its scratch map holds exactly node 0 and the nodes of the simple paths |
| Coverage.ScratchpadCovers | rvlyzer/analysis/heatmaps.py:127-173 | On a well-formed graph, after both passes the scratch map holds exactly the path nodes other than 0 and the loop-back nodes, and every loop-back node holds the heat computed from one of its predecessors in the full graph |
| Coverage.HeatmapCovers | rvlyzer/analysis/heatmaps.py:110-178 | On a well-formed graph a line is in the heat map exactly when a path node other than 0, or a loop-back node, has a snapshot at it: the map covers every reachable line |
| Order.AgreeAt | rvlyzer/analysis/heatmaps.py:142-167 | Two scratch maps over the same nodes that both satisfy the dataflow equations and agree on node 0 agree on every node, when each equation reads only 0 and lower-ranked nodes |
| Order.ResolveOrderFree | rvlyzer/analysis/heatmaps.py:129-167 | On a well-formed graph, two successful first loops over the same paths, listed in any order, end with the same scratch map |
| Order.CloseOrderFree | rvlyzer/analysis/heatmaps.py:95-106 | The cycle closing reads the entries of the scratch map and not their insertion order: equal entries and queues give the same outcome and the same entries |
| Order.ScratchpadOrderFree | rvlyzer/analysis/heatmaps.py:127-173 | On a well-formed graph, two successful runs over the same paths, in any order, have the same scratch map after the cycle closing |
| Order.FlattenOrderFree | rvlyzer/analysis/heatmaps.py:175-176 | When no two nodes have a snapshot at the same line, merging the fragments gives the same map in any insertion order |
| Order.HeatmapOrderFree | rvlyzer/analysis/heatmaps.py:110-178 | On a well-formed graph whose nodes never share a line, two successful runs over the same paths, in any order, give the same heat map |
| Coverage.UnfedMergeStaysParked | rvlyzer/analysis/heatmaps.py:141-162 | A merge point with a predecessor that no simple path passes is parked on its first arrival and never requeued: the run succeeds and the merge point stays unresolved |

## Left out

- The graph queries are inputs of the model, as the fields of `Engine.Cfg`, precomputed in the graph's own iteration order. These are `restricted_view`, `all_simple_paths`, `merge_points`, `loop_back_nodes`, and the predecessor lists of the view and of the full graph. The networkx library and `analysis/graphs.py` are not part of this model.
- Node bodies come from one map, used both for the view and for the full graph; `restricted_view` only hides nodes and does not change their data.
- A node is `External` or a `Block` with its starting line and statements. The `CodeFragment` class is not part of this model.
- `BitVector` is represented by the natural number its bits denote. `value` (a deep copy) and `__repr__` are left out because they add no behaviour.
- Immediates.NewImmediate: requires a size of at least 1 when a value is given. With size 0 the behaviour depends on the `BitVector` library, which is not part of this model. Every size used by `Instruction` is 12, 20 or 32.
- Registers.ResolveName: upper-casing is ASCII only. Python's `str.upper` is Unicode-aware, so a non-ASCII argument whose Unicode upper case is an ASCII register name (for example `"ſp"`, with U+017F, which upper-cases to `"SP"`) resolves in the source but is reported as an unknown register by the model.
- Immediates.IntVal: requires a constant that holds a value. On a symbol-only constant `int_val` raises `TypeError` when it indexes the missing bit vector; the model does not represent that error. Within this core, `__str__` reaches `int_val` only for constants without a symbol, which always hold a value.
- Mediation.Mediate: requires at least one vector and no vector shorter than the first. The engine reports an empty predecessor list as `EmptyMediation` instead of the source's `IndexError`. Every outgoing vector has 32 entries, so the length condition always holds there.
- Mediation.Mediate: `int(sum / n)` is modelled as exact division truncated toward zero. Python divides in floating point, which agrees with exact division for sums below 2**53.
- Cycles.CloseCycles: the source loops for ever when a loop-back node never gets a held predecessor. The model bounds the rounds by `fuel` and reports `CyclesNotClosed`; `Cycles.CloseStuck` shows that the stuck case fails for every fuel.
- A node missing from the graph makes networkx raise where the source first queries it. The model reports this as `MissingNode` at the same point. A missing predecessor list is reported before an unresolved predecessor, as in the source's statement order.
- Engine.ResolveFrom: coverage of the path nodes is proved only for well-formed graphs, by `Coverage.PathsResolved`; `Coverage.UnfedMergeStaysParked` shows that without the predecessor condition the source itself leaves a merge point unresolved.
- Engine.ResolvePaths: the same; what it resolves is stated by `Coverage.PathsResolved` under `Coverage.WellFormed`.
- Engine.ResolveFrom: independence from the order of the paths is proved only for well-formed graphs that meet `Order.FirstFed`, and only between two runs that both succeed. Whether one order can fail where another succeeds is not stated.
- Heatmaps.Heatmap: the same heat map for any order of the paths is proved only when no two nodes have a snapshot at the same line. If two blocks shared a line, the node inserted last would win, and that order depends on the paths.
- Heatmaps.RegisterHeatmap: that the map covers every reachable line is proved only for well-formed graphs, by `Coverage.HeatmapCovers`. Whether the graph queries of networkx produce a well-formed graph is not part of this model.
- Pretty-printing is left out: `__str__` and `__repr__` of instructions and directives, `familystr`, and the `opcd_family` table, which the analysis does not read.
