# Graph-colouring register allocator and x86-64 emitter

A Dafny model of the back end of a small teaching compiler. The compiler reads a
sea-of-nodes IR, allocates registers by graph colouring over the three registers
%rbx, %rcx and %rdx, and writes AT&T assembly.

- `ir.dfy` (module `Ir`): the IR as the back end sees it. A graph is a map from
  node ids to a node kind and an ordered list of predecessor ids. `WellFormed`
  says that predecessors are nodes of the graph and that binary operations,
  projections and returns have their operands. Reachability (`IsReach`) is the
  least predecessor-closed set containing the end block. Acyclicity is the
  existence of a rank that drops along every predecessor edge.
- `allocator.dfy` (module `GraphColoring`): `GraphColoringRegisterAllocator` as
  a class `Allocator` with the Java fields. Each phase is a method that updates
  those fields in place. `interferes` and `needsRegister` are functions.
  Register `VirtualRegister(i)` is the natural number `i`: 0, 1 and 2 are the
  physical registers and larger indices are spill slots.
- `codegen.dfy` (module `CodeGen`): `CodeGenerator`. The output is kept as a
  sequence of lines, and `Text` joins them with line feeds. What a call of
  `scan` does is described by the ghost functions `WalkNode`/`WalkPreds`. The
  imperative `Scan` is proved to do exactly what that walk describes.

Java hash-set iteration order is unknown, so every loop over a set picks its
next element with `:|`. Everything proved holds for every iteration order.

What the model proves:

- The allocator visits exactly the nodes reachable from the end block.
- Its interference graph has an edge exactly between distinct interfering
  values, and is symmetric.
- The move relation is symmetric.
- The MCS order pushes every value once, each with maximal weight.
- `coalesce` fails (the null dereference in the Java code) exactly when some
  reachable value has a move partner it does not interfere with, that is, when
  some reachable projection of a constant does not interfere with the
  constant. When it does not fail it changes nothing.
- `simplify` pushes each value at most once and prunes it everywhere. The values
  left all have degree at least three.
- `select` gives every value an entry. A constant gets the round-robin register.
  Any other node gets a register that none of its neighbours still listed after
  `simplify` holds (a node `simplify` removed has no neighbours listed), or the
  spill index, which equals the size of the map at that moment.
- All spill candidates end at the same index: the final size of the map.
- The emitter walks the graph in post-order, each node once on an acyclic graph,
  and visits exactly the reachable nodes.
- The emitter fails exactly on the first node it cannot emit. The output is the
  shim followed by the lines of each graph in program order, up to the first
  graph that fails, and the error is that graph's.
- The shim occurs once at the start of the output and is followed only by body
  lines.
- Each emitted line parses back to the instruction it was written from. Run on
  the registers, a constant's line loads its value, an addition's lines leave
  the 64-bit sum of its operands in its register and change only %rax besides,
  and a return's lines move its result into %rax and end in `ret`.

Behaviour of the code that is easy to misread; the model follows the code:

- The %rcx put in `select` looks at the node's own inputs, not its users. It
  fires only when a division or modulo input of the node has the node itself
  as its right operand, which takes a cycle; on an acyclic graph no node is
  ever put in %rcx. Where the put does fire, the constant, free-register or
  spill assignment that follows overwrites it, so the division constraint
  never reaches the final map.
- Spill indices are `3 + ((size - 3) * 8) / 8`, which is the map size, not
  fresh 8-byte offsets. Spill candidates are already in the map, so they all get
  the same index.
- `coalesce` can fail, and on the graphs `allocateRegisters` builds it never
  merges anything. Every move pair joins a constant key to a projection of it,
  and a projection needs no register, so it is never a key. The first pair
  that does not interfere therefore looks the projection up as a key, gets
  null and dereferences it. The model returns `None` for that case.
- The emitter has cases for `Add`, `ConstInt`, `Return`, `Block`, `Proj` and
  `Start` only, so `Sub`, `Mul`, `Div`, `Mod` and `Phi` fail. A register index
  above 2 has no name, so a spilled operand fails too. No stack-slot operand
  and no prologue is ever emitted.

## Model

| member | source | states |
|---|---|---|
| GraphColoring.Allocator.constructor | src/main/java/edu/kit/kastel/vads/compiler/backend/aasm/GraphColoringRegisterAllocator.java:13-18 | a new allocator has an empty interference graph, register map, stack, spill set and move relation, and the constant counter at 0 |
| GraphColoring.Allocator.AllocateRegisters | src/main/java/edu/kit/kastel/vads/compiler/backend/aasm/GraphColoringRegisterAllocator.java:21-29 | fails exactly when some reachable value has a move partner it does not interfere with, that is, when some reachable projection of a constant does not interfere with the constant; otherwise the map's keys are exactly the reachable values, every spill candidate has an entry equal to the map's size, and every constant that is not a spill candidate holds a physical register |
| GraphColoring.Allocator.SimplifyAndSelect | src/main/java/edu/kit/kastel/vads/compiler/backend/aasm/GraphColoringRegisterAllocator.java:26-27 | after MCS, simplify then select: every key of the interference graph gets an entry, every spill candidate holds the final map size, and every constant that is not a spill candidate holds a physical register |
| GraphColoring.Allocator.BuildGraphs | src/main/java/edu/kit/kastel/vads/compiler/backend/aasm/GraphColoringRegisterAllocator.java:22-23 | both walks find the same reachable set; the interference graph is keyed by its values and the move relation is the one of that set |
| GraphColoring.Allocator.BuildMoveRelated | src/main/java/edu/kit/kastel/vads/compiler/backend/aasm/GraphColoringRegisterAllocator.java:31-35 | the walk from the end block covers exactly the reachable set; two nodes are move-related iff one of them is a reachable projection of the other, which is a constant |
| GraphColoring.Allocator.ScanForMoves | src/main/java/edu/kit/kastel/vads/compiler/backend/aasm/GraphColoringRegisterAllocator.java:37-54 | marks the node, leaves every newly visited node with its predecessors visited, and visits nothing outside any predecessor-closed set containing the node; adds exactly the move pairs of the newly visited nodes |
| GraphColoring.Allocator.RecordMove | src/main/java/edu/kit/kastel/vads/compiler/backend/aasm/GraphColoringRegisterAllocator.java:43-49 | a projection whose input is a constant is recorded as related to it in both directions; nothing else is added |
| GraphColoring.MoveRelationShape | src/main/java/edu/kit/kastel/vads/compiler/backend/aasm/GraphColoringRegisterAllocator.java:46-47 | the recorded move relation is symmetric and pairs a projection with its constant input |
| GraphColoring.Allocator.MaximumCardinalitySearch | src/main/java/edu/kit/kastel/vads/compiler/backend/aasm/GraphColoringRegisterAllocator.java:56-84 | pushes every key exactly once, and each pushed key had maximal weight (number of already-pushed neighbours) among the keys not yet pushed |
| GraphColoring.Allocator.MaxWeightNode | src/main/java/edu/kit/kastel/vads/compiler/backend/aasm/GraphColoringRegisterAllocator.java:63-71 | returns an unprocessed node whose weight no other unprocessed node exceeds |
| GraphColoring.Allocator.AddWeights | src/main/java/edu/kit/kastel/vads/compiler/backend/aasm/GraphColoringRegisterAllocator.java:77-82 | every neighbour that is still unprocessed gains exactly 1 and every other weight is unchanged |
| GraphColoring.Allocator.Coalesce | src/main/java/edu/kit/kastel/vads/compiler/backend/aasm/GraphColoringRegisterAllocator.java:86-103 | succeeds iff no key has a move partner it does not interfere with, and then leaves the graph unchanged; a failure is the null lookup of a partner that is not a key |
| GraphColoring.MovePartnerNotKey | src/main/java/edu/kit/kastel/vads/compiler/backend/aasm/GraphColoringRegisterAllocator.java:91-96 | on the graphs built from the reachable set, every move partner of a key is a reachable projection of it and is not itself a key, so `interferenceGraph.get(relatedNode)` yields null before any merge |
| GraphColoring.CoalesceSucceedsByMoves | src/main/java/edu/kit/kastel/vads/compiler/backend/aasm/GraphColoringRegisterAllocator.java:91-94 | on a predecessor-closed set, coalesce succeeds iff every projection of a constant in the set interferes with that constant |
| GraphColoring.CoalesceIff | src/main/java/edu/kit/kastel/vads/compiler/backend/aasm/GraphColoringRegisterAllocator.java:91-94 | on the graphs built from the reachable set, nothing is coalescable exactly when every reachable value interferes with each of its move partners |
| GraphColoring.Allocator.BuildInterferenceGraph | src/main/java/edu/kit/kastel/vads/compiler/backend/aasm/GraphColoringRegisterAllocator.java:105-119 | the keys are exactly the reachable values; b is a neighbour of a iff both are keys, a != b and the two interfere; edges stay among the keys |
| GraphColoring.Allocator.AddEdgesOf | src/main/java/edu/kit/kastel/vads/compiler/backend/aasm/GraphColoringRegisterAllocator.java:112-117 | after the inner loop for `node`, every pair (node, other) of distinct interfering keys is an edge in both directions |
| GraphColoring.EdgeStep | src/main/java/edu/kit/kastel/vads/compiler/backend/aasm/GraphColoringRegisterAllocator.java:113-116 | adding the pair (node, other) in both directions extends the set of processed pairs by that pair |
| GraphColoring.InterferenceGraphSymmetric | src/main/java/edu/kit/kastel/vads/compiler/backend/aasm/GraphColoringRegisterAllocator.java:111-118 | the built graph is undirected and loop-free: b in ig[a] implies a in ig[b] and a != b |
| GraphColoring.Allocator.Scan | src/main/java/edu/kit/kastel/vads/compiler/backend/aasm/GraphColoringRegisterAllocator.java:121-135 | marks the node and walks the predecessors not yet visited; each newly visited value, and nothing else, gets an empty edge set; the new nodes are closed under predecessors and lie in every closed set containing the node |
| GraphColoring.Allocator.ScanPreds | src/main/java/edu/kit/kastel/vads/compiler/backend/aasm/GraphColoringRegisterAllocator.java:131-134 | after the loop every predecessor of the node is visited and the edge sets added are those of the newly visited values |
| GraphColoring.Interferes | src/main/java/edu/kit/kastel/vads/compiler/backend/aasm/GraphColoringRegisterAllocator.java:137-166 | a division or modulo interferes with its divisor in either argument order; any other interference needs an input shared both ways; a non-constant value with inputs interferes with itself, which is why the builder skips node == other |
| Ir.NeedsRegister | src/main/java/edu/kit/kastel/vads/compiler/backend/aasm/GraphColoringRegisterAllocator.java:245-250 | exactly the constants, the arithmetic nodes and the phis need a register; projections, the start node, blocks and returns do not |
| GraphColoring.InterferesSymmetric | src/main/java/edu/kit/kastel/vads/compiler/backend/aasm/GraphColoringRegisterAllocator.java:137-166 | interference does not depend on the order of its arguments |
| GraphColoring.DivisorEdge | src/main/java/edu/kit/kastel/vads/compiler/backend/aasm/GraphColoringRegisterAllocator.java:140-153 | in the built graph every division or modulo value is joined to its divisor value in both directions |
| GraphColoring.Allocator.Simplify | src/main/java/edu/kit/kastel/vads/compiler/backend/aasm/GraphColoringRegisterAllocator.java:168-187 | pushes each removed key once, deletes the removed keys from every edge set, leaves only keys of degree at least 3, and adds those keys to the spill candidates |
| GraphColoring.Allocator.SimplifyPass | src/main/java/edu/kit/kastel/vads/compiler/backend/aasm/GraphColoringRegisterAllocator.java:170-183 | one pass pushes the keys it removes once each and prunes them everywhere; it reports a change iff a key went, iff it pushed something, and with no change every key has degree at least 3 |
| GraphColoring.Allocator.PushAndRemove | src/main/java/edu/kit/kastel/vads/compiler/backend/aasm/GraphColoringRegisterAllocator.java:173-179 | pushes the node, drops its key and deletes it from every other edge set |
| GraphColoring.Allocator.RemoveFromEdgeSets | src/main/java/edu/kit/kastel/vads/compiler/backend/aasm/GraphColoringRegisterAllocator.java:177-179 | every edge set loses the node; the keys are unchanged |
| GraphColoring.Allocator.Select | src/main/java/edu/kit/kastel/vads/compiler/backend/aasm/GraphColoringRegisterAllocator.java:189-243 | empties the stack; the stacked nodes and spill candidates gain entries; the counter grows by the number of stacked constants; when every spill candidate was already mapped, all of them hold the final map size; non-spilled constants keep physical registers |
| GraphColoring.Allocator.SelectFromStack | src/main/java/edu/kit/kastel/vads/compiler/backend/aasm/GraphColoringRegisterAllocator.java:190-236 | every popped node gains an entry, nodes never stacked keep theirs, and the counter grows by the number of stacked constants |
| GraphColoring.Allocator.SelectNode | src/main/java/edu/kit/kastel/vads/compiler/backend/aasm/GraphColoringRegisterAllocator.java:191-235 | a constant gets counter mod 3; any other node gets a physical register that none of its neighbours still listed after simplify holds when one is free, otherwise the size of the map before the final put (at least 3); the %rcx entry never survives |
| GraphColoring.Allocator.FreeRegisters | src/main/java/edu/kit/kastel/vads/compiler/backend/aasm/GraphColoringRegisterAllocator.java:192-204 | r is available iff 0 <= r < 3 and no listed neighbour with an entry holds r |
| GraphColoring.DivisorOfInputNeedsCycle | src/main/java/edu/kit/kastel/vads/compiler/backend/aasm/GraphColoringRegisterAllocator.java:207-213 | on an acyclic (ranked) graph no node is the divisor of one of its own inputs, so the %rcx put never fires |
| GraphColoring.Allocator.PutDivisorInRcx | src/main/java/edu/kit/kastel/vads/compiler/backend/aasm/GraphColoringRegisterAllocator.java:207-218 | the node is put at register 1 iff it is the divisor of one of its inputs; otherwise the map is unchanged |
| GraphColoring.OverwriteRcx | src/main/java/edu/kit/kastel/vads/compiler/backend/aasm/GraphColoringRegisterAllocator.java:213-234 | whether or not %rcx was put, the final put leaves the node at its final value, adds only that key, and changes no other entry |
| GraphColoring.SpillAfterRcx | src/main/java/edu/kit/kastel/vads/compiler/backend/aasm/GraphColoringRegisterAllocator.java:233-234 | the spill index is the map size before the put: the final size if the node already had an entry (or got %rcx), one less otherwise |
| GraphColoring.NoFreeRegisterMeansThreeEntries | src/main/java/edu/kit/kastel/vads/compiler/backend/aasm/GraphColoringRegisterAllocator.java:228-234 | when no register is free the map already has at least 3 entries, so the spill index is never a physical register |
| GraphColoring.HeldByCard | src/main/java/edu/kit/kastel/vads/compiler/backend/aasm/GraphColoringRegisterAllocator.java:199-204 | the neighbours hold at most as many distinct registers as there are neighbours with entries |
| GraphColoring.SpillIndexIsSize | src/main/java/edu/kit/kastel/vads/compiler/backend/aasm/GraphColoringRegisterAllocator.java:233-234 | with Java's truncating division, 3 + ((n - 3) * 8) / 8 equals n for every size n, including n < 3 |
| GraphColoring.JavaDiv | src/main/java/edu/kit/kastel/vads/compiler/backend/aasm/GraphColoringRegisterAllocator.java:233-234 | Java's int division truncates toward zero: for a >= 0 the quotient is non-negative with q*b <= a < q*b + b, for a < 0 it is non-positive with q*b - b < a <= q*b |
| GraphColoring.Allocator.SelectSpillCandidates | src/main/java/edu/kit/kastel/vads/compiler/backend/aasm/GraphColoringRegisterAllocator.java:238-242 | every candidate gains an entry no lower than the initial size; other entries are unchanged; when all candidates were already mapped the map does not grow and all of them hold its size |
| GraphColoring.Allocator.PutAtSpillIndex | src/main/java/edu/kit/kastel/vads/compiler/backend/aasm/GraphColoringRegisterAllocator.java:240-241 | the node is put at the current size of the map |
| CodeGen.GenerateCode | src/main/java/edu/kit/kastel/vads/compiler/backend/aasm/CodeGenerator.java:28-47 | the lines are the shim followed by the body of each graph in program order (`Program`), up to the first graph whose walk fails; the result fails iff some graph fails, with the first failing graph's error; on success the text is the joined lines and starts with the shim's text |
| CodeGen.Program | src/main/java/edu/kit/kastel/vads/compiler/backend/aasm/CodeGenerator.java:40-44 | the graphs' bodies in order up to and including the first failing graph, and that graph's error |
| CodeGen.ProgramStops | src/main/java/edu/kit/kastel/vads/compiler/backend/aasm/CodeGenerator.java:40-44 | once a prefix of the program has failed, the graphs after it change neither the lines nor the error |
| CodeGen.ProgramSnoc | src/main/java/edu/kit/kastel/vads/compiler/backend/aasm/CodeGenerator.java:40-44 | after a prefix that did not fail, one more graph appends its body and its failure becomes the program's |
| CodeGen.EmitStep | src/main/java/edu/kit/kastel/vads/compiler/backend/aasm/CodeGenerator.java:40-44 | each pass of the loop keeps the builder equal to the shim followed by the bodies emitted so far, and only body lines |
| CodeGen.EmitUnit | src/main/java/edu/kit/kastel/vads/compiler/backend/aasm/CodeGenerator.java:43 | one call of generateForGraph appends exactly the graph's body and reports exactly its failure |
| CodeGen.GraphStep | src/main/java/edu/kit/kastel/vads/compiler/backend/aasm/CodeGenerator.java:49-52 | what generateForGraph appends and reports is the body and failure of the walk from the graph's end block |
| CodeGen.ShimmedOnce | src/main/java/edu/kit/kastel/vads/compiler/backend/aasm/CodeGenerator.java:29-44 | no line after the shim is a shim line, so the shim appears once however many graphs follow |
| CodeGen.HeaderIsNotBody | src/main/java/edu/kit/kastel/vads/compiler/backend/aasm/CodeGenerator.java:30-38 | no line of the shim has the shape of a body line |
| CodeGen.ShimmedText | src/main/java/edu/kit/kastel/vads/compiler/backend/aasm/CodeGenerator.java:29-46 | the text of shimmed output begins with the text of the shim |
| CodeGen.GenerateForGraph | src/main/java/edu/kit/kastel/vads/compiler/backend/aasm/CodeGenerator.java:49-52 | its trace is the trace of the walk `WalkNode` describes from the end block with nothing visited, and it fails iff that walk fails; emits the lines of every walked node but a failing last one; fails iff the last node fails, with its error; on success the walk ends at the end block and covers exactly the reachable nodes; on an acyclic graph each node once, inputs first; only body lines are added |
| CodeGen.GraphWalk | src/main/java/edu/kit/kastel/vads/compiler/backend/aasm/CodeGenerator.java:49-85 | in the walk from the end block every node but the last emits; the walk fails iff the last node's lines fail; everything emitted is body lines |
| CodeGen.WalkShape | src/main/java/edu/kit/kastel/vads/compiler/backend/aasm/CodeGenerator.java:54-60 | a successful walk from an empty visited set ends at its start and produces exactly the reachable nodes; on an acyclic graph it is duplicate-free and in post-order |
| CodeGen.WalkReach | src/main/java/edu/kit/kastel/vads/compiler/backend/aasm/CodeGenerator.java:54-60 | a successful walk produces exactly the least predecessor-closed set containing the end block |
| CodeGen.WalkAcyclic | src/main/java/edu/kit/kastel/vads/compiler/backend/aasm/CodeGenerator.java:54-60 | on an acyclic graph the walk produces no node twice and every input before its user |
| CodeGen.WalkNodeFresh | src/main/java/edu/kit/kastel/vads/compiler/backend/aasm/CodeGenerator.java:55-58 | a walk never produces a node twice or one already visited (other than itself), and marks exactly what it produced |
| CodeGen.WalkNodeCloses | src/main/java/edu/kit/kastel/vads/compiler/backend/aasm/CodeGenerator.java:55-59 | after a successful walk every input of the node, and of every node it marked, is visited |
| CodeGen.WalkNode | src/main/java/edu/kit/kastel/vads/compiler/backend/aasm/CodeGenerator.java:54-85 | the walk of a node only adds to the visited set and stays in the graph; it is never empty; no node before a failing last one is unemittable and a failure ends at an unemittable node; a successful walk ends at the node itself |
| CodeGen.WalkPreds | src/main/java/edu/kit/kastel/vads/compiler/backend/aasm/CodeGenerator.java:55-59 | walking the inputs from index i only adds to the visited set, stays in the graph, and fails only at an unemittable last node |
| CodeGen.Scan | src/main/java/edu/kit/kastel/vads/compiler/backend/aasm/CodeGenerator.java:54-85 | the visited set, the output and the failure are exactly those of the walk `WalkNode` describes; the error is the error of the node that failed |
| CodeGen.ScanInputs | src/main/java/edu/kit/kastel/vads/compiler/backend/aasm/CodeGenerator.java:55-59 | the loop over the inputs does what `WalkPreds` describes: the walks of the unvisited inputs in order, stopping at the first failure |
| CodeGen.ScanInput | src/main/java/edu/kit/kastel/vads/compiler/backend/aasm/CodeGenerator.java:56-58 | one input is walked iff adding it to the visited set succeeds; the loop state either moves to the next input or is final with the failure |
| CodeGen.ScanEnd | src/main/java/edu/kit/kastel/vads/compiler/backend/aasm/CodeGenerator.java:61-84 | after the inputs the node's own lines come last; the node fails iff its lines fail |
| CodeGen.NodeLines | src/main/java/edu/kit/kastel/vads/compiler/backend/aasm/CodeGenerator.java:61-84 | fails iff the kind has no case or an operand's register has no name, with the matching error |
| CodeGen.NodeLinesAreBody | src/main/java/edu/kit/kastel/vads/compiler/backend/aasm/CodeGenerator.java:62-78 | every emitted line of a node has the shape of a body line |
| CodeGen.ParseRender | src/main/java/edu/kit/kastel/vads/compiler/backend/aasm/CodeGenerator.java:66-77 | every instruction line the emitter writes (movq or addq with a register or immediate source and a register destination, or ret) parses back to the same mnemonic and operands |
| CodeGen.DecodeRenderAll | src/main/java/edu/kit/kastel/vads/compiler/backend/aasm/CodeGenerator.java:61-84 | a sequence of rendered instructions decodes back to that sequence |
| CodeGen.ConstNodeMeaning | src/main/java/edu/kit/kastel/vads/compiler/backend/aasm/CodeGenerator.java:70-73 | a constant's line decodes to one instruction that loads the constant's value into its register and changes no other register |
| CodeGen.AddNodeMeaning | src/main/java/edu/kit/kastel/vads/compiler/backend/aasm/CodeGenerator.java:62-69 | an addition's lines decode to three instructions that leave the 64-bit sum of the left and right operands' registers in its own register and change no register but it and %rax |
| CodeGen.ReturnNodeMeaning | src/main/java/edu/kit/kastel/vads/compiler/backend/aasm/CodeGenerator.java:74-78 | a return's lines decode to two instructions that move its result's register into %rax, change nothing else, and end in ret |
| CodeGen.Wrap64Range | src/main/java/edu/kit/kastel/vads/compiler/backend/aasm/CodeGenerator.java:67 | addq keeps the value modulo 2^64 in the signed 64-bit range and leaves in-range sums unchanged |
| CodeGen.RegisterOf | src/main/java/edu/kit/kastel/vads/compiler/backend/aasm/CodeGenerator.java:63-75 | a node has a register name iff it has an entry below 3 |
| CodeGen.DecimalRoundTrip | src/main/java/edu/kit/kastel/vads/compiler/backend/aasm/CodeGenerator.java:72 | the constant written into a `movq $` line reads back to the same value |
| CodeGen.Decimal | src/main/java/edu/kit/kastel/vads/compiler/backend/aasm/CodeGenerator.java:72 | the rendering of an int is non-empty, starts with a minus sign exactly when the value is negative, and is digits after that |
| CodeGen.RegisterName | src/main/java/edu/kit/kastel/vads/compiler/backend/aasm/CodeGenerator.java:87-95 | an index has a name iff it is below 3, and the name is %rbx, %rcx or %rdx |
| CodeGen.RegisterNameInjective | src/main/java/edu/kit/kastel/vads/compiler/backend/aasm/CodeGenerator.java:89-93 | distinct physical registers get distinct names |

## Left out

- The IR classes, `IrGraph` and `NodeSupport.predecessorSkipProj` are not part of this model. Nodes are ids with a kind and a predecessor list. Node identity (`==` on nodes) is id equality. `Ir.PredSkipProj` looks through one projection, as the name of `predecessorSkipProj` says.
- `AasmRegisterAllocator` is not part of this model. `generateCode` takes each graph's register map as part of its input (`CodeGen.Unit`).
- `VirtualRegister` and `Register` are not part of this model. A register is its index, and its `toString` is taken to be `%` followed by the index.
- Java exceptions are collapsed into result values. The null dereference in `coalesce` is `None`. `UnsupportedOperationException` is `UnsupportedNode(kind)`. The `IllegalArgumentException` from `getRegisterName` and the null dereference on a node without an entry are both `UnsupportedRegister`.
- CodeGen.GenerateCode: on failure the Java code abandons the whole builder, including the partial `    movq ` fragment written before the exception. The model returns only the error, and its ghost line list holds no partial line.
- GraphColoring.Allocator.AllocateRegisters: requires a freshly constructed allocator (`Initial()`). The Java fields are never reset, so a second call on the same object starts from the state the first call left; the model does not describe that case.
- Hash iteration order is not modelled. Every loop over a set or map chooses its next element arbitrarily, and the contracts hold for all choices.
- Machine integers: `nextConstReg`, the spill-index arithmetic and `ConstIntNode.value()` are unbounded. Wrap-around after 2^31 constants or 2^28 map entries is not modelled.
- `Map.copyOf`: the result is a value, so its immutability has nothing to model.
- x86 semantics are modelled only for the instructions a graph body contains (`movq`, `addq`, `ret`) and only on registers. Memory, flags, the shim's `call` and `syscall`, and control transfer by `ret` are not modelled.
- `Ir.RESULT` is taken to be predecessor index 0 of a return node, and `ProjNode.IN` index 0. The IR classes that define them are not part of this model.
