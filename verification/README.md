# Verification of the traffic classifier and its eBPF tooling

This project models the parts of the repository that carry real logic and proves what they are for. It covers the
neural network the kernel programs in `src/` run on flow statistics, the program that replaces its parameters
while they run, and the data structures and analyses of `bpftool` and `libbpf` that the build uses.

| files | component |
|---|---|
| `Cfg.dfy`, `CfgPaths.dfy` | The control-flow graph builder. Functions and blocks tile the program; executions and graph paths correspond. |
| `Btf.dfy`, `Btfgen.dfy`, `BtfgenMarks.dfy`, `BtfgenRecord.dfy`, `BtfgenEmit.dfy`, `BtfgenAccess.dfy`, `BtfgenOffsets.dfy` | BTFGen: mark types and members, keep the marks closed, emit a renumbered BTF that preserves every recorded access path. |
| `BtfgenMatch.dfy`, `BtfgenSpec.dfy`, `BtfgenFound.dfy` | The loader's search by name: what it finds and where, and that a recorded field relocation finds the same field in the minimised BTF. |
| `Datasec.dfy` | The padding loop for data-section structs, against C layout rules. |
| `Mlp.dfy`, `Inference.dfy` | Fixed-point layers, the six tail-called stages, overflow and error bounds. |
| `HotUpdate.dfy`, `HotUpdateTorn.dfy` | The updater and any number of flows as a state machine over single-word writes, and a run that tears a slot. |
| `Flow.dfy` | Flow statistics as a fold over a packet trace. |
| `Pipeline.dfy` | From a trace of packets to the printed label. |
| `HashSpec.dfy`, `HashMap.dfy`, `HashLaws.dfy`, `HashRuns.dfy`, `HashOrder.dfy` | The linked hash map, a pure table it refines, and its laws over all runs: as a map, as an ordered multimap, and mixed. |
| `Json.dfy`, `JsonRoundTrip.dfy`, `JsonWriter.dfy` | The streaming writer and a parser for RFC 8259; what is written reads back. |
| `LineInfo.dfy`, `Dump.dfy` | Line records by function, both lookups, and the dump loop's cursor. |
| `Bitfield.dfy`, `Words.dfy` | 128-bit shifts over two words, bitfield extraction, hex output; machine-word arithmetic. |

Code that changes state is modelled by classes and methods with loops; each is proved against a function or predicate,
and the laws are lemmas about those. Constants, codes and layouts that a method shares with its specification are
also stated in plain numbers, by lemmas of their own. Pointers to instructions are indices (those of the special
blocks lie below every jump target), type ids and record pointers are positions, and C integers are mathematical
integers with every wrap-around written out where it can occur.

Where the code and its documentation differ, the model follows the code:

- Find returns the last appended value right after an append (`HashLaws.FindAfterInsert`), but every later growth turns
  the order of a key's values round. The promise of `libbpf/src/hashmap.h:104-107` fails in the run of
  `HashOrder.GrowthHidesLast`; `HashOrder.FindLastIff` says exactly when it holds at the end of a run.
- An EXIT instruction that is not last gets an edge to the next block and not to EXIT (`CfgPaths.ExitTail`).
- No leader is placed after JA, so a JA inside a block has no edge of its own. The graph follows every step of control
  exactly when every such jump is one its block's tail has an edge for (`CfgPaths.GraphCoversIff`), and an execution is a
  path exactly when each of its own jumps is (`CfgPaths.ExecutionProjects`). `CfgPaths.CallbackStepLost` is a program
  where an execution is no path. Leaders behind every JA and EXIT suffice (`CfgPaths.SealedRejoins`).
- The dissection of line records does not check addresses inside the last function (`LineInfo.LastUnchecked`), and its
  length check is passed by a sum that wraps to 0: `LineInfo.WrapAccepted` is accepted, and `LineInfo.RangesWithinIff`
  says exactly when the addresses of a function lie within its length.
- A second update that starts before an inference ends overwrites the slot the inference reads. An inference is
  consistent when no word is written after the first flip that follows its snapshot (`HotUpdate.ChainConsistent`), the
  slot is written exactly when one is (`HotUpdate.WrittenIffWriteAfterFlip`), and in `HotUpdateTorn.TornLabel` the
  printed label is that of no network.
- The search for a member leaves an index behind when it stops at an incompatible field of the same name inside an
  anonymous member (`BtfgenSpec.StrayPath`). C gives the members of a structure distinct names; what that is needed for is
  called a tidy search (`BtfgenMatch.Tidy`).
- A bitfield that reaches bit 127 of its 128-bit window, or has no bits, needs shifts C does not define
  (`Bitfield.BitfieldDefinedIff` gives the exact range; 121 bits behind seven others are an example, `Bitfield.UndefinedFields`).

## Model

| member | source | states |
|---|---|---|
| `Cfg.Func.AppendBb` | bpftool/src/cfg.c:88-112 | The block list stays strictly sorted by head and gains exactly the given head; a head already there is not duplicated |
| `Cfg.Func.PartitionBbHead` | bpftool/src/cfg.c:165-197 | The heads are exactly the leaders: the start, every JA or conditional target and every conditional fall-through, each once, in order |
| `Cfg.Func.PartitionBbTail` | bpftool/src/cfg.c:199-214 | Each block ends just before the next head, the last at the function end; indices follow list order from 2 |
| `Cfg.Func.AddSpecialBb` | bpftool/src/cfg.c:216-231 | ENTRY is put before and EXIT behind the unchanged blocks |
| `Cfg.Func.PartitionBb` | bpftool/src/cfg.c:233-241 | The three passes in order: leaders as heads, tiling, indices from 2, ENTRY and EXIT around them |
| `Cfg.Func.SearchBbWithHead` | bpftool/src/cfg.c:243-254 | Returns the block with that head, and none exactly when no block has it |
| `Cfg.Func.AddTailEdges` | bpftool/src/cfg.c:290-328 | The successor edges of one block by the kind of its tail, with destination and flags; nothing else changes |
| `Cfg.Func.AddBbEdges` | bpftool/src/cfg.c:277-331 | The edge pass gives ENTRY its one edge, EXIT its one predecessor, and every block its tail edges; heads, tails and indices stay |
| `Cfg.Func.BuildBlocks` | bpftool/src/cfg.c:333-352 | All passes over one function together yield a built graph: leaders as heads, tiling, unique indices, special blocks, resolved edges |
| `Cfg.InsertedHeads` | bpftool/src/cfg.c:94-111 | Insertion before the first larger head keeps strict order and adds one head |
| `Cfg.TailsInRange` | bpftool/src/cfg.c:199-214 | With in-range targets every head and tail lies in the function and the first head is its start |
| `Cfg.Graph.AppendFunc` | bpftool/src/cfg.c:63-86 | The function list stays sorted by start and numbered without repeats, and gains exactly the given start |
| `Cfg.Graph.PartitionFuncs` | bpftool/src/cfg.c:131-158 | The functions start exactly at instruction 0 and at the pseudo-call targets, and end where the next one starts |
| `Cfg.Graph.SetEnds` | bpftool/src/cfg.c:150-155 | Ends are set from the next start, the last one from the program length, through aliased list nodes |
| `Cfg.FuncIsRange` | bpftool/src/cfg.c:131-158 | Each listed function runs from one start to just before the next, so the kernel verifier's guarantee applies to it |
| `Cfg.FuncsCover` | bpftool/src/cfg.c:131-158 | Functions tile the program: an index is an instruction exactly when it lies in a function, and then in only one |
| `Cfg.Graph.Build` | bpftool/src/cfg.c:333-352 | cfg_build: the functions tile the program and every one of them has a built graph |
| `CfgPaths.BlocksTile` | bpftool/src/cfg.c:165-214 | Blocks tile the function: every instruction is in exactly one block and nothing else is |
| `CfgPaths.ResolvesToHead` | bpftool/src/cfg.c:243-254 | A target lookup succeeds exactly for leaders and then yields the one block that starts there |
| `CfgPaths.KindsAgree` | bpftool/src/cfg.c:160-191 | For every code: 5 and 6 are the jump classes; the high four bits 0, 8 and 9 make a jump a JA, a call and an exit, all others a conditional; a call is a bpf-to-bpf call exactly with code 0x85 and source register 1 |
| `CfgPaths.StepByCode` | bpftool/src/cfg.c:160-191 | The steps of control the theorems speak of are those of the instruction set, by code and offset |
| `CfgPaths.HeadsByCode` | bpftool/src/cfg.c:165-197 | By code: a block starts exactly at the function start, where an instruction jumps to, and behind a conditional jump |
| `CfgPaths.EdgesByCode` | bpftool/src/cfg.c:290-328 | By code of the tail: the out-edges, fall-through (flag 1) before jump (flag 2), the latter to the block that starts at pc + off + 1 |
| `CfgPaths.BlocksNumbered` | bpftool/src/cfg.c:45-47 | ENTRY has index 0, EXIT 1, the blocks between them 2, 3 and so on, with one edge into the first and one out of the last |
| `CfgPaths.StartsByCode` | bpftool/src/cfg.c:131-158 | By code: functions start at 0 and at the targets of bpf-to-bpf calls, each ends before the next |
| `CfgPaths.StepFollowsGraph` | bpftool/src/cfg.c:277-331 | One step of control stays inside a block below its tail or enters a block at its head along an edge, exactly when it is not the jump of a JA that does not rejoin |
| `CfgPaths.GraphCoversIff` | bpftool/src/cfg.c:165-331 | The graph follows every step of control exactly when every JA rejoins: its jump is the fall-through or the jump of the tail of its block |
| `CfgPaths.ExecutionProjects` | bpftool/src/cfg.c:165-331 | Every finite execution ends in the block of its last instruction, and its projection is a path from ENTRY exactly when each jump it takes from a JA rejoins |
| `CfgPaths.PathIsExecution` | bpftool/src/cfg.c:165-331 | Conversely every path over edges that stand for a step is the projection of an execution, in every function |
| `CfgPaths.RealPathIff` | bpftool/src/cfg.c:165-331 | So the paths of the graph whose edges stand for steps are exactly the paths executions project to |
| `CfgPaths.CallbackStepLost` | bpftool/src/cfg.c:131-193 | A main that ends in a backward JA, followed by a callback reached only through a function-pointer load: an execution of it is no path of any graph cfg_build makes |
| `CfgPaths.EdgesExact` | bpftool/src/cfg.c:311-328 | A plain, JA or conditional tail has an edge to a block exactly when a step leads to its head |
| `CfgPaths.ExitTail` | bpftool/src/cfg.c:304-309 | An EXIT tail has one edge, to the next block in the list; that is EXIT only for the last block |
| `CfgPaths.CallTail` | bpftool/src/cfg.c:318-327 | A CALL tail has the fall-through edge and one to any block that starts at pc + off + 1 |
| `CfgPaths.EdgesResolved` | bpftool/src/cfg.c:311-328 | Every edge has a destination exactly when no block ends in a call to an instruction that is not a leader of the function |
| `CfgPaths.SealedIffTails` | bpftool/src/cfg.c:181-193 | Control leaves blocks only at tails exactly when every JA and EXIT is last or followed by a leader |
| `CfgPaths.WideIsNoTail` | bpftool/src/cfg.c:199-214 | The first half of a 16-byte load is never a tail |
| `Btf.ReachStep` | bpftool/src/gen.c:1724-1797 | What a marker call reaches is itself and what the calls it makes reach |
| `Btf.RankDecreases` | bpftool/src/gen.c:1724-1797 | In an acyclic call graph every call reaches strictly less than its caller, so the recursion ends |
| `Btfgen.BtfgenInfo.constructor` | bpftool/src/gen.c:1682-1712 | A fresh clone carries no marks |
| `Btfgen.BtfgenInfo.MarkMember` | bpftool/src/gen.c:1716-1722 | Exactly one member mark is added and nothing but names changes |
| `Btfgen.BtfgenInfo.MarkType` | bpftool/src/gen.c:1724-1797 | Adds exactly the types reachable when stopping at structs and unions (and at pointers unless followed); fails exactly on a reachable unsupported kind, with a subset of the marks |
| `Btfgen.BtfgenInfo.MarkNeeded` | bpftool/src/gen.c:1724-1797 | The switch: which types a marked type needs |
| `Btfgen.BtfgenInfo.MarkArray` | bpftool/src/gen.c:1765-1774 | Element type first, then index type; stops at the first failure |
| `Btfgen.BtfgenInfo.MarkProto` | bpftool/src/gen.c:1775-1789 | Return type first, then every parameter; stops at the first failure |
| `Btfgen.BtfgenInfo.MarkTypeMatch` | bpftool/src/gen.c:1861-1948 | Adds exactly what is reachable over (type, behind_ptr) calls, with all members of composites that are not behind a pointer |
| `Btfgen.BtfgenInfo.MatchMembers` | bpftool/src/gen.c:1883-1901 | Marks every member and what its type reaches; a failure leaves a subset |
| `Btfgen.BtfgenInfo.MatchProto` | bpftool/src/gen.c:1922-1940 | Return and parameter types are matched with behind_ptr reset |
| `Btfgen.MarksNamed` | bpftool/src/gen.c:1724-1797 | Naming a type and marking what its calls reach is marking all it reaches |
| `BtfgenMarks.ReachClosed` | bpftool/src/gen.c:1724-1948 | What a marker reaches is closed under the needs of every kind of type: members in match mode unless behind a pointer, pointees by mode, what modifiers, typedefs, arrays and prototypes refer to |
| `BtfgenMarks.ReachLeast` | bpftool/src/gen.c:1724-1948 | And it is the least such set: nothing else is marked |
| `BtfgenMarks.SupportedIff` | bpftool/src/gen.c:1724-1948 | The kinds a marker accepts: forward declarations in match mode only, type tags and the non-data kinds never |
| `BtfgenMarks.MarkedTypes` | bpftool/src/gen.c:1724-1948 | A successful marking adds exactly the types it reaches, void excepted |
| `BtfgenMarks.MarkedMembers` | bpftool/src/gen.c:1883-1901 | In match mode it adds exactly all members of the composites reached not behind a pointer, in the other modes none |
| `BtfgenRecord.MarkingKeepsClosed` | bpftool/src/gen.c:1724-1948 | A successful marking keeps the mark set closed |
| `BtfgenRecord.MemberKeepsClosed` | bpftool/src/gen.c:1822-1834 | Marking a member and then its type keeps the mark set closed |
| `BtfgenRecord.PathMarkedMonotone` | bpftool/src/gen.c:1799-1851 | A recorded path stays marked under later marks |
| `BtfgenRecord.SkipMods` | bpftool/src/gen.c:1816-1820 | The inner loop ends on the first type that is no modifier or typedef, which is marked |
| `BtfgenRecord.RecordStep` | bpftool/src/gen.c:1813-1848 | One accessor is recorded exactly at an array or a supported member; it adds exactly that member and what its type reaches, and leads to a marked type |
| `BtfgenRecord.RecordFieldRelo` | bpftool/src/gen.c:1799-1851 | Succeeds exactly when the types on the path are supported; then it adds exactly the path's members and what their types reach, the marks are closed and the whole access path is marked |
| `BtfgenRecord.RecordReloc` | bpftool/src/gen.c:1954-1993 | Each kind of relocation succeeds exactly when it is recordable, adds exactly its marks and keeps them closed; a field relocation leaves its path marked |
| `BtfgenRecord.RecordObj` | bpftool/src/gen.c:2076-2108 | A series succeeds exactly when all its relocations are recordable; then the marks are exactly the union of theirs, closed, and every recorded path is marked |
| `BtfgenRecord.UnresolvedMarksNothing` | bpftool/src/gen.c:2068-2087 | A relocation without a match leaves a zeroed target spec, which is recorded as nothing |
| `BtfgenRecord.RelosCommute` | bpftool/src/gen.c:2076-2108 | The order and repetition of relocations do not matter: recording two series in either order, or one of them twice, is possible alike and marks the same |
| `BtfgenEmit.NewIdOrdered` | bpftool/src/gen.c:2153-2207 | The renumbering of marked types keeps their order, so it is injective |
| `BtfgenEmit.NewIdOnto` | bpftool/src/gen.c:2153-2207 | Every output id but void is the image of a marked type |
| `BtfgenEmit.NewIdCounts` | bpftool/src/gen.c:2153-2207 | A marked type's new id is one more than the number of marked types before it |
| `BtfgenEmit.EmittedKind` | bpftool/src/gen.c:2153-2216 | Case by case over the kinds: an emitted type has its source's name, kind (struct and union apart) and payload, with every reference renumbered |
| `BtfgenEmit.EmittedMember` | bpftool/src/gen.c:2166-2197 | A marked member is emitted behind the marked ones before it with its name, bit offset and bitfield size |
| `BtfgenEmit.FieldOkIff` | libbpf/src/btf.c:2026-2033 | Which fields a composite accepts: bitfields of 1 to 255 bits below bit 2^24, plain fields at any byte, in unions offset 0 only |
| `BtfgenEmit.AddMembers` | bpftool/src/gen.c:2166-2197 | A composite keeps exactly its marked members, in order; fails exactly when btf__add_field rejects one |
| `BtfgenEmit.RemapIds` | bpftool/src/gen.c:2124-2131 | Every reference of one type is replaced by its entry in the ids array |
| `BtfgenEmit.Collect` | bpftool/src/gen.c:2153-2207 | The first pass appends every marked type in order and records its new id |
| `BtfgenEmit.GetBtf` | bpftool/src/gen.c:2134-2226 | The output is void followed by the renumbered images of the marked types in order; fails exactly on a rejected member |
| `BtfgenEmit.EmittedRefs` | bpftool/src/gen.c:2124-2216 | Every emitted reference is in range and the renumbered source reference; it is 0 exactly if the source was 0, or a pointer to an unmarked type |
| `BtfgenEmit.EmittedValid` | bpftool/src/gen.c:2134-2216 | The output is a valid BTF |
| `BtfgenAccess.SkipImage` | bpftool/src/gen.c:2124-2216 | Skipping modifiers and typedefs commutes with renumbering |
| `BtfgenAccess.SizeImage` | libbpf/src/btf.c:604-657 | The size of a surviving type is the same in the output, errors included |
| `BtfgenAccess.WalkImage` | libbpf/src/relo_core.c:334-390 | Walking renumbered accessors commutes with the walk in the source, for the type reached and the bit offset |
| `BtfgenAccess.AccessPreserved` | bpftool/src/gen.c:1799-1851 | Every recorded access path, with member indices renumbered, reaches the image of the same type at the same total bit offset in the output |
| `BtfgenAccess.FlexImage` | libbpf/src/relo_core.c:71-84 | A flexible array stays one in the output: trimming keeps the last member last when it is marked |
| `BtfgenAccess.CheckedAccessPreserved` | libbpf/src/relo_core.c:334-390 | With the array bound checked, every recorded access that succeeds in the source succeeds in the output, with the image of the same type at the same offset |
| `BtfgenOffsets.ResolvedSize` | libbpf/src/btf.c:604-657 | A size that is resolved is the number of elements times the bytes of the type, pointers counted as 8 bytes and arrays as all their elements, and fits 32 bits |
| `BtfgenOffsets.SizeResolves` | libbpf/src/btf.c:604-657 | Conversely every positive size that fits is resolved |
| `BtfgenOffsets.SizeIsBytes` | libbpf/src/btf.c:604-657 | The size an access multiplies with is that number of bytes, within 32 levels |
| `BtfgenOffsets.RootOffset` | libbpf/src/relo_core.c:329-332 | Root index i lies 8 * i times the root's size further than index 0 |
| `BtfgenOffsets.RootStart` | libbpf/src/relo_core.c:329-332 | Root index 0 starts at bit 0 |
| `BtfgenOffsets.ElementOffset` | libbpf/src/relo_core.c:365-385 | Element i lies 8 * i times the element size behind its array |
| `BtfgenOffsets.MemberOffset` | libbpf/src/relo_core.c:342-363 | A member lies its bit offset behind its composite |
| `BtfgenOffsets.IndexInBounds` | libbpf/src/relo_core.c:71-84 | Which array indices are in bounds, flexible arrays included |
| `BtfgenFound.EssentialIs` | libbpf/src/libbpf.c:5363-5385 | A name without its flavor is the part before the last ___ between characters that are no underscores, or the whole name |
| `BtfgenFound.CompatIff` | libbpf/src/relo_core.c:412-463 | Which kinds are compatible: composites, pointers, floats, integers without bit offset, and enums and forward declarations by name; nothing else |
| `BtfgenFound.ArraysCompat` | libbpf/src/relo_core.c:456-459 | Arrays are compatible when their elements are |
| `BtfgenFound.StepAnswers` | libbpf/src/relo_core.c:623-674 | A missing field and an index out of bounds mean no match, what cannot be followed is an error |
| `BtfgenFound.HitNamed` | libbpf/src/relo_core.c:481-551 | What a search finds is a member of the wanted name with a compatible type |
| `BtfgenFound.HitFirst` | libbpf/src/relo_core.c:481-551 | A tidy search takes the first such member in order; if it finds none there is none |
| `BtfgenFound.SpecLimit` | libbpf/src/relo_core.c:511-513 | A target spec holds 64 accessors, one more is an error |
| `BtfgenFound.MatchArrives` | libbpf/src/relo_core.c:557-676 | With tidy searches the access by the matched accessors leads to the matched type at the matched bit offset |
| `BtfgenMatch.CompatImage` | libbpf/src/relo_core.c:412-463 | A surviving type is compatible with the same local field types in the output |
| `BtfgenMatch.HitLands` | libbpf/src/relo_core.c:481-551 | The accessors a tidy search for a member leaves lead to the type of the member it found |
| `BtfgenMatch.MemberImage` | libbpf/src/relo_core.c:481-551 | A tidy search for a member by name, through anonymous members and in member order, finds the image of a recorded member in the output, and nothing where it found nothing |
| `BtfgenSpec.StepImage` | libbpf/src/relo_core.c:623-674 | One accessor of the local spec that matches on a recorded path by a tidy search matches the image in the output |
| `BtfgenSpec.MatchPreserved` | libbpf/src/relo_core.c:557-676 | A field relocation that matches in the source by tidy searches and whose path is recorded matches in the minimised BTF: with the renumbered accessors, at the same bit offset and with the image of the type |
| `BtfgenSpec.RecordedMatches` | libbpf/src/relo_core.c:557-676 | So every field relocation that BTFGen records from tidy searches matches, on loading with the minimised BTF, what it matched when it was recorded |
| `BtfgenSpec.MatchLands` | libbpf/src/relo_core.c:557-676 | With tidy searches the accessors of the matched target spec lead to the type it stands on |
| `BtfgenSpec.StrayPath` | libbpf/src/relo_core.c:529-547 | A struct with two members of the wanted name, the first one incompatible and inside an anonymous member: the matched accessors lead nowhere |
| `BtfgenEmit.Minimise` | bpftool/src/gen.c:2251-2291 | From an unmarked clone: the output is the renumbering of exactly what the relocations mark, closed, with every recorded path; fails only on an unrecordable relocation or a rejected member |
| `Datasec.RoundUpUnique` | bpftool/src/gen.c:185 | Rounding up to h yields the only multiple of h in the next h offsets |
| `Datasec.DeclPlaced` | bpftool/src/gen.c:185-206 | With the padding before it, a declaration lands on its BTF offset exactly when the offset suits the compiler's alignment |
| `Datasec.CodegenDatasecDef` | bpftool/src/gen.c:143-207 | Fails exactly on overlap or unknown alignment; otherwise declares the non-static variables in order, and C layout puts all of them at their BTF offsets exactly when all offsets are naturally aligned |
| `Mlp.LinearLayer` | src/mlp.bpf.h:12-25 | The nested loops leave each of the first M cells as the wrapped 64-bit row sum shifted by 16 and cut to 32 bits; other cells stay |
| `Mlp.ReluInPlace` | src/mlp.bpf.h:27-32 | Every cell becomes the maximum of itself and 0 |
| `Mlp.StandardScaler` | src/mlp.bpf.h:34-44 | Every cell is the unsigned quotient of the difference, negated when the mean is larger; other cells stay |
| `Mlp.WrapIs` | src/mlp.bpf.h:12-44 | Conversions to int32_t and int64_t keep the value modulo 2^32 and 2^64 and bring it into range |
| `Mlp.NoOverflow` | src/mlp.bpf.h:12-25 | Under an L1 and an input bound neither the 64-bit sum nor the 32-bit result overflows, and the result is bounded |
| `Mlp.LayerError` | src/mlp.bpf.h:12-25 | An input error e becomes at most row norm * e / 2^16 + 1 unit |
| `Mlp.ReluError` | src/mlp.bpf.h:27-32 | ReLU does not expand an error |
| `Mlp.ScaleNoOverflow` | src/mlp.bpf.h:34-44 | With a positive scale and a bounded difference the scaler computes the truncated quotient |
| `Mlp.ScaleError` | src/mlp.bpf.h:34-44 | The scaled feature is within one unit of the exact quotient |
| `Inference.StageHolds` | src/xdp.bpf.c:116-320 | Each of the six programs reads only cells that the programs before it defined |
| `Inference.RunHolds` | src/xdp.bpf.c:116-320 | From any program on, the rest of the chain completes the intended computation |
| `Inference.ChainIsForward` | src/xdp.bpf.c:116-320 | The chain computes Forward whatever hidden1 and hidden2 held before |
| `Inference.FlowEntry.RunProg` | src/xdp.bpf.c:116-320 | One program changes the flow's two buffers in place as its stage says; a missing slot changes nothing |
| `Inference.FlowEntry.Infer` | src/xdp.bpf.c:98-114 | A snapshot of the index and the chain of tail calls print the label of one pure forward pass, or nothing when the slot is absent |
| `Inference.LinearNear` | src/mlp.bpf.h:12-25 | One layer: no overflow, bounded outputs, bounded error |
| `Inference.ForwardNear` | src/xdp.bpf.c:116-320 | The outputs stay within the composed error bound of the exact rational pass |
| `Inference.LabelIsArgmax` | src/xdp.bpf.c:313-318 | The label is the exact argmax whenever the exact margin exceeds twice the bound |
| `HotUpdate.Maps.Update` | src/hot_updating.c:14-53 | One update fills the idle slot, flips the index to it and leaves the slot that was in use alone |
| `HotUpdate.NetLayout` | src/params.bpf.h:4-11 | Where the three layers, the means and the scales lie among the 1292 words of a slot |
| `HotUpdate.SessionIsUpdate` | src/hot_updating.c:25-51 | Between reading the index and the flip, whatever flows do, the updater writes exactly the new words into the idle slot and leaves the slot in use alone: a session is one atomic update |
| `HotUpdate.SlotStable` | src/hot_updating.c:25-51 | In every run the snapshotted slot keeps its words as long as no word is written after the first flip |
| `HotUpdate.WrittenIffWriteAfterFlip` | src/hot_updating.c:25-51 | That condition is exact: the snapshotted slot is written to iff a word is written after the first flip |
| `HotUpdate.AfterFlip` | src/hot_updating.c:25-51 | After a flip and until the next word is written the index stays |
| `HotUpdate.ChainConsistent` | src/xdp.bpf.c:98-107 | As long as no word is written after the first flip that follows the snapshot, whatever else is interleaved, all stages of an inference belong to the one network that was in the snapshotted slot |
| `HotUpdate.InferenceIsForward` | src/xdp.bpf.c:98-320 | So under the same condition an inference that finishes prints the label that this network's forward pass gives the flow's features |
| `HotUpdate.RunFromStart` | src/hot_updating.c:25-51 | A well-formed start is all a sequence of steps needs to be a run: every step keeps the state well formed |
| `HotUpdateTorn.TornLabel` | src/hot_updating.c:25-51 | The condition can fail: a run with a second update during an inference, which prints 0 although the snapshotted network and the one every update brings both give its features 1 |
| `Flow.FlowMap.UpdateFlowAttribute` | src/handler.bpf.h:21-62 | After any trace every admitted flow's entry summarises exactly that flow's packets; other flows are untouched; the capacity is kept |
| `Flow.NtohsBytes` | src/handler.bpf.h:34 | A port in wire order, loaded as a little-endian number, becomes 256 times its first byte plus its second |
| `Flow.Accumulate` | src/handler.bpf.h:41-54 | One packet is added to the fields of an entry |
| `Flow.FirstPacket` | src/handler.bpf.h:29-54 | A flow's first packet leaves a correct summary of itself |
| `Flow.NextPacket` | src/handler.bpf.h:41-54 | A correct summary stays correct with one more packet, modulo 2^64 where the fields wrap |
| `Flow.GapIsLargest` | src/handler.bpf.h:49-52 | With a monotone clock max_duration is the largest time between consecutive packets of the flow |
| `Flow.AdmittedCount` | src/common.h:31-39 | Until 8192 flows were seen every flow has an entry; after that exactly 8192 do |
| `Flow.AdmittedIff` | src/common.h:31-39 | A flow has an entry exactly when fewer than 8192 other flows came before its first packet |
| `Pipeline.FeatureOrder` | src/xdp.bpf.c:149-154 | The vector holds the longest packet, the longest gap, the shortest packet, the port, the header bytes and the number of packets, in this order |
| `Pipeline.TwoPackets` | src/xdp.bpf.c:149-154 | The vector of a flow of two packets to port 443, in numbers |
| `Pipeline.ReadsFeatures` | src/xdp.bpf.c:116-160 | The features read from a correct entry are those of the flow's packets, with 64-bit patterns read as signed numbers |
| `Pipeline.Preprocess` | src/xdp.bpf.c:116-320 | The features are read from the entry; the chain then prints the label of their forward pass, if the slot exists |
| `Pipeline.XdpProg` | src/xdp.bpf.c:65-320 | From a trace of packets to the label: on FIN or RST of an admitted flow the printed label is the one the network in the indexed slot gives that flow's packets so far |
| `Pipeline.PacketsToLabel` | src/xdp.bpf.c:98-320 | Under that condition, in every interleaving with the updater, an inference that finishes prints the label the snapshotted network gives the flow's packets |
| `HashSpec.BucketInRange` | libbpf/src/hashmap.h:15-29 | The bucket index is below the capacity |
| `HashSpec.BucketIs` | libbpf/src/hashmap.h:15-29 | The bucket is the upper bits of the hash times 11400714819323198485 modulo 2^64 |
| `HashSpec.FailBitsIs` | libbpf/src/hashmap.c:107-115 | Growth fails exactly when the new array of 8-byte pointers would fill 2^64 bytes or more |
| `HashSpec.BucketSplits` | libbpf/src/hashmap.h:15-29 | With one more bit, bucket b splits into 2b and 2b + 1 |
| `HashSpec.GrowthSplits` | libbpf/src/hashmap.c:101-128 | Each new chain is the reverse of the matching part of old chain b / 2 |
| `HashSpec.GrownOk` | libbpf/src/hashmap.c:101-128 | After a growth every entry sits in the bucket of its hash |
| `HashSpec.GrowthKeepsPairs` | libbpf/src/hashmap.c:101-128 | Growth keeps the multiset of entries and their number |
| `HashSpec.GrowthReversesKey` | libbpf/src/hashmap.c:101-128 | Growth reverses the order of the values stored for a key |
| `HashSpec.FindAfterGrowth` | libbpf/src/hashmap.c:101-128 | One growth keeps what find returns exactly when the key's first and last values are the same |
| `HashSpec.FirstOfMatches` | libbpf/src/hashmap.c:206-218 | Find returns the first value that per-key iteration visits |
| `HashMap.AddEntry` | libbpf/src/hashmap.c:24-29 | The entry is linked in front of an acyclic chain |
| `HashMap.DelEntry` | libbpf/src/hashmap.c:31-36 | The entry is unlinked through the pointer to it; the rest of the chain keeps its order |
| `HashMap.MoveChain` | libbpf/src/hashmap.c:117-120 | Every node of an old chain is pushed onto its new chain, while its next pointer is overwritten |
| `HashMap.HashMap.constructor` | libbpf/src/hashmap.c:38-49 | A new map is empty and has no buckets |
| `HashMap.HashMap.Grow` | libbpf/src/hashmap.c:101-128 | The same nodes, every linked one and no other, relinked into a table of twice the capacity (4 at first); on failure nothing changes |
| `HashMap.HashMap.FindEntry` | libbpf/src/hashmap.c:130-152 | Finds the first matching node of one chain with the link that holds it, if there is one |
| `HashMap.HashMap.Insert` | libbpf/src/hashmap.c:154-204 | The linked map changes as the table specification says, with error and old key and value |
| `HashMap.HashMap.Find` | libbpf/src/hashmap.c:206-218 | Returns the first match of the key's chain |
| `HashMap.HashMap.Delete` | libbpf/src/hashmap.c:220-240 | Unlinks exactly the first match, one node, and returns it; every other node stays linked |
| `HashMap.HashMap.ForEachKeyEntry` | libbpf/src/hashmap.h:192-198 | Visits exactly the entries whose key equals the given one, each once, in chain order |
| `HashMap.HashMap.ForEachEntry` | libbpf/src/hashmap.h:168-170 | Visits every entry once; there are sz of them |
| `HashMap.HashMap.Clear` | libbpf/src/hashmap.c:63-74 | The map is empty again |
| `HashLaws.InsertErrors` | libbpf/src/hashmap.h:94-107 | Which error each strategy returns, by whether the key is present, and what comes back as old key and value |
| `HashLaws.PushedValues` | libbpf/src/hashmap.c:194-201 | A new entry becomes the first value of its key and of no other |
| `HashLaws.ReplacedValues` | libbpf/src/hashmap.c:175-178 | SET and UPDATE of a present key replace its first value only |
| `HashLaws.DeletedValues` | libbpf/src/hashmap.c:220-240 | Delete removes the first value of the key and changes no other key |
| `HashLaws.InsertValues` | libbpf/src/hashmap.c:154-204 | The values of every key after a successful insertion, growth included |
| `HashLaws.FindAfterInsert` | libbpf/src/hashmap.h:104-107 | Find right after a successful insertion with any strategy returns the inserted value |
| `HashLaws.RefinesMap` | libbpf/src/hashmap.h:94-101 | Over every run of ADD, SET, UPDATE and delete there is at most one entry per key class and find agrees with a plain map |
| `HashLaws.RefinesMultimap` | libbpf/src/hashmap.h:101-107 | Over every run of APPEND per-key iteration visits each appended value exactly once |
| `HashRuns.EveryRun` | libbpf/src/hashmap.h:94-107 | After every run of the four insertion strategies and deletions, failed calls included, size, capacity and the ordered values of every key are those of a simple model: insertions prepend or replace the first value, deletions drop it, growth reverses all |
| `HashRuns.Answers` | libbpf/src/hashmap.h:94-107 | So after every run find returns the first value of the model and an insertion returns its error |
| `HashRuns.GrowsIff` | libbpf/src/hashmap.c:95-99 | A table of 4m buckets grows for an insertion that finds 3m entries or more |
| `HashRuns.NeverOverloaded` | libbpf/src/hashmap.c:95-128 | After every run the entries times 4 / 3 do not exceed the buckets, of which there are none, 4, 8, 16 and so on |
| `HashOrder.GrowthPoints` | libbpf/src/hashmap.c:95-128 | In a run of APPEND the table grows at the first append and at those that find 3, 6, 12, 24 and so on entries |
| `HashOrder.SizeAfter` | libbpf/src/hashmap.c:95-128 | After n appends the table has the smallest capacity that n entries fill to three quarters at most |
| `HashOrder.AppendsOrder` | libbpf/src/hashmap.c:154-204 | Over every run of APPEND per-key iteration visits the values in the order given by prepending each one and turning the order round at the 1st, 4th and every later growth |
| `HashOrder.FindLastIff` | libbpf/src/hashmap.h:104-107 | Over every run of APPEND find returns the value appended last for a key exactly when an even number of growths followed that append, or the other end of the key's values holds an equal one |
| `HashOrder.GrowthHidesLast` | libbpf/src/hashmap.h:104-107 | A run of four appends, 10 and 20 for key 1 and two more, after which find returns 10 for key 1: the header's last-inserted promise fails |
| `JsonRoundTrip.EscapedParses` | bpftool/src/json_writer.c:57-87 | A written string reads back exactly when its only control characters are the five that are escaped |
| `JsonRoundTrip.NatParses` | bpftool/src/json_writer.c:231-244 | Written decimal digits read back as the number |
| `JsonRoundTrip.ParseText` | bpftool/src/json_writer.c:47-244 | The text of any value reads back as that value, wherever it is nested, exactly when its strings do |
| `JsonRoundTrip.DocumentParses` | bpftool/src/json_writer.c:47-244 | So does a whole document, in compact and in pretty mode |
| `JsonRoundTrip.TextInjective` | bpftool/src/json_writer.c:47-244 | Different values never share a text |
| `JsonRoundTrip.EolIs` | bpftool/src/json_writer.c:29-44 | In pretty mode a line break and four blanks for every level, else nothing |
| `JsonRoundTrip.ArrayText` | bpftool/src/json_writer.c:134-143 | An array in both modes, character by character |
| `JsonRoundTrip.TwoItems` | bpftool/src/json_writer.c:47-52 | Two elements are separated by a comma |
| `JsonRoundTrip.FieldLine` | bpftool/src/json_writer.c:147-156 | A field in both modes, character by character |
| `JsonWriter.JsonWriter.constructor` | bpftool/src/json_writer.c:90-100 | A new writer: depth 0, compact, no separator pending |
| `JsonWriter.JsonWriter.Eor` | bpftool/src/json_writer.c:47-52 | Writes the pending separator and makes a comma pending |
| `JsonWriter.JsonWriter.WriteEol` | bpftool/src/json_writer.c:29-44 | In pretty mode a line break and four blanks for every level |
| `JsonWriter.JsonWriter.Puts` | bpftool/src/json_writer.c:57-87 | The quoted, escaped string |
| `JsonWriter.JsonWriter.Begin` | bpftool/src/json_writer.c:126-132 | Opens a container one level deeper with nothing pending |
| `JsonWriter.JsonWriter.End` | bpftool/src/json_writer.c:134-143 | Closes it one level up, on its own line if it was not empty, and makes a comma pending |
| `JsonWriter.JsonWriter.Name` | bpftool/src/json_writer.c:147-156 | Separator, line break, quoted name and colon; no separator before the value |
| `JsonWriter.JsonWriter.WriteString` | bpftool/src/json_writer.c:198-202 | Separator and quoted string |
| `JsonWriter.JsonWriter.Printf` | bpftool/src/json_writer.c:166-174 | Separator and the formatted word |
| `JsonWriter.JsonWriter.WriteValue` | bpftool/src/json_writer.c:126-244 | The calls for a whole value add its text; depth returns to its start value |
| `JsonWriter.JsonWriter.WriteNext` | bpftool/src/json_writer.c:119-123 | After a reset the text added for a value reads back as that value, exactly when its strings are escapable |
| `JsonWriter.WriteDocument` | bpftool/src/json_writer.c:90-117 | A document from a fresh writer to its end is the text of the value and a line break, and reads back as the value written, in both modes |
| `LineInfo.ProgLinfo.DissectJitedFunc` | libbpf/src/bpf_prog_linfo.c:22-86 | Fills the two index arrays with the dissection of the records, or fails, as the scan does |
| `LineInfo.DissectIff` | libbpf/src/bpf_prog_linfo.c:22-86 | The scan yields a dissection exactly when there is one, and it is the only one |
| `LineInfo.RangesPartition` | libbpf/src/bpf_prog_linfo.c:42-81 | The ranges partition the records: each belongs to exactly one function |
| `LineInfo.RangesRise` | libbpf/src/bpf_prog_linfo.c:42-81 | No range is empty, each starts at its function's address, and addresses rise strictly in all but the last |
| `LineInfo.RangesWithin` | libbpf/src/bpf_prog_linfo.c:53-56 | Addresses of all but the last function lie within its length, except when the 64-bit sum wraps to 0 |
| `LineInfo.RangesWithinIff` | libbpf/src/bpf_prog_linfo.c:53-56 | For 64-bit lengths all records of a function but the last lie within its length exactly when the length check does not wrap |
| `LineInfo.WrapAccepted` | libbpf/src/bpf_prog_linfo.c:53-56 | An accepted dissection that wraps, whose first function has a record far outside its length |
| `LineInfo.LastUnchecked` | libbpf/src/bpf_prog_linfo.c:46-48 | An accepted dissection whose last function has falling addresses |
| `LineInfo.NewProgLinfo` | libbpf/src/bpf_prog_linfo.c:100-178 | Returns NULL exactly without lines, with short records, or when the JITed records cannot be dissected; otherwise a dissected index |
| `LineInfo.ProgLinfo.LfindAddrFunc` | libbpf/src/bpf_prog_linfo.c:180-216 | Returns the last record of the longest prefix of the function's range, after the skip, that is not above the address |
| `LineInfo.ProgLinfo.Lfind` | libbpf/src/bpf_prog_linfo.c:218-246 | The same by instruction offset over all records |
| `LineInfo.LookupIff` | libbpf/src/bpf_prog_linfo.c:180-246 | For every key that is the last record not above it, exactly when the keys do not decrease |
| `LineInfo.AddressLookup` | libbpf/src/bpf_prog_linfo.c:180-216 | The address lookup finds the last record not above every address in all functions but the last, and in the last exactly when its addresses do not decrease |
| `Dump.StartsAre` | bpftool/src/xlated_dumper.c:317-346 | A slot starts an instruction exactly when it is not the second half of a 16-byte load |
| `Dump.ShowInsns` | bpftool/src/xlated_dumper.c:317-346 | Every instruction is printed once, second halves of 16-byte loads are skipped |
| `Dump.ShowCursor` | bpftool/src/xlated_dumper.c:335-344 | With placed records nr_skip is the number of records with offset below the slot |
| `Dump.ShowIff` | bpftool/src/xlated_dumper.c:317-346 | Every record is printed exactly once, at its own instruction and in order, exactly when offsets increase strictly, lie in the program and avoid second halves |
| `Dump.DumpXlatedPlain` | bpftool/src/xlated_dumper.c:299-372 | The loop does all of that, and prints no record without line information |
| `Words.OrSum` | bpftool/src/btf_dumper.c:328-329 | A bitwise or of words without common bits is their sum |
| `Bitfield.LeftShifts` | bpftool/src/btf_dumper.c:323-331 | The left half of the routine is the 128-bit left shift of the two words |
| `Bitfield.RightShifts` | bpftool/src/btf_dumper.c:333-340 | The right half is the 128-bit right shift |
| `Bitfield.BtfInt128Shift` | bpftool/src/btf_dumper.c:310-349 | In place: shift left modulo 2^128, then right |
| `Bitfield.ShiftsExtract` | bpftool/src/btf_dumper.c:366-373 | The two shifts keep nr_bits bits from the offset on |
| `Bitfield.EnoughBytes` | bpftool/src/btf_dumper.c:360-363 | Only the bytes that hold the bits matter |
| `Bitfield.BitfieldDefinedIff` | bpftool/src/btf_dumper.c:360-373 | C defines all the shifts exactly when there is a bit and the field ends below bit 127 |
| `Bitfield.LeByte` | bpftool/src/btf_dumper.c:360-363 | Byte k of the data holds the bits from 8k on |
| `Bitfield.RoundUpBytesIs` | bpftool/src/btf_dumper.c:360-363 | As many bytes are copied as hold the bits, and no more |
| `Bitfield.HexDenotes` | bpftool/src/btf_dumper.c:296-307 | The printed digits denote the number |
| `Bitfield.HexJoined` | bpftool/src/btf_dumper.c:296-307 | The upper digits followed by sixteen lower ones are the digits of the whole |
| `Bitfield.BtfInt128Print` | bpftool/src/btf_dumper.c:277-308 | Prints the hex digits of the 128-bit number |
| `Bitfield.BtfDumperBitfield` | bpftool/src/btf_dumper.c:351-375 | Prints floor(D / 2^offset) mod 2^nr_bits for D the data, reading no more bytes than hold the bits |
| `Bitfield.BtfDumperIntBits` | bpftool/src/btf_dumper.c:378-393 | The same with the member's and the type's offsets added |

## Left out

- CfgPaths.ExecutionProjects: the step relation reads `off` for `BPF_JMP32 | BPF_JA`, as the builder does; newer kernels jump by `imm` there.
- Cfg.Graph.Build: in-range targets and a final EXIT or JA are required, as the kernel verifier guarantees them. Blocks are values in a list field of the function object and edges name blocks by position, so sharing of block nodes is not modelled; function nodes are objects.
- Btfgen.BtfgenInfo.MarkType: no cycle of calls may be reachable from the argument, as the C recursion needs it to end; a kind unknown to the library at a nonzero id is not modelled.
- BtfgenRecord.RecordObj: relocations arrive resolved; parsing of objects, candidate search and relocation calculation are not modelled. Target specs must index existing members, as tidy searches ensure (`BtfgenSpec.MatchLands`).
- BtfgenAccess.AccessPreserved: pointers have size 8 in size resolution; out-of-memory errors of `btf__add_*` are not modelled. Nothing is said of accesses that were not recorded.
- BtfgenAccess.CheckedAccessPreserved: a member with an empty name at a nonzero string offset counts as unnamed.
- BtfgenSpec.MatchPreserved: the local spec is given as its first index, further indices, and named fields with their types; candidate search, agreement between several candidates, and relocation values are not modelled, nor is wrap-around of 32-bit bit offsets. Array dimensions are bounded by the number of types.
- Datasec.CodegenDatasecDef: the names and declarations printed, and failures of `btf_dump__emit_type_decl`, are not modelled; 32-bit overflow of offsets is not either.
- Inference.FlowEntry.Infer: the slot in use must have no zero scale; the other one may. The loader starts with index 1 and zeroed parameters (src/xdp.c:105-108), where the scaler divides by zero.
- HotUpdate.ChainConsistent: a scaler that divides by zero may write any values into its own flow's buffers and nothing else; one updater at a time, programs are single steps, and the stages of one flow are sequential; races between processors on one flow are not modelled.
- Pipeline.XdpProg: the tail-called programs look the flow up by the same key, so its entry is read once; the address filter is not modelled.
- Flow.FlowMap.UpdateFlowAttribute: time and packets are parameters; the timing fields, packet bounds checks and the address filter are not modelled.
- HashMap.HashMap.Grow: allocation fails only where 2^61 or more buckets exceed the address space; a NULL bucket array is an empty one; freeing is not modelled. Hash and equality functions are total and the hash respects equality.
- HashMap.HashMap.ForEachEntry: the safe iteration macros are modelled where growth and clearing use them, not for removal by callers.
- JsonWriter.JsonWriter.WriteValue: floating point values, caller-supplied formats and character encodings are not modelled; strings are sequences of characters without NUL and numbers are integers.
- JsonRoundTrip.ParseText: the parser knows no fractions, exponents or \u escapes; the writer emits none for these values.
- LineInfo.ProgLinfo.LfindAddrFunc: record positions stand for byte offsets, so overflow of a 32-bit byte offset is not modelled.
- Dump.DumpXlatedPlain: function signatures, opcodes and the JSON and graph variants of the dump loop are not modelled.
- Bitfield.BtfDumperBitfield: big-endian hosts are not modelled; fields outside the range of defined shifts are excluded.
- Kernel symbol sorting: its comparator cuts a 64-bit difference to int and is no order on all inputs.
- Command-line handling, printing, system-call wrappers, skeleton templates, disassembler back ends and training in Python: input, output and foreign code.
