# tract: graph analyser, ONNX array builders and the `Slice` operator

This project is a Dafny model of three parts of tract, a neural-network inference library.

**The graph analyser** (`src/analyser/mod.rs`). It annotates every edge of a model's graph with a *tensor fact*: what is known of the tensor flowing along the edge. A fact records an element type, a shape (possibly open, i.e. with unknown trailing dimensions) and a value; each of these may be unknown.

- Facts are combined by *unification*. Unification is the greatest lower bound in the "more specialized than" order, or an error when no tensor fits both facts.
- The analyser builds one edge per node input and one special edge leaving the output node.
- The user can hint facts on a node's outgoing edges.
- The analyser can prune the nodes that are not in the execution plan, renumbering nodes and edges.
- It runs inference passes along the plan. Each step runs a node's forward or backward rules on the facts of its source edges. It then unifies the inferred facts into its target edges and reports whether anything changed. Passes alternate direction until two passes change nothing.

**The ONNX array builders** (`onnx/src/ops/array/mod.rs`). Each builder reads, checks and defaults the attributes of an ONNX node and produces the corresponding tract operator. `register_all_ops` binds fourteen operator names to their builders.

**The `Slice` operator** (`core/src/ops/array/slice.rs`). It prunes `a` leading and `b` trailing elements on every axis. The model covers:

- its evaluation on dense tensors;
- its shape and type inference rules;
- its rewriting as a delay on a streamed axis (pulsification).

## Layout

| module | file | content |
|---|---|---|
| `Wrappers` | Wrappers.dfy | `Option` and `Result` |
| `Facts` | Facts.dfy | facts and the refinement order `Le` |
| `Unification` | Unification.dfy | `unify` and its three component functions, with their lattice laws |
| `Graph` | Graph.dfy | model nodes and well-formedness |
| `Detect` | Detect.dfy | `detect_inputs` and `detect_output` |
| `Compaction` | Compaction.dfy | in-place removal under a `deleted` counter, and the index mapping it produces |
| `Inference` | Inference.dfy | edges and adjacency lists as values; `Analyser::new`, `prune_unused` and inference steps as functions, with their properties |
| `Analysis` | Analysis.dfy | class `Analyser`, whose methods update its fields and are proved against the functions of `Inference` |
| `TractOps`, `OnnxArray` | OnnxArray.dfy | the operators built, the attribute access, the builders and the register |
| `SliceOp` | SliceOp.dfy | dense tensors, `eval_t`, `eval`, `rules` and `pulsify` of `Slice` |

## Model

| member | source | states |
|---|---|---|
| Facts.ShapeLeSound | src/analyser/mod.rs:19-20 | a shape fact that refines another admits only concrete shapes the other admits |
| Facts.ShapeLeComplete | src/analyser/mod.rs:19-20 | conversely, admitting fewer concrete shapes implies refinement, so the order is exactly inclusion of admitted shapes |
| Facts.LeReflexive | src/analyser/mod.rs:19-20 | every fact refines itself |
| Facts.LeTransitive | src/analyser/mod.rs:19-20 | refinement is transitive |
| Facts.LeAntisymmetric | src/analyser/mod.rs:19-20 | two facts refining each other are equal |
| Facts.UnknownIsTop | src/analyser/mod.rs:184-190 | every fact refines the fact of a fresh edge (`TensorFact::new()`) |
| Unification.Meet | src/analyser/mod.rs:36-41 | the meet of two single facts is below both and above every common lower bound; it fails only when two known values differ |
| Unification.UnifyDatatype | src/analyser/mod.rs:33-44 | `Any` is an identity on either side; equal known types give themselves; different known types fail with a datatype mismatch |
| Unification.UnifyValue | src/analyser/mod.rs:80-94 | the same three laws for values, failing with a value mismatch |
| Unification.UnifyDims | src/analyser/mod.rs:55-70 | succeeds exactly when the common positions agree and the longer list only runs on past an open shape; the result has the longer length, and each position is the meet or the surviving dimension; the error is a dimension clash exactly when some common position clashes, and a rank mismatch otherwise |
| Unification.UnifyShape | src/analyser/mod.rs:47-77 | succeeds exactly when the dimensions are compatible; the result is open exactly when both inputs are; its rank is the larger one; the same error classification as the dimensions |
| Unification.Unify | src/analyser/mod.rs:20-30 | succeeds exactly when type, shape and value all unify, with each component of the result the unification of the components; a type failure is reported first, then a shape failure |
| Unification.UnifyShapeIdempotent | src/analyser/mod.rs:47-77 | unifying a shape with itself gives it back |
| Unification.UnifyShapeDims | src/analyser/mod.rs:55-68 | a known dimension beats `Any`; two different known dimensions fail with a dimension clash; extra dimensions of the longer shape are kept |
| Unification.UnifyClosedRankMismatch | src/analyser/mod.rs:64-68 | closed shapes of different rank never unify |
| Unification.UnifyShapeLowerBound | src/analyser/mod.rs:47-77 | the unified shape refines both inputs |
| Unification.UnifyShapeGreatest | src/analyser/mod.rs:47-77 | any shape refining both inputs makes unification succeed and refines its result |
| Unification.UnifyShapeAdmits | src/analyser/mod.rs:47-77 | a concrete shape fits the unified shape exactly when it fits both inputs; when unification fails, no shape fits both |
| Unification.UnifyLowerBound | src/analyser/mod.rs:19-30 | `unify`'s result refines both arguments |
| Unification.UnifyGreatest | src/analyser/mod.rs:19-30 | `unify` succeeds whenever a common refinement exists, and its result is the greatest one |
| Unification.UnifyShapeCommutes | src/analyser/mod.rs:47-77 | shape unification is independent of argument order, errors included |
| Unification.UnifyCommutes | src/analyser/mod.rs:20-30 | `unify` is independent of argument order, errors included |
| Unification.UnifyAbsorbs | src/analyser/mod.rs:20-30 | unifying a fact again into its own unification changes nothing |
| Detect.PlaceholderPositions | src/analyser/mod.rs:97-103 | lists exactly the positions of the `Placeholder` nodes, each once, in increasing order |
| Detect.DetectInputs | src/analyser/mod.rs:97-111 | `None` exactly when no node is a `Placeholder`; otherwise the ids of exactly those nodes, in node order |
| Detect.DetectInputsArePositions | src/analyser/mod.rs:97-103 | in a well-formed model the detected ids are the placeholder positions |
| Detect.DetectOutput | src/analyser/mod.rs:114-135 | returns the lowest-numbered node with no successor; returns `None` exactly when every node has one |
| Compaction.RankPlusDeleted | src/analyser/mod.rs:277-293 | when entry `i` is reached, the kept entries before it plus the `deleted` counter make `i` |
| Compaction.RankMonotone | src/analyser/mod.rs:280-293 | new positions never decrease, and strictly increase past a kept entry |
| Compaction.CompactAt | src/analyser/mod.rs:280-293 | a kept entry lands at its rank among the kept entries |
| Compaction.CompactOrigin | src/analyser/mod.rs:280-293 | every position of the compacted vector holds a kept entry of that rank |
| Compaction.CompactRemoveStep | src/analyser/mod.rs:280-286 | one round of the removal loop: the entry sits at `i - deleted`, and removing it there exactly when it is unused extends the compacted prefix by one |
| Compaction.MappingShift | src/analyser/mod.rs:288 | a kept entry maps to `i - deleted`, which is below the number of kept entries; a removed one maps to `None` |
| Compaction.MappingOrder | src/analyser/mod.rs:280-293 | kept entries keep their relative order |
| Compaction.MappingOrigin | src/analyser/mod.rs:314-324 | every new index comes from one kept old index |
| Inference.RefinedTransitive | src/analyser/mod.rs:465-468 | a refinement of a refinement of the edges is a refinement |
| Inference.RefinedAntisymmetric | src/analyser/mod.rs:465-468 | edges refining each other are equal |
| Inference.RefinedUpdate | src/analyser/mod.rs:465-468 | writing a lower fact into one edge refines the edges, and changes them exactly when the fact differs |
| Inference.RefinedChain | src/analyser/mod.rs:465-468 | two refinements in a row are one, and one that ends where it started changed nothing at either stage |
| Inference.IdsTo | src/analyser/mod.rs:192 | lists exactly the edges into a node |
| Inference.IdsFrom | src/analyser/mod.rs:193-207 | lists exactly the edges out of a node |
| Inference.IdsIncreasing | src/analyser/mod.rs:192-207 | both adjacency lists hold edge positions in increasing order, the order the edges were created |
| Inference.NewEdgesInRange | src/analyser/mod.rs:180-205 | each new edge has its position as id and ends at nodes of the model; only the last one, the special output edge, has no end |
| Inference.NewIsLinked | src/analyser/mod.rs:174-207 | the graph built from a well-formed model is linked: the lists agree with the edges, and the spare slot past the last node is empty |
| Inference.MarksUpToMarked | src/analyser/mod.rs:280-293 | after visiting `i` nodes, an edge is marked exactly when a used node among them lists it |
| Inference.UsedEdges | src/analyser/mod.rs:271-291 | an edge is used exactly when some used node lists it as incoming or outgoing |
| Inference.PruneUnwrapsSucceed | src/analyser/mod.rs:298-331 | none of the `unwrap`s of `prune_unused` can fail: surviving nodes, their inputs and the edges they list are all mapped |
| Inference.PruneNodesWellFormed | src/analyser/mod.rs:297-301 | the surviving nodes are well-formed, with ids equal to positions, and there is one per used node |
| Inference.PruneEdgeEnds | src/analyser/mod.rs:303-311 | every end of a surviving edge names a surviving node |
| Inference.PruneListsLinked | src/analyser/mod.rs:328-332 | the renumbered adjacency lists point at surviving edges, which still end or start at the renumbered node |
| Inference.PruneKeepsLinked | src/analyser/mod.rs:269-335 | pruning keeps nodes, edges and adjacency lists in agreement |
| Inference.PruneKeepsUsedNodes | src/analyser/mod.rs:280-301 | a planned node survives under its mapped index with its name, operator and number of inputs |
| Inference.PruneMappingDropsUnused | src/analyser/mod.rs:278-288 | the mapping returned drops exactly the nodes absent from the plan |
| Inference.PropagateRefines | src/analyser/mod.rs:443-471 | unifying inferred facts into the target edges only refines facts, and reports a change exactly when some edge changed |
| Inference.PropagateFrame | src/analyser/mod.rs:236-238 | edges outside the targets are left as they were |
| Inference.PropagateAdvance | src/analyser/mod.rs:454-468 | one successful iteration of the loop keeps the refinement of the starting edges and the outcome still to come |
| Inference.StepRefines | src/analyser/mod.rs:398-472 | an inference step only refines facts, and reports a change exactly when some edge changed |
| Inference.PropagateApplies | src/analyser/mod.rs:443-468 | when unification succeeds, forward needs exactly one inferred fact and backward at least one per target edge, and every target edge ends with a fact that refines the inferred fact meant for it |
| Inference.StepApplies | src/analyser/mod.rs:398-472 | when a step succeeds after the rules inferred facts, every target edge of the node refines the inferred fact meant for it |
| Inference.Advance | src/analyser/mod.rs:385-391 | the next step stays inside the plan |
| Analysis.Analyser.constructor | src/analyser/mod.rs:174-228 | builds the input edges in node order and then the output edge, with their adjacency lists and unknown facts; the analyser is valid, at step 0 of pass 0, going forward |
| Analysis.Analyser.Hint | src/analyser/mod.rs:231-241 | a node past the spare slot is an error and changes nothing; otherwise the fact is unified into the node's outgoing edges in order, stopping at the first failure; only those edges change, on success each of them refines the hinted fact, and the analyser stays valid |
| Analysis.Analyser.TryStep | src/analyser/mod.rs:398-472 | the new edges and the outcome are those of one inference step at the current node and direction |
| Analysis.Analyser.UnifyInferred | src/analyser/mod.rs:437-471 | the loop over the target edges does what `Propagate` describes: same edges, same outcome, including the panics |
| Analysis.Analyser.RunStep | src/analyser/mod.rs:382-394 | one step, whose facts only get refined and which reports a change exactly when some edge changed; on success the cursor advances, wrapping into a new pass in the other direction, and on failure it stays |
| Analysis.Analyser.NextStep | src/analyser/mod.rs:385-391 | moves the cursor to the next step, starting a new pass in the other direction past the end of the plan |
| Analysis.Analyser.PruneUnused | src/analyser/mod.rs:269-335 | the new state and the returned mapping are those of `Prune`, so its lemmas apply; the analyser stays valid |
| Analysis.Analyser.RemoveUnusedNodes | src/analyser/mod.rs:277-293 | the node loop leaves the used nodes and their adjacency lists in order, marks exactly the edges they list, and returns the node mapping |
| Analysis.Analyser.VisitNode | src/analyser/mod.rs:281-292 | one iteration of the node loop extends the removal invariant by one node |
| Analysis.Analyser.RenumberNodes | src/analyser/mod.rs:298-301 | every node's id and inputs are rewritten through the node mapping |
| Analysis.Analyser.RenumberEdgeEnds | src/analyser/mod.rs:303-311 | every edge end is rewritten through the node mapping, and an end at a removed node becomes `None` |
| Analysis.Analyser.RemoveUnusedEdges | src/analyser/mod.rs:313-324 | the edge loop keeps exactly the used edges in order and returns the edge mapping |
| Analysis.Analyser.RenumberLists | src/analyser/mod.rs:328-332 | the adjacency lists of the nodes are rewritten through the edge mapping, and the spare slot is untouched |
| Analysis.Analyser.RunPass | src/analyser/mod.rs:357-363 | one pass over the plan only refines facts; it reports a change exactly when some edge changed; when nothing changed, every step in that direction is a fixpoint; the direction flips |
| Analysis.Analyser.RunTwoPasses | src/analyser/mod.rs:348-379 | two passes only refine facts and report a change exactly when some edge changed; when nothing changed, every step in both directions is a fixpoint; the direction ends as it started |
| Analysis.Analyser.Run | src/analyser/mod.rs:337-346 | facts only get refined; when the analysis ends, every step in both directions is a fixpoint of the rules |
| Analysis.SelectFact | src/analyser/mod.rs:444-452 | forward inference shares its single fact and backward inference gives one fact per target; too many forward facts or too few facts is a panic |
| Analysis.NewEdges | src/analyser/mod.rs:175-207 | builds exactly the graph `Analyser::new` describes, and it is linked |
| Analysis.AddAllInputEdges | src/analyser/mod.rs:180-195 | the input edges of all nodes, with exactly the matching adjacency lists |
| Analysis.AddInputEdges | src/analyser/mod.rs:181-194 | appends one node's input edges and keeps the adjacency lists exact |
| Analysis.AddOutputEdge | src/analyser/mod.rs:197-207 | appends the special output edge and lists it only under the output node |
| Analysis.MarkPlanned | src/analyser/mod.rs:270-274 | marks exactly the planned nodes |
| Analysis.MarkEdges | src/analyser/mod.rs:290-291 | marks the listed edges and keeps the earlier marks |
| Analysis.RemapInputs | src/analyser/mod.rs:300 | every input is renumbered through the node mapping |
| Analysis.RemapIds | src/analyser/mod.rs:330-331 | an adjacency list is renumbered through the edge mapping |
| OnnxArray.GetAttrOpt | onnx/src/ops/array/mod.rs:95-96 | an absent attribute gives `None`; one present with another kind is a type error; otherwise it gives the attribute |
| OnnxArray.GetAttr | onnx/src/ops/array/mod.rs:102 | an absent attribute is a missing-attribute error; one with another kind is a type error; otherwise it gives the attribute |
| OnnxArray.ToUsize | onnx/src/ops/array/mod.rs:38 | `as usize` keeps the 64-bit pattern: congruent to the input modulo 2^64 |
| OnnxArray.ToUsizeInjective | onnx/src/ops/array/mod.rs:38 | the cast loses no information, and a negative value reads as one of at least 2^63 |
| OnnxArray.CastAll | onnx/src/ops/array/mod.rs:61-65 | each size is the 64-bit pattern of its element: below 2^64, congruent to it modulo 2^64, and equal to it exactly when it is not negative |
| OnnxArray.ToI32 | onnx/src/ops/array/mod.rs:54 | `as i32` gives the 32-bit value congruent to the input modulo 2^32 |
| OnnxArray.DataTypeOf | onnx/src/ops/array/mod.rs:53-58 | a data-type code is accepted exactly when its 32-bit cast names a supported type; otherwise it is an error carrying the code |
| OnnxArray.MakeConst | onnx/src/ops/array/mod.rs:41-47 | a constant is built exactly for the number types, filled with the value; otherwise it is an error |
| OnnxArray.Concat | onnx/src/ops/array/mod.rs:36-39 | succeeds exactly with an integer `axis`, giving `Concat` on that axis; a missing axis is an error |
| OnnxArray.ConstantLike | onnx/src/ops/array/mod.rs:49-71 | with inputs it gives `ConstantLike` of `value` (0.0 by default); without inputs it gives a constant of `shape` filled with `value`, of type `dtype` (f32 by default); a bad `value`, a missing `shape`, an unknown or non-number `dtype` are errors |
| OnnxArray.EyeLike | onnx/src/ops/array/mod.rs:73-87 | succeeds exactly when `dtype` is absent or known and `k` is absent or an integer; the type stays optional and `k` defaults to 0 |
| OnnxArray.Flatten | onnx/src/ops/array/mod.rs:89-92 | the axis defaults to 1 |
| OnnxArray.PadModeOf | onnx/src/ops/array/mod.rs:97-101 | `reflect` and `edge` select those modes; anything else pads with `value`, 0.0 by default |
| OnnxArray.PadPairsLayout | onnx/src/ops/array/mod.rs:102-106 | laying the pairs out again gives back a non-negative, even-length `pads` list |
| OnnxArray.LayoutPadPairs | onnx/src/ops/array/mod.rs:102-106 | cutting the layout of pairs gives back the pairs |
| OnnxArray.Pad | onnx/src/ops/array/mod.rs:94-108 | succeeds exactly when `pads` is present and `mode` and `value` have the right kinds; a missing `pads` is an error; the pairs and the mode are as above |
| OnnxArray.Slice | onnx/src/ops/array/mod.rs:110-119 | requires `starts` and `ends`; `axes` stays optional and is cast to sizes |
| OnnxArray.Split | onnx/src/ops/array/mod.rs:121-129 | the axis defaults to 0; the number of outputs is the node's; the split sizes stay optional |
| OnnxArray.OptAxes | onnx/src/ops/array/mod.rs:132-134 | an optional integer list, cast to sizes |
| OnnxArray.Squeeze | onnx/src/ops/array/mod.rs:131-136 | the axes stay optional |
| OnnxArray.Transpose | onnx/src/ops/array/mod.rs:138-143 | the permutation stays optional |
| OnnxArray.Unsqueeze | onnx/src/ops/array/mod.rs:145-152 | the axes are required |
| OnnxArray.OpRegister.Insert | onnx/src/ops/array/mod.rs:12 | binds a name to a builder, replacing any earlier binding |
| OnnxArray.RegisterAllOps | onnx/src/ops/array/mod.rs:11-34 | the register ends as the fourteen insertions, in order, leave it |
| OnnxArray.RegisteredNames | onnx/src/ops/array/mod.rs:11-34 | exactly the fourteen array names are added, and every other binding is kept |
| OnnxArray.RegisteredBuilders | onnx/src/ops/array/mod.rs:12-33 | each attribute-reading name is bound to its own builder |
| OnnxArray.RegisteredFixedBuilders | onnx/src/ops/array/mod.rs:14-28 | `Expand`, `Reshape`, `Shape` and `Size` build their fixed operators (the last two with `i64` output) from any node |
| SliceOp.Offset | core/src/ops/array/slice.rs:22-23 | a multi-index inside the shape has a position inside the data |
| SliceOp.RowColumn | core/src/ops/array/slice.rs:22-23 | every position splits into a row and a column inside the row |
| SliceOp.Unravel | core/src/ops/array/slice.rs:22-23 | every position of the data is the position of some in-bounds multi-index |
| SliceOp.OffsetInjective | core/src/ops/array/slice.rs:22-23 | distinct multi-indices have distinct positions |
| SliceOp.UnravelOffset | core/src/ops/array/slice.rs:22-23 | position and multi-index are inverse to each other |
| SliceOp.Stop | core/src/ops/array/slice.rs:15-19 | the kept range of an axis ends `b` before the end, or at the end when `b` is 0, and never before its start |
| SliceOp.SlicedShape | core/src/ops/array/slice.rs:12-22 | each axis has length `len - a - b` when its two prunes fit in it, and length 0 otherwise |
| SliceOp.ShiftInBounds | core/src/ops/array/slice.rs:22 | an index of the slice, moved by the leading prunes, is inside the input |
| SliceOp.EvalT | core/src/ops/array/slice.rs:10-24 | succeeds exactly when there is one pair per axis and each bound fits its axis, otherwise it panics; the result keeps the element type and has the sliced shape |
| SliceOp.EvalTAt | core/src/ops/array/slice.rs:12-23 | each element of the slice is the input element at the index moved by the leading prunes |
| SliceOp.EvalTZero | core/src/ops/array/slice.rs:15-23 | pruning nothing gives the tensor back |
| SliceOp.Eval | core/src/ops/array/slice.rs:55-60 | exactly one input is accepted and sliced, keeping its element type |
| SliceOp.EvalTRules | core/src/ops/array/slice.rs:63-81 | an evaluated slice satisfies the rules exactly when the leading and trailing prunes of each axis do not overlap |
| SliceOp.RulesDetermineOutput | core/src/ops/array/slice.rs:70-79 | an output type satisfying the rules is the type of the evaluated slice |
| SliceOp.Pulsify | core/src/ops/array/slice.rs:32-50 | a slice that only prunes the streamed axis becomes the identity: its leading prune is added to the delay and taken off the stream length, and nothing else changes; any other slice is unsupported |
| SliceOp.PulsifyKeepsEnd | core/src/ops/array/slice.rs:40-43 | delay plus stream length is unchanged by pulsification |
| SliceOp.PulsifyMatchesEval | core/src/ops/array/slice.rs:40-43 | with no trailing prune on the streamed axis, the pulsified length is the evaluated slice's length on that axis, and the other axes are untouched |

## Left out

- `linalg/src/arm32.rs` is not part of this model. It selects ARM kernels and is not used by the modelled code.
- `Plan::for_nodes` is not modelled. The execution plan is a parameter of the constructor, required to name existing nodes (`PlanValid`). `prune_unused` is also required to have every input of a planned node planned (`PlanClosed`), which the plan of `Plan::for_nodes` satisfies.
- `into_model`, `reset_plan` and `propagate_constants` are not part of this model. They rebuild a model, recompute the plan, or call constant folding, which lives in another file.
- Logging and the text of error messages are left out. This includes the "While inferring…" and "While unifying…" prefixes; errors are modelled as a datatype.
- A node operator's `infer_forward` and `infer_backward` are a function parameter (`Rules`). Operator inference code lives elsewhere.
- Panics are modelled as the error `Panic`, not as preconditions. This covers forward inference with more than one output, fewer inferred facts than target edges, a `Slice` whose pairs do not fit the tensor, and a `Slice` pulsified on an axis it has no pair for. `unimplemented!()` in `pulsify` is the error `Unimplemented`.
- Analysis.Analyser.Run: bounded by a `fuel` parameter of pairs of passes. `run` loops until nothing changes, and with open shapes there is no bound on how long that takes. `Ok(false)` means the fuel ran out. `Run` states the fixpoint and the refinement on success, not the exact trace of passes.
- Analysis.Analyser.RunTwoPasses: states refinement, the change flag and the fixpoint when nothing changed, not the sequence of intermediate edges.
- Analysis.Analyser.PruneUnused: like the source, it renumbers neither the plan nor the `output` field. It also keeps each surviving edge's old `id` field.
- Analysis.Analyser.Hint: like the source, it accepts the spare slot `node == |nodes|` (the check is against the length of `next_edges`). Since no edge leaves that slot, this does nothing.
- The ONNX protobuf getters (`get_attr_*`) are not part of this model. `GetAttr` and `GetAttrOpt` state their assumed behaviour: a missing required attribute and an attribute of another kind are errors.
- `TensorProto_DataType::from_i32` followed by `tractify` is one table, `DataTypes`. The `dispatch_numbers!` type set is taken to be the signed and unsigned 8- and 16-bit integers, `i32`, `i64`, `f32` and `f64`.
- OnnxArray.Slice: the `as _` casts of `onnx/src/ops/array/mod.rs:115-117` target types declared in the ONNX `Slice` operator, which is not part of this model. Axes are cast to sizes; starts and ends are kept as 64-bit integers.
- Floating-point values are opaque bit patterns. The builders only pass them along, and the conversion of the fill value to the element type is not modelled.
- The tract operators built by the ONNX builders (other than `Slice`) are values of `TractOps.Op`. Their evaluation is not modelled.
- SliceOp.EvalT: ndarray's slicing is modelled by its result on dense row-major tensors. Prune values of 2^63 or more, which the `isize` cast would make negative, are not modelled.
- SliceOp.Pulsify: the stream dimension is a linear `stream * S + constant`, standing in for tract's symbolic `TDim`. The trailing prune of the streamed axis is ignored, as in the source, so `PulsifyMatchesEval` is only stated when that prune is 0.
- `TensorFact::new()` is taken to be (unknown type, open empty shape, unknown value). The facts' own file is not part of this model.
