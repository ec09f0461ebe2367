/** The analysed graph as values: edges annotated with facts, the adjacency
    lists, and what construction, pruning and inference steps do to them.
    The class `Analyser` (module Analysis) is proved against these
    functions. */
module Inference {
  import opened Wrappers
  import opened Facts
  import opened Unification
  import opened Graph
  import opened Compaction

  /** An edge of the analysed graph, annotated by a fact. `toNode` is `None`
      only for the special output edge. */
  datatype Edge = Edge(id: nat, fromNode: Option<nat>, fromOut: nat, toNode: Option<nat>, fact: TensorFact)

  datatype AnalysisError =
    | NoSuchNode(node: nat)
    | InferenceFailed(message: string)
    | UnifyFailed(cause: UnifyError)
    /** The source panics: an inferred fact list too short for the edges it
        must cover, or a forward inference with more than one output. */
    | Panic

  /** A node operator's inference rules: given the node, the direction
      (`true` for forward) and the facts of the edges on the source side,
      either an error, `None` (nothing can be inferred yet), or the inferred
      facts for the edges on the target side. */
  type Rules = (Node, bool, seq<TensorFact>) -> Result<Option<seq<TensorFact>>, string>

  /** The adjacency lists agree with the edges: `prev[i]` lists edges into
      node `i`, `next[i]` edges out of it, and every edge end names a node.
      Both lists have one spare slot past the last node. */
  predicate Linked(nodes: seq<Node>, edges: seq<Edge>, prev: seq<seq<nat>>, next: seq<seq<nat>>) {
    && WellFormed(nodes)
    && |prev| == |nodes| + 1 && |next| == |nodes| + 1
    && prev[|nodes|] == [] && next[|nodes|] == []
    && (forall j :: 0 <= j < |edges| && edges[j].fromNode.Some? ==> edges[j].fromNode.value < |nodes|)
    && (forall j :: 0 <= j < |edges| && edges[j].toNode.Some? ==> edges[j].toNode.value < |nodes|)
    && (forall i, k :: 0 <= i < |prev| && 0 <= k < |prev[i]| ==>
          prev[i][k] < |edges| && edges[prev[i][k]].toNode == Some(i))
    && (forall i, k :: 0 <= i < |next| && 0 <= k < |next[i]| ==>
          next[i][k] < |edges| && edges[next[i][k]].fromNode == Some(i))
  }

  /** What an inference step needs: node ids are positions and the
      adjacency lists only hold indices of the `ne` edges. */
  predicate Indexed(nodes: seq<Node>, ne: nat, prev: seq<seq<nat>>, next: seq<seq<nat>>) {
    && (forall i :: 0 <= i < |nodes| ==> nodes[i].id == i)
    && |prev| == |nodes| + 1 && |next| == |nodes| + 1
    && (forall i, k :: 0 <= i < |prev| && 0 <= k < |prev[i]| ==> prev[i][k] < ne)
    && (forall i, k :: 0 <= i < |next| && 0 <= k < |next[i]| ==> next[i][k] < ne)
  }

  lemma LinkedIndexed(nodes: seq<Node>, edges: seq<Edge>, prev: seq<seq<nat>>, next: seq<seq<nat>>)
    requires Linked(nodes, edges, prev, next)
    ensures Indexed(nodes, |edges|, prev, next)
  {
  }

  /** `a` is `b` with every fact refined and nothing else changed. */
  predicate Refined(a: seq<Edge>, b: seq<Edge>) {
    && |a| == |b|
    && forall j :: 0 <= j < |a| ==> a[j] == b[j].(fact := a[j].fact) && Le(a[j].fact, b[j].fact)
  }

  lemma RefinedReflexive(a: seq<Edge>)
    ensures Refined(a, a)
  {
    forall j | 0 <= j < |a|
      ensures Le(a[j].fact, a[j].fact)
    {
      LeReflexive(a[j].fact);
    }
  }

  lemma RefinedTransitive(a: seq<Edge>, b: seq<Edge>, c: seq<Edge>)
    requires Refined(a, b) && Refined(b, c)
    ensures Refined(a, c)
  {
    forall j | 0 <= j < |a|
      ensures Le(a[j].fact, c[j].fact)
    {
      LeTransitive(a[j].fact, b[j].fact, c[j].fact);
    }
  }

  lemma RefinedAntisymmetric(a: seq<Edge>, b: seq<Edge>)
    requires Refined(a, b) && Refined(b, a)
    ensures a == b
  {
    forall j | 0 <= j < |a|
      ensures a[j] == b[j]
    {
      LeAntisymmetric(a[j].fact, b[j].fact);
    }
  }

  /** Two refinements in a row are a refinement, and one that ends where
      it started changed nothing at either stage. */
  lemma RefinedChain(a: seq<Edge>, b: seq<Edge>, c: seq<Edge>)
    requires Refined(a, b) && Refined(b, c)
    ensures Refined(a, c)
    ensures a == c ==> a == b && b == c
  {
    RefinedTransitive(a, b, c);
    if a == c {
      RefinedAntisymmetric(a, b);
    }
  }

  /** Lowering one fact is a refinement, and a change exactly when the new
      fact differs. */
  lemma RefinedUpdate(es: seq<Edge>, j: nat, f: TensorFact)
    requires j < |es| && Le(f, es[j].fact)
    ensures Refined(es[j := es[j].(fact := f)], es)
    ensures es[j := es[j].(fact := f)] == es <==> f == es[j].fact
  {
    RefinedReflexive(es);
    if f == es[j].fact {
      assert es[j := es[j].(fact := f)] == es;
    } else {
      assert es[j := es[j].(fact := f)][j] != es[j];
    }
  }

  /** Refining facts never breaks the graph structure. */
  lemma RefinedKeepsLinked(nodes: seq<Node>, a: seq<Edge>, b: seq<Edge>, prev: seq<seq<nat>>, next: seq<seq<nat>>)
    requires Linked(nodes, b, prev, next) && Refined(a, b)
    ensures Linked(nodes, a, prev, next)
  {
    assert forall j :: 0 <= j < |a| ==> a[j].fromNode == b[j].fromNode && a[j].toNode == b[j].toNode;
  }

  // ---------------------------------------------------------------------
  // Construction (`Analyser::new`)

  /** Every node input, as the pair (consuming node id, input), in node
      order and then input order. */
  function InputPairs(nodes: seq<Node>): (ps: seq<(nat, Input)>)
  {
    if nodes == [] then [] else InputPairs(nodes[..|nodes| - 1]) + PairsOf(nodes[|nodes| - 1])
  }

  function PairsOf(n: Node): (ps: seq<(nat, Input)>)
    ensures |ps| == |n.inputs|
  {
    seq(|n.inputs|, k requires 0 <= k < |n.inputs| => (n.id, n.inputs[k]))
  }

  /** The edge created for one input; its id is its position `j`. */
  function InputEdge(j: nat, p: (nat, Input)): Edge {
    Edge(j, Some(p.1.node), p.1.slot.GetOr(0), Some(p.0), Unknown)
  }

  function EdgesOf(ps: seq<(nat, Input)>): (es: seq<Edge>)
    ensures |es| == |ps|
  {
    seq(|ps|, j requires 0 <= j < |ps| => InputEdge(j, ps[j]))
  }

  /** The special edge leaving the output node, created last. */
  function OutputEdge(j: nat, output: nat): Edge {
    Edge(j, Some(output), 0, None, Unknown)
  }

  /** The positions of the edges into node `i`, in increasing order. */
  function IdsTo(es: seq<Edge>, i: nat): (ids: seq<nat>)
    ensures forall k :: 0 <= k < |ids| ==> ids[k] < |es| && es[ids[k]].toNode == Some(i)
    ensures forall j :: 0 <= j < |es| && es[j].toNode == Some(i) ==> j in ids
  {
    if es == [] then []
    else
      var rest := IdsTo(es[..|es| - 1], i);
      assert forall k :: 0 <= k < |rest| ==> es[..|es| - 1][rest[k]] == es[rest[k]];
      rest + (if es[|es| - 1].toNode == Some(i) then [|es| - 1] else [])
  }

  /** The positions of the edges out of node `i`, in increasing order. */
  function IdsFrom(es: seq<Edge>, i: nat): (ids: seq<nat>)
    ensures forall k :: 0 <= k < |ids| ==> ids[k] < |es| && es[ids[k]].fromNode == Some(i)
    ensures forall j :: 0 <= j < |es| && es[j].fromNode == Some(i) ==> j in ids
  {
    if es == [] then []
    else
      var rest := IdsFrom(es[..|es| - 1], i);
      assert forall k :: 0 <= k < |rest| ==> es[..|es| - 1][rest[k]] == es[rest[k]];
      rest + (if es[|es| - 1].fromNode == Some(i) then [|es| - 1] else [])
  }

  /** Both lists of edge positions are in increasing order. */
  lemma {:induction false} IdsIncreasing(es: seq<Edge>, i: nat)
    ensures forall a, b :: 0 <= a < b < |IdsTo(es, i)| ==> IdsTo(es, i)[a] < IdsTo(es, i)[b]
    ensures forall a, b :: 0 <= a < b < |IdsFrom(es, i)| ==> IdsFrom(es, i)[a] < IdsFrom(es, i)[b]
  {
    if es != [] {
      IdsIncreasing(es[..|es| - 1], i);
    }
  }

  /** No edge ends (or starts) at a node no edge names. */
  lemma {:induction false} IdsNone(es: seq<Edge>, i: nat)
    requires forall j :: 0 <= j < |es| ==> es[j].toNode != Some(i) && es[j].fromNode != Some(i)
    ensures IdsTo(es, i) == [] && IdsFrom(es, i) == []
  {
    if es != [] {
      IdsNone(es[..|es| - 1], i);
    }
  }

  /** The input pairs of a node list extended by one node. */
  lemma InputPairsSnoc(nodes: seq<Node>, n: nat)
    requires n < |nodes|
    ensures InputPairs(nodes[..n + 1]) == InputPairs(nodes[..n]) + PairsOf(nodes[n])
  {
    assert nodes[..n + 1][..n] == nodes[..n];
  }

  lemma EdgesOfSnoc(ps: seq<(nat, Input)>, p: (nat, Input))
    ensures EdgesOf(ps + [p]) == EdgesOf(ps) + [InputEdge(|ps|, p)]
  {
  }

  lemma IdsSnoc(es: seq<Edge>, e: Edge, i: nat)
    ensures IdsTo(es + [e], i) == IdsTo(es, i) + (if e.toNode == Some(i) then [|es|] else [])
    ensures IdsFrom(es + [e], i) == IdsFrom(es, i) + (if e.fromNode == Some(i) then [|es|] else [])
  {
    assert (es + [e])[..|es|] == es;
  }

  /** The input edges of a well-formed node list only name existing nodes. */
  lemma InputPairsInRange(nodes: seq<Node>, n: nat)
    requires WellFormed(nodes) && n <= |nodes|
    ensures forall j :: 0 <= j < |InputPairs(nodes[..n])| ==>
      InputPairs(nodes[..n])[j].0 < |nodes| && InputPairs(nodes[..n])[j].1.node < |nodes|
    decreases n
  {
    if n > 0 {
      InputPairsInRange(nodes, n - 1);
      InputPairsSnoc(nodes, n - 1);
    }
  }

  /** What `Analyser::new` builds from a model: one edge per node input,
      in node order, then the special output edge, and the adjacency lists
      of these edges, with one spare slot past the last node. */
  predicate NewGraph(nodes: seq<Node>, output: nat, edges: seq<Edge>, prev: seq<seq<nat>>, next: seq<seq<nat>>) {
    && edges == EdgesOf(InputPairs(nodes)) + [OutputEdge(|InputPairs(nodes)|, output)]
    && |prev| == |nodes| + 1 && (forall i :: 0 <= i < |prev| ==> prev[i] == IdsTo(edges, i))
    && |next| == |nodes| + 1 && (forall i :: 0 <= i < |next| ==> next[i] == IdsFrom(edges, i))
  }

  /** The graph built from a well-formed model is linked. */
  lemma NewIsLinked(nodes: seq<Node>, output: nat, edges: seq<Edge>, prev: seq<seq<nat>>, next: seq<seq<nat>>)
    requires WellFormed(nodes) && output < |nodes| && NewGraph(nodes, output, edges, prev, next)
    ensures Linked(nodes, edges, prev, next)
  {
    NewEdgesInRange(nodes, output, edges);
    IdsNone(edges, |nodes|);
  }

  /** Each edge built by `Analyser::new` has its position as id, starts and
      ends at a node of the model, and only the last one has no end. */
  lemma NewEdgesInRange(nodes: seq<Node>, output: nat, edges: seq<Edge>)
    requires WellFormed(nodes) && output < |nodes|
    requires edges == EdgesOf(InputPairs(nodes)) + [OutputEdge(|InputPairs(nodes)|, output)]
    ensures forall j :: 0 <= j < |edges| ==>
      && edges[j].id == j
      && (edges[j].toNode.None? <==> j == |edges| - 1)
      && (edges[j].fromNode.Some? ==> edges[j].fromNode.value < |nodes|)
      && (edges[j].toNode.Some? ==> edges[j].toNode.value < |nodes|)
  {
    InputPairsInRange(nodes, |nodes|);
    assert nodes[..|nodes|] == nodes;
  }

  // ---------------------------------------------------------------------
  // Pruning (`Analyser::prune_unused`)

  /** `node_used`: the nodes that appear in the plan. */
  function UsedNodes(plan: seq<nat>, n: nat): (used: seq<bool>)
    ensures |used| == n
    ensures forall i :: 0 <= i < n ==> (used[i] <==> i in plan)
  {
    seq(n, i => i in plan)
  }

  predicate PlanValid(plan: seq<nat>, n: nat) {
    forall s :: 0 <= s < |plan| ==> plan[s] < n
  }

  /** Every input of a planned node is itself planned (the plan of
      `Plan::for_nodes` contains every ancestor of the output). */
  predicate PlanClosed(nodes: seq<Node>, plan: seq<nat>) {
    forall s, k :: 0 <= s < |plan| && plan[s] < |nodes| && 0 <= k < |nodes[plan[s]].inputs| ==>
      nodes[plan[s]].inputs[k].node in plan
  }

  predicate Mapped(m: seq<Option<nat>>, i: nat) {
    i < |m| && m[i].Some?
  }

  /** A surviving node with its id and its inputs rewritten through the
      node mapping (the `unwrap`s of `prune_unused`). */
  function RemapNode(n: Node, m: seq<Option<nat>>): Node
    requires Mapped(m, n.id) && forall k :: 0 <= k < |n.inputs| ==> Mapped(m, n.inputs[k].node)
  {
    n.(id := m[n.id].value,
       inputs := seq(|n.inputs|, k requires 0 <= k < |n.inputs| && Mapped(m, n.inputs[k].node) =>
                   n.inputs[k].(node := m[n.inputs[k].node].value)))
  }

  function RemapEnd(o: Option<nat>, m: seq<Option<nat>>): Option<nat>
    requires o.Some? ==> o.value < |m|
  {
    if o.Some? then m[o.value] else None
  }

  /** An edge with both ends rewritten through the node mapping; an end at a
      removed node becomes `None`. The edge's `id` is left as it was. */
  function RemapEdge(e: Edge, m: seq<Option<nat>>): Edge
    requires e.fromNode.Some? ==> e.fromNode.value < |m|
    requires e.toNode.Some? ==> e.toNode.value < |m|
  {
    e.(fromNode := RemapEnd(e.fromNode, m), toNode := RemapEnd(e.toNode, m))
  }

  /** An adjacency list rewritten through the edge mapping. */
  function RemapList(l: seq<nat>, m: seq<Option<nat>>): (r: seq<nat>)
    requires forall k :: 0 <= k < |l| ==> Mapped(m, l[k])
    ensures |r| == |l|
  {
    seq(|l|, k requires 0 <= k < |l| && Mapped(m, l[k]) => m[l[k]].value)
  }

  /** Every node of a list renumbered. */
  function RemapNodes(ns: seq<Node>, m: seq<Option<nat>>): (r: seq<Node>)
    requires forall k :: 0 <= k < |ns| ==>
      Mapped(m, ns[k].id) && forall q :: 0 <= q < |ns[k].inputs| ==> Mapped(m, ns[k].inputs[q].node)
    ensures |r| == |ns|
  {
    seq(|ns|, k requires 0 <= k < |ns| => RemapNode(ns[k], m))
  }

  /** Every edge of a list with its ends renumbered. */
  function RemapEdges(es: seq<Edge>, m: seq<Option<nat>>): (r: seq<Edge>)
    requires forall j :: 0 <= j < |es| ==>
      (es[j].fromNode.Some? ==> es[j].fromNode.value < |m|) && (es[j].toNode.Some? ==> es[j].toNode.value < |m|)
    ensures |r| == |es|
  {
    seq(|es|, j requires 0 <= j < |es| => RemapEdge(es[j], m))
  }

  /** Every adjacency list of a list rewritten through the edge mapping. */
  function RemapLists(ls: seq<seq<nat>>, m: seq<Option<nat>>): (r: seq<seq<nat>>)
    requires forall k, q :: 0 <= k < |ls| && 0 <= q < |ls[k]| ==> Mapped(m, ls[k][q])
    ensures |r| == |ls|
  {
    seq(|ls|, k requires 0 <= k < |ls| => RemapList(ls[k], m))
  }

  /** Edge `e` is listed by some used node among the first `i`. */
  predicate MarkedBefore(prev: seq<seq<nat>>, next: seq<seq<nat>>, used: seq<bool>, i: nat, e: nat)
    requires i <= |used| <= |prev| && |used| <= |next|
  {
    exists q :: 0 <= q < i && used[q] && (e in prev[q] || e in next[q])
  }

  /** Marking node `i` adds exactly the edges it lists, if it is used. */
  lemma MarkedStep(prev: seq<seq<nat>>, next: seq<seq<nat>>, used: seq<bool>, i: nat, e: nat)
    requires i < |used| <= |prev| && |used| <= |next|
    ensures MarkedBefore(prev, next, used, i + 1, e) <==>
      MarkedBefore(prev, next, used, i, e) || (used[i] && (e in prev[i] || e in next[i]))
  {
    if MarkedBefore(prev, next, used, i + 1, e) {
      var q :| 0 <= q < i + 1 && used[q] && (e in prev[q] || e in next[q]);
      if q < i {
        assert MarkedBefore(prev, next, used, i, e);
      }
    }
  }

  /** `marks` with the edges of `list` marked as well. */
  function Mark(marks: seq<bool>, list: seq<nat>): (m: seq<bool>)
    ensures |m| == |marks|
  {
    seq(|marks|, e requires 0 <= e < |marks| => marks[e] || e in list)
  }

  /** The edge marks of `prune_unused` once its first loop has visited the
      first `i` nodes. */
  function MarksUpTo(prev: seq<seq<nat>>, next: seq<seq<nat>>, used: seq<bool>, i: nat, ne: nat): (m: seq<bool>)
    requires i <= |used| <= |prev| && |used| <= |next|
    ensures |m| == ne
  {
    if i == 0 then seq(ne, _ => false)
    else
      var m := MarksUpTo(prev, next, used, i - 1, ne);
      if used[i - 1] then Mark(Mark(m, prev[i - 1]), next[i - 1]) else m
  }

  /** The marks are exactly the edges listed by a used node among the first
      `i`. */
  lemma {:induction false} MarksUpToMarked(prev: seq<seq<nat>>, next: seq<seq<nat>>, used: seq<bool>, i: nat, ne: nat)
    requires i <= |used| <= |prev| && |used| <= |next|
    ensures forall e :: 0 <= e < ne ==> (MarksUpTo(prev, next, used, i, ne)[e] <==> MarkedBefore(prev, next, used, i, e))
  {
    if i > 0 {
      MarksUpToMarked(prev, next, used, i - 1, ne);
      forall e | 0 <= e < ne
        ensures MarksUpTo(prev, next, used, i, ne)[e] <==> MarkedBefore(prev, next, used, i, e)
      {
        MarkedStep(prev, next, used, i - 1, e);
      }
    }
  }

  /** `edge_used`: exactly the edges listed by a used node. */
  function UsedEdges(prev: seq<seq<nat>>, next: seq<seq<nat>>, used: seq<bool>, ne: nat): (keep: seq<bool>)
    requires |used| <= |prev| && |used| <= |next|
    ensures |keep| == ne
    ensures forall e :: 0 <= e < ne ==> (keep[e] <==> MarkedBefore(prev, next, used, |used|, e))
  {
    MarksUpToMarked(prev, next, used, |used|, ne);
    MarksUpTo(prev, next, used, |used|, ne)
  }

  /** The state left by `prune_unused`, and the node mapping it returns. */
  datatype Pruned = Pruned(nodes: seq<Node>, edges: seq<Edge>, prev: seq<seq<nat>>, next: seq<seq<nat>>,
                           mapping: seq<Option<nat>>)

  /** The preconditions of the `unwrap`s of `prune_unused` hold: surviving
      nodes and their inputs are mapped, and so are the edges they list. */
  lemma PruneUnwrapsSucceed(nodes: seq<Node>, edges: seq<Edge>, prev: seq<seq<nat>>, next: seq<seq<nat>>, plan: seq<nat>)
    requires Linked(nodes, edges, prev, next) && PlanValid(plan, |nodes|) && PlanClosed(nodes, plan)
    ensures forall k :: 0 <= k < |Compact(nodes, UsedNodes(plan, |nodes|))| ==>
      var n := Compact(nodes, UsedNodes(plan, |nodes|))[k];
      Mapped(Mapping(UsedNodes(plan, |nodes|)), n.id)
      && forall q :: 0 <= q < |n.inputs| ==> Mapped(Mapping(UsedNodes(plan, |nodes|)), n.inputs[q].node)
    ensures forall k, q :: (0 <= k < |Compact(prev[..|nodes|], UsedNodes(plan, |nodes|))|
      && 0 <= q < |Compact(prev[..|nodes|], UsedNodes(plan, |nodes|))[k]|) ==>
      Mapped(Mapping(UsedEdges(prev, next, UsedNodes(plan, |nodes|), |edges|)),
             Compact(prev[..|nodes|], UsedNodes(plan, |nodes|))[k][q])
    ensures forall k, q :: (0 <= k < |Compact(next[..|nodes|], UsedNodes(plan, |nodes|))|
      && 0 <= q < |Compact(next[..|nodes|], UsedNodes(plan, |nodes|))[k]|) ==>
      Mapped(Mapping(UsedEdges(prev, next, UsedNodes(plan, |nodes|), |edges|)),
             Compact(next[..|nodes|], UsedNodes(plan, |nodes|))[k][q])
  {
    var used := UsedNodes(plan, |nodes|);
    var m := Mapping(used);
    var keep := UsedEdges(prev, next, used, |edges|);
    var cn := Compact(nodes, used);
    forall k | 0 <= k < |cn|
      ensures Mapped(m, cn[k].id) && forall q :: 0 <= q < |cn[k].inputs| ==> Mapped(m, cn[k].inputs[q].node)
    {
      var i := CompactOrigin(nodes, used, |nodes|, k);
      assert cn[k] == nodes[i] && nodes[i].id == i;
      var s :| 0 <= s < |plan| && plan[s] == i;
      forall q | 0 <= q < |cn[k].inputs|
        ensures Mapped(m, cn[k].inputs[q].node)
      {
        assert nodes[plan[s]].inputs[q].node in plan;
      }
    }
    var cp := Compact(prev[..|nodes|], used);
    forall k, q | 0 <= k < |cp| && 0 <= q < |cp[k]|
      ensures Mapped(Mapping(keep), cp[k][q])
    {
      var i := CompactOrigin(prev[..|nodes|], used, |nodes|, k);
      assert cp[k] == prev[i];
      assert MarkedBefore(prev, next, used, |used|, cp[k][q]);
    }
    var cx := Compact(next[..|nodes|], used);
    forall k, q | 0 <= k < |cx| && 0 <= q < |cx[k]|
      ensures Mapped(Mapping(keep), cx[k][q])
    {
      var i := CompactOrigin(next[..|nodes|], used, |nodes|, k);
      assert cx[k] == next[i];
      assert MarkedBefore(prev, next, used, |used|, cx[k][q]);
    }
  }

  /** `prune_unused` as a function of the state before it: the unused nodes
      are removed and the others renumbered; edges listed by a used node
      survive with their ends renumbered; the adjacency lists of the used
      nodes survive, rewritten to the new edge indices, and the spare slot
      is kept as it was. */
  function Prune(nodes: seq<Node>, edges: seq<Edge>, prev: seq<seq<nat>>, next: seq<seq<nat>>, plan: seq<nat>): Pruned
    requires Linked(nodes, edges, prev, next) && PlanValid(plan, |nodes|) && PlanClosed(nodes, plan)
  {
    var n := |nodes|;
    var used := UsedNodes(plan, n);
    var m := Mapping(used);
    var keep := UsedEdges(prev, next, used, |edges|);
    var em := Mapping(keep);
    var cn := Compact(nodes, used);
    var cp := Compact(prev[..n], used);
    var cx := Compact(next[..n], used);
    PruneUnwrapsSucceed(nodes, edges, prev, next, plan);
    Pruned(
      RemapNodes(cn, m),
      Compact(RemapEdges(edges, m), keep),
      RemapLists(cp, em) + [prev[n]],
      RemapLists(cx, em) + [next[n]],
      m)
  }

  /** Pruning leaves a well-formed node list, with one node per used node. */
  lemma PruneNodesWellFormed(nodes: seq<Node>, edges: seq<Edge>, prev: seq<seq<nat>>, next: seq<seq<nat>>, plan: seq<nat>)
    requires Linked(nodes, edges, prev, next) && PlanValid(plan, |nodes|) && PlanClosed(nodes, plan)
    ensures WellFormed(Prune(nodes, edges, prev, next, plan).nodes)
    ensures |Prune(nodes, edges, prev, next, plan).nodes| == Rank(UsedNodes(plan, |nodes|), |nodes|)
  {
    var used := UsedNodes(plan, |nodes|);
    var m := Mapping(used);
    var ns := Prune(nodes, edges, prev, next, plan).nodes;
    var cn := Compact(nodes, used);
    forall k | 0 <= k < |ns|
      ensures ns[k].id == k
      ensures forall q :: 0 <= q < |ns[k].inputs| ==> ns[k].inputs[q].node < |ns|
    {
      var i := CompactOrigin(nodes, used, |nodes|, k);
      assert ns[k] == RemapNode(nodes[i], m);
      var s :| 0 <= s < |plan| && plan[s] == i;
      forall q | 0 <= q < |ns[k].inputs|
        ensures ns[k].inputs[q].node < |ns|
      {
        var x := nodes[i].inputs[q].node;
        assert nodes[plan[s]].inputs[q].node in plan;
        MappingShift(used, x);
      }
    }
  }

  /** Every end of a surviving edge names a surviving node. */
  lemma PruneEdgeEnds(nodes: seq<Node>, edges: seq<Edge>, prev: seq<seq<nat>>, next: seq<seq<nat>>, plan: seq<nat>)
    requires Linked(nodes, edges, prev, next) && PlanValid(plan, |nodes|) && PlanClosed(nodes, plan)
    ensures var p := Prune(nodes, edges, prev, next, plan);
      forall j :: 0 <= j < |p.edges| ==>
        && (p.edges[j].fromNode.Some? ==> p.edges[j].fromNode.value < Rank(UsedNodes(plan, |nodes|), |nodes|))
        && (p.edges[j].toNode.Some? ==> p.edges[j].toNode.value < Rank(UsedNodes(plan, |nodes|), |nodes|))
  {
    var used := UsedNodes(plan, |nodes|);
    var m := Mapping(used);
    var keep := UsedEdges(prev, next, used, |edges|);
    var re := RemapEdges(edges, m);
    var es := Prune(nodes, edges, prev, next, plan).edges;
    assert es == Compact(re, keep);
    forall p | 0 <= p < |es|
      ensures es[p].fromNode.Some? ==> es[p].fromNode.value < Rank(used, |nodes|)
      ensures es[p].toNode.Some? ==> es[p].toNode.value < Rank(used, |nodes|)
    {
      var j := CompactOrigin(re, keep, |edges|, p);
      assert es[p] == RemapEdge(edges[j], m);
      if edges[j].fromNode.Some? {
        MappingShift(used, edges[j].fromNode.value);
      }
      if edges[j].toNode.Some? {
        MappingShift(used, edges[j].toNode.value);
      }
    }
  }

  /** The surviving adjacency lists point at the surviving edges, which
      still end (or start) at the renumbered node. */
  lemma PruneListsLinked(nodes: seq<Node>, edges: seq<Edge>, prev: seq<seq<nat>>, next: seq<seq<nat>>, plan: seq<nat>)
    requires Linked(nodes, edges, prev, next) && PlanValid(plan, |nodes|) && PlanClosed(nodes, plan)
    ensures var p := Prune(nodes, edges, prev, next, plan);
      && |p.prev| == |p.next| == Rank(UsedNodes(plan, |nodes|), |nodes|) + 1
      && (forall i, k :: 0 <= i < |p.prev| && 0 <= k < |p.prev[i]| ==>
            p.prev[i][k] < |p.edges| && p.edges[p.prev[i][k]].toNode == Some(i))
      && (forall i, k :: 0 <= i < |p.next| && 0 <= k < |p.next[i]| ==>
            p.next[i][k] < |p.edges| && p.edges[p.next[i][k]].fromNode == Some(i))
  {
    var n := |nodes|;
    var used := UsedNodes(plan, n);
    var m := Mapping(used);
    var keep := UsedEdges(prev, next, used, |edges|);
    var em := Mapping(keep);
    var re := RemapEdges(edges, m);
    var P := Prune(nodes, edges, prev, next, plan);
    assert P.edges == Compact(re, keep);
    var cp := Compact(prev[..n], used);
    var cx := Compact(next[..n], used);
    assert P.prev[|cp|] == [] && P.next[|cx|] == [];
    forall i, k | 0 <= i < |cp| && 0 <= k < |P.prev[i]|
      ensures P.prev[i][k] < |P.edges| && P.edges[P.prev[i][k]].toNode == Some(i)
    {
      var o := CompactOrigin(prev[..n], used, n, i);
      assert cp[i] == prev[o];
      var e := prev[o][k];
      assert MarkedBefore(prev, next, used, |used|, e);
      assert P.prev[i][k] == Rank(keep, e);
      CompactAt(re, keep, |edges|, e);
    }
    forall i, k | 0 <= i < |cx| && 0 <= k < |P.next[i]|
      ensures P.next[i][k] < |P.edges| && P.edges[P.next[i][k]].fromNode == Some(i)
    {
      var o := CompactOrigin(next[..n], used, n, i);
      assert cx[i] == next[o];
      var e := next[o][k];
      assert MarkedBefore(prev, next, used, |used|, e);
      assert P.next[i][k] == Rank(keep, e);
      CompactAt(re, keep, |edges|, e);
    }
  }

  /** Pruning preserves the agreement of nodes, edges and adjacency lists. */
  lemma PruneKeepsLinked(nodes: seq<Node>, edges: seq<Edge>, prev: seq<seq<nat>>, next: seq<seq<nat>>, plan: seq<nat>)
    requires Linked(nodes, edges, prev, next) && PlanValid(plan, |nodes|) && PlanClosed(nodes, plan)
    ensures var p := Prune(nodes, edges, prev, next, plan); Linked(p.nodes, p.edges, p.prev, p.next)
  {
    PruneNodesWellFormed(nodes, edges, prev, next, plan);
    PruneEdgeEnds(nodes, edges, prev, next, plan);
    PruneListsLinked(nodes, edges, prev, next, plan);
  }

  /** A surviving node keeps its name and operator, and so does its
      relative order with the other survivors. */
  lemma PruneKeepsUsedNodes(nodes: seq<Node>, edges: seq<Edge>, prev: seq<seq<nat>>, next: seq<seq<nat>>, plan: seq<nat>, i: nat)
    requires Linked(nodes, edges, prev, next) && PlanValid(plan, |nodes|) && PlanClosed(nodes, plan)
    requires i < |nodes| && i in plan
    ensures var p := Prune(nodes, edges, prev, next, plan);
      && p.mapping[i].Some? && p.mapping[i].value < |p.nodes|
      && p.nodes[p.mapping[i].value].name == nodes[i].name
      && p.nodes[p.mapping[i].value].opName == nodes[i].opName
      && |p.nodes[p.mapping[i].value].inputs| == |nodes[i].inputs|
  {
    var used := UsedNodes(plan, |nodes|);
    CompactAt(nodes, used, |nodes|, i);
  }

  /** Exactly the unused nodes are dropped from the mapping. */
  lemma PruneMappingDropsUnused(nodes: seq<Node>, edges: seq<Edge>, prev: seq<seq<nat>>, next: seq<seq<nat>>, plan: seq<nat>, i: nat)
    requires Linked(nodes, edges, prev, next) && PlanValid(plan, |nodes|) && PlanClosed(nodes, plan)
    requires i < |nodes|
    ensures Prune(nodes, edges, prev, next, plan).mapping[i].None? <==> i !in plan
  {
  }

  // ---------------------------------------------------------------------
  // Inference steps (`try_step`, `run_step`, `run_two_passes`)

  /** The position of the node visited at `step`: the plan is walked
      forwards in a forward pass and backwards in a backward pass. */
  function StepNode(plan: seq<nat>, step: nat, forward: bool): nat
    requires step < |plan|
  {
    if forward then plan[step] else plan[|plan| - 1 - step]
  }

  /** Unifies inferred facts into the edges `targets[i..]`, one after the
      other, stopping at the first failure with the edges updated so far.
      A forward inference supplies one fact shared by every target; a
      backward one supplies a fact per target. The flag says whether some
      fact changed. */
  function Propagate(es: seq<Edge>, targets: seq<nat>, inferred: seq<TensorFact>, forward: bool, i: nat)
    : (out: (seq<Edge>, Result<bool, AnalysisError>))
    requires i <= |targets|
    requires forall k :: 0 <= k < |targets| ==> targets[k] < |es|
    ensures |out.0| == |es|
    decreases |targets| - i
  {
    if i == |targets| then (es, Ok(false))
    else if forward && |inferred| > 1 then (es, Err(Panic))
    else
      var f := if forward then 0 else i;
      if f >= |inferred| then (es, Err(Panic))
      else
        var j := targets[i];
        var u := Unify(inferred[f], es[j].fact);
        if u.Err? then (es, Err(UnifyFailed(u.error)))
        else
          var rest := Propagate(es[j := es[j].(fact := u.value)], targets, inferred, forward, i + 1);
          (rest.0, Join(u.value != es[j].fact, rest.1))
  }

  /** Propagation only refines facts, and reports a change exactly when
      some fact changed. */
  lemma {:induction false} PropagateRefines(es: seq<Edge>, targets: seq<nat>, inferred: seq<TensorFact>, forward: bool, i: nat)
    requires i <= |targets|
    requires forall k :: 0 <= k < |targets| ==> targets[k] < |es|
    ensures var out := Propagate(es, targets, inferred, forward, i);
      && Refined(out.0, es)
      && (out.1.Ok? ==> (out.1.value <==> out.0 != es))
    decreases |targets| - i
  {
    RefinedReflexive(es);
    var f := if forward then 0 else i;
    if i < |targets| && !(forward && |inferred| > 1) && f < |inferred| {
      var j := targets[i];
      var u := Unify(inferred[f], es[j].fact);
      if u.Ok? {
        UnifyLowerBound(inferred[f], es[j].fact);
        RefinedUpdate(es, j, u.value);
        var es' := es[j := es[j].(fact := u.value)];
        PropagateRefines(es', targets, inferred, forward, i + 1);
        RefinedChain(Propagate(es', targets, inferred, forward, i + 1).0, es', es);
      }
    }
  }

  /** Propagation leaves every edge that is not one of the remaining
      targets exactly as it was. */
  lemma {:induction false} PropagateFrame(es: seq<Edge>, targets: seq<nat>, inferred: seq<TensorFact>, forward: bool, i: nat)
    requires i <= |targets|
    requires forall k :: 0 <= k < |targets| ==> targets[k] < |es|
    ensures forall j :: 0 <= j < |es| && j !in targets[i..] ==> Propagate(es, targets, inferred, forward, i).0[j] == es[j]
    decreases |targets| - i
  {
    var f := if forward then 0 else i;
    if i < |targets| && !(forward && |inferred| > 1) && f < |inferred| {
      var t := targets[i];
      var u := Unify(inferred[f], es[t].fact);
      if u.Ok? {
        var es' := es[t := es[t].(fact := u.value)];
        PropagateFrame(es', targets, inferred, forward, i + 1);
        forall j | 0 <= j < |es| && j !in targets[i..]
          ensures Propagate(es, targets, inferred, forward, i).0[j] == es[j]
        {
          assert targets[i..] == [t] + targets[i + 1..];
        }
      }
    }
  }

  /** What propagation is for: when it succeeds, every remaining target
      edge ends up with a fact that refines the inferred fact meant for it
      (the shared one forward, the target's own one backward). */
  lemma {:induction false} PropagateApplies(es: seq<Edge>, targets: seq<nat>, inferred: seq<TensorFact>, forward: bool, i: nat)
    requires i <= |targets|
    requires forall k :: 0 <= k < |targets| ==> targets[k] < |es|
    ensures var out := Propagate(es, targets, inferred, forward, i);
      out.1.Ok? && i < |targets| ==> if forward then |inferred| == 1 else |targets| <= |inferred|
    ensures var out := Propagate(es, targets, inferred, forward, i);
      out.1.Ok? ==> forall k :: i <= k < |targets| ==>
        Le(out.0[targets[k]].fact, inferred[if forward then 0 else k])
    decreases |targets| - i
  {
    var f := if forward then 0 else i;
    if i < |targets| && !(forward && |inferred| > 1) && f < |inferred| {
      var j := targets[i];
      var u := Unify(inferred[f], es[j].fact);
      if u.Ok? {
        var es' := es[j := es[j].(fact := u.value)];
        var rest := Propagate(es', targets, inferred, forward, i + 1);
        PropagateApplies(es', targets, inferred, forward, i + 1);
        if rest.1.Ok? {
          PropagateRefines(es', targets, inferred, forward, i + 1);
          UnifyLowerBound(inferred[f], es[j].fact);
          LeTransitive(rest.0[j].fact, u.value, inferred[f]);
          var out := Propagate(es, targets, inferred, forward, i);
          assert out.0 == rest.0;
          forall k | i <= k < |targets|
            ensures Le(out.0[targets[k]].fact, inferred[if forward then 0 else k])
          {
            if k > i {
              assert Le(rest.0[targets[k]].fact, inferred[if forward then 0 else k]);
            }
          }
        }
      }
    }
  }

  /** `PropagateApplies` for a single fact propagated forward, stated per
      edge position rather than per target. */
  lemma PropagateAppliesTo(es: seq<Edge>, targets: seq<nat>, fact: TensorFact)
    requires forall k :: 0 <= k < |targets| ==> targets[k] < |es|
    ensures var out := Propagate(es, targets, [fact], true, 0);
      out.1.Ok? ==> forall j :: 0 <= j < |out.0| && j in targets ==> Le(out.0[j].fact, fact)
  {
    PropagateApplies(es, targets, [fact], true, 0);
    var out := Propagate(es, targets, [fact], true, 0);
    forall j | 0 <= j < |out.0| && j in targets && out.1.Ok?
      ensures Le(out.0[j].fact, fact)
    {
      var k :| 0 <= k < |targets| && targets[k] == j;
    }
  }

  /** One step of `Propagate`, unfolded. */
  lemma PropagateUnfold(es: seq<Edge>, targets: seq<nat>, inferred: seq<TensorFact>, forward: bool, i: nat)
    requires i < |targets|
    requires forall k :: 0 <= k < |targets| ==> targets[k] < |es|
    requires !(forward && |inferred| > 1) && (if forward then 0 else i) < |inferred|
    ensures var u := Unify(inferred[if forward then 0 else i], es[targets[i]].fact);
      && (u.Err? ==> Propagate(es, targets, inferred, forward, i) == (es, Err(UnifyFailed(u.error))))
      && (u.Ok? ==>
            var es' := es[targets[i] := es[targets[i]].(fact := u.value)];
            Propagate(es, targets, inferred, forward, i)
              == (Propagate(es', targets, inferred, forward, i + 1).0,
                  Join(u.value != es[targets[i]].fact, Propagate(es', targets, inferred, forward, i + 1).1)))
  {
  }

  /** One successful unification of `Propagate`, taken as a loop does it:
      the fact is written back only when it changed, and the overall
      outcome and the refinement of the starting edges carry over to the
      next target. */
  lemma PropagateAdvance(start: seq<Edge>, es: seq<Edge>, changed: bool, es': seq<Edge>, changed': bool,
                         targets: seq<nat>, inferred: seq<TensorFact>, forward: bool, i: nat)
    requires i < |targets| && |es| == |start|
    requires forall k :: 0 <= k < |targets| ==> targets[k] < |es|
    requires !(forward && |inferred| > 1) && (if forward then 0 else i) < |inferred|
    requires Unify(inferred[if forward then 0 else i], es[targets[i]].fact).Ok?
    requires Refined(es, start)
    requires Propagate(start, targets, inferred, forward, 0)
      == (Propagate(es, targets, inferred, forward, i).0, Join(changed, Propagate(es, targets, inferred, forward, i).1))
    requires var j := targets[i];
      var u := Unify(inferred[if forward then 0 else i], es[j].fact).value;
      && es' == (if u != es[j].fact then es[j := es[j].(fact := u)] else es)
      && changed' == (changed || u != es[j].fact)
    ensures Refined(es', start)
    ensures Propagate(start, targets, inferred, forward, 0)
      == (Propagate(es', targets, inferred, forward, i + 1).0, Join(changed', Propagate(es', targets, inferred, forward, i + 1).1))
  {
    var j := targets[i];
    var f := inferred[if forward then 0 else i];
    var u := Unify(f, es[j].fact).value;
    PropagateUnfold(es, targets, inferred, forward, i);
    UnifyLowerBound(f, es[j].fact);
    RefinedUpdate(es, j, u);
    RefinedTransitive(es[j := es[j].(fact := u)], es, start);
  }

  /** Adds an earlier change flag to a later outcome; errors win. */
  function Join(changed: bool, r: Result<bool, AnalysisError>): (j: Result<bool, AnalysisError>)
    ensures j.Err? <==> r.Err?
    ensures r.Err? ==> j == r
    ensures r.Ok? ==> j.value == (changed || r.value)
  {
    if r.Ok? then Ok(changed || r.value) else r
  }

  /** The facts of the edges listed in `ids`, in order. */
  function FactsOf(edges: seq<Edge>, ids: seq<nat>): (facts: seq<TensorFact>)
    requires forall k :: 0 <= k < |ids| ==> ids[k] < |edges|
    ensures |facts| == |ids|
  {
    seq(|ids|, k requires 0 <= k < |ids| => edges[ids[k]].fact)
  }

  /** One inference step at the node of `step`: read the facts of its
      source edges, run its rules, and unify what they infer into its
      target edges. Forward, the sources are the incoming edges and the
      targets the outgoing ones; backward, the other way round. */
  function Step(nodes: seq<Node>, edges: seq<Edge>, prev: seq<seq<nat>>, next: seq<seq<nat>>,
                plan: seq<nat>, rules: Rules, step: nat, forward: bool)
    : (out: (seq<Edge>, Result<bool, AnalysisError>))
    requires Indexed(nodes, |edges|, prev, next) && PlanValid(plan, |nodes|) && step < |plan|
    ensures |out.0| == |edges|
  {
    var node := nodes[StepNode(plan, step, forward)];
    var source := if forward then prev[node.id] else next[node.id];
    var target := if forward then next[node.id] else prev[node.id];
    match rules(node, forward, FactsOf(edges, source))
    case Err(msg) => (edges, Err(InferenceFailed(msg)))
    case Ok(None) => (edges, Ok(false))
    case Ok(Some(inferred)) => Propagate(edges, target, inferred, forward, 0)
  }

  /** The first `n` steps of a pass in direction `forward` change nothing
      and succeed: the facts are a fixpoint of those nodes' rules. */
  ghost predicate Quiet(nodes: seq<Node>, edges: seq<Edge>, prev: seq<seq<nat>>, next: seq<seq<nat>>,
                        plan: seq<nat>, rules: Rules, forward: bool, n: nat)
    requires Indexed(nodes, |edges|, prev, next) && PlanValid(plan, |nodes|) && n <= |plan|
  {
    forall s :: 0 <= s < n ==> Step(nodes, edges, prev, next, plan, rules, s, forward) == (edges, Ok(false))
  }

  lemma QuietExtend(nodes: seq<Node>, edges: seq<Edge>, prev: seq<seq<nat>>, next: seq<seq<nat>>,
                    plan: seq<nat>, rules: Rules, forward: bool, n: nat)
    requires Indexed(nodes, |edges|, prev, next) && PlanValid(plan, |nodes|) && n < |plan|
    requires Quiet(nodes, edges, prev, next, plan, rules, forward, n)
    requires Step(nodes, edges, prev, next, plan, rules, n, forward) == (edges, Ok(false))
    ensures Quiet(nodes, edges, prev, next, plan, rules, forward, n + 1)
  {
  }

  /** A step only refines facts, and reports a change exactly when some
      fact changed. */
  lemma StepRefines(nodes: seq<Node>, edges: seq<Edge>, prev: seq<seq<nat>>, next: seq<seq<nat>>,
                    plan: seq<nat>, rules: Rules, step: nat, forward: bool)
    requires Indexed(nodes, |edges|, prev, next) && PlanValid(plan, |nodes|) && step < |plan|
    ensures var out := Step(nodes, edges, prev, next, plan, rules, step, forward);
      && Refined(out.0, edges)
      && (out.1.Ok? ==> (out.1.value <==> out.0 != edges))
  {
    RefinedReflexive(edges);
    var node := nodes[StepNode(plan, step, forward)];
    var target := if forward then next[node.id] else prev[node.id];
    forall inferred: seq<TensorFact>
      ensures var out := Propagate(edges, target, inferred, forward, 0);
        Refined(out.0, edges) && (out.1.Ok? ==> (out.1.value <==> out.0 != edges))
    {
      PropagateRefines(edges, target, inferred, forward, 0);
    }
  }

  /** When a step succeeds after its rules inferred facts, every target
      edge of the node refines the inferred fact meant for it. */
  lemma StepApplies(nodes: seq<Node>, edges: seq<Edge>, prev: seq<seq<nat>>, next: seq<seq<nat>>,
                    plan: seq<nat>, rules: Rules, step: nat, forward: bool)
    requires Indexed(nodes, |edges|, prev, next) && PlanValid(plan, |nodes|) && step < |plan|
    ensures var node := nodes[StepNode(plan, step, forward)];
      var source := if forward then prev[node.id] else next[node.id];
      var target := if forward then next[node.id] else prev[node.id];
      var out := Step(nodes, edges, prev, next, plan, rules, step, forward);
      var inferred := rules(node, forward, FactsOf(edges, source));
      out.1.Ok? && inferred.Ok? && inferred.value.Some? ==>
        && (0 < |target| ==> if forward then |inferred.value.value| == 1 else |target| <= |inferred.value.value|)
        && forall k :: 0 <= k < |target| ==>
             Le(out.0[target[k]].fact, inferred.value.value[if forward then 0 else k])
  {
    var node := nodes[StepNode(plan, step, forward)];
    var target := if forward then next[node.id] else prev[node.id];
    forall inferred: seq<TensorFact>
      ensures var out := Propagate(edges, target, inferred, forward, 0);
        out.1.Ok? ==>
          && (0 < |target| ==> if forward then |inferred| == 1 else |target| <= |inferred|)
          && forall k :: 0 <= k < |target| ==>
               Le(out.0[target[k]].fact, inferred[if forward then 0 else k])
    {
      PropagateApplies(edges, target, inferred, forward, 0);
    }
  }

  /** The position in the plan, the number of completed passes and the
      direction of the current pass. */
  datatype Cursor = Cursor(step: nat, pass: nat, forward: bool)

  /** Moves to the next step; past the end of the plan a new pass starts,
      in the other direction. */
  function Advance(c: Cursor, len: nat): (d: Cursor)
    requires c.step < len
    ensures d.step < len
  {
    if c.step + 1 == len then Cursor(0, c.pass + 1, !c.forward) else c.(step := c.step + 1)
  }
}
