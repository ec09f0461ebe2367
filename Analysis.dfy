/** The graph analyser: a mutable graph whose edges carry facts, refined
    step by step by the inference rules of the nodes until nothing changes. */
module Analysis {
  import opened Wrappers
  import opened Facts
  import opened Unification
  import opened Graph
  import opened Compaction
  import opened Inference

  class Analyser {
    /** The output node the analyser was built for. */
    var output: nat
    var nodes: seq<Node>
    var edges: seq<Edge>
    var prevEdges: seq<seq<nat>>
    var nextEdges: seq<seq<nat>>
    /** The execution plan: node indices in an order that puts every node
        after its inputs. */
    var plan: seq<nat>
    var currentPass: nat
    var currentStep: nat
    var currentDirection: bool

    ghost predicate Valid()
      reads this
    {
      && Linked(nodes, edges, prevEdges, nextEdges)
      && (currentStep < |plan| || currentStep == 0)
    }

    /** Builds the edges of a model: one per node input, in node order, plus
        a special edge leaving the output node, with every fact unknown.
        The execution plan is supplied by the caller. */
    constructor(model: seq<Node>, output: nat, plan: seq<nat>)
      requires WellFormed(model) && output < |model| && PlanValid(plan, |model|)
      ensures Valid()
      ensures this.output == output && nodes == model && this.plan == plan
      ensures NewGraph(model, output, edges, prevEdges, nextEdges)
      ensures currentPass == 0 && currentStep == 0 && currentDirection
    {
      var es, prev, next := NewEdges(model, output);
      this.output := output;
      nodes := model;
      edges := es;
      prevEdges := prev;
      nextEdges := next;
      this.plan := plan;
      currentPass := 0;
      currentStep := 0;
      currentDirection := true;
    }

    /** Unifies a user-provided fact into every edge leaving `node`, in
        order, stopping at the first failure. */
    method Hint(node: nat, fact: TensorFact) returns (r: Result<(), AnalysisError>)
      requires Valid()
      modifies this`edges
      ensures Valid()
      ensures node >= |nextEdges| ==> r == Err(NoSuchNode(node)) && edges == old(edges)
      ensures node < |nextEdges| ==>
        var out := Propagate(old(edges), nextEdges[node], [fact], true, 0);
        edges == out.0 && r == (if out.1.Ok? then Ok(()) else Err(out.1.error))
      ensures node < |nextEdges| ==>
        forall j :: 0 <= j < |edges| && j !in nextEdges[node] ==> edges[j] == old(edges)[j]
      ensures node < |nextEdges| && r.Ok? ==>
        forall j :: 0 <= j < |edges| && j in nextEdges[node] ==> Le(edges[j].fact, fact)
    {
      if node >= |nextEdges| {
        return Err(NoSuchNode(node));
      }
      var targets := nextEdges[node];
      ghost var start := edges;
      PropagateRefines(start, targets, [fact], true, 0);
      PropagateFrame(start, targets, [fact], true, 0);
      PropagateAppliesTo(start, targets, fact);
      assert targets[0..] == targets;
      ghost var changed := false;
      for k := 0 to |targets|
        invariant |edges| == |start|
        invariant Propagate(start, targets, [fact], true, 0)
          == (Propagate(edges, targets, [fact], true, k).0, Join(changed, Propagate(edges, targets, [fact], true, k).1))
      {
        var j := targets[k];
        PropagateUnfold(edges, targets, [fact], true, k);
        var unified := Unify(fact, edges[j].fact);
        if unified.Err? {
          RefinedKeepsLinked(nodes, edges, start, prevEdges, nextEdges);
          return Err(UnifyFailed(unified.error));
        }
        changed := changed || unified.value != edges[j].fact;
        edges := edges[j := edges[j].(fact := unified.value)];
      }
      RefinedKeepsLinked(nodes, edges, start, prevEdges, nextEdges);
      return Ok(());
    }

    /** One inference step at the node of the current step, in the current
        direction; the counters are left alone. */
    method TryStep(rules: Rules) returns (r: Result<bool, AnalysisError>)
      requires Valid() && PlanValid(plan, |nodes|) && currentStep < |plan|
      modifies this`edges
      ensures Valid()
      ensures (edges, r) == Step(nodes, old(edges), prevEdges, nextEdges, plan, rules, currentStep, currentDirection)
    {
      LinkedIndexed(nodes, edges, prevEdges, nextEdges);
      var node := if currentDirection then nodes[plan[currentStep]] else nodes[plan[|plan| - 1 - currentStep]];
      var source := if currentDirection then prevEdges[node.id] else nextEdges[node.id];
      var target := if currentDirection then nextEdges[node.id] else prevEdges[node.id];
      var outcome := rules(node, currentDirection, FactsOf(edges, source));
      ghost var step := Step(nodes, edges, prevEdges, nextEdges, plan, rules, currentStep, currentDirection);
      assert node == nodes[StepNode(plan, currentStep, currentDirection)];
      if outcome.Err? {
        return Err(InferenceFailed(outcome.error));
      }
      if outcome.value.None? {
        return Ok(false);
      }
      var inferred := outcome.value.value;
      assert step == Propagate(edges, target, inferred, currentDirection, 0);
      r := UnifyInferred(target, inferred, currentDirection);
    }

    /** The loop of `try_step`: unifies the inferred facts into the target
        edges, one after the other, stopping at the first failure. */
    method UnifyInferred(target: seq<nat>, inferred: seq<TensorFact>, forward: bool) returns (r: Result<bool, AnalysisError>)
      requires Valid()
      requires forall k :: 0 <= k < |target| ==> target[k] < |edges|
      modifies this`edges
      ensures Valid()
      ensures (edges, r) == Propagate(old(edges), target, inferred, forward, 0)
    {
      ghost var start := edges;
      RefinedReflexive(edges);
      var changed := false;
      for k := 0 to |target|
        invariant Refined(edges, start) && Linked(nodes, start, prevEdges, nextEdges)
        invariant Propagate(start, target, inferred, forward, 0)
          == (Propagate(edges, target, inferred, forward, k).0,
              Join(changed, Propagate(edges, target, inferred, forward, k).1))
      {
        var j := target[k];
        var picked := SelectFact(inferred, forward, k);
        if picked.Err? {
          RefinedKeepsLinked(nodes, edges, start, prevEdges, nextEdges);
          return Err(Panic);
        }
        var fact := picked.value;
        var unified := Unify(fact, edges[j].fact);
        if unified.Err? {
          PropagateUnfold(edges, target, inferred, forward, k);
          RefinedKeepsLinked(nodes, edges, start, prevEdges, nextEdges);
          return Err(UnifyFailed(unified.error));
        }
        ghost var before, wasChanged := edges, changed;
        if unified.value != edges[j].fact {
          edges := edges[j := edges[j].(fact := unified.value)];
          changed := true;
        }
        PropagateAdvance(start, before, wasChanged, edges, changed, target, inferred, forward, k);
      }
      RefinedKeepsLinked(nodes, edges, start, prevEdges, nextEdges);
      return Ok(changed);
    }

    /** One step, then on to the next one: past the end of the plan a new
        pass starts, in the other direction. A failed step leaves the
        counters as they were. */
    method RunStep(rules: Rules) returns (r: Result<bool, AnalysisError>)
      requires Valid() && PlanValid(plan, |nodes|) && currentStep < |plan|
      modifies this`edges, this`currentStep, this`currentPass, this`currentDirection
      ensures Valid()
      ensures (edges, r) == Step(nodes, old(edges), prevEdges, nextEdges, plan, rules, old(currentStep), old(currentDirection))
      ensures Refined(edges, old(edges)) && (r.Ok? ==> (r.value <==> edges != old(edges)))
      ensures r.Err? ==> currentStep == old(currentStep) && currentPass == old(currentPass)
                         && currentDirection == old(currentDirection)
      ensures r.Ok? ==> Cursor(currentStep, currentPass, currentDirection)
                        == Advance(Cursor(old(currentStep), old(currentPass), old(currentDirection)), |plan|)
    {
      LinkedIndexed(nodes, edges, prevEdges, nextEdges);
      StepRefines(nodes, edges, prevEdges, nextEdges, plan, rules, currentStep, currentDirection);
      r := TryStep(rules);
      if r.Ok? {
        NextStep();
      }
    }

    /** The counter update of `run_step`. */
    method NextStep()
      requires currentStep < |plan|
      modifies this`currentStep, this`currentPass, this`currentDirection
      ensures Cursor(currentStep, currentPass, currentDirection)
              == Advance(Cursor(old(currentStep), old(currentPass), old(currentDirection)), |plan|)
    {
      currentStep := currentStep + 1;
      if currentStep == |plan| {
        currentPass := currentPass + 1;
        currentDirection := !currentDirection;
        currentStep := 0;
      }
    }

    /** Removes the nodes that are not in the plan, and the edges no
        surviving node lists, renumbering what survives; returns the node
        mapping. The new state is `Prune` of the old one, and the graph
        stays consistent. The plan and the output node are left as they
        were. */
    method PruneUnused() returns (mapping: seq<Option<nat>>)
      requires Valid() && PlanValid(plan, |nodes|) && PlanClosed(nodes, plan)
      modifies this`nodes, this`edges, this`prevEdges, this`nextEdges
      ensures Valid()
      ensures Pruned(nodes, edges, prevEdges, nextEdges, mapping)
           == Prune(old(nodes), old(edges), old(prevEdges), old(nextEdges), plan)
    {
      ghost var N, E, P, X := nodes, edges, prevEdges, nextEdges;
      ghost var p := Prune(N, E, P, X, plan);
      var nodeUsed := MarkPlanned(plan, |nodes|);
      var edgeUsed;
      edgeUsed, mapping := RemoveUnusedNodes(nodeUsed, |edges|);
      PruneUnwrapsSucceed(N, E, P, X, plan);
      RenumberNodes(mapping);
      assert nodes == p.nodes;
      RenumberEdgeEnds(mapping);
      var edgeMapping := RemoveUnusedEdges(edgeUsed);
      assert edges == p.edges;
      ghost var cp, cx := Compact(P[..|N|], nodeUsed), Compact(X[..|N|], nodeUsed);
      assert prevEdges[..|nodes|] == cp && nextEdges[..|nodes|] == cx;
      RenumberLists(edgeMapping);
      assert prevEdges == p.prev;
      assert nextEdges == p.next;
      PruneKeepsLinked(N, E, P, X, plan);
    }

    /** The first loop of `prune_unused`: every unused node is removed, with
        its two adjacency lists, at its current position `i - deleted`; a
        used node gets its new index and marks the edges it lists. The
        spare adjacency slot is never touched. */
    method RemoveUnusedNodes(used: seq<bool>, ne: nat) returns (edgeUsed: seq<bool>, mapping: seq<Option<nat>>)
      requires |used| == |nodes| && |prevEdges| == |nodes| + 1 && |nextEdges| == |nodes| + 1
      requires forall i, k :: 0 <= i < |prevEdges| && 0 <= k < |prevEdges[i]| ==> prevEdges[i][k] < ne
      requires forall i, k :: 0 <= i < |nextEdges| && 0 <= k < |nextEdges[i]| ==> nextEdges[i][k] < ne
      modifies this`nodes, this`prevEdges, this`nextEdges
      ensures nodes == Compact(old(nodes), used)
      ensures prevEdges == Compact(old(prevEdges)[..|used|], used) + [old(prevEdges)[|used|]]
      ensures nextEdges == Compact(old(nextEdges)[..|used|], used) + [old(nextEdges)[|used|]]
      ensures edgeUsed == UsedEdges(old(prevEdges), old(nextEdges), used, ne)
      ensures mapping == Mapping(used)
    {
      ghost var N, P, X := nodes, prevEdges, nextEdges;
      var n := |nodes|;
      edgeUsed := seq(ne, _ => false);
      mapping := seq(n, _ => None);
      var deleted := 0;
      assert N[0..] == N && P[0..] == P && X[0..] == X;
      for i := 0 to n
        invariant RemovedUpTo(N, P, X, used, ne, i, deleted, edgeUsed, mapping)
      {
        deleted, edgeUsed, mapping := VisitNode(N, P, X, used, ne, i, deleted, edgeUsed, mapping);
      }
      assert N[..n] == N && N[n..] == [];
      assert P[n..] == [P[n]] && X[n..] == [X[n]];
      assert mapping == Mapping(used);
    }

    /** The state of the first loop of `prune_unused` once it has visited
        the first `i` nodes. */
    ghost predicate RemovedUpTo(N: seq<Node>, P: seq<seq<nat>>, X: seq<seq<nat>>, used: seq<bool>, ne: nat,
                                i: nat, deleted: nat, edgeUsed: seq<bool>, mapping: seq<Option<nat>>)
      reads this
    {
      && |used| == |N| && |P| == |N| + 1 && |X| == |N| + 1 && i <= |N|
      && (forall q, k :: 0 <= q < |P| && 0 <= k < |P[q]| ==> P[q][k] < ne)
      && (forall q, k :: 0 <= q < |X| && 0 <= k < |X[q]| ==> X[q][k] < ne)
      && deleted == Deleted(used, i)
      && nodes == CompactUpTo(N[..|N|], used, i) + N[i..]
      && prevEdges == CompactUpTo(P[..|N|], used, i) + P[i..]
      && nextEdges == CompactUpTo(X[..|N|], used, i) + X[i..]
      && edgeUsed == MarksUpTo(P, X, used, i, ne)
      && |mapping| == |N| && forall q :: 0 <= q < |N| ==> mapping[q] == (if q < i then Mapping(used)[q] else None)
    }

    /** One round of the first loop of `prune_unused`, at node `i`. */
    method VisitNode(ghost N: seq<Node>, ghost P: seq<seq<nat>>, ghost X: seq<seq<nat>>, used: seq<bool>, ghost ne: nat,
                     i: nat, deleted: nat, edgeUsed: seq<bool>, mapping: seq<Option<nat>>)
      returns (deleted': nat, edgeUsed': seq<bool>, mapping': seq<Option<nat>>)
      requires RemovedUpTo(N, P, X, used, ne, i, deleted, edgeUsed, mapping) && i < |N|
      modifies this`nodes, this`prevEdges, this`nextEdges
      ensures RemovedUpTo(N, P, X, used, ne, i + 1, deleted', edgeUsed', mapping')
    {
      deleted', edgeUsed', mapping' := deleted, edgeUsed, mapping;
      RankPlusDeleted(used, i);
      CompactRemoveStep(N, used, i, nodes, i - deleted);
      CompactRemoveStep(P, used, i, prevEdges, i - deleted);
      CompactRemoveStep(X, used, i, nextEdges, i - deleted);
      if !used[i] {
        nodes := nodes[..i - deleted] + nodes[i - deleted + 1..];
        prevEdges := prevEdges[..i - deleted] + prevEdges[i - deleted + 1..];
        nextEdges := nextEdges[..i - deleted] + nextEdges[i - deleted + 1..];
        deleted' := deleted + 1;
      } else {
        mapping' := mapping[i := Some(i - deleted)];
        edgeUsed' := MarkEdges(edgeUsed, prevEdges[i - deleted]);
        edgeUsed' := MarkEdges(edgeUsed', nextEdges[i - deleted]);
      }
    }

    /** The second loop of `prune_unused`: each node's id and inputs are
        rewritten through the node mapping. */
    method RenumberNodes(mapping: seq<Option<nat>>)
      requires forall k :: 0 <= k < |nodes| ==>
        Mapped(mapping, nodes[k].id) && forall q :: 0 <= q < |nodes[k].inputs| ==> Mapped(mapping, nodes[k].inputs[q].node)
      modifies this`nodes
      ensures nodes == RemapNodes(old(nodes), mapping)
    {
      ghost var N := nodes;
      for k := 0 to |nodes|
        invariant |nodes| == |N|
        invariant forall l :: 0 <= l < k ==> nodes[l] == RemapNode(N[l], mapping)
        invariant forall l :: k <= l < |nodes| ==> nodes[l] == N[l]
      {
        var node := nodes[k];
        var inputs := RemapInputs(node.inputs, mapping);
        nodes := nodes[k := node.(id := mapping[node.id].value, inputs := inputs)];
      }
      assert nodes == RemapNodes(N, mapping);
    }

    /** The third loop of `prune_unused`: each end of each edge is rewritten
        through the node mapping, an end at a removed node becoming `None`. */
    method RenumberEdgeEnds(mapping: seq<Option<nat>>)
      requires forall j :: 0 <= j < |edges| ==>
        (edges[j].fromNode.Some? ==> edges[j].fromNode.value < |mapping|)
        && (edges[j].toNode.Some? ==> edges[j].toNode.value < |mapping|)
      modifies this`edges
      ensures edges == RemapEdges(old(edges), mapping)
    {
      ghost var E := edges;
      for j := 0 to |edges|
        invariant |edges| == |E|
        invariant forall l :: 0 <= l < j ==> edges[l] == RemapEdge(E[l], mapping)
        invariant forall l :: j <= l < |edges| ==> edges[l] == E[l]
      {
        var edge := edges[j];
        if edge.fromNode.Some? {
          edge := edge.(fromNode := mapping[edge.fromNode.value]);
        }
        if edge.toNode.Some? {
          edge := edge.(toNode := mapping[edge.toNode.value]);
        }
        edges := edges[j := edge];
      }
      assert edges == RemapEdges(E, mapping);
    }

    /** The fourth loop of `prune_unused`: every unused edge is removed at
        its current position `i - deleted`; a used one gets its new index. */
    method RemoveUnusedEdges(used: seq<bool>) returns (mapping: seq<Option<nat>>)
      requires |used| == |edges|
      modifies this`edges
      ensures edges == Compact(old(edges), used)
      ensures mapping == Mapping(used)
    {
      ghost var E := edges;
      var n := |edges|;
      mapping := seq(n, _ => None);
      var deleted := 0;
      for i := 0 to n
        invariant deleted == Deleted(used, i)
        invariant edges == CompactUpTo(E[..n], used, i) + E[i..]
        invariant |mapping| == n && forall q :: 0 <= q < n ==> mapping[q] == (if q < i then Mapping(used)[q] else None)
      {
        RankPlusDeleted(used, i);
        CompactRemoveStep(E, used, i, edges, i - deleted);
        if !used[i] {
          edges := edges[..i - deleted] + edges[i - deleted + 1..];
          deleted := deleted + 1;
        } else {
          mapping := mapping[i := Some(i - deleted)];
        }
      }
      assert E[..n] == E;
    }

    /** The last loop of `prune_unused`: the adjacency lists of the nodes are
        rewritten through the edge mapping; the spare slot is not. */
    method RenumberLists(mapping: seq<Option<nat>>)
      requires |prevEdges| == |nodes| + 1 && |nextEdges| == |nodes| + 1
      requires forall i, k :: 0 <= i < |nodes| && 0 <= k < |prevEdges[i]| ==> Mapped(mapping, prevEdges[i][k])
      requires forall i, k :: 0 <= i < |nodes| && 0 <= k < |nextEdges[i]| ==> Mapped(mapping, nextEdges[i][k])
      modifies this`prevEdges, this`nextEdges
      ensures prevEdges == RemapLists(old(prevEdges)[..|nodes|], mapping) + [old(prevEdges)[|nodes|]]
      ensures nextEdges == RemapLists(old(nextEdges)[..|nodes|], mapping) + [old(nextEdges)[|nodes|]]
    {
      ghost var P, X := prevEdges, nextEdges;
      for i := 0 to |nodes|
        invariant |prevEdges| == |P| && |nextEdges| == |X|
        invariant forall l :: 0 <= l < i ==> prevEdges[l] == RemapList(P[l], mapping) && nextEdges[l] == RemapList(X[l], mapping)
        invariant forall l :: i <= l < |prevEdges| ==> prevEdges[l] == P[l] && nextEdges[l] == X[l]
      {
        var prev := RemapIds(prevEdges[i], mapping);
        var next := RemapIds(nextEdges[i], mapping);
        prevEdges := prevEdges[i := prev];
        nextEdges := nextEdges[i := next];
      }
      assert prevEdges == RemapLists(P[..|nodes|], mapping) + [P[|nodes|]];
      assert nextEdges == RemapLists(X[..|nodes|], mapping) + [X[|nodes|]];
    }

    /** The whole analysis: rounds of two passes until a round changes
        nothing, with the pass counter restarted. The analysis of a model
        need not settle in a bounded number of rounds, so the rounds are
        bounded by `fuel`: `Ok(true)` says a round changed nothing and the
        facts are a fixpoint of every node's rules in both directions,
        `Ok(false)` that the rounds ran out first. */
    method Run(rules: Rules, fuel: nat) returns (r: Result<bool, AnalysisError>)
      requires Valid() && PlanValid(plan, |nodes|)
      modifies this`edges, this`currentStep, this`currentPass, this`currentDirection
      ensures Valid()
      ensures Refined(edges, old(edges))
      ensures r == Ok(true) ==>
        && Indexed(nodes, |edges|, prevEdges, nextEdges)
        && forall s, forward :: 0 <= s < |plan| ==>
             Step(nodes, edges, prevEdges, nextEdges, plan, rules, s, forward) == (edges, Ok(false))
      ensures r.Ok? ==> currentDirection == old(currentDirection)
      ensures r == Ok(false) ==> currentPass == (if |plan| > 0 then 2 * fuel else 0)
    {
      ghost var start := edges;
      RefinedReflexive(edges);
      currentPass := 0;
      var round := 0;
      while round < fuel
        invariant Valid() && Refined(edges, start) && round <= fuel
        invariant currentDirection == old(currentDirection)
        invariant currentPass == (if |plan| > 0 then 2 * round else 0)
      {
        ghost var before := edges;
        var changed := RunTwoPasses(rules);
        RefinedChain(edges, before, start);
        if changed.Err? {
          return changed;
        }
        if !changed.value {
          return Ok(true);
        }
        round := round + 1;
      }
      return Ok(false);
    }

    /** A pass over the whole plan in the current direction followed by a
        pass in the other direction, stopping at the first failed step.
        Facts are only refined; the flag says whether some fact changed;
        and when none did, every node of the plan infers nothing new from
        the facts in either direction: they are a fixpoint. */
    method RunTwoPasses(rules: Rules) returns (r: Result<bool, AnalysisError>)
      requires Valid() && PlanValid(plan, |nodes|)
      modifies this`edges, this`currentStep, this`currentPass, this`currentDirection
      ensures Valid()
      ensures Refined(edges, old(edges))
      ensures r.Ok? ==> (r.value <==> edges != old(edges))
      ensures r == Ok(false) ==>
        && Indexed(nodes, |edges|, prevEdges, nextEdges)
        && forall s, forward :: 0 <= s < |plan| ==>
             Step(nodes, edges, prevEdges, nextEdges, plan, rules, s, forward) == (edges, Ok(false))
      ensures r.Ok? ==> currentStep == 0 && currentDirection == old(currentDirection)
                        && currentPass == old(currentPass) + (if |plan| > 0 then 2 else 0)
    {
      ghost var start := edges;
      currentStep := 0;
      var first := RunPass(rules);
      if first.Err? {
        return first;
      }
      ghost var middle := edges;
      currentStep := 0;
      var second := RunPass(rules);
      RefinedChain(edges, middle, start);
      if second.Err? {
        return second;
      }
      return Ok(first.value || second.value);
    }

    /** One of the two loops of `run_two_passes`: `|plan|` steps from the
        start of the plan, stopping at the first failed step. Facts are
        only refined; the flag says whether some fact changed; and when
        none did, every node of the plan infers nothing new in the
        direction of the pass. A complete pass turns the direction round. */
    method RunPass(rules: Rules) returns (r: Result<bool, AnalysisError>)
      requires Valid() && PlanValid(plan, |nodes|) && currentStep == 0
      modifies this`edges, this`currentStep, this`currentPass, this`currentDirection
      ensures Valid()
      ensures Refined(edges, old(edges))
      ensures r.Ok? ==> (r.value <==> edges != old(edges))
      ensures r == Ok(false) ==>
        && Indexed(nodes, |edges|, prevEdges, nextEdges)
        && forall s :: 0 <= s < |plan| ==>
             Step(nodes, edges, prevEdges, nextEdges, plan, rules, s, old(currentDirection)) == (edges, Ok(false))
      ensures r.Ok? ==>
        && currentStep == 0
        && currentDirection == (if |plan| > 0 then !old(currentDirection) else old(currentDirection))
        && currentPass == old(currentPass) + (if |plan| > 0 then 1 else 0)
    {
      ghost var start := edges;
      ghost var d := currentDirection;
      ghost var p := currentPass;
      ghost var N, P, X, L := nodes, prevEdges, nextEdges, plan;
      LinkedIndexed(nodes, edges, prevEdges, nextEdges);
      RefinedReflexive(edges);
      var changed := false;
      for i := 0 to |plan|
        invariant Valid() && Indexed(nodes, |start|, prevEdges, nextEdges)
        invariant Refined(edges, start) && (changed <==> edges != start)
        invariant nodes == N && prevEdges == P && nextEdges == X && plan == L
        invariant !changed ==> Quiet(N, start, P, X, L, rules, d, i)
        invariant i < |plan| ==> currentStep == i && currentPass == p && currentDirection == d
        invariant i == |plan| && |plan| > 0 ==> currentStep == 0 && currentPass == p + 1 && currentDirection == !d
        invariant |plan| == 0 ==> currentStep == 0 && currentPass == p && currentDirection == d
      {
        ghost var before := edges;
        var stepped := RunStep(rules);
        RefinedChain(edges, before, start);
        if stepped.Err? {
          return stepped;
        }
        if stepped.value {
          changed := true;
        }
        if !changed {
          QuietExtend(N, start, P, X, L, rules, d, i);
        }
      }
      return Ok(changed);
    }
  }

  /** The inferred fact for the `i`-th target: the single forward fact,
      or the `i`-th backward one. More than one forward fact, or too few,
      is a panic. */
  method SelectFact(inferred: seq<TensorFact>, forward: bool, i: nat) returns (r: Result<TensorFact, AnalysisError>)
    ensures r.Ok? <==> !(forward && |inferred| > 1) && (if forward then 0 else i) < |inferred|
    ensures r.Ok? ==> r.value == inferred[if forward then 0 else i]
    ensures r.Err? ==> r.error == Panic
  {
    if forward {
      if |inferred| > 1 {
        return Err(Panic);
      }
      if |inferred| == 0 {
        return Err(Panic);
      }
      return Ok(inferred[0]);
    }
    if i >= |inferred| {
      return Err(Panic);
    }
    return Ok(inferred[i]);
  }

  /** The end of `Analyser::new`: the special edge leaving the output
      node, recorded in the output node's outgoing list. */
  method AddOutputEdge(es: seq<Edge>, prev: seq<seq<nat>>, next: seq<seq<nat>>, output: nat)
    returns (es': seq<Edge>, next': seq<seq<nat>>)
    requires output < |next|
    requires forall i :: 0 <= i < |prev| ==> prev[i] == IdsTo(es, i)
    requires forall i :: 0 <= i < |next| ==> next[i] == IdsFrom(es, i)
    ensures es' == es + [OutputEdge(|es|, output)]
    ensures forall i :: 0 <= i < |prev| ==> prev[i] == IdsTo(es', i)
    ensures |next'| == |next| && forall i :: 0 <= i < |next'| ==> next'[i] == IdsFrom(es', i)
  {
    var id := |es|;
    es' := es + [OutputEdge(id, output)];
    next' := next[output := next[output] + [id]];
    forall i | 0 <= i < |next|
      ensures IdsTo(es', i) == IdsTo(es, i)
      ensures IdsFrom(es', i) == IdsFrom(es, i) + (if i == output then [id] else [])
    {
      IdsSnoc(es, OutputEdge(id, output), i);
    }
    forall i | 0 <= i < |prev|
      ensures prev[i] == IdsTo(es', i)
    {
      IdsSnoc(es, OutputEdge(id, output), i);
    }
  }

  /** `node_used`: marks the nodes of the plan. */
  method MarkPlanned(plan: seq<nat>, n: nat) returns (used: seq<bool>)
    requires PlanValid(plan, n)
    ensures used == UsedNodes(plan, n)
  {
    used := seq(n, _ => false);
    for s := 0 to |plan|
      invariant |used| == n && forall i :: 0 <= i < n ==> (used[i] <==> i in plan[..s])
    {
      used := used[plan[s] := true];
      assert plan[..s + 1] == plan[..s] + [plan[s]];
    }
    assert plan[..|plan|] == plan;
  }

  /** Marks the edges of an adjacency list as used. */
  method MarkEdges(marks: seq<bool>, list: seq<nat>) returns (marks': seq<bool>)
    requires forall k :: 0 <= k < |list| ==> list[k] < |marks|
    ensures marks' == Mark(marks, list)
  {
    marks' := marks;
    for k := 0 to |list|
      invariant |marks'| == |marks|
      invariant forall e :: 0 <= e < |marks| ==> (marks'[e] <==> marks[e] || e in list[..k])
    {
      marks' := marks'[list[k] := true];
      assert list[..k + 1] == list[..k] + [list[k]];
    }
    assert list[..|list|] == list;
    assert marks' == Mark(marks, list);
  }

  /** The inputs of a node rewritten through the node mapping. */
  method RemapInputs(inputs: seq<Input>, mapping: seq<Option<nat>>) returns (inputs': seq<Input>)
    requires forall k :: 0 <= k < |inputs| ==> Mapped(mapping, inputs[k].node)
    ensures |inputs'| == |inputs|
    ensures forall k :: 0 <= k < |inputs| && Mapped(mapping, inputs[k].node) ==>
      inputs'[k] == inputs[k].(node := mapping[inputs[k].node].value)
  {
    inputs' := inputs;
    for k := 0 to |inputs|
      invariant |inputs'| == |inputs|
      invariant forall l :: 0 <= l < k ==> inputs'[l] == inputs[l].(node := mapping[inputs[l].node].value)
      invariant forall l :: k <= l < |inputs| ==> inputs'[l] == inputs[l]
    {
      inputs' := inputs'[k := inputs'[k].(node := mapping[inputs'[k].node].value)];
    }
  }

  /** An adjacency list rewritten through the edge mapping. */
  method RemapIds(list: seq<nat>, mapping: seq<Option<nat>>) returns (list': seq<nat>)
    requires forall k :: 0 <= k < |list| ==> Mapped(mapping, list[k])
    ensures list' == RemapList(list, mapping)
  {
    list' := list;
    for k := 0 to |list|
      invariant |list'| == |list|
      invariant forall l :: 0 <= l < k ==> list'[l] == mapping[list[l]].value
      invariant forall l :: k <= l < |list| ==> list'[l] == list[l]
    {
      list' := list'[k := mapping[list'[k]].value];
    }
  }

  /** The edges and adjacency lists `Analyser::new` starts from. */
  method NewEdges(model: seq<Node>, output: nat) returns (es: seq<Edge>, prev: seq<seq<nat>>, next: seq<seq<nat>>)
    requires WellFormed(model) && output < |model|
    ensures NewGraph(model, output, es, prev, next) && Linked(model, es, prev, next)
  {
    es, prev, next := AddAllInputEdges(model);
    es, next := AddOutputEdge(es, prev, next, output);
    NewIsLinked(model, output, es, prev, next);
  }

  /** The loop of `Analyser::new` over the nodes: one edge per node input,
      in node order, with the adjacency lists of these edges. */
  method AddAllInputEdges(model: seq<Node>) returns (es: seq<Edge>, prev: seq<seq<nat>>, next: seq<seq<nat>>)
    requires WellFormed(model)
    ensures es == EdgesOf(InputPairs(model))
    ensures |prev| == |model| + 1 && forall i :: 0 <= i < |prev| ==> prev[i] == IdsTo(es, i)
    ensures |next| == |model| + 1 && forall i :: 0 <= i < |next| ==> next[i] == IdsFrom(es, i)
  {
    es := [];
    prev := seq(|model| + 1, _ => []);
    next := seq(|model| + 1, _ => []);
    for n := 0 to |model|
      invariant es == EdgesOf(InputPairs(model[..n]))
      invariant |prev| == |model| + 1 && forall i :: 0 <= i < |prev| ==> prev[i] == IdsTo(es, i)
      invariant |next| == |model| + 1 && forall i :: 0 <= i < |next| ==> next[i] == IdsFrom(es, i)
    {
      es, prev, next := AddInputEdges(model, n, es, prev, next);
      InputPairsSnoc(model, n);
    }
    assert model[..|model|] == model;
  }

  /** The body of the outer loop of `Analyser::new`: one edge per input of
      node `n`, recorded as leaving the input's node and entering `n`. */
  method AddInputEdges(model: seq<Node>, n: nat, es: seq<Edge>, prev: seq<seq<nat>>, next: seq<seq<nat>>)
    returns (es': seq<Edge>, prev': seq<seq<nat>>, next': seq<seq<nat>>)
    requires WellFormed(model) && n < |model|
    requires es == EdgesOf(InputPairs(model[..n]))
    requires |prev| == |model| + 1 && forall i :: 0 <= i < |prev| ==> prev[i] == IdsTo(es, i)
    requires |next| == |model| + 1 && forall i :: 0 <= i < |next| ==> next[i] == IdsFrom(es, i)
    ensures es' == EdgesOf(InputPairs(model[..n]) + PairsOf(model[n]))
    ensures |prev'| == |model| + 1 && forall i :: 0 <= i < |prev'| ==> prev'[i] == IdsTo(es', i)
    ensures |next'| == |model| + 1 && forall i :: 0 <= i < |next'| ==> next'[i] == IdsFrom(es', i)
  {
    var node := model[n];
    ghost var before := InputPairs(model[..n]);
    es', prev', next' := es, prev, next;
    for k := 0 to |node.inputs|
      invariant es' == EdgesOf(before + PairsOf(node)[..k])
      invariant |prev'| == |model| + 1 && forall i :: 0 <= i < |prev'| ==> prev'[i] == IdsTo(es', i)
      invariant |next'| == |model| + 1 && forall i :: 0 <= i < |next'| ==> next'[i] == IdsFrom(es', i)
    {
      var input := node.inputs[k];
      var id := |es'|;
      var e := Edge(id, Some(input.node), input.slot.GetOr(0), Some(node.id), Unknown);
      assert before + PairsOf(node)[..k + 1] == (before + PairsOf(node)[..k]) + [(node.id, input)];
      EdgesOfSnoc(before + PairsOf(node)[..k], (node.id, input));
      forall i | 0 <= i < |prev'|
        ensures IdsTo(es' + [e], i) == IdsTo(es', i) + (if e.toNode == Some(i) then [id] else [])
        ensures IdsFrom(es' + [e], i) == IdsFrom(es', i) + (if e.fromNode == Some(i) then [id] else [])
      {
        IdsSnoc(es', e, i);
      }
      es' := es' + [e];
      prev' := prev'[node.id := prev'[node.id] + [id]];
      next' := next'[input.node := next'[input.node] + [id]];
    }
    assert PairsOf(node)[..|node.inputs|] == PairsOf(node);
  }
}
