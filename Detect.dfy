/** Auto-detection of a model's input nodes (`detect_inputs`) and output
    node (`detect_output`). */
module Detect {
  import opened Wrappers
  import opened Graph

  predicate IsPlaceholder(n: Node) {
    n.opName == "Placeholder"
  }

  /** The positions of the `Placeholder` nodes: exactly those positions,
      each once, in increasing order. */
  function PlaceholderPositions(nodes: seq<Node>): (ps: seq<nat>)
    decreases |nodes|
    ensures forall k :: 0 <= k < |ps| ==> ps[k] < |nodes| && IsPlaceholder(nodes[ps[k]])
    ensures forall k, l :: 0 <= k < l < |ps| ==> ps[k] < ps[l]
    ensures forall i :: 0 <= i < |nodes| && IsPlaceholder(nodes[i]) ==> i in ps
  {
    if nodes == [] then []
    else
      var rest := PlaceholderPositions(nodes[..|nodes| - 1]);
      assert forall k :: 0 <= k < |rest| ==> nodes[..|nodes| - 1][rest[k]] == nodes[rest[k]];
      if IsPlaceholder(nodes[|nodes| - 1]) then rest + [|nodes| - 1] else rest
  }

  /** `detect_inputs`: `None` when no node is a `Placeholder`, otherwise the
      ids of exactly the `Placeholder` nodes, in node order. */
  function DetectInputs(nodes: seq<Node>): (r: Option<seq<nat>>)
    ensures r.None? <==> forall i :: 0 <= i < |nodes| ==> !IsPlaceholder(nodes[i])
    ensures r.Some? ==> |r.value| == |PlaceholderPositions(nodes)|
    ensures r.Some? ==> forall k :: 0 <= k < |r.value| ==>
      r.value[k] == nodes[PlaceholderPositions(nodes)[k]].id
  {
    var ps := PlaceholderPositions(nodes);
    if |ps| > 0 then
      assert IsPlaceholder(nodes[ps[0]]);
      Some(seq(|ps|, k requires 0 <= k < |ps| => nodes[ps[k]].id))
    else None
  }

  /** In a well-formed model the detected inputs are the positions of the
      `Placeholder` nodes. */
  lemma DetectInputsArePositions(nodes: seq<Node>)
    requires WellFormed(nodes)
    requires DetectInputs(nodes).Some?
    ensures DetectInputs(nodes).value == PlaceholderPositions(nodes)
  {
  }

  /** Some node lists node `j` among its inputs. */
  predicate HasSuccessor(nodes: seq<Node>, j: nat) {
    exists n, k :: 0 <= n < |nodes| && 0 <= k < |nodes[n].inputs| && nodes[n].inputs[k].node == j
  }

  /** Node `j` is an input of some node before position `n`, or of node
      `n` among its first `k` inputs. */
  predicate LinkedBefore(nodes: seq<Node>, j: nat, n: nat, k: nat)
    requires n < |nodes| ==> k <= |nodes[n].inputs|
  {
    || (exists n', k' :: 0 <= n' < n && n' < |nodes| && 0 <= k' < |nodes[n'].inputs| && nodes[n'].inputs[k'].node == j)
    || (n < |nodes| && exists k' :: 0 <= k' < k && nodes[n].inputs[k'].node == j)
  }

  /** `detect_output`: the lowest-numbered node that no node uses as an
      input, or `None` when every node has a successor. */
  method DetectOutput(nodes: seq<Node>) returns (r: Option<nat>)
    requires WellFormed(nodes)
    ensures r.Some? ==> r.value < |nodes| && !HasSuccessor(nodes, r.value)
    ensures r.Some? ==> forall j :: 0 <= j < r.value ==> HasSuccessor(nodes, j)
    ensures r.None? <==> forall j :: 0 <= j < |nodes| ==> HasSuccessor(nodes, j)
  {
    var succs := new seq<nat>[|nodes|](_ => []);
    var n := 0;
    while n < |nodes|
      invariant 0 <= n <= |nodes|
      invariant forall j :: 0 <= j < |nodes| ==> (|succs[j]| > 0 <==> LinkedBefore(nodes, j, n, 0))
    {
      var node := nodes[n];
      var k := 0;
      while k < |node.inputs|
        invariant 0 <= k <= |node.inputs|
        invariant forall j :: 0 <= j < |nodes| ==> (|succs[j]| > 0 <==> LinkedBefore(nodes, j, n, k))
      {
        var link := node.inputs[k].node;
        succs[link] := succs[link] + [node.id];
        k := k + 1;
      }
      n := n + 1;
    }
    var i := 0;
    while i < |nodes|
      invariant 0 <= i <= |nodes|
      invariant forall j :: 0 <= j < i ==> HasSuccessor(nodes, j)
    {
      if |succs[i]| == 0 {
        return Some(i);
      }
      i := i + 1;
    }
    return None;
  }
}
