/** The nodes of a model as the analyser sees them. The operator of a node
    is known to the analyser only through its name and through the
    inference functions it is given (module Analysis). */
module Graph {
  import opened Wrappers

  /** An input of a node: the producing node and, optionally, which of its
      outputs (`None` stands for output 0). */
  datatype Input = Input(node: nat, slot: Option<nat>)

  datatype Node = Node(id: nat, name: string, opName: string, inputs: seq<Input>)

  /** What the model guarantees of its node list: each node's id is its
      position, and every input names an existing node. */
  predicate WellFormed(nodes: seq<Node>) {
    && (forall i :: 0 <= i < |nodes| ==> nodes[i].id == i)
    && (forall i, k :: 0 <= i < |nodes| && 0 <= k < |nodes[i].inputs| ==> nodes[i].inputs[k].node < |nodes|)
  }
}
