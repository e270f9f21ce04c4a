/** `Graph.fromDict`: builds linked `Node` objects from a raw description in two passes. */
module Building {
  import opened Wrappers
  import opened Description
  import opened Nodes
  import opened Lookup
  import Validation
  import ValidationProperties

  /**
   * `Graph.get_by_id(graph, id)[0]` on an empty search result raises
   * `IndexError`: slot `slot` of node `nodeIndex` names `id`, which no node has.
   */
  datatype BuildError = NoNodeWithId(nodeIndex: nat, slot: nat, id: int)

  /** The name a built node displays: the description's name, or a blank when it is empty. */
  function DisplayName(name: string): (r: string)
    ensures r != ""
    ensures name != "" ==> r == name
    ensures name == "" ==> r == " "
  {
    if name != "" then name else " "
  }

  /**
   * `n` is the node built for description `d` in the graph `graph` built from
   * `nodes`: same id, type and name (a blank for an empty name), default
   * direction, enabled, and one slot per described slot: a populated slot
   * points at the first built node with the named id and keeps its weight,
   * an empty slot holds no node and weight infinity.
   */
  ghost predicate Materialises(n: Node, d: NodeDesc, nodes: seq<NodeDesc>, graph: seq<Node>)
    reads n
  {
    && n.id == d.id
    && n.nodeType == d.nodeType
    && n.name == DisplayName(d.name)
    && n.dir == 1
    && n.enabled
    && n.Valid()
    && |n.neighbours| == |d.neighbours|
    && (forall k :: 0 <= k < |d.neighbours| && d.neighbours[k].target.None? ==>
          n.neighbours[k] == null && n.weights[k] == Inf)
    && (forall k, f ::
          (0 <= k < |d.neighbours| && d.neighbours[k].target.Some?
           && IsFirstDescWithId(nodes, d.neighbours[k].target.value, f) && f < |graph|) ==>
          n.neighbours[k] == graph[f] && n.weights[k] == d.neighbours[k].weight)
  }

  /** Some slot of some description names an id that no description carries. */
  ghost predicate HasDanglingSlot(nodes: seq<NodeDesc>) {
    exists i, k :: 0 <= i < |nodes| && 0 <= k < |nodes[i].neighbours| && DanglingSlot(nodes, nodes[i].neighbours[k])
  }

  /** `e` names a dangling slot of node `e.nodeIndex`, and no earlier slot of that node dangles. */
  ghost predicate IsFirstDanglingOfNode(nodes: seq<NodeDesc>, e: BuildError) {
    && e.nodeIndex < |nodes|
    && e.slot < |nodes[e.nodeIndex].neighbours|
    && nodes[e.nodeIndex].neighbours[e.slot].target == Some(e.id)
    && DanglingSlot(nodes, nodes[e.nodeIndex].neighbours[e.slot])
    && forall k :: 0 <= k < e.slot ==> !DanglingSlot(nodes, nodes[e.nodeIndex].neighbours[k])
  }

  /** No slot of the first `i` descriptions dangles. */
  ghost predicate NoDanglingBefore(nodes: seq<NodeDesc>, i: nat) {
    forall j, k :: 0 <= j < i && j < |nodes| && 0 <= k < |nodes[j].neighbours| ==>
      !DanglingSlot(nodes, nodes[j].neighbours[k])
  }

  /** `e` names the first dangling slot, in node order and then slot order. */
  ghost predicate IsFirstDangling(nodes: seq<NodeDesc>, e: BuildError) {
    IsFirstDanglingOfNode(nodes, e) && NoDanglingBefore(nodes, e.nodeIndex)
  }

  /** The first dangling slot of a node after nodes with none is the first dangling slot overall. */
  lemma FirstDanglingOfNode(nodes: seq<NodeDesc>, e: BuildError)
    requires IsFirstDanglingOfNode(nodes, e) && NoDanglingBefore(nodes, e.nodeIndex)
    ensures IsFirstDangling(nodes, e) && HasDanglingSlot(nodes)
  {
  }

  /** Extends `NoDanglingBefore` by one description none of whose slots dangles. */
  lemma NoDanglingStep(nodes: seq<NodeDesc>, i: nat)
    requires i < |nodes| && NoDanglingBefore(nodes, i)
    requires forall k :: 0 <= k < |nodes[i].neighbours| ==> !DanglingSlot(nodes, nodes[i].neighbours[k])
    ensures NoDanglingBefore(nodes, i + 1)
  {
  }

  /** With no dangling slot in any description, there is none at all. */
  lemma NoDanglingAll(nodes: seq<NodeDesc>)
    requires NoDanglingBefore(nodes, |nodes|)
    ensures !HasDanglingSlot(nodes)
  {
  }

  /** What pass two puts in a slot: the first node with the named id, or `None`. */
  function WiredNeighbour(graph: seq<Node>, s: SlotDesc): (r: Node?)
    ensures r == null <==> s.target.None? || forall j :: 0 <= j < |graph| ==> graph[j].id != s.target.value
    ensures r != null ==> r in graph && r.id == s.target.value
  {
    if s.target.None? then null
    else
      var matches := GetById(graph, s.target.value);
      if matches == [] then null else matches[0]
  }

  /** When node ids follow description ids, the wired neighbour is the node at the first position with the id. */
  lemma WiredNeighbourIsFirst(nodes: seq<NodeDesc>, graph: seq<Node>, s: SlotDesc, f: int)
    requires |nodes| == |graph| && forall j :: 0 <= j < |graph| ==> graph[j].id == nodes[j].id
    requires s.target.Some? && IsFirstDescWithId(nodes, s.target.value, f)
    ensures WiredNeighbour(graph, s) == graph[f]
  {
    GetByIdFirst(graph, s.target.value, f);
  }

  /** Pass one of `fromDict`: one fresh node per description, in order, with no slots yet. */
  method CreateNodes(nodesDesc: seq<NodeDesc>) returns (graph: seq<Node>)
    ensures |graph| == |nodesDesc|
    ensures forall j :: 0 <= j < |graph| ==> fresh(graph[j])
    ensures forall j, j' :: 0 <= j < j' < |graph| ==> graph[j] != graph[j']
    ensures forall j :: 0 <= j < |graph| ==>
              && graph[j].id == nodesDesc[j].id
              && graph[j].nodeType == nodesDesc[j].nodeType
              && graph[j].name == DisplayName(nodesDesc[j].name)
              && graph[j].dir == 1 && graph[j].enabled
              && graph[j].neighbours == [] && graph[j].weights == []
  {
    graph := [];
    for i := 0 to |nodesDesc|
      invariant |graph| == i
      invariant forall j :: 0 <= j < i ==> fresh(graph[j])
      invariant forall j, j' :: 0 <= j < j' < i ==> graph[j] != graph[j']
      invariant forall j :: 0 <= j < i ==>
                  && graph[j].id == nodesDesc[j].id
                  && graph[j].nodeType == nodesDesc[j].nodeType
                  && graph[j].name == DisplayName(nodesDesc[j].name)
                  && graph[j].dir == 1 && graph[j].enabled
                  && graph[j].neighbours == [] && graph[j].weights == []
    {
      var nodeDesc := nodesDesc[i];
      var name := if nodeDesc.name != "" then nodeDesc.name else " ";
      var node := new Node(nodeDesc.id, nodeDesc.nodeType, name);
      graph := graph + [node];
    }
  }

  /** A node wired slot by slot through `WiredNeighbour` is the node built for its description. */
  lemma WiredNodeMaterialises(n: Node, i: nat, nodes: seq<NodeDesc>, graph: seq<Node>)
    requires i < |nodes| == |graph|
    requires forall j :: 0 <= j < |graph| ==> graph[j].id == nodes[j].id
    requires n.id == nodes[i].id && n.nodeType == nodes[i].nodeType && n.name == DisplayName(nodes[i].name)
    requires n.dir == 1 && n.enabled && n.Valid() && |n.neighbours| == |nodes[i].neighbours|
    requires forall k :: 0 <= k < |nodes[i].neighbours| ==>
               && n.neighbours[k] == WiredNeighbour(graph, nodes[i].neighbours[k])
               && n.weights[k] == (if nodes[i].neighbours[k].target.None? then Inf else nodes[i].neighbours[k].weight)
    ensures Materialises(n, nodes[i], nodes, graph)
  {
    forall k, f | 0 <= k < |nodes[i].neighbours| && nodes[i].neighbours[k].target.Some?
                  && IsFirstDescWithId(nodes, nodes[i].neighbours[k].target.value, f)
      ensures n.neighbours[k] == graph[f]
    {
      WiredNeighbourIsFirst(nodes, graph, nodes[i].neighbours[k], f);
    }
  }

  /**
   * The inner loop of pass two for the node built from `nodes[i]`: sets each
   * of its slots in order, stopping at the first slot whose id no node has.
   */
  method WireNode(node: Node, i: nat, nodes: seq<NodeDesc>, graph: seq<Node>) returns (failure: Option<BuildError>)
    requires i < |nodes| == |graph|
    requires forall j :: 0 <= j < |graph| ==> graph[j].id == nodes[j].id
    requires node.Valid() && node.neighbours == [] && node.weights == []
    modifies node`neighbours, node`weights
    ensures failure.Some? ==> failure.value.nodeIndex == i && IsFirstDanglingOfNode(nodes, failure.value)
    ensures failure.None? ==> forall k :: 0 <= k < |nodes[i].neighbours| ==> !DanglingSlot(nodes, nodes[i].neighbours[k])
    ensures failure.None? ==> node.Valid() && |node.neighbours| == |nodes[i].neighbours|
    ensures failure.None? ==> forall k :: 0 <= k < |nodes[i].neighbours| ==>
              && node.neighbours[k] == WiredNeighbour(graph, nodes[i].neighbours[k])
              && node.weights[k] == (if nodes[i].neighbours[k].target.None? then Inf else nodes[i].neighbours[k].weight)
  {
    var slots := nodes[i].neighbours;
    for neighIdx := 0 to |slots|
      invariant node.Valid() && |node.neighbours| == neighIdx
      invariant forall k :: 0 <= k < neighIdx ==> !DanglingSlot(nodes, slots[k])
      invariant forall k :: 0 <= k < neighIdx ==>
                  && node.neighbours[k] == WiredNeighbour(graph, slots[k])
                  && node.weights[k] == (if slots[k].target.None? then Inf else slots[k].weight)
    {
      var nw := slots[neighIdx];
      if nw.target.Some? {
        var matches := GetById(graph, nw.target.value);
        if matches == [] {
          return Some(NoNodeWithId(i, neighIdx, nw.target.value));
        }
        assert !DanglingSlot(nodes, nw) by {
          var j :| 0 <= j < |graph| && graph[j] == matches[0];
          assert nodes[j].id == nw.target.value;
        }
        node.SetNeighbour(neighIdx, matches[0], nw.weight);
      } else {
        node.SetNeighbour(neighIdx, null, Inf);
      }
    }
    return None;
  }

  /** Pass two of `fromDict`: wires the nodes of `graph` in order; stops at the first dangling slot. */
  method WireNodes(nodesDesc: seq<NodeDesc>, graph: seq<Node>) returns (failure: Option<BuildError>)
    requires |graph| == |nodesDesc|
    requires forall j, j' :: 0 <= j < j' < |graph| ==> graph[j] != graph[j']
    requires forall j :: 0 <= j < |graph| ==>
               && graph[j].id == nodesDesc[j].id
               && graph[j].nodeType == nodesDesc[j].nodeType
               && graph[j].name == DisplayName(nodesDesc[j].name)
               && graph[j].dir == 1 && graph[j].enabled
               && graph[j].neighbours == [] && graph[j].weights == []
    modifies graph
    ensures failure.Some? <==> HasDanglingSlot(nodesDesc)
    ensures failure.Some? ==> IsFirstDangling(nodesDesc, failure.value)
    ensures failure.None? ==> forall j :: 0 <= j < |graph| ==> Materialises(graph[j], nodesDesc[j], nodesDesc, graph)
  {
    for i := 0 to |graph|
      invariant forall j :: 0 <= j < i ==> Materialises(graph[j], nodesDesc[j], nodesDesc, graph)
      invariant NoDanglingBefore(nodesDesc, i)
      invariant forall j :: i <= j < |graph| ==>
                  graph[j].dir == 1 && graph[j].enabled && graph[j].neighbours == [] && graph[j].weights == []
    {
      failure := WireNode(graph[i], i, nodesDesc, graph);
      if failure.Some? {
        FirstDanglingOfNode(nodesDesc, failure.value);
        return;
      }
      WiredNodeMaterialises(graph[i], i, nodesDesc, graph);
      NoDanglingStep(nodesDesc, i);
    }
    failure := None;
    NoDanglingAll(nodesDesc);
  }

  /**
   * `fromDict`: pass one creates every node, pass two wires the slots; a slot
   * naming an id that no node has makes it fail at the first such slot.
   */
  method FromDict(desc: Desc) returns (r: Result<seq<Node>, BuildError>)
    ensures r.Err? <==> HasDanglingSlot(desc.nodes)
    ensures r.Err? ==> IsFirstDangling(desc.nodes, r.error)
    ensures r.Ok? ==> |r.value| == |desc.nodes|
    ensures r.Ok? ==> forall i :: 0 <= i < |r.value| ==> fresh(r.value[i])
    ensures r.Ok? ==> forall i, j :: 0 <= i < j < |r.value| ==> r.value[i] != r.value[j]
    ensures r.Ok? ==> forall i :: 0 <= i < |r.value| ==> Materialises(r.value[i], desc.nodes[i], desc.nodes, r.value)
  {
    var graph := CreateNodes(desc.nodes);
    var failure := WireNodes(desc.nodes, graph);
    if failure.Some? {
      return Err(failure.value);
    }
    return Ok(graph);
  }



  /**
   * A description that `check_dict` accepts with no diagnostics builds
   * without error: every named neighbour points back, so it exists.
   */
  lemma AcceptedDescriptionBuilds(desc: Desc)
    requires Validation.Validate(desc) == Ok([])
    ensures !HasDanglingSlot(desc.nodes)
  {
    ValidationProperties.ValidateEmptyIff(desc);
    var nodes := desc.nodes;
    forall i, k | 0 <= i < |nodes| && 0 <= k < |nodes[i].neighbours|
      ensures !DanglingSlot(nodes, nodes[i].neighbours[k])
    {
      assert ValidationProperties.NodeWellFormed(nodes, nodes[i]);
      assert ValidationProperties.SymmetricSlot(nodes, nodes[i].id, nodes[i].neighbours[k]);
    }
  }

  /** Reads off one populated slot of a materialised node. */
  lemma MaterialisedSlot(n: Node, d: NodeDesc, nodes: seq<NodeDesc>, graph: seq<Node>, k: nat, f: nat)
    requires Materialises(n, d, nodes, graph)
    requires k < |d.neighbours| && d.neighbours[k].target.Some?
    requires IsFirstDescWithId(nodes, d.neighbours[k].target.value, f) && f < |graph|
    ensures n.neighbours[k] == graph[f] && n.weights[k] == d.neighbours[k].weight
  {
  }

  /** The nodes built for the crossing/segment pair reference each other through their first slot. */
  lemma CrossingAndSegmentWiring(w1: real, w2: real, graph: seq<Node>)
    requires |graph| == 2
    requires var nodes := ValidationProperties.CrossingAndSegment(w1, w2).nodes;
             forall i :: 0 <= i < 2 ==> Materialises(graph[i], nodes[i], nodes, graph)
    ensures graph[0].id == 1 && graph[0].nodeType == CrossingType && graph[0].name == "A"
    ensures graph[1].id == 2 && graph[1].nodeType == SegmentType && graph[1].name == "B"
    ensures forall i :: 0 <= i < 2 ==> |graph[i].neighbours| == |graph[i].weights| == 6
    ensures graph[0].neighbours[0] == graph[1] && graph[0].weights[0] == Finite(w1)
    ensures graph[1].neighbours[0] == graph[0] && graph[1].weights[0] == Finite(w2)
    ensures forall i, k :: 0 <= i < 2 && 1 <= k < 6 ==> graph[i].neighbours[k] == null && graph[i].weights[k] == Inf
  {
    var nodes := ValidationProperties.CrossingAndSegment(w1, w2).nodes;
    assert Materialises(graph[0], nodes[0], nodes, graph);
    assert Materialises(graph[1], nodes[1], nodes, graph);
    assert IsFirstDescWithId(nodes, 2, 1);
    MaterialisedSlot(graph[0], nodes[0], nodes, graph, 0, 1);
    assert IsFirstDescWithId(nodes, 1, 0);
    MaterialisedSlot(graph[1], nodes[1], nodes, graph, 0, 0);
    forall i, k | 0 <= i < 2 && 1 <= k < 6
      ensures graph[i].neighbours[k] == null && graph[i].weights[k] == Inf
    {
      assert Materialises(graph[i], nodes[i], nodes, graph);
      assert nodes[i].neighbours[k].target.None?;
    }
  }

  /**
   * The crossing/segment pair with weights 1.0 and 2.0 builds without error
   * into two nodes that reference each other through their first slot, each
   * with its own direction's weight, all other slots empty.
   */
  method BuildCrossingAndSegment() returns (graph: seq<Node>)
    ensures |graph| == 2
    ensures graph[0].id == 1 && graph[0].nodeType == CrossingType && graph[0].name == "A"
    ensures graph[1].id == 2 && graph[1].nodeType == SegmentType && graph[1].name == "B"
    ensures forall i :: 0 <= i < 2 ==> |graph[i].neighbours| == |graph[i].weights| == 6
    ensures graph[0].neighbours[0] == graph[1] && graph[0].weights[0] == Finite(1.0)
    ensures graph[1].neighbours[0] == graph[0] && graph[1].weights[0] == Finite(2.0)
    ensures forall i, k :: 0 <= i < 2 && 1 <= k < 6 ==> graph[i].neighbours[k] == null && graph[i].weights[k] == Inf
  {
    var desc := ValidationProperties.CrossingAndSegment(1.0, 2.0);
    ValidationProperties.MismatchedWeightsAccepted(1.0, 2.0);
    AcceptedDescriptionBuilds(desc);
    var r := FromDict(desc);
    graph := r.value;
    CrossingAndSegmentWiring(1.0, 2.0, graph);
  }
}
