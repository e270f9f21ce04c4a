/** `Graph.get_by_id` and `Graph.get_by_id_desc`: linear searches by id. */
module Lookup {
  import opened Wrappers
  import opened Description
  import opened Nodes

  /** `k` is the first position of `nodes` whose description has id `id`. */
  ghost predicate IsFirstDescWithId(nodes: seq<NodeDesc>, id: int, k: int) {
    0 <= k < |nodes| && nodes[k].id == id && forall j :: 0 <= j < k ==> nodes[j].id != id
  }

  /** `k` is the first position of `graph` whose node has id `id`. */
  ghost predicate IsFirstNodeWithId(graph: seq<Node>, id: int, k: int) {
    0 <= k < |graph| && graph[k].id == id && forall j :: 0 <= j < k ==> graph[j].id != id
  }

  /** The slot names an id that no description carries. */
  ghost predicate DanglingSlot(nodes: seq<NodeDesc>, s: SlotDesc) {
    s.target.Some? && forall j :: 0 <= j < |nodes| ==> nodes[j].id != s.target.value
  }

  /** Every node of `graph` whose id is `id`. */
  function GetById(graph: seq<Node>, id: int): (r: seq<Node>)
    ensures forall k :: 0 <= k < |r| ==> r[k] in graph && r[k].id == id
    ensures forall k :: 0 <= k < |graph| && graph[k].id == id ==> graph[k] in r
    ensures |r| <= |graph|
  {
    if graph == [] then []
    else (if graph[0].id == id then [graph[0]] else []) + GetById(graph[1..], id)
  }

  /** The search keeps graph order: it distributes over concatenation. */
  lemma {:induction false} GetByIdAppend(g1: seq<Node>, g2: seq<Node>, id: int)
    ensures GetById(g1 + g2, id) == GetById(g1, id) + GetById(g2, id)
  {
    if g1 != [] {
      assert (g1 + g2)[1..] == g1[1..] + g2;
      GetByIdAppend(g1[1..], g2, id);
    } else {
      assert g1 + g2 == g2;
    }
  }

  /** The first node the search returns is the first node with that id. */
  lemma {:induction false} GetByIdFirst(graph: seq<Node>, id: int, k: int)
    requires IsFirstNodeWithId(graph, id, k)
    ensures GetById(graph, id) != [] && GetById(graph, id)[0] == graph[k]
  {
    if k > 0 {
      GetByIdFirst(graph[1..], id, k - 1);
    }
  }

  /** The first description with id `id`, or `None` when there is none. */
  function GetByIdDesc(nodes: seq<NodeDesc>, id: int): (r: Option<NodeDesc>)
    ensures r.None? <==> forall k :: 0 <= k < |nodes| ==> nodes[k].id != id
    ensures r.Some? ==> exists k :: IsFirstDescWithId(nodes, id, k) && nodes[k] == r.value
  {
    if nodes == [] then None
    else if nodes[0].id == id then Some(nodes[0])
    else
      var r := GetByIdDesc(nodes[1..], id);
      assert r.Some? ==> exists k :: IsFirstDescWithId(nodes, id, k) && nodes[k] == r.value by {
        if r.Some? {
          var k :| IsFirstDescWithId(nodes[1..], id, k) && nodes[1..][k] == r.value;
          assert IsFirstDescWithId(nodes, id, k + 1);
        }
      }
      r
  }

  /** Stated by index: the search returns the description at the first position with that id. */
  lemma GetByIdDescAt(nodes: seq<NodeDesc>, id: int, k: int)
    requires IsFirstDescWithId(nodes, id, k)
    ensures GetByIdDesc(nodes, id) == Some(nodes[k])
  {
    var r := GetByIdDesc(nodes, id);
    var k' :| IsFirstDescWithId(nodes, id, k') && nodes[k'] == r.value;
    assert k' == k;
  }
}
