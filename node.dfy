/** The graph's vertex, `Node` in graph.py. */
module Nodes {
  import opened Description

  /**
   * Writes `x` into slot `idx` of `s`, first padding `s` with `fill` up to
   * length `idx + 1` when it is shorter: the list update that
   * `Node.set_neighbour` performs on each of its two parallel lists.
   */
  function SetSlot<T>(s: seq<T>, idx: nat, fill: T, x: T): (r: seq<T>)
    ensures |r| == if idx < |s| then |s| else idx + 1
    ensures r[idx] == x
    ensures forall k :: 0 <= k < |s| && k != idx ==> r[k] == s[k]
    ensures forall k :: |s| <= k < idx ==> r[k] == fill
  {
    if idx < |s| then s[idx := x]
    else (s + seq(idx - |s| + 1, _ => fill))[idx := x]
  }

  class Node {
    const id: int
    const nodeType: string
    const name: string
    var dir: int
    var enabled: bool
    var neighbours: seq<Node?>
    var weights: seq<Weight>

    /** The two slot lists are parallel. */
    ghost predicate Valid()
      reads this
    {
      |neighbours| == |weights|
    }

    constructor (id: int := 0, nodeType: string := "crossing", name: string := "", dir: int := 1)
      ensures Valid()
      ensures this.id == id && this.nodeType == nodeType && this.name == name && this.dir == dir
      ensures enabled && neighbours == [] && weights == []
    {
      this.nodeType := nodeType;
      this.neighbours := [];
      this.name := name;
      this.id := id;
      this.weights := [];
      this.enabled := true;
      this.dir := dir;
    }

    /**
     * Points slot `idx` at `node` with `weight`, back-filling any missing
     * slots before it with `(None, inf)`.
     */
    method SetNeighbour(idx: nat, node: Node?, weight: Weight)
      requires Valid()
      modifies this`neighbours, this`weights
      ensures Valid()
      ensures neighbours == SetSlot(old(neighbours), idx, null, node)
      ensures weights == SetSlot(old(weights), idx, Inf, weight)
    {
      var neighNo := |neighbours|;
      if idx >= neighNo {
        neighbours := neighbours + seq(idx - neighNo + 1, _ => null);
        weights := weights + seq(idx - neighNo + 1, _ => Inf);
      }
      neighbours := neighbours[idx := node];
      weights := weights[idx := weight];
    }

    /** The number of slots that hold a node. */
    function NeighbourNumber(): (n: nat)
      reads this
      ensures n <= |neighbours|
      ensures n == |neighbours| <==> forall k :: 0 <= k < |neighbours| ==> neighbours[k] != null
      ensures n == 0 <==> forall k :: 0 <= k < |neighbours| ==> neighbours[k] == null
    {
      PopulatedCount(neighbours)
    }
  }

  /** How many entries of `s` are not `null`. */
  function PopulatedCount(s: seq<Node?>): (n: nat)
    ensures n <= |s|
    ensures n == |s| <==> forall k :: 0 <= k < |s| ==> s[k] != null
    ensures n == 0 <==> forall k :: 0 <= k < |s| ==> s[k] == null
  {
    if s == [] then 0
    else PopulatedCount(s[..|s| - 1]) + (if s[|s| - 1] != null then 1 else 0)
  }

  /** Counting splits over concatenation, so it is the number of non-null entries. */
  lemma {:induction false} PopulatedCountAppend(a: seq<Node?>, b: seq<Node?>)
    ensures PopulatedCount(a + b) == PopulatedCount(a) + PopulatedCount(b)
    decreases |b|
  {
    if b != [] {
      assert (a + b)[..|a + b| - 1] == a + b[..|b| - 1];
      PopulatedCountAppend(a, b[..|b| - 1]);
    } else {
      assert a + b == a;
    }
  }

  /** Overwriting one entry changes the count by what leaves and what enters that entry. */
  lemma {:induction false} UpdateCount(s: seq<Node?>, idx: nat, x: Node?)
    requires idx < |s|
    ensures PopulatedCount(s[idx := x])
            == PopulatedCount(s) - (if s[idx] != null then 1 else 0) + (if x != null then 1 else 0)
  {
    var n := |s| - 1;
    var t := s[idx := x];
    assert PopulatedCount(s) == PopulatedCount(s[..n]) + (if s[n] != null then 1 else 0);
    assert PopulatedCount(t) == PopulatedCount(t[..n]) + (if t[n] != null then 1 else 0);
    if idx == n {
      assert t[..n] == s[..n];
    } else {
      assert t[..n] == s[..n][idx := x];
      assert t[n] == s[n];
      UpdateCount(s[..n], idx, x);
    }
  }

  /**
   * `set_neighbour` changes `neighbour_number` by what leaves and what enters
   * the slot it writes; the slots it back-fills are empty and do not count.
   */
  lemma SetSlotCount(s: seq<Node?>, idx: nat, x: Node?)
    ensures PopulatedCount(SetSlot(s, idx, null, x))
            == PopulatedCount(s) - (if idx < |s| && s[idx] != null then 1 else 0) + (if x != null then 1 else 0)
  {
    if idx < |s| {
      UpdateCount(s, idx, x);
    } else {
      var pad: seq<Node?> := seq(idx - |s| + 1, _ => null);
      PopulatedCountAppend(s, pad);
      assert PopulatedCount(pad) == 0;
      UpdateCount(s + pad, idx, x);
    }
  }

  /** A node with slots `[B, None, C, None, None, None]` has two neighbours. */
  lemma NeighbourNumberExample(n: Node, b: Node, c: Node)
    requires n.neighbours == [b, null, c, null, null, null]
    ensures n.NeighbourNumber() == 2
  {
    var s := n.neighbours;
    assert PopulatedCount(s[..1]) == 1 by { assert s[..1][..0] == []; }
    assert PopulatedCount(s[..2]) == 1 by { assert s[..2][..1] == s[..1]; }
    assert PopulatedCount(s[..3]) == 2 by { assert s[..3][..2] == s[..2]; }
    assert PopulatedCount(s[..4]) == 2 by { assert s[..4][..3] == s[..3]; }
    assert PopulatedCount(s[..5]) == 2 by { assert s[..5][..4] == s[..4]; }
    assert s[..6] == s;
  }
}
