/**
 * `Graph.check_dict`: inspects a raw description and accumulates one
 * diagnostic per violated rule, without short-circuiting. Diagnostics are
 * tagged values carrying the ids and indices the source's messages print.
 */
module Validation {
  import opened Wrappers
  import opened Description
  import opened Lookup

  datatype Diagnostic =
    | DuplicateId(index: nat, firstIndex: nat)
    | NonPositiveWeight(nodeId: int, slot: nat, weight: Weight)
    | NameTooLong(nodeId: int)
    | InvalidType(nodeId: int, nodeType: string)
    | DanglingNeighbour(neighbourId: int, nodeId: int)
    | MissingBackReference(nodeId: int, neighbourId: int)
    | NonSegmentNeighbour(nodeId: int, slot: nat)
    | WrongSlotCount(nodeId: int)

  /**
   * The neighbour-type rule subscripts the result of a failed lookup
   * (`None['type']`), which raises `TypeError` and discards every diagnostic.
   */
  datatype Fault = NoneSubscripted(nodeId: int, slot: nat)

  // ---------------------------------------------------------------------
  // Rule 1: duplicate ids, with first-seen-wins bookkeeping

  /** The `ids` dictionary after scanning `nodes`: each id mapped to the index where it first occurs. */
  ghost function FirstSeen(nodes: seq<NodeDesc>): map<int, nat> {
    if nodes == [] then map[]
    else
      var m := FirstSeen(nodes[..|nodes| - 1]);
      var id := nodes[|nodes| - 1].id;
      if id in m then m else m[id := |nodes| - 1]
  }

  /** Every id of `nodes` is a key of the dictionary, mapped to its first position. */
  lemma {:induction false} FirstSeenMeaning(nodes: seq<NodeDesc>)
    ensures forall x :: x in FirstSeen(nodes) ==> IsFirstDescWithId(nodes, x, FirstSeen(nodes)[x])
    ensures forall k :: 0 <= k < |nodes| ==> nodes[k].id in FirstSeen(nodes)
  {
    if nodes != [] {
      var n := |nodes| - 1;
      var pre := nodes[..n];
      FirstSeenMeaning(pre);
      var m := FirstSeen(pre);
      var id := nodes[n].id;
      assert forall k :: 0 <= k < n ==> pre[k] == nodes[k];
      forall x | x in m ensures IsFirstDescWithId(nodes, x, m[x]) {
        FirstInPrefix(nodes, n, x, m[x]);
      }
    }
  }

  /** One `DuplicateId(i, f)` per node `i` whose id already occurred, `f` being its first occurrence. */
  ghost function DuplicateDiagnostics(nodes: seq<NodeDesc>): seq<Diagnostic> {
    if nodes == [] then []
    else
      var pre := nodes[..|nodes| - 1];
      var m := FirstSeen(pre);
      var id := nodes[|nodes| - 1].id;
      DuplicateDiagnostics(pre) + if id in m then [DuplicateId(|nodes| - 1, m[id])] else []
  }

  /**
   * Each duplicate-id diagnostic names a node together with the earlier first
   * position of its id, and the nodes named come in increasing order.
   */
  lemma {:induction false} DuplicateDiagnosticsMeaning(nodes: seq<NodeDesc>)
    ensures forall j :: 0 <= j < |DuplicateDiagnostics(nodes)| ==>
              && DuplicateDiagnostics(nodes)[j].DuplicateId?
              && DuplicateDiagnostics(nodes)[j].index < |nodes|
              && DuplicateDiagnostics(nodes)[j].firstIndex < DuplicateDiagnostics(nodes)[j].index
              && IsFirstDescWithId(nodes, nodes[DuplicateDiagnostics(nodes)[j].index].id, DuplicateDiagnostics(nodes)[j].firstIndex)
    ensures forall a, b :: 0 <= a < b < |DuplicateDiagnostics(nodes)| ==>
              DuplicateDiagnostics(nodes)[a].index < DuplicateDiagnostics(nodes)[b].index
  {
    if nodes != [] {
      var n := |nodes| - 1;
      var pre := nodes[..n];
      DuplicateDiagnosticsMeaning(pre);
      FirstSeenMeaning(pre);
      var rest := DuplicateDiagnostics(pre);
      forall j | 0 <= j < |rest|
        ensures IsFirstDescWithId(nodes, nodes[rest[j].index].id, rest[j].firstIndex)
      {
        FirstInPrefix(nodes, n, pre[rest[j].index].id, rest[j].firstIndex);
      }
      var m := FirstSeen(pre);
      if nodes[n].id in m {
        FirstInPrefix(nodes, n, nodes[n].id, m[nodes[n].id]);
      }
    }
  }

  /** The first occurrence of an id in a prefix is its first occurrence overall. */
  lemma FirstInPrefix(nodes: seq<NodeDesc>, n: nat, id: int, f: int)
    requires n <= |nodes| && IsFirstDescWithId(nodes[..n], id, f)
    ensures IsFirstDescWithId(nodes, id, f)
  {
    assert forall j :: 0 <= j <= f ==> nodes[..n][j] == nodes[j];
  }

  // ---------------------------------------------------------------------
  // Rule 2: non-positive weights

  /** One `NonPositiveWeight` per slot whose weight is `<= 0`, in slot order. */
  function WeightDiagnostics(id: int, slots: seq<SlotDesc>): (r: seq<Diagnostic>)
    ensures forall j :: 0 <= j < |r| ==>
              && r[j].NonPositiveWeight?
              && r[j].nodeId == id
              && r[j].slot < |slots|
              && r[j].weight == slots[r[j].slot].weight
              && NonPositive(r[j].weight)
    ensures forall k :: 0 <= k < |slots| && NonPositive(slots[k].weight) ==>
              NonPositiveWeight(id, k, slots[k].weight) in r
    ensures forall a, b :: 0 <= a < b < |r| ==> r[a].slot < r[b].slot
  {
    if slots == [] then []
    else
      var k := |slots| - 1;
      WeightDiagnostics(id, slots[..k])
      + (if NonPositive(slots[k].weight) then [NonPositiveWeight(id, k, slots[k].weight)] else [])
  }

  // ---------------------------------------------------------------------
  // Rule 5: symmetry

  /** Some slot of `slots` points at `id`, whatever its weight. */
  predicate HasSlotTo(slots: seq<SlotDesc>, id: int) {
    exists k :: 0 <= k < |slots| && slots[k].target == Some(id)
  }

  /** Some slot of `slots` points at `id` with weight `w`. */
  predicate HasSlotToWithWeight(slots: seq<SlotDesc>, id: int, w: Weight) {
    exists k :: 0 <= k < |slots| && slots[k].target == Some(id) && slots[k].weight == w
  }

  /** The symmetry diagnostic of one slot of the node with id `id`. */
  ghost function SlotSymmetry(nodes: seq<NodeDesc>, id: int, s: SlotDesc): seq<Diagnostic> {
    if s.target.None? then []
    else match GetByIdDesc(nodes, s.target.value)
      case None => [DanglingNeighbour(s.target.value, id)]
      case Some(nbr) => if HasSlotTo(nbr.neighbours, id) then [] else [MissingBackReference(id, nbr.id)]
  }

  /**
   * A slot yields nothing when empty, `DanglingNeighbour` when no description
   * has its id, and otherwise `MissingBackReference` exactly when the first
   * description with its id has no slot pointing back, whatever the weights.
   */
  lemma SlotSymmetryMeaning(nodes: seq<NodeDesc>, id: int, s: SlotDesc)
    ensures s.target.None? ==> SlotSymmetry(nodes, id, s) == []
    ensures DanglingSlot(nodes, s) ==> SlotSymmetry(nodes, id, s) == [DanglingNeighbour(s.target.value, id)]
    ensures forall f :: s.target.Some? && IsFirstDescWithId(nodes, s.target.value, f) ==>
              SlotSymmetry(nodes, id, s)
              == if HasSlotTo(nodes[f].neighbours, id) then [] else [MissingBackReference(id, s.target.value)]
    ensures |SlotSymmetry(nodes, id, s)| <= 1
  {
    if s.target.Some? {
      forall f | IsFirstDescWithId(nodes, s.target.value, f) ensures GetByIdDesc(nodes, s.target.value) == Some(nodes[f]) {
        GetByIdDescAt(nodes, s.target.value, f);
      }
    }
  }

  /** The symmetry diagnostics of all slots, in slot order. */
  ghost function SymmetryDiagnostics(nodes: seq<NodeDesc>, id: int, slots: seq<SlotDesc>): (r: seq<Diagnostic>)
    ensures |r| <= |slots|
    ensures forall j :: 0 <= j < |r| ==>
              (r[j].DanglingNeighbour? && r[j].nodeId == id) || (r[j].MissingBackReference? && r[j].nodeId == id)
  {
    if slots == [] then []
    else SymmetryDiagnostics(nodes, id, slots[..|slots| - 1]) + SlotSymmetry(nodes, id, slots[|slots| - 1])
  }

  // ---------------------------------------------------------------------
  // Rule 6: crossings, dead ends and lane switches touch only segments

  /** The slot names an id whose first description is not a segment. */
  ghost predicate NonSegmentTarget(nodes: seq<NodeDesc>, s: SlotDesc) {
    s.target.Some? && exists f :: IsFirstDescWithId(nodes, s.target.value, f) && nodes[f].nodeType != SegmentType
  }

  /**
   * One `NonSegmentNeighbour` per populated slot whose neighbour is not a
   * segment, in slot order; fails at the first slot naming a missing id.
   */
  function NonSegmentSlots(nodes: seq<NodeDesc>, id: int, slots: seq<SlotDesc>): Result<seq<Diagnostic>, Fault> {
    if slots == [] then Ok([])
    else
      var k := |slots| - 1;
      var pre := NonSegmentSlots(nodes, id, slots[..k]);
      if pre.Err? then pre
      else if slots[k].target.None? then pre
      else match GetByIdDesc(nodes, slots[k].target.value)
        case None => Err(NoneSubscripted(id, k))
        case Some(nbr) => Ok(pre.value + if nbr.nodeType != SegmentType then [NonSegmentNeighbour(id, k)] else [])
  }

  /** The neighbour-type rule faults exactly when some slot names a missing id. */
  lemma {:induction false} NonSegmentSlotsErrIff(nodes: seq<NodeDesc>, id: int, slots: seq<SlotDesc>)
    ensures NonSegmentSlots(nodes, id, slots).Err? <==> exists k :: 0 <= k < |slots| && DanglingSlot(nodes, slots[k])
  {
    if slots != [] {
      var k := |slots| - 1;
      var pre := slots[..k];
      NonSegmentSlotsErrIff(nodes, id, pre);
      assert forall m :: 0 <= m < k ==> pre[m] == slots[m];
      if NonSegmentSlots(nodes, id, pre).Err? {
        assert NonSegmentSlots(nodes, id, slots).Err?;
        var m :| 0 <= m < k && DanglingSlot(nodes, pre[m]);
        assert DanglingSlot(nodes, slots[m]);
      } else {
        assert forall m :: 0 <= m < k ==> !DanglingSlot(nodes, slots[m]);
        assert (exists m :: 0 <= m < |slots| && DanglingSlot(nodes, slots[m])) <==> DanglingSlot(nodes, slots[k]) by {
          if exists m :: 0 <= m < |slots| && DanglingSlot(nodes, slots[m]) {
            var m :| 0 <= m < |slots| && DanglingSlot(nodes, slots[m]);
            assert m == k;
          }
          if DanglingSlot(nodes, slots[k]) {
            assert 0 <= k < |slots|;
          }
        }
        if slots[k].target.None? {
          assert NonSegmentSlots(nodes, id, slots) == NonSegmentSlots(nodes, id, pre);
          assert !DanglingSlot(nodes, slots[k]);
        } else {
          var found := GetByIdDesc(nodes, slots[k].target.value);
          assert found.None? <==> DanglingSlot(nodes, slots[k]);
          assert NonSegmentSlots(nodes, id, slots).Err? <==> found.None?;
        }
      }
    }
  }

  /** A fault of the neighbour-type rule names the first slot that names a missing id. */
  lemma {:induction false} NonSegmentSlotsErrAt(nodes: seq<NodeDesc>, id: int, slots: seq<SlotDesc>)
    ensures var r := NonSegmentSlots(nodes, id, slots);
      r.Err? ==>
        && r.error.nodeId == id
        && r.error.slot < |slots|
        && DanglingSlot(nodes, slots[r.error.slot])
        && forall k :: 0 <= k < r.error.slot ==> !DanglingSlot(nodes, slots[k])
  {
    if slots != [] {
      var k := |slots| - 1;
      var pre := slots[..k];
      NonSegmentSlotsErrAt(nodes, id, pre);
      NonSegmentSlotsErrIff(nodes, id, pre);
      assert forall m :: 0 <= m < k ==> pre[m] == slots[m];
    }
  }

  /**
   * Without a fault, every diagnostic of the neighbour-type rule names a slot
   * whose target is not a segment, in increasing slot order.
   */
  lemma {:induction false} NonSegmentSlotsSound(nodes: seq<NodeDesc>, id: int, slots: seq<SlotDesc>)
    ensures var r := NonSegmentSlots(nodes, id, slots);
      && (r.Ok? ==> forall j :: 0 <= j < |r.value| ==>
            && r.value[j].NonSegmentNeighbour?
            && r.value[j].nodeId == id
            && r.value[j].slot < |slots|
            && NonSegmentTarget(nodes, slots[r.value[j].slot]))
      && (r.Ok? ==> forall a, b :: 0 <= a < b < |r.value| ==> r.value[a].slot < r.value[b].slot)
  {
    if slots != [] {
      var k := |slots| - 1;
      NonSegmentSlotsSound(nodes, id, slots[..k]);
      assert forall m :: 0 <= m < k ==> slots[..k][m] == slots[m];
      if slots[k].target.Some? {
        forall f | IsFirstDescWithId(nodes, slots[k].target.value, f)
          ensures GetByIdDesc(nodes, slots[k].target.value) == Some(nodes[f])
        {
          GetByIdDescAt(nodes, slots[k].target.value, f);
        }
      }
    }
  }

  /** Without a fault, a last slot whose target is not a segment is reported last. */
  lemma NonSegmentSlotsLast(nodes: seq<NodeDesc>, id: int, slots: seq<SlotDesc>)
    requires slots != [] && NonSegmentTarget(nodes, slots[|slots| - 1])
    requires NonSegmentSlots(nodes, id, slots).Ok?
    ensures NonSegmentSlots(nodes, id, slots[..|slots| - 1]).Ok?
    ensures NonSegmentSlots(nodes, id, slots).value
            == NonSegmentSlots(nodes, id, slots[..|slots| - 1]).value + [NonSegmentNeighbour(id, |slots| - 1)]
  {
    var s := slots[|slots| - 1];
    var f :| IsFirstDescWithId(nodes, s.target.value, f) && nodes[f].nodeType != SegmentType;
    GetByIdDescAt(nodes, s.target.value, f);
  }

  /** Without a fault, the diagnostics of all slots extend those of all but the last. */
  lemma NonSegmentSlotsExtends(nodes: seq<NodeDesc>, id: int, slots: seq<SlotDesc>)
    requires slots != [] && NonSegmentSlots(nodes, id, slots).Ok?
    ensures NonSegmentSlots(nodes, id, slots[..|slots| - 1]).Ok?
    ensures NonSegmentSlots(nodes, id, slots[..|slots| - 1]).value <= NonSegmentSlots(nodes, id, slots).value
  {
  }

  /** Without a fault, every slot whose target is not a segment is reported. */
  lemma {:induction false} NonSegmentSlotsComplete(nodes: seq<NodeDesc>, id: int, slots: seq<SlotDesc>)
    ensures var r := NonSegmentSlots(nodes, id, slots);
      r.Ok? ==> forall k :: 0 <= k < |slots| && NonSegmentTarget(nodes, slots[k]) ==> NonSegmentNeighbour(id, k) in r.value
  {
    if slots != [] {
      var k := |slots| - 1;
      var pre := slots[..k];
      var r := NonSegmentSlots(nodes, id, slots);
      if r.Ok? {
        NonSegmentSlotsComplete(nodes, id, pre);
        NonSegmentSlotsExtends(nodes, id, slots);
        var before := NonSegmentSlots(nodes, id, pre).value;
        forall m | 0 <= m < |slots| && NonSegmentTarget(nodes, slots[m])
          ensures NonSegmentNeighbour(id, m) in r.value
        {
          if m < k {
            assert pre[m] == slots[m];
            assert NonSegmentNeighbour(id, m) in before;
            var j :| 0 <= j < |before| && before[j] == NonSegmentNeighbour(id, m);
            assert r.value[j] == before[j];
          } else {
            assert m == k && slots[|slots| - 1] == slots[m];
            NonSegmentSlotsLast(nodes, id, slots);
          }
        }
      }
    }
  }


  /**
   * The neighbour-type check fails exactly when a slot names a missing id, and
   * then at the first such slot; otherwise it reports each slot whose
   * neighbour (the first description with the named id) is not a segment,
   * once and in slot order.
   */
  lemma NonSegmentSlotsMeaning(nodes: seq<NodeDesc>, id: int, slots: seq<SlotDesc>)
    ensures var r := NonSegmentSlots(nodes, id, slots);
      && (r.Err? <==> exists k :: 0 <= k < |slots| && DanglingSlot(nodes, slots[k]))
      && (r.Err? ==>
            && r.error.nodeId == id
            && r.error.slot < |slots|
            && DanglingSlot(nodes, slots[r.error.slot])
            && forall k :: 0 <= k < r.error.slot ==> !DanglingSlot(nodes, slots[k]))
      && (r.Ok? ==> forall j :: 0 <= j < |r.value| ==>
            && r.value[j].NonSegmentNeighbour?
            && r.value[j].nodeId == id
            && r.value[j].slot < |slots|
            && NonSegmentTarget(nodes, slots[r.value[j].slot]))
      && (r.Ok? ==> forall k :: 0 <= k < |slots| && NonSegmentTarget(nodes, slots[k]) ==>
            NonSegmentNeighbour(id, k) in r.value)
      && (r.Ok? ==> forall a, b :: 0 <= a < b < |r.value| ==> r.value[a].slot < r.value[b].slot)
  {
    NonSegmentSlotsErrIff(nodes, id, slots);
    NonSegmentSlotsErrAt(nodes, id, slots);
    NonSegmentSlotsSound(nodes, id, slots);
    NonSegmentSlotsComplete(nodes, id, slots);
  }


  /** The neighbour-type rule: it applies to crossings, dead ends and lane switches only. */
  function NeighbourTypeDiagnostics(nodes: seq<NodeDesc>, a: NodeDesc): Result<seq<Diagnostic>, Fault> {
    if SegmentOnlyType(a.nodeType) then NonSegmentSlots(nodes, a.id, a.neighbours) else Ok([])
  }

  // ---------------------------------------------------------------------
  // All rules

  /** The diagnostics of one node, rules 2 to 7 in the source's order. */
  ghost function NodeReport(nodes: seq<NodeDesc>, a: NodeDesc): (r: Result<seq<Diagnostic>, Fault>)
    ensures r.Err? ==> SegmentOnlyType(a.nodeType)
  {
    match NeighbourTypeDiagnostics(nodes, a)
    case Err(f) => Err(f)
    case Ok(adjacency) =>
      Ok(WeightDiagnostics(a.id, a.neighbours)
         + (if |a.name| > 1 then [NameTooLong(a.id)] else [])
         + (if !KnownType(a.nodeType) then [InvalidType(a.id, a.nodeType)] else [])
         + SymmetryDiagnostics(nodes, a.id, a.neighbours)
         + adjacency
         + (if |a.neighbours| != 6 then [WrongSlotCount(a.id)] else []))
  }

  /** Runs `report` on each node of `ns` in order and concatenates the diagnostics; the first fault aborts. */
  ghost function Collect(report: NodeDesc -> Result<seq<Diagnostic>, Fault>, ns: seq<NodeDesc>): Result<seq<Diagnostic>, Fault> {
    if ns == [] then Ok([])
    else match Collect(report, ns[..|ns| - 1])
      case Err(f) => Err(f)
      case Ok(ds) =>
        match report(ns[|ns| - 1])
        case Err(f) => Err(f)
        case Ok(d) => Ok(ds + d)
  }

  /** The report of one node of the description `nodes`, as a function value. */
  ghost function Reporter(nodes: seq<NodeDesc>): NodeDesc -> Result<seq<Diagnostic>, Fault> {
    a => NodeReport(nodes, a)
  }

  /** The per-node diagnostics of `ns`, in order; the first fault aborts. */
  ghost function NodeReports(nodes: seq<NodeDesc>, ns: seq<NodeDesc>): Result<seq<Diagnostic>, Fault> {
    Collect(Reporter(nodes), ns)
  }

  /** What `check_dict` returns, or the fault it raises. */
  ghost function Validate(desc: Desc): (r: Result<seq<Diagnostic>, Fault>)
    ensures r.Ok? ==> DuplicateDiagnostics(desc.nodes) <= r.value
  {
    match NodeReports(desc.nodes, desc.nodes)
    case Err(f) => Err(f)
    case Ok(ds) => Ok(DuplicateDiagnostics(desc.nodes) + ds)
  }

  /** Unfolds the first loop's bookkeeping by one node. */
  lemma DuplicateStep(nodes: seq<NodeDesc>, i: nat)
    requires i < |nodes|
    ensures var m := FirstSeen(nodes[..i]);
            && FirstSeen(nodes[..i + 1]) == (if nodes[i].id in m then m else m[nodes[i].id := i])
            && DuplicateDiagnostics(nodes[..i + 1])
               == DuplicateDiagnostics(nodes[..i]) + (if nodes[i].id in m then [DuplicateId(i, m[nodes[i].id])] else [])
  {
    assert nodes[..i + 1][..i] == nodes[..i];
  }

  /** Unfolds `Collect` by one node. */
  lemma CollectStep(report: NodeDesc -> Result<seq<Diagnostic>, Fault>, ns: seq<NodeDesc>, i: nat)
    requires i < |ns| && Collect(report, ns[..i]).Ok?
    ensures Collect(report, ns[..i + 1])
            == match report(ns[i])
               case Err(f) => Err(f)
               case Ok(d) => Ok(Collect(report, ns[..i]).value + d)
  {
    assert ns[..i + 1][..i] == ns[..i];
  }

  /** A fault in a prefix is the fault of the whole. */
  lemma {:induction false} CollectErrPersists(report: NodeDesc -> Result<seq<Diagnostic>, Fault>, ns: seq<NodeDesc>, i: nat)
    requires i <= |ns| && Collect(report, ns[..i]).Err?
    ensures Collect(report, ns) == Collect(report, ns[..i])
    decreases |ns| - i
  {
    if i < |ns| {
      assert ns[..i + 1][..i] == ns[..i];
      CollectErrPersists(report, ns, i + 1);
    } else {
      assert ns[..i] == ns;
    }
  }

  // ---------------------------------------------------------------------
  // The validator itself

  /** Regroups three appended lists, for use where the surrounding context is large. */
  lemma AppendAssociates(a: seq<Diagnostic>, b: seq<Diagnostic>, c: seq<Diagnostic>)
    ensures a + b + c == a + (b + c)
  {
  }

  /** Unfolds `SymmetryDiagnostics` by one slot. */
  lemma SymmetryStep(nodes: seq<NodeDesc>, id: int, slots: seq<SlotDesc>, k: nat)
    requires k < |slots|
    ensures SymmetryDiagnostics(nodes, id, slots[..k + 1])
            == SymmetryDiagnostics(nodes, id, slots[..k]) + SlotSymmetry(nodes, id, slots[k])
  {
    assert slots[..k + 1][..k] == slots[..k];
  }

  /**
   * Scans a neighbour's slots for one pointing back at `id`, and for one that
   * also carries the weight `w`.
   */
  method ScanBackReferences(slots: seq<SlotDesc>, id: int, w: Weight) returns (found: bool, sameWeight: bool)
    ensures found == HasSlotTo(slots, id)
    ensures sameWeight == HasSlotToWithWeight(slots, id, w)
  {
    found, sameWeight := false, false;
    for m := 0 to |slots|
      invariant found <==> exists j :: 0 <= j < m && slots[j].target == Some(id)
      invariant sameWeight <==> exists j :: 0 <= j < m && slots[j].target == Some(id) && slots[j].weight == w
    {
      if slots[m].target == Some(id) {
        found := true;
        if w == slots[m].weight {
          sameWeight := true;
        }
      }
    }
  }

  /** Checks one slot of the node with id `id` against the node it names. */
  method CheckSlotSymmetry(nodes: seq<NodeDesc>, id: int, nw: SlotDesc) returns (errors: seq<Diagnostic>)
    ensures errors == SlotSymmetry(nodes, id, nw)
  {
    errors := [];
    if nw.target.Some? {
      var nbr := GetByIdDesc(nodes, nw.target.value);
      if nbr.None? {
        errors := [DanglingNeighbour(nw.target.value, id)];
      } else {
        // the weight match is computed as in the source; the diagnostic it fed is disabled there
        var foundAtNeighbour, sameWeightFound := ScanBackReferences(nbr.value.neighbours, id, nw.weight);
        if !foundAtNeighbour {
          errors := [MissingBackReference(id, nbr.value.id)];
        }
      }
    }
  }

  /** The symmetry rule over all slots of `node`, in slot order. */
  method CheckSymmetry(nodes: seq<NodeDesc>, node: NodeDesc) returns (errors: seq<Diagnostic>)
    ensures errors == SymmetryDiagnostics(nodes, node.id, node.neighbours)
  {
    errors := [];
    for k := 0 to |node.neighbours|
      invariant errors == SymmetryDiagnostics(nodes, node.id, node.neighbours[..k])
    {
      SymmetryStep(nodes, node.id, node.neighbours, k);
      var slotErrors := CheckSlotSymmetry(nodes, node.id, node.neighbours[k]);
      errors := errors + slotErrors;
    }
    assert node.neighbours[..|node.neighbours|] == node.neighbours;
  }

  /**
   * `check_dict`: the duplicate-id loop, then the per-node rules node by node;
   * a crossing, dead end or lane switch naming a missing id aborts with the
   * fault the source raises.
   */
  method CheckDict(desc: Desc) returns (r: Result<seq<Diagnostic>, Fault>)
    ensures r == Validate(desc)
  {
    var nodes := desc.nodes;
    var errors: seq<Diagnostic> := [];
    var ids: map<int, nat> := map[];
    for idx := 0 to |nodes|
      invariant ids == FirstSeen(nodes[..idx])
      invariant errors == DuplicateDiagnostics(nodes[..idx])
    {
      DuplicateStep(nodes, idx);
      var node := nodes[idx];
      if node.id !in ids {
        ids := ids[node.id := idx];
      } else {
        errors := errors + [DuplicateId(idx, ids[node.id])];
      }
    }
    assert nodes[..|nodes|] == nodes;
    ghost var duplicates := errors;
    ghost var reported: seq<Diagnostic> := [];

    for i := 0 to |nodes|
      invariant NodeReports(nodes, nodes[..i]) == Ok(reported)
      invariant errors == duplicates + reported
    {
      CollectStep(Reporter(nodes), nodes, i);
      var node := nodes[i];
      var weightErrors := WeightDiagnostics(node.id, node.neighbours);
      var nameErrors := if |node.name| > 1 then [NameTooLong(node.id)] else [];
      var typeErrors := if !KnownType(node.nodeType) then [InvalidType(node.id, node.nodeType)] else [];
      var symmetry := CheckSymmetry(nodes, node);
      var adjacency := NeighbourTypeDiagnostics(nodes, node);
      if adjacency.Err? {
        CollectErrPersists(Reporter(nodes), nodes, i + 1);
        return Err(adjacency.error);
      }
      var slotErrors := if |node.neighbours| != 6 then [WrongSlotCount(node.id)] else [];
      assert NodeReport(nodes, node)
             == Ok(weightErrors + nameErrors + typeErrors + symmetry + adjacency.value + slotErrors);
      // Each append extends the part of this node's report already added.
      ghost var before := errors;
      errors := errors + weightErrors;
      ghost var added := weightErrors;
      errors := errors + nameErrors;
      AppendAssociates(before, added, nameErrors);
      added := added + nameErrors;
      errors := errors + typeErrors;
      AppendAssociates(before, added, typeErrors);
      added := added + typeErrors;
      errors := errors + symmetry;
      AppendAssociates(before, added, symmetry);
      added := added + symmetry;
      errors := errors + adjacency.value;
      AppendAssociates(before, added, adjacency.value);
      added := added + adjacency.value;
      errors := errors + slotErrors;
      AppendAssociates(before, added, slotErrors);
      added := added + slotErrors;
      AppendAssociates(duplicates, reported, added);
      reported := reported + added;
    }
    assert nodes[..|nodes|] == nodes;
    r := Ok(errors);
  }
}
