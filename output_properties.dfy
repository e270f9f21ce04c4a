/**
 * The list `check_dict` returns as a whole: every node's diagnostics reach
 * it, nothing else does, and its duplicate-id entries are exactly those of
 * the first loop.
 */
module OutputProperties {
  import opened Wrappers
  import opened Description
  import opened Lookup
  import opened Validation
  import opened ValidationProperties

  // ---------------------------------------------------------------------
  // The fold over the nodes

  /** Without a fault, every node's diagnostics are in the fold's result, each at least as often. */
  lemma {:induction false} CollectContains(report: NodeDesc -> Result<seq<Diagnostic>, Fault>, ns: seq<NodeDesc>, i: nat)
    requires i < |ns| && Collect(report, ns).Ok?
    ensures report(ns[i]).Ok?
    ensures multiset(report(ns[i]).value) <= multiset(Collect(report, ns).value)
  {
    var n := |ns| - 1;
    var pre := ns[..n];
    var c := Collect(report, pre);
    assert c.Ok? && report(ns[n]).Ok?;
    assert Collect(report, ns).value == c.value + report(ns[n]).value;
    if i < n {
      CollectContains(report, pre, i);
      assert pre[i] == ns[i];
    }
  }

  /** Every entry of the fold's result comes from some node's diagnostics. */
  lemma {:induction false} CollectMember(report: NodeDesc -> Result<seq<Diagnostic>, Fault>, ns: seq<NodeDesc>, x: Diagnostic)
    requires Collect(report, ns).Ok? && x in Collect(report, ns).value
    ensures exists i :: 0 <= i < |ns| && report(ns[i]).Ok? && x in report(ns[i]).value
  {
    var n := |ns| - 1;
    var pre := ns[..n];
    var c := Collect(report, pre);
    assert c.Ok? && report(ns[n]).Ok?;
    assert Collect(report, ns).value == c.value + report(ns[n]).value;
    if x in report(ns[n]).value {
      assert 0 <= n < |ns| && report(ns[n]).Ok? && x in report(ns[n]).value;
    } else {
      CollectMember(report, pre, x);
      var i :| 0 <= i < |pre| && report(pre[i]).Ok? && x in report(pre[i]).value;
      assert pre[i] == ns[i];
    }
  }

  // ---------------------------------------------------------------------
  // Where each entry of the output comes from

  /** Without a fault, each node's diagnostics are in the output, each at least as often. */
  lemma ValidateContains(desc: Desc, i: nat)
    requires Validate(desc).Ok? && i < |desc.nodes|
    ensures NodeReport(desc.nodes, desc.nodes[i]).Ok?
    ensures multiset(NodeReport(desc.nodes, desc.nodes[i]).value) <= multiset(Validate(desc).value)
  {
    var nodes := desc.nodes;
    var ds := NodeReports(nodes, nodes).value;
    assert Validate(desc).value == DuplicateDiagnostics(nodes) + ds;
    CollectContains(Reporter(nodes), nodes, i);
  }

  /**
   * Without a fault, an entry is in the output exactly when it is a
   * duplicate-id entry of the first loop or in some node's diagnostics.
   */
  lemma ValidateMemberIff(desc: Desc, x: Diagnostic)
    requires Validate(desc).Ok?
    ensures x in Validate(desc).value
            <==> || x in DuplicateDiagnostics(desc.nodes)
                 || exists i :: 0 <= i < |desc.nodes| && NodeReport(desc.nodes, desc.nodes[i]).Ok?
                                && x in NodeReport(desc.nodes, desc.nodes[i]).value
  {
    var nodes := desc.nodes;
    var ds := NodeReports(nodes, nodes).value;
    var out := Validate(desc).value;
    assert out == DuplicateDiagnostics(nodes) + ds;
    assert x in out <==> x in DuplicateDiagnostics(nodes) || x in ds;
    if x in ds {
      CollectMember(Reporter(nodes), nodes, x);
      var i :| 0 <= i < |nodes| && Reporter(nodes)(nodes[i]).Ok? && x in Reporter(nodes)(nodes[i]).value;
      assert NodeReport(nodes, nodes[i]).Ok? && x in NodeReport(nodes, nodes[i]).value;
    }
    if exists i :: 0 <= i < |nodes| && NodeReport(nodes, nodes[i]).Ok? && x in NodeReport(nodes, nodes[i]).value {
      var i :| 0 <= i < |nodes| && NodeReport(nodes, nodes[i]).Ok? && x in NodeReport(nodes, nodes[i]).value;
      ValidateContains(desc, i);
      assert multiset(out)[x] > 0;
    }
  }

  /** A node's diagnostics never include a duplicate-id entry. */
  lemma NodeReportNoDuplicate(nodes: seq<NodeDesc>, a: NodeDesc, x: Diagnostic)
    requires NodeReport(nodes, a).Ok? && x.DuplicateId?
    ensures x !in NodeReport(nodes, a).value
  {
    NodeReportMember(nodes, a, x);
    assert x !in WeightDiagnostics(a.id, a.neighbours);
    assert x !in SymmetryDiagnostics(nodes, a.id, a.neighbours);
    NeighbourTypePartCount(nodes, a, x);
  }

  /** The entry `x`, not a duplicate-id entry, is in the output exactly when some node's diagnostics hold it. */
  lemma NodeEntryIff(desc: Desc, x: Diagnostic)
    requires Validate(desc).Ok? && !x.DuplicateId?
    ensures x in Validate(desc).value
            <==> exists i :: 0 <= i < |desc.nodes| && NodeReport(desc.nodes, desc.nodes[i]).Ok?
                             && x in NodeReport(desc.nodes, desc.nodes[i]).value
  {
    ValidateMemberIff(desc, x);
    DuplicateDiagnosticsMeaning(desc.nodes);
  }

  // ---------------------------------------------------------------------
  // Rule 1 over the whole output

  /** The duplicate-id entries of a list of diagnostics, in order. */
  ghost function DuplicateEntries(ds: seq<Diagnostic>): seq<Diagnostic> {
    if ds == [] then []
    else DuplicateEntries(ds[..|ds| - 1]) + if ds[|ds| - 1].DuplicateId? then [ds[|ds| - 1]] else []
  }

  /** Picking out the duplicate-id entries distributes over concatenation. */
  lemma {:induction false} DuplicateEntriesAppend(a: seq<Diagnostic>, b: seq<Diagnostic>)
    ensures DuplicateEntries(a + b) == DuplicateEntries(a) + DuplicateEntries(b)
  {
    if b != [] {
      var n := |b| - 1;
      DuplicateEntriesAppend(a, b[..n]);
      assert (a + b)[..|a + b| - 1] == a + b[..n];
    } else {
      assert a + b == a;
    }
  }

  /** A list with no duplicate-id entry yields none. */
  lemma {:induction false} DuplicateEntriesNone(ds: seq<Diagnostic>)
    requires forall j :: 0 <= j < |ds| ==> !ds[j].DuplicateId?
    ensures DuplicateEntries(ds) == []
  {
    if ds != [] {
      DuplicateEntriesNone(ds[..|ds| - 1]);
    }
  }

  /** A list of duplicate-id entries only is kept whole. */
  lemma {:induction false} DuplicateEntriesAll(ds: seq<Diagnostic>)
    requires forall j :: 0 <= j < |ds| ==> ds[j].DuplicateId?
    ensures DuplicateEntries(ds) == ds
  {
    if ds != [] {
      var n := |ds| - 1;
      DuplicateEntriesAll(ds[..n]);
      assert ds[..n] + [ds[n]] == ds;
    }
  }

  /**
   * Without a fault, the duplicate-id entries of the output are exactly the
   * first loop's, in order, so there is one per occurrence of an id beyond
   * its first.
   */
  lemma DuplicatesInOutput(desc: Desc)
    requires Validate(desc).Ok?
    ensures DuplicateEntries(Validate(desc).value) == DuplicateDiagnostics(desc.nodes)
    ensures |DuplicateEntries(Validate(desc).value)| == |desc.nodes| - |IdSet(desc.nodes)|
  {
    var nodes := desc.nodes;
    var ds := NodeReports(nodes, nodes).value;
    assert Validate(desc).value == DuplicateDiagnostics(nodes) + ds;
    forall j | 0 <= j < |ds| ensures !ds[j].DuplicateId? {
      if ds[j].DuplicateId? {
        CollectMember(Reporter(nodes), nodes, ds[j]);
        var i :| 0 <= i < |nodes| && NodeReport(nodes, nodes[i]).Ok? && ds[j] in NodeReport(nodes, nodes[i]).value;
        NodeReportNoDuplicate(nodes, nodes[i], ds[j]);
      }
    }
    DuplicateEntriesNone(ds);
    DuplicateDiagnosticsMeaning(nodes);
    DuplicateEntriesAll(DuplicateDiagnostics(nodes));
    DuplicateEntriesAppend(DuplicateDiagnostics(nodes), ds);
    DuplicateCount(nodes);
  }

  // ---------------------------------------------------------------------
  // Rules 2 to 7 over the whole output

  /** An entry is in a node's diagnostics exactly when one of the six rule parts holds it. */
  lemma NodeReportMember(nodes: seq<NodeDesc>, a: NodeDesc, x: Diagnostic)
    requires NodeReport(nodes, a).Ok?
    ensures x in NodeReport(nodes, a).value
            <==> || x in WeightDiagnostics(a.id, a.neighbours)
                 || (|a.name| > 1 && x == NameTooLong(a.id))
                 || (!KnownType(a.nodeType) && x == InvalidType(a.id, a.nodeType))
                 || x in SymmetryDiagnostics(nodes, a.id, a.neighbours)
                 || x in NeighbourTypeDiagnostics(nodes, a).value
                 || (|a.neighbours| != 6 && x == WrongSlotCount(a.id))
  {
    var w := WeightDiagnostics(a.id, a.neighbours);
    var n := if |a.name| > 1 then [NameTooLong(a.id)] else [];
    var t := if !KnownType(a.nodeType) then [InvalidType(a.id, a.nodeType)] else [];
    var s := SymmetryDiagnostics(nodes, a.id, a.neighbours);
    var adj := NeighbourTypeDiagnostics(nodes, a).value;
    var c := if |a.neighbours| != 6 then [WrongSlotCount(a.id)] else [];
    assert NodeReport(nodes, a).value == w + n + t + s + adj + c;
  }

  /** An entry of a node's diagnostics that is not a weight, symmetry or neighbour-type entry is one of the node's own three. */
  lemma OtherEntryOfNode(nodes: seq<NodeDesc>, a: NodeDesc, x: Diagnostic)
    requires NodeReport(nodes, a).Ok? && x in NodeReport(nodes, a).value
    requires x.NameTooLong? || x.InvalidType? || x.WrongSlotCount?
    ensures || (|a.name| > 1 && x == NameTooLong(a.id))
            || (!KnownType(a.nodeType) && x == InvalidType(a.id, a.nodeType))
            || (|a.neighbours| != 6 && x == WrongSlotCount(a.id))
  {
    NodeReportMember(nodes, a, x);
    assert x !in WeightDiagnostics(a.id, a.neighbours);
    assert x !in SymmetryDiagnostics(nodes, a.id, a.neighbours);
    NeighbourTypePartCount(nodes, a, x);
  }

  /** A weight entry of a node's diagnostics names a slot of that node whose weight is not positive. */
  lemma WeightEntryOfNode(nodes: seq<NodeDesc>, a: NodeDesc, id: int, k: nat, w: Weight)
    requires NodeReport(nodes, a).Ok? && NonPositiveWeight(id, k, w) in NodeReport(nodes, a).value
    ensures a.id == id && k < |a.neighbours| && a.neighbours[k].weight == w && NonPositive(w)
  {
    var x := NonPositiveWeight(id, k, w);
    NodeReportMember(nodes, a, x);
    assert x !in SymmetryDiagnostics(nodes, a.id, a.neighbours);
    NeighbourTypePartCount(nodes, a, x);
    var ws := WeightDiagnostics(a.id, a.neighbours);
    var j :| 0 <= j < |ws| && ws[j] == x;
  }

  /** A symmetry entry of a node's diagnostics is in its symmetry part, which speaks only of that node. */
  lemma SymmetryEntryOfNode(nodes: seq<NodeDesc>, a: NodeDesc, x: Diagnostic)
    requires NodeReport(nodes, a).Ok? && (x.DanglingNeighbour? || x.MissingBackReference?)
    requires x in NodeReport(nodes, a).value
    ensures x in SymmetryDiagnostics(nodes, a.id, a.neighbours) && x.nodeId == a.id
  {
    NodeReportMember(nodes, a, x);
    assert x !in WeightDiagnostics(a.id, a.neighbours);
    NeighbourTypePartCount(nodes, a, x);
    var s := SymmetryDiagnostics(nodes, a.id, a.neighbours);
    var j :| 0 <= j < |s| && s[j] == x;
  }

  /** A neighbour-type entry of a node's diagnostics names a slot of that node, a crossing, dead end or lane switch, whose neighbour is not a segment. */
  lemma NeighbourTypeEntryOfNode(nodes: seq<NodeDesc>, a: NodeDesc, id: int, k: nat)
    requires NodeReport(nodes, a).Ok? && NonSegmentNeighbour(id, k) in NodeReport(nodes, a).value
    ensures a.id == id && SegmentOnlyType(a.nodeType) && k < |a.neighbours| && NonSegmentTarget(nodes, a.neighbours[k])
  {
    var x := NonSegmentNeighbour(id, k);
    NodeReportMember(nodes, a, x);
    assert x !in WeightDiagnostics(a.id, a.neighbours);
    assert x !in SymmetryDiagnostics(nodes, a.id, a.neighbours);
    var adj := NeighbourTypeDiagnostics(nodes, a).value;
    assert SegmentOnlyType(a.nodeType);
    NonSegmentSlotsSound(nodes, a.id, a.neighbours);
    var j :| 0 <= j < |adj| && adj[j] == x;
  }

  /**
   * Without a fault, the output reports slot `k` of the node `id` with
   * weight `w` exactly when some node with that id has that weight, not
   * positive, in slot `k`.
   */
  lemma WeightInOutputIff(desc: Desc, id: int, k: nat, w: Weight)
    requires Validate(desc).Ok?
    ensures NonPositiveWeight(id, k, w) in Validate(desc).value
            <==> exists i :: 0 <= i < |desc.nodes| && desc.nodes[i].id == id && k < |desc.nodes[i].neighbours|
                             && desc.nodes[i].neighbours[k].weight == w && NonPositive(w)
  {
    var nodes := desc.nodes;
    var x := NonPositiveWeight(id, k, w);
    NodeEntryIff(desc, x);
    if x in Validate(desc).value {
      var i :| 0 <= i < |nodes| && NodeReport(nodes, nodes[i]).Ok? && x in NodeReport(nodes, nodes[i]).value;
      WeightEntryOfNode(nodes, nodes[i], id, k, w);
    }
    if exists i :: 0 <= i < |nodes| && nodes[i].id == id && k < |nodes[i].neighbours|
                   && nodes[i].neighbours[k].weight == w && NonPositive(w) {
      var i :| 0 <= i < |nodes| && nodes[i].id == id && k < |nodes[i].neighbours|
               && nodes[i].neighbours[k].weight == w && NonPositive(w);
      ValidateContains(desc, i);
      NodeReportMember(nodes, nodes[i], x);
    }
  }

  /** Without a fault, the output holds a name diagnostic for `id` exactly when some node with that id has a name longer than one character. */
  lemma NameInOutputIff(desc: Desc, id: int)
    requires Validate(desc).Ok?
    ensures NameTooLong(id) in Validate(desc).value
            <==> exists i :: 0 <= i < |desc.nodes| && desc.nodes[i].id == id && |desc.nodes[i].name| > 1
  {
    var nodes := desc.nodes;
    var x := NameTooLong(id);
    NodeEntryIff(desc, x);
    if x in Validate(desc).value {
      var i :| 0 <= i < |nodes| && NodeReport(nodes, nodes[i]).Ok? && x in NodeReport(nodes, nodes[i]).value;
      OtherEntryOfNode(nodes, nodes[i], x);
    }
    if exists i :: 0 <= i < |nodes| && nodes[i].id == id && |nodes[i].name| > 1 {
      var i :| 0 <= i < |nodes| && nodes[i].id == id && |nodes[i].name| > 1;
      ValidateContains(desc, i);
      NodeReportMember(nodes, nodes[i], x);
    }
  }

  /** Without a fault, the output holds a type diagnostic for `id` and `t` exactly when some node with that id has the unknown type `t`. */
  lemma TypeInOutputIff(desc: Desc, id: int, t: string)
    requires Validate(desc).Ok?
    ensures InvalidType(id, t) in Validate(desc).value
            <==> exists i :: 0 <= i < |desc.nodes| && desc.nodes[i].id == id && desc.nodes[i].nodeType == t && !KnownType(t)
  {
    var nodes := desc.nodes;
    var x := InvalidType(id, t);
    NodeEntryIff(desc, x);
    if x in Validate(desc).value {
      var i :| 0 <= i < |nodes| && NodeReport(nodes, nodes[i]).Ok? && x in NodeReport(nodes, nodes[i]).value;
      OtherEntryOfNode(nodes, nodes[i], x);
    }
    if exists i :: 0 <= i < |nodes| && nodes[i].id == id && nodes[i].nodeType == t && !KnownType(t) {
      var i :| 0 <= i < |nodes| && nodes[i].id == id && nodes[i].nodeType == t && !KnownType(t);
      ValidateContains(desc, i);
      NodeReportMember(nodes, nodes[i], x);
    }
  }

  /** Without a fault, the output holds a slot-count diagnostic for `id` exactly when some node with that id does not have six slots. */
  lemma SlotCountInOutputIff(desc: Desc, id: int)
    requires Validate(desc).Ok?
    ensures WrongSlotCount(id) in Validate(desc).value
            <==> exists i :: 0 <= i < |desc.nodes| && desc.nodes[i].id == id && |desc.nodes[i].neighbours| != 6
  {
    var nodes := desc.nodes;
    var x := WrongSlotCount(id);
    NodeEntryIff(desc, x);
    if x in Validate(desc).value {
      var i :| 0 <= i < |nodes| && NodeReport(nodes, nodes[i]).Ok? && x in NodeReport(nodes, nodes[i]).value;
      OtherEntryOfNode(nodes, nodes[i], x);
    }
    if exists i :: 0 <= i < |nodes| && nodes[i].id == id && |nodes[i].neighbours| != 6 {
      var i :| 0 <= i < |nodes| && nodes[i].id == id && |nodes[i].neighbours| != 6;
      ValidateContains(desc, i);
      NodeReportMember(nodes, nodes[i], x);
    }
  }

  /**
   * Without a fault, the output reports `b` as missing from the description,
   * declared by `id`, exactly when some node with id `id` has a slot naming
   * `b` and no node has id `b`.
   */
  lemma DanglingInOutputIff(desc: Desc, b: int, id: int)
    requires Validate(desc).Ok?
    ensures DanglingNeighbour(b, id) in Validate(desc).value
            <==> exists i, k :: 0 <= i < |desc.nodes| && desc.nodes[i].id == id && 0 <= k < |desc.nodes[i].neighbours|
                                && desc.nodes[i].neighbours[k].target == Some(b)
                                && DanglingSlot(desc.nodes, desc.nodes[i].neighbours[k])
  {
    var nodes := desc.nodes;
    var x := DanglingNeighbour(b, id);
    NodeEntryIff(desc, x);
    if x in Validate(desc).value {
      var i :| 0 <= i < |nodes| && NodeReport(nodes, nodes[i]).Ok? && x in NodeReport(nodes, nodes[i]).value;
      SymmetryEntryOfNode(nodes, nodes[i], x);
      SymmetryDanglingIff(nodes, id, nodes[i].neighbours, b);
      var k :| 0 <= k < |nodes[i].neighbours| && nodes[i].neighbours[k].target == Some(b)
               && DanglingSlot(nodes, nodes[i].neighbours[k]);
    }
    if exists i, k :: 0 <= i < |nodes| && nodes[i].id == id && 0 <= k < |nodes[i].neighbours|
                      && nodes[i].neighbours[k].target == Some(b) && DanglingSlot(nodes, nodes[i].neighbours[k]) {
      var i, k :| 0 <= i < |nodes| && nodes[i].id == id && 0 <= k < |nodes[i].neighbours|
                  && nodes[i].neighbours[k].target == Some(b) && DanglingSlot(nodes, nodes[i].neighbours[k]);
      SymmetryDanglingIff(nodes, id, nodes[i].neighbours, b);
      ValidateContains(desc, i);
      NodeReportMember(nodes, nodes[i], x);
    }
  }

  /**
   * Without a fault, the output reports that node `b` does not point back at
   * `id` exactly when some node with id `id` has a slot naming `b` and the
   * first description with id `b` has no slot naming `id`.
   */
  lemma MissingInOutputIff(desc: Desc, id: int, b: int)
    requires Validate(desc).Ok?
    ensures MissingBackReference(id, b) in Validate(desc).value
            <==> && (exists i, k :: 0 <= i < |desc.nodes| && desc.nodes[i].id == id && 0 <= k < |desc.nodes[i].neighbours|
                                    && desc.nodes[i].neighbours[k].target == Some(b))
                 && exists f :: IsFirstDescWithId(desc.nodes, b, f) && !HasSlotTo(desc.nodes[f].neighbours, id)
  {
    var nodes := desc.nodes;
    var x := MissingBackReference(id, b);
    NodeEntryIff(desc, x);
    if x in Validate(desc).value {
      var i :| 0 <= i < |nodes| && NodeReport(nodes, nodes[i]).Ok? && x in NodeReport(nodes, nodes[i]).value;
      SymmetryEntryOfNode(nodes, nodes[i], x);
      SymmetryMissingIff(nodes, id, nodes[i].neighbours, b);
      var k :| 0 <= k < |nodes[i].neighbours| && nodes[i].neighbours[k].target == Some(b);
    }
    if && (exists i, k :: 0 <= i < |nodes| && nodes[i].id == id && 0 <= k < |nodes[i].neighbours|
                          && nodes[i].neighbours[k].target == Some(b))
       && exists f :: IsFirstDescWithId(nodes, b, f) && !HasSlotTo(nodes[f].neighbours, id) {
      var i, k :| 0 <= i < |nodes| && nodes[i].id == id && 0 <= k < |nodes[i].neighbours|
                  && nodes[i].neighbours[k].target == Some(b);
      SymmetryMissingIff(nodes, id, nodes[i].neighbours, b);
      ValidateContains(desc, i);
      NodeReportMember(nodes, nodes[i], x);
    }
  }

  /**
   * Without a fault, the output reports slot `k` of node `id` as naming a
   * non-segment exactly when some crossing, dead end or lane switch with
   * that id names, in slot `k`, an id whose first description is not a
   * segment.
   */
  lemma NeighbourTypeInOutputIff(desc: Desc, id: int, k: nat)
    requires Validate(desc).Ok?
    ensures NonSegmentNeighbour(id, k) in Validate(desc).value
            <==> exists i :: 0 <= i < |desc.nodes| && desc.nodes[i].id == id && SegmentOnlyType(desc.nodes[i].nodeType)
                             && k < |desc.nodes[i].neighbours| && NonSegmentTarget(desc.nodes, desc.nodes[i].neighbours[k])
  {
    var nodes := desc.nodes;
    var x := NonSegmentNeighbour(id, k);
    NodeEntryIff(desc, x);
    if x in Validate(desc).value {
      var i :| 0 <= i < |nodes| && NodeReport(nodes, nodes[i]).Ok? && x in NodeReport(nodes, nodes[i]).value;
      NeighbourTypeEntryOfNode(nodes, nodes[i], id, k);
    }
    if exists i :: 0 <= i < |nodes| && nodes[i].id == id && SegmentOnlyType(nodes[i].nodeType)
                   && k < |nodes[i].neighbours| && NonSegmentTarget(nodes, nodes[i].neighbours[k]) {
      var i :| 0 <= i < |nodes| && nodes[i].id == id && SegmentOnlyType(nodes[i].nodeType)
               && k < |nodes[i].neighbours| && NonSegmentTarget(nodes, nodes[i].neighbours[k]);
      ValidateContains(desc, i);
      NonSegmentSlotsComplete(nodes, id, nodes[i].neighbours);
      NodeReportMember(nodes, nodes[i], x);
    }
  }
}
