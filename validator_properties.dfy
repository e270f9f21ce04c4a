/** What `check_dict` reports, stated against independent definitions of a well-formed description. */
module ValidationProperties {
  import opened Wrappers
  import opened Description
  import opened Lookup
  import opened Validation

  // ---------------------------------------------------------------------
  // Rule 1

  /** Every id of the description. */
  ghost function IdSet(nodes: seq<NodeDesc>): set<int> {
    set k | 0 <= k < |nodes| :: nodes[k].id
  }

  /** The bookkeeping dictionary has exactly the description's ids as keys. */
  lemma FirstSeenKeys(nodes: seq<NodeDesc>)
    ensures FirstSeen(nodes).Keys == IdSet(nodes)
  {
    var m := FirstSeen(nodes);
    FirstSeenMeaning(nodes);
    forall x | x in m.Keys ensures x in IdSet(nodes) {
      assert IsFirstDescWithId(nodes, x, m[x]);
    }
  }

  /** A node whose id occurred earlier is reported, with the position of its first occurrence. */
  lemma {:induction false} DuplicateReported(nodes: seq<NodeDesc>, i: int, f: int)
    requires 0 <= f < i < |nodes| && IsFirstDescWithId(nodes, nodes[i].id, f)
    ensures DuplicateId(i, f) in DuplicateDiagnostics(nodes)
  {
    var n := |nodes| - 1;
    var pre := nodes[..n];
    DuplicateStep(nodes, n);
    assert nodes[..n + 1] == nodes;
    if i < n {
      assert IsFirstDescWithId(pre, pre[i].id, f) by {
        assert forall j :: 0 <= j <= i ==> pre[j] == nodes[j];
      }
      DuplicateReported(pre, i, f);
    } else {
      var m := FirstSeen(pre);
      var id := nodes[i].id;
      FirstSeenMeaning(pre);
      assert pre[f].id == id;
      var g := m[id];
      FirstInPrefix(nodes, n, id, g);
      assert !(g < f) && !(f < g);
    }
  }


  /** The number of duplicate-id diagnostics is the number of occurrences beyond the first of each id. */
  lemma {:induction false} DuplicateCount(nodes: seq<NodeDesc>)
    ensures |DuplicateDiagnostics(nodes)| == |nodes| - |IdSet(nodes)|
  {
    FirstSeenKeys(nodes);
    if nodes != [] {
      var pre := nodes[..|nodes| - 1];
      DuplicateCount(pre);
      FirstSeenKeys(pre);
      var id := nodes[|nodes| - 1].id;
      assert IdSet(nodes) == IdSet(pre) + {id} by {
        forall x | x in IdSet(nodes) ensures x in IdSet(pre) + {id} {
          var k :| 0 <= k < |nodes| && nodes[k].id == x;
          if k < |nodes| - 1 { assert pre[k].id == x; }
        }
        forall x | x in IdSet(pre) ensures x in IdSet(nodes) {
          var k :| 0 <= k < |pre| && pre[k].id == x;
          assert nodes[k].id == x;
        }
      }
    }
  }

  /** No duplicate-id diagnostic exactly when all ids differ. */
  ghost predicate UniqueIds(nodes: seq<NodeDesc>) {
    forall i, j :: 0 <= i < j < |nodes| ==> nodes[i].id != nodes[j].id
  }

  lemma DuplicatesEmptyIff(nodes: seq<NodeDesc>)
    ensures DuplicateDiagnostics(nodes) == [] <==> UniqueIds(nodes)
  {
    if !UniqueIds(nodes) {
      var i, j :| 0 <= i < j < |nodes| && nodes[i].id == nodes[j].id;
      var m := FirstSeen(nodes);
      FirstSeenMeaning(nodes);
      assert IsFirstDescWithId(nodes, nodes[j].id, m[nodes[j].id]);
      DuplicateReported(nodes, j, m[nodes[j].id]);
    }
    var r := DuplicateDiagnostics(nodes);
    DuplicateDiagnosticsMeaning(nodes);
    if r != [] {
      assert IsFirstDescWithId(nodes, nodes[r[0].index].id, r[0].firstIndex);
    }
  }

  /** With distinct ids, every position is the first for its id. */
  lemma UniqueFirst(nodes: seq<NodeDesc>, j: int)
    requires UniqueIds(nodes) && 0 <= j < |nodes|
    ensures IsFirstDescWithId(nodes, nodes[j].id, j)
  {
  }

  // ---------------------------------------------------------------------
  // Rule 5

  /** One slot yields a dangling diagnostic naming `b` exactly when it names `b` and no node has that id. */
  lemma SlotDanglingIff(nodes: seq<NodeDesc>, id: int, s: SlotDesc, b: int)
    ensures DanglingNeighbour(b, id) in SlotSymmetry(nodes, id, s) <==> s.target == Some(b) && DanglingSlot(nodes, s)
  {
    SlotSymmetryMeaning(nodes, id, s);
    if s.target.Some? && !DanglingSlot(nodes, s) {
      var f :| IsFirstDescWithId(nodes, s.target.value, f) by {
        var g := GetByIdDesc(nodes, s.target.value);
        var j :| IsFirstDescWithId(nodes, s.target.value, j) && nodes[j] == g.value;
      }
    }
  }

  /**
   * One slot yields a missing-back-reference diagnostic naming `b` exactly
   * when it names `b` and the first node with id `b` has no slot pointing
   * back.
   */
  lemma SlotMissingIff(nodes: seq<NodeDesc>, id: int, s: SlotDesc, b: int)
    ensures MissingBackReference(id, b) in SlotSymmetry(nodes, id, s)
            <==> s.target == Some(b) && exists f :: IsFirstDescWithId(nodes, b, f) && !HasSlotTo(nodes[f].neighbours, id)
  {
    SlotSymmetryMeaning(nodes, id, s);
    if s.target.Some? && !DanglingSlot(nodes, s) {
      var f :| IsFirstDescWithId(nodes, s.target.value, f) by {
        var g := GetByIdDesc(nodes, s.target.value);
        var j :| IsFirstDescWithId(nodes, s.target.value, j) && nodes[j] == g.value;
      }
      forall f' | IsFirstDescWithId(nodes, s.target.value, f') ensures f' == f {
        assert !(f' < f) && !(f < f');
      }
    }
  }

  /**
   * The symmetry rule reports `b` as missing from the description exactly
   * when some slot names `b` and no node has that id.
   */
  lemma SymmetryDanglingIff(nodes: seq<NodeDesc>, id: int, slots: seq<SlotDesc>, b: int)
    ensures DanglingNeighbour(b, id) in SymmetryDiagnostics(nodes, id, slots)
            <==> exists k :: 0 <= k < |slots| && slots[k].target == Some(b) && DanglingSlot(nodes, slots[k])
  {
    SymmetryIsConcat(nodes, id, slots);
    ConcatSlotsMember(SlotChecker(nodes, id), slots, DanglingNeighbour(b, id));
    forall k | 0 <= k < |slots| {
      SlotDanglingIff(nodes, id, slots[k], b);
    }
  }


  /**
   * The symmetry rule reports that `b` does not point back exactly when some
   * slot names `b` and the first node with id `b` has no slot naming `id`.
   */
  lemma SymmetryMissingIff(nodes: seq<NodeDesc>, id: int, slots: seq<SlotDesc>, b: int)
    ensures MissingBackReference(id, b) in SymmetryDiagnostics(nodes, id, slots)
            <==> (exists k :: 0 <= k < |slots| && slots[k].target == Some(b))
                 && exists f :: IsFirstDescWithId(nodes, b, f) && !HasSlotTo(nodes[f].neighbours, id)
  {
    SymmetryIsConcat(nodes, id, slots);
    ConcatSlotsMember(SlotChecker(nodes, id), slots, MissingBackReference(id, b));
    forall k | 0 <= k < |slots| {
      SlotMissingIff(nodes, id, slots[k], b);
    }
  }



  // ---------------------------------------------------------------------
  // A well-formed description, rule by rule, without the search functions

  /** An empty slot, or one naming a node that has a slot pointing back at `id` (any weight). */
  ghost predicate SymmetricSlot(nodes: seq<NodeDesc>, id: int, s: SlotDesc) {
    s.target.Some? ==>
      exists j :: 0 <= j < |nodes| && nodes[j].id == s.target.value && HasSlotTo(nodes[j].neighbours, id)
  }

  /** Every neighbour of a crossing, dead end or lane switch is a segment. */
  ghost predicate SegmentNeighboursOnly(nodes: seq<NodeDesc>, a: NodeDesc) {
    SegmentOnlyType(a.nodeType) ==>
      forall k, j :: 0 <= k < |a.neighbours| && 0 <= j < |nodes| && a.neighbours[k].target == Some(nodes[j].id) ==>
        nodes[j].nodeType == SegmentType
  }

  /** Rules 2 to 7 hold of node `a`; nothing is said of how many slots are populated. */
  ghost predicate NodeWellFormed(nodes: seq<NodeDesc>, a: NodeDesc) {
    && (forall k :: 0 <= k < |a.neighbours| ==> !NonPositive(a.neighbours[k].weight))
    && |a.name| <= 1
    && KnownType(a.nodeType)
    && (forall k :: 0 <= k < |a.neighbours| ==> SymmetricSlot(nodes, a.id, a.neighbours[k]))
    && SegmentNeighboursOnly(nodes, a)
    && |a.neighbours| == 6
  }

  /** Distinct ids and every node well formed. */
  ghost predicate WellFormed(desc: Desc) {
    UniqueIds(desc.nodes) && forall i :: 0 <= i < |desc.nodes| ==> NodeWellFormed(desc.nodes, desc.nodes[i])
  }

  /** With distinct ids, a slot yields no symmetry diagnostic exactly when it is symmetric. */
  lemma SlotSymmetryEmptyIff(nodes: seq<NodeDesc>, id: int, s: SlotDesc)
    requires UniqueIds(nodes)
    ensures SlotSymmetry(nodes, id, s) == [] <==> SymmetricSlot(nodes, id, s)
  {
    SlotSymmetryMeaning(nodes, id, s);
    if s.target.Some? && !DanglingSlot(nodes, s) {
      var j :| 0 <= j < |nodes| && nodes[j].id == s.target.value;
      UniqueFirst(nodes, j);
    }
  }

  /** Concatenates `f` of each slot, in slot order. */
  ghost function ConcatSlots(f: SlotDesc -> seq<Diagnostic>, slots: seq<SlotDesc>): seq<Diagnostic> {
    if slots == [] then [] else ConcatSlots(f, slots[..|slots| - 1]) + f(slots[|slots| - 1])
  }

  /** The symmetry rule for one slot of the node with id `id`, as a function value. */
  ghost function SlotChecker(nodes: seq<NodeDesc>, id: int): SlotDesc -> seq<Diagnostic> {
    s => SlotSymmetry(nodes, id, s)
  }

  /** A concatenation is empty exactly when every part is. */
  lemma {:induction false} ConcatSlotsEmptyIff(f: SlotDesc -> seq<Diagnostic>, slots: seq<SlotDesc>)
    ensures ConcatSlots(f, slots) == [] <==> forall k :: 0 <= k < |slots| ==> f(slots[k]) == []
  {
    if slots != [] {
      var n := |slots| - 1;
      ConcatSlotsEmptyIff(f, slots[..n]);
      assert forall k :: 0 <= k < n ==> slots[..n][k] == slots[k];
    }
  }

  /** A diagnostic occurs in a concatenation exactly when it occurs in some part. */
  lemma {:induction false} ConcatSlotsMember(f: SlotDesc -> seq<Diagnostic>, slots: seq<SlotDesc>, x: Diagnostic)
    ensures x in ConcatSlots(f, slots) <==> exists k :: 0 <= k < |slots| && x in f(slots[k])
  {
    if slots != [] {
      var n := |slots| - 1;
      ConcatSlotsMember(f, slots[..n], x);
      assert forall k :: 0 <= k < n ==> slots[..n][k] == slots[k];
    }
  }

  /** The symmetry rule concatenates the per-slot diagnostics. */
  lemma {:induction false} SymmetryIsConcat(nodes: seq<NodeDesc>, id: int, slots: seq<SlotDesc>)
    ensures SymmetryDiagnostics(nodes, id, slots) == ConcatSlots(SlotChecker(nodes, id), slots)
  {
    if slots != [] {
      SymmetryIsConcat(nodes, id, slots[..|slots| - 1]);
    }
  }

  /** No symmetry diagnostic for a node exactly when each of its slots yields none. */
  lemma {:induction false} SymmetryEmptyIff(nodes: seq<NodeDesc>, id: int, slots: seq<SlotDesc>)
    ensures SymmetryDiagnostics(nodes, id, slots) == []
            <==> forall k :: 0 <= k < |slots| ==> SlotSymmetry(nodes, id, slots[k]) == []
  {
    SymmetryIsConcat(nodes, id, slots);
    ConcatSlotsEmptyIff(SlotChecker(nodes, id), slots);
  }



  /** With distinct ids, the neighbour-type rule reports nothing and does not fail exactly when it holds. */
  lemma NeighbourTypesEmptyIff(nodes: seq<NodeDesc>, a: NodeDesc)
    requires UniqueIds(nodes)
    requires forall k :: 0 <= k < |a.neighbours| ==> !DanglingSlot(nodes, a.neighbours[k])
    ensures NeighbourTypeDiagnostics(nodes, a) == Ok([]) <==> SegmentNeighboursOnly(nodes, a)
  {
    if SegmentOnlyType(a.nodeType) {
      var r := NonSegmentSlots(nodes, a.id, a.neighbours);
      NonSegmentSlotsMeaning(nodes, a.id, a.neighbours);
      assert r.Ok?;
      if r.value == [] {
        forall k, j | 0 <= k < |a.neighbours| && 0 <= j < |nodes| && a.neighbours[k].target == Some(nodes[j].id)
          ensures nodes[j].nodeType == SegmentType
        {
          UniqueFirst(nodes, j);
          assert !(NonSegmentNeighbour(a.id, k) in r.value);
        }
      }
      if r.value != [] {
        var k := r.value[0].slot;
        var f :| IsFirstDescWithId(nodes, a.neighbours[k].target.value, f) && nodes[f].nodeType != SegmentType;
        assert !SegmentNeighboursOnly(nodes, a);
      }
    }
  }

  /** No weight diagnostic exactly when every weight is positive. */
  lemma WeightsEmptyIff(id: int, slots: seq<SlotDesc>)
    ensures WeightDiagnostics(id, slots) == [] <==> forall k :: 0 <= k < |slots| ==> !NonPositive(slots[k].weight)
  {
    var w := WeightDiagnostics(id, slots);
    if w != [] {
      assert NonPositive(slots[w[0].slot].weight);
    }
  }

  /** With distinct ids, the symmetry rule reports nothing for a node exactly when all its slots are symmetric. */
  lemma SymmetryEmptyIffSymmetric(nodes: seq<NodeDesc>, a: NodeDesc)
    requires UniqueIds(nodes)
    ensures SymmetryDiagnostics(nodes, a.id, a.neighbours) == []
            <==> forall k :: 0 <= k < |a.neighbours| ==> SymmetricSlot(nodes, a.id, a.neighbours[k])
  {
    SymmetryEmptyIff(nodes, a.id, a.neighbours);
    forall k | 0 <= k < |a.neighbours|
      ensures SlotSymmetry(nodes, a.id, a.neighbours[k]) == [] <==> SymmetricSlot(nodes, a.id, a.neighbours[k])
    {
      SlotSymmetryEmptyIff(nodes, a.id, a.neighbours[k]);
    }
  }

  /** A symmetric slot names an existing id. */
  lemma SymmetricNotDangling(nodes: seq<NodeDesc>, a: NodeDesc)
    requires forall k :: 0 <= k < |a.neighbours| ==> SymmetricSlot(nodes, a.id, a.neighbours[k])
    ensures forall k :: 0 <= k < |a.neighbours| ==> !DanglingSlot(nodes, a.neighbours[k])
  {
    forall k | 0 <= k < |a.neighbours| ensures !DanglingSlot(nodes, a.neighbours[k]) {
      assert SymmetricSlot(nodes, a.id, a.neighbours[k]);
    }
  }

  /** With distinct ids, a node is reported nothing exactly when it is well formed. */
  lemma NodeReportEmptyIff(nodes: seq<NodeDesc>, a: NodeDesc)
    requires UniqueIds(nodes)
    ensures NodeReport(nodes, a) == Ok([]) <==> NodeWellFormed(nodes, a)
  {
    WeightsEmptyIff(a.id, a.neighbours);
    SymmetryEmptyIffSymmetric(nodes, a);
    var symmetric := forall k :: 0 <= k < |a.neighbours| ==> SymmetricSlot(nodes, a.id, a.neighbours[k]);
    if symmetric {
      SymmetricNotDangling(nodes, a);
      NeighbourTypesEmptyIff(nodes, a);
    }
  }

  // ---------------------------------------------------------------------
  // The whole description

  /** The fold reports nothing exactly when no node is reported anything. */
  lemma {:induction false} CollectEmptyIff(report: NodeDesc -> Result<seq<Diagnostic>, Fault>, ns: seq<NodeDesc>)
    ensures Collect(report, ns) == Ok([]) <==> forall i :: 0 <= i < |ns| ==> report(ns[i]) == Ok([])
  {
    if ns != [] {
      var n := |ns| - 1;
      var pre := ns[..n];
      CollectEmptyIff(report, pre);
      assert forall i :: 0 <= i < n ==> pre[i] == ns[i];
      assert (forall i :: 0 <= i < |ns| ==> report(ns[i]) == Ok([]))
             <==> (forall i :: 0 <= i < n ==> report(pre[i]) == Ok([])) && report(ns[n]) == Ok([]);
      var c := Collect(report, pre);
      var last := report(ns[n]);
      if c.Ok? && last.Ok? {
        assert Collect(report, ns) == Ok(c.value + last.value);
        assert |c.value + last.value| == |c.value| + |last.value|;
      }
    }
  }

  /** The fold fails exactly when some node's report fails. */
  lemma {:induction false} CollectErrIff(report: NodeDesc -> Result<seq<Diagnostic>, Fault>, ns: seq<NodeDesc>)
    ensures Collect(report, ns).Err? <==> exists i :: 0 <= i < |ns| && report(ns[i]).Err?
  {
    if ns != [] {
      var n := |ns| - 1;
      CollectErrIff(report, ns[..n]);
      assert forall i :: 0 <= i < n ==> ns[..n][i] == ns[i];
    }
  }

  /** A crossing, dead end or lane switch naming an id no description carries. */
  ghost predicate NonSegmentNodeWithDanglingSlot(nodes: seq<NodeDesc>) {
    exists i, k :: 0 <= i < |nodes| && 0 <= k < |nodes[i].neighbours|
                && SegmentOnlyType(nodes[i].nodeType) && DanglingSlot(nodes, nodes[i].neighbours[k])
  }

  /**
   * `check_dict` raises exactly when a crossing, dead end or lane switch names
   * a missing id; a segment or an unknown type naming one is only reported.
   */
  lemma ValidateFailsIff(desc: Desc)
    ensures Validate(desc).Err? <==> NonSegmentNodeWithDanglingSlot(desc.nodes)
  {
    var nodes := desc.nodes;
    CollectErrIff(Reporter(nodes), nodes);
    if NonSegmentNodeWithDanglingSlot(nodes) {
      var i, k :| 0 <= i < |nodes| && 0 <= k < |nodes[i].neighbours|
                  && SegmentOnlyType(nodes[i].nodeType) && DanglingSlot(nodes, nodes[i].neighbours[k]);
      NonSegmentSlotsMeaning(nodes, nodes[i].id, nodes[i].neighbours);
      assert NodeReport(nodes, nodes[i]).Err?;
    }
    if Validate(desc).Err? {
      var i :| 0 <= i < |nodes| && NodeReport(nodes, nodes[i]).Err?;
      assert NeighbourTypeDiagnostics(nodes, nodes[i]).Err?;
      NonSegmentSlotsMeaning(nodes, nodes[i].id, nodes[i].neighbours);
    }
  }

  /**
   * `check_dict` returns no diagnostic exactly when the description is well
   * formed. Well-formedness asks nothing of the weight on the way back nor of
   * how many slots are populated: those two rules are disabled.
   */
  lemma ValidateEmptyIff(desc: Desc)
    ensures Validate(desc) == Ok([]) <==> WellFormed(desc)
  {
    var nodes := desc.nodes;
    DuplicatesEmptyIff(nodes);
    CollectEmptyIff(Reporter(nodes), nodes);
    match NodeReports(nodes, nodes) {
      case Err(_) =>
      case Ok(ds) => assert Validate(desc) == Ok(DuplicateDiagnostics(nodes) + ds);
    }
    if UniqueIds(nodes) {
      forall i | 0 <= i < |nodes| ensures NodeReport(nodes, nodes[i]) == Ok([]) <==> NodeWellFormed(nodes, nodes[i]) {
        NodeReportEmptyIff(nodes, nodes[i]);
      }
    }
  }

  // ---------------------------------------------------------------------
  // How many diagnostics one node gets

  /** An element of a sequence without repeats occurs once. */
  lemma {:induction false} OccursOnce<T>(s: seq<T>, x: T)
    requires forall a, b :: 0 <= a < b < |s| ==> s[a] != s[b]
    ensures multiset(s)[x] == if x in s then 1 else 0
  {
    if s != [] {
      var n := |s| - 1;
      OccursOnce(s[..n], x);
      assert s == s[..n] + [s[n]];
      assert x == s[n] ==> x !in s[..n];
    }
  }

  /** The diagnostics of node `a` when its neighbour-type check passes, as six parts in report order. */
  lemma NodeReportParts(nodes: seq<NodeDesc>, a: NodeDesc)
    requires NodeReport(nodes, a).Ok?
    ensures var adj := NeighbourTypeDiagnostics(nodes, a).value;
      && (forall j :: 0 <= j < |adj| ==> adj[j].NonSegmentNeighbour?)
      && multiset(NodeReport(nodes, a).value)
         == multiset(WeightDiagnostics(a.id, a.neighbours))
            + multiset(if |a.name| > 1 then [NameTooLong(a.id)] else [])
            + multiset(if !KnownType(a.nodeType) then [InvalidType(a.id, a.nodeType)] else [])
            + multiset(SymmetryDiagnostics(nodes, a.id, a.neighbours))
            + multiset(adj)
            + multiset(if |a.neighbours| != 6 then [WrongSlotCount(a.id)] else [])
  {
    NonSegmentSlotsMeaning(nodes, a.id, a.neighbours);
  }
  /** The weight rule reports weight diagnostics only. */
  lemma WeightPartCount(id: int, slots: seq<SlotDesc>, x: Diagnostic)
    requires !x.NonPositiveWeight?
    ensures multiset(WeightDiagnostics(id, slots))[x] == 0
  {
    assert x !in WeightDiagnostics(id, slots);
  }

  /** The weight rule reports a slot once when its weight is not positive, and never otherwise. */
  lemma WeightPartCountAt(id: int, slots: seq<SlotDesc>, k: nat)
    requires k < |slots|
    ensures multiset(WeightDiagnostics(id, slots))[NonPositiveWeight(id, k, slots[k].weight)]
            == if NonPositive(slots[k].weight) then 1 else 0
  {
    var w := WeightDiagnostics(id, slots);
    forall i, j | 0 <= i < j < |w| ensures w[i] != w[j] {
      assert w[i].slot < w[j].slot;
    }
    OccursOnce(w, NonPositiveWeight(id, k, slots[k].weight));
  }

  /** The symmetry rule reports dangling and missing-back-reference diagnostics only. */
  lemma SymmetryPartCount(nodes: seq<NodeDesc>, id: int, slots: seq<SlotDesc>, x: Diagnostic)
    requires !x.DanglingNeighbour? && !x.MissingBackReference?
    ensures multiset(SymmetryDiagnostics(nodes, id, slots))[x] == 0
  {
    assert x !in SymmetryDiagnostics(nodes, id, slots);
  }

  /** The neighbour-type rule reports neighbour-type diagnostics only. */
  lemma NeighbourTypePartCount(nodes: seq<NodeDesc>, a: NodeDesc, x: Diagnostic)
    requires NeighbourTypeDiagnostics(nodes, a).Ok? && !x.NonSegmentNeighbour?
    ensures multiset(NeighbourTypeDiagnostics(nodes, a).value)[x] == 0
  {
    if SegmentOnlyType(a.nodeType) {
      NonSegmentSlotsSound(nodes, a.id, a.neighbours);
    }
    assert x !in NeighbourTypeDiagnostics(nodes, a).value;
  }

  /** How often a diagnostic occurs in a node's report: the sum of its occurrences in the six parts. */
  lemma NodeReportCount(nodes: seq<NodeDesc>, a: NodeDesc, x: Diagnostic)
    requires NodeReport(nodes, a).Ok?
    ensures multiset(NodeReport(nodes, a).value)[x]
            == multiset(WeightDiagnostics(a.id, a.neighbours))[x]
               + multiset(if |a.name| > 1 then [NameTooLong(a.id)] else [])[x]
               + multiset(if !KnownType(a.nodeType) then [InvalidType(a.id, a.nodeType)] else [])[x]
               + multiset(SymmetryDiagnostics(nodes, a.id, a.neighbours))[x]
               + multiset(NeighbourTypeDiagnostics(nodes, a).value)[x]
               + multiset(if |a.neighbours| != 6 then [WrongSlotCount(a.id)] else [])[x]
  {
    NodeReportParts(nodes, a);
  }


  /** A node gets one name diagnostic exactly when its name is longer than one character. */
  lemma NameTooLongCount(nodes: seq<NodeDesc>, a: NodeDesc)
    requires NodeReport(nodes, a).Ok?
    ensures multiset(NodeReport(nodes, a).value)[NameTooLong(a.id)] == if |a.name| > 1 then 1 else 0
  {
    NodeReportCount(nodes, a, NameTooLong(a.id));
    WeightPartCount(a.id, a.neighbours, NameTooLong(a.id));
    SymmetryPartCount(nodes, a.id, a.neighbours, NameTooLong(a.id));
    NeighbourTypePartCount(nodes, a, NameTooLong(a.id));
  }

  /** A node gets one type diagnostic exactly when its type is none of the four known ones. */
  lemma InvalidTypeCount(nodes: seq<NodeDesc>, a: NodeDesc)
    requires NodeReport(nodes, a).Ok?
    ensures multiset(NodeReport(nodes, a).value)[InvalidType(a.id, a.nodeType)] == if !KnownType(a.nodeType) then 1 else 0
  {
    NodeReportCount(nodes, a, InvalidType(a.id, a.nodeType));
    WeightPartCount(a.id, a.neighbours, InvalidType(a.id, a.nodeType));
    SymmetryPartCount(nodes, a.id, a.neighbours, InvalidType(a.id, a.nodeType));
    NeighbourTypePartCount(nodes, a, InvalidType(a.id, a.nodeType));
  }

  /** A node gets one slot-count diagnostic exactly when it does not have six slots. */
  lemma WrongSlotCountCount(nodes: seq<NodeDesc>, a: NodeDesc)
    requires NodeReport(nodes, a).Ok?
    ensures multiset(NodeReport(nodes, a).value)[WrongSlotCount(a.id)] == if |a.neighbours| != 6 then 1 else 0
  {
    NodeReportCount(nodes, a, WrongSlotCount(a.id));
    WeightPartCount(a.id, a.neighbours, WrongSlotCount(a.id));
    SymmetryPartCount(nodes, a.id, a.neighbours, WrongSlotCount(a.id));
    NeighbourTypePartCount(nodes, a, WrongSlotCount(a.id));
  }

  /** Each slot with a non-positive weight yields exactly one weight diagnostic, every other slot none. */
  lemma NodeReportWeightCounts(nodes: seq<NodeDesc>, a: NodeDesc, k: nat)
    requires NodeReport(nodes, a).Ok? && k < |a.neighbours|
    ensures multiset(NodeReport(nodes, a).value)[NonPositiveWeight(a.id, k, a.neighbours[k].weight)]
            == if NonPositive(a.neighbours[k].weight) then 1 else 0
  {
    var x := NonPositiveWeight(a.id, k, a.neighbours[k].weight);
    NodeReportCount(nodes, a, x);
    WeightPartCountAt(a.id, a.neighbours, k);
    SymmetryPartCount(nodes, a.id, a.neighbours, x);
    NeighbourTypePartCount(nodes, a, x);
  }

  // ---------------------------------------------------------------------
  // Scenarios

  /** Six slots: the first names `target` with weight `w`, the other five are empty. */
  function OneNeighbour(target: int, w: real): seq<SlotDesc> {
    [SlotDesc(Some(target), Finite(w))] + seq(5, _ => SlotDesc(None, Inf))
  }

  /** A crossing 1 named "A" and a segment 2 named "B" pointing at each other with weights `w1` and `w2`. */
  function CrossingAndSegment(w1: real, w2: real): Desc {
    Desc([NodeDesc(1, CrossingType, "A", OneNeighbour(2, w1)), NodeDesc(2, SegmentType, "B", OneNeighbour(1, w2))])
  }

  /** Each of the two nodes names the other in slot 0 and nothing else. */
  lemma CrossingAndSegmentSymmetric(w1: real, w2: real, i: nat)
    requires i < 2
    ensures var nodes := CrossingAndSegment(w1, w2).nodes;
      forall k :: 0 <= k < |nodes[i].neighbours| ==> SymmetricSlot(nodes, nodes[i].id, nodes[i].neighbours[k])
  {
    var nodes := CrossingAndSegment(w1, w2).nodes;
    var a := nodes[i];
    assert HasSlotTo(nodes[1 - i].neighbours, a.id) by { assert nodes[1 - i].neighbours[0].target == Some(a.id); }
    forall k | 0 <= k < 6 ensures SymmetricSlot(nodes, a.id, a.neighbours[k]) {
      if k == 0 {
        assert nodes[1 - i].id == a.neighbours[0].target.value;
      } else {
        assert a.neighbours[k].target.None?;
      }
    }
  }

  /**
   * Two mutually linked nodes with positive weights are accepted, whether or
   * not the two directions carry the same weight: the weight-match rule is
   * disabled.
   */
  lemma MismatchedWeightsAccepted(w1: real, w2: real)
    requires w1 > 0.0 && w2 > 0.0
    ensures Validate(CrossingAndSegment(w1, w2)) == Ok([])
  {
    var desc := CrossingAndSegment(w1, w2);
    var nodes := desc.nodes;
    CrossingAndSegmentSymmetric(w1, w2, 0);
    CrossingAndSegmentSymmetric(w1, w2, 1);
    forall k, j | 0 <= k < 6 && 0 <= j < 2 && nodes[0].neighbours[k].target == Some(nodes[j].id)
      ensures nodes[j].nodeType == SegmentType
    {
      assert nodes[0].neighbours[k].target == if k == 0 then Some(2) else None;
    }
    assert NodeWellFormed(nodes, nodes[0]);
    assert NodeWellFormed(nodes, nodes[1]);
    ValidateEmptyIff(desc);
  }


  /** A crossing naming a missing id makes `check_dict` raise instead of reporting. */
  lemma DanglingCrossingRaises()
    ensures Validate(Desc([NodeDesc(1, CrossingType, "A", OneNeighbour(7, 1.0))])).Err?
  {
    var nodes := [NodeDesc(1, CrossingType, "A", OneNeighbour(7, 1.0))];
    assert DanglingSlot(nodes, nodes[0].neighbours[0]);
    ValidateFailsIff(Desc(nodes));
  }

  /** The same slot on a segment is reported as a dangling reference. */
  lemma DanglingSegmentReported()
    ensures var desc := Desc([NodeDesc(1, SegmentType, "A", OneNeighbour(7, 1.0))]);
            Validate(desc).Ok? && DanglingNeighbour(7, 1) in Validate(desc).value
  {
    var nodes := [NodeDesc(1, SegmentType, "A", OneNeighbour(7, 1.0))];
    var desc := Desc(nodes);
    ValidateFailsIff(desc);
    SymmetryDanglingIff(nodes, 1, nodes[0].neighbours, 7);
    assert nodes[0].neighbours[0].target == Some(7) && DanglingSlot(nodes, nodes[0].neighbours[0]);
    CollectStep(Reporter(nodes), nodes, 0);
    assert nodes[..1] == nodes;
  }
}
