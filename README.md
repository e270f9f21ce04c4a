# Track graph of the skill-race simulator, in Dafny

`graph.py` holds the track of the simulator as a graph of `Node`s (crossings,
segments, lane switches and dead ends). Each node has a list of numbered
neighbour slots, any number of them, and a weight per slot; the validator
expects six. The file has these parts, all modelled here:

- **`Node`.** A vertex whose two parallel slot lists, `neighbours` and
  `weights`, grow on demand in `set_neighbour`. `neighbour_number` counts
  the populated slots.
- **`Graph.get_by_id` and `Graph.get_by_id_desc`.** The first returns every
  built node with a given id; the second returns the first node description
  with a given id, or `None`.
- **`Graph.check_dict`.** It validates a raw description (a list of node
  descriptions, each with an id, a type, a name and a list of
  `(neighbour id or None, weight)` slots) and returns a list of error
  messages, one per violation.
- **`Graph.fromDict`.** It builds linked `Node` objects from a description
  in two passes. Pass one creates the nodes; pass two wires each slot to
  the first node with the named id.

The modules follow the structure of the file:

| file | module | models |
|---|---|---|
| `wrappers.dfy` | `Wrappers` | `Option` and `Result` |
| `description.dfy` | `Description` | the raw description: `Weight` (a real or infinity), `SlotDesc`, `NodeDesc`, `Desc`, the four node types |
| `node.dfy` | `Nodes` | class `Node` with `SetNeighbour` and `NeighbourNumber` |
| `lookup.dfy` | `Lookup` | `get_by_id` on built nodes and `get_by_id_desc` on descriptions |
| `validator.dfy` | `Validation` | `check_dict` |
| `validator_properties.dfy` | `ValidationProperties` | what `check_dict` reports, against independent definitions of a well-formed description |
| `output_properties.dfy` | `OutputProperties` | what the list `check_dict` returns holds as a whole, rule by rule |
| `builder.dfy` | `Building` | `fromDict` |

How `check_dict` is modelled:

- Each message is a `Diagnostic` value that carries the data its text
  interpolates.
- `Validate` is the specification. It lists the diagnostics in the order
  the source appends them:
  - the duplicate ids first;
  - then, node by node: non-positive weights, long name, invalid type,
    symmetry, neighbour types, slot count.
- `CheckDict` runs the same two loops as the source and is proved equal to
  `Validate`.
- Each rule is stated per node, and `OutputProperties` lifts it to the whole
  returned list: an entry is in the list exactly when some node violates
  the rule it names, and the list's duplicate-id entries are exactly those
  of the first loop.

The source's crash is modelled too. When a crossing, dead end or lane
switch has a slot naming an id that no node has, line 92 subscripts `None`
and the validator raises. The model returns `Err(NoneSubscripted(...))`
exactly then (`ValidateFailsIff`). So `check_dict` does not always
return a list: in this case it raises, and the model returns the fault.

`fromDict` crashes in the same way. A slot naming a missing id makes
`get_by_id(...)[0]` raise `IndexError`. This is `Err(NoNodeWithId(...))`
naming the first such slot, in node order and then slot order. On success, every built node `Materialises` its
description:
- same id, type and name (a blank for an empty name), direction 1, enabled;
- each populated slot points at the first node with the named id and keeps
  its weight;
- each empty slot holds no node and weight infinity.

`AcceptedDescriptionBuilds` connects the two: a description that
`check_dict` accepts with no diagnostics always builds.

## Model

| member | source | states |
|---|---|---|
| Nodes.Node.constructor | graph.py:2-9 | a new node has the given id, type, name and direction, is enabled and has no slots |
| Nodes.SetSlot | graph.py:11-18 | writing slot `idx` yields a list of length `max(len, idx+1)` whose slot `idx` holds the value, whose other old slots are unchanged and whose new slots before `idx` hold the padding value |
| Nodes.Node.SetNeighbour | graph.py:11-18 | both slot lists are updated by `SetSlot`, padded with `None` and infinity respectively, and stay parallel |
| Nodes.Node.NeighbourNumber | graph.py:20-21 | the count is at most the number of slots, equals it exactly when every slot holds a node, and is 0 exactly when every slot is empty |
| Nodes.PopulatedCount | graph.py:20-21 | the same bounds and both if-and-only-ifs for any slot list |
| Nodes.PopulatedCountAppend | graph.py:20-21 | counting splits over concatenation |
| Nodes.UpdateCount | graph.py:17-21 | overwriting one slot changes the count by what leaves and what enters that slot |
| Nodes.SetSlotCount | graph.py:11-21 | `set_neighbour` changes `neighbour_number` by what leaves and enters the written slot; back-filled slots do not count |
| Nodes.NeighbourNumberExample | graph.py:20-21 | slots `[B, None, C, None, None, None]` count two neighbours |
| Lookup.GetById | graph.py:26-27 | every node returned is in the graph and has the id; every node of the graph with the id is returned; the result is no longer than the graph |
| Lookup.GetByIdAppend | graph.py:26-27 | the search distributes over concatenation, so it keeps graph order |
| Lookup.GetByIdFirst | graph.py:26-27 | the first node returned is the first node of the graph with that id |
| Lookup.GetByIdDesc | graph.py:30-35 | `None` exactly when no description has the id; otherwise the first description with the id |
| Lookup.GetByIdDescAt | graph.py:30-35 | the search returns the description at the first position with the id |
| Validation.FirstSeen | graph.py:41-44 | the `ids` dictionary after the first loop, as a specification function; its meaning is stated by `Validation.FirstSeenMeaning` and `ValidationProperties.FirstSeenKeys` |
| Validation.DuplicateDiagnostics | graph.py:41-46 | the duplicate-id diagnostics of the first loop, as a specification function; its meaning is stated by `Validation.DuplicateDiagnosticsMeaning`, `ValidationProperties.DuplicateReported`, `ValidationProperties.DuplicateCount` and `ValidationProperties.DuplicatesEmptyIff` |
| Validation.FirstSeenMeaning | graph.py:41-44 | the `ids` dictionary maps every id of the description to its first position |
| Validation.DuplicateDiagnosticsMeaning | graph.py:41-46 | each duplicate diagnostic names a later node and the first position of its id; named nodes come in increasing order |
| Validation.WeightDiagnostics | graph.py:50-53 | one diagnostic for each slot whose weight is not positive, and none for other slots, in slot order, each carrying its weight |
| Validation.SlotSymmetry | graph.py:64-83 | the symmetry diagnostic of one slot, as a specification function; its meaning is stated by `Validation.SlotSymmetryMeaning`, `ValidationProperties.SlotDanglingIff`, `ValidationProperties.SlotMissingIff` and `ValidationProperties.SlotSymmetryEmptyIff` |
| Validation.SymmetryDiagnostics | graph.py:64-83 | no more diagnostics than slots (at most one per slot, by `Validation.SlotSymmetryMeaning`), each a dangling or a not-pointed-back diagnostic of this node; the rest of its meaning is stated by `ValidationProperties.SymmetryDanglingIff`, `ValidationProperties.SymmetryMissingIff` and `ValidationProperties.SymmetryEmptyIff` |
| Validation.SlotSymmetryMeaning | graph.py:64-83 | an empty slot is not checked; a slot naming a missing id is reported dangling; otherwise it is reported exactly when the first description with that id has no slot naming this node; a slot yields at most one diagnostic |
| Validation.ScanBackReferences | graph.py:72-78 | the scan finds a back reference exactly when the neighbour has a slot naming the node, and a same-weight one exactly when such a slot also carries the slot's weight |
| Validation.CheckSlotSymmetry | graph.py:65-83 | checking one slot yields that slot's symmetry diagnostic |
| Validation.CheckSymmetry | graph.py:64-83 | the symmetry loop yields the per-slot diagnostics in slot order |
| Validation.NonSegmentSlots | graph.py:88-92 | the neighbour-type rule over a node's slots, or the fault of line 92, as a specification function; its meaning is stated by the four `Validation.NonSegmentSlots…` lemmas below |
| Validation.NeighbourTypeDiagnostics | graph.py:88-92 | the rule applies `NonSegmentSlots` to crossings, dead ends and lane switches only; its meaning is stated by `ValidationProperties.NeighbourTypesEmptyIff` |
| Validation.NonSegmentSlotsErrIff | graph.py:88-92 | the neighbour-type rule raises exactly when some slot names a missing id |
| Validation.NonSegmentSlotsErrAt | graph.py:88-92 | when it raises, it does so at the first slot naming a missing id |
| Validation.NonSegmentSlotsSound | graph.py:88-92 | without a fault, each diagnostic names a slot whose first-named node is not a segment, in slot order |
| Validation.NonSegmentSlotsComplete | graph.py:88-92 | without a fault, each slot whose first-named node is not a segment is reported |
| Validation.NonSegmentSlotsMeaning | graph.py:88-92 | the four statements above together |
| Validation.NodeReport | graph.py:48-111 | the diagnostics of one node, or its fault; only a crossing, dead end or lane switch can fault; the rest is stated by `ValidationProperties.NodeReportParts`, `ValidationProperties.NodeReportEmptyIff` and the count lemmas |
| Validation.Validate | graph.py:38-113 | what `check_dict` returns, or its fault; the duplicate-id diagnostics come first; the rest is stated by `ValidationProperties.ValidateFailsIff`, `ValidationProperties.ValidateEmptyIff` and the `OutputProperties` lemmas |
| Validation.CheckDict | graph.py:38-113 | the validator returns the diagnostics of `Validate` in source order, or the fault at the first crossing, dead end or lane switch slot naming a missing id |
| ValidationProperties.FirstSeenKeys | graph.py:41-44 | the keys of `ids` are exactly the ids of the description |
| ValidationProperties.DuplicateReported | graph.py:41-46 | a node whose id already occurred is reported together with the first position of that id |
| ValidationProperties.DuplicateCount | graph.py:41-46 | the number of duplicate diagnostics is the number of nodes minus the number of distinct ids |
| ValidationProperties.DuplicatesEmptyIff | graph.py:41-46 | no duplicate diagnostic exactly when all ids differ |
| ValidationProperties.WeightsEmptyIff | graph.py:50-53 | no weight diagnostic exactly when every weight is positive |
| ValidationProperties.SlotDanglingIff | graph.py:65-70 | one slot is reported dangling exactly when it names an id no description has |
| ValidationProperties.SlotMissingIff | graph.py:66-83 | one slot is reported as not pointed back to exactly when it names `b` and the first description with id `b` has no slot naming the node |
| ValidationProperties.SymmetryDanglingIff | graph.py:64-70 | over all slots, `b` is reported missing from the description exactly when some slot names `b` and no description has id `b` |
| ValidationProperties.SymmetryMissingIff | graph.py:64-83 | over all slots, `b` is reported as not pointing back exactly when some slot names `b` and the first description with id `b` has no slot naming the node |
| ValidationProperties.SlotSymmetryEmptyIff | graph.py:64-83 | with distinct ids, a slot yields no symmetry diagnostic exactly when it is empty or names an existing node with a slot pointing back |
| ValidationProperties.SymmetryEmptyIff | graph.py:64-83 | the symmetry rule reports nothing exactly when no slot yields a diagnostic |
| ValidationProperties.SymmetryEmptyIffSymmetric | graph.py:64-83 | with distinct ids, the symmetry rule reports nothing exactly when every named neighbour exists and points back |
| ValidationProperties.SymmetricNotDangling | graph.py:64-70 | a symmetric slot never names a missing id |
| ValidationProperties.NeighbourTypesEmptyIff | graph.py:88-92 | with distinct ids and no slot naming a missing id, the neighbour-type rule reports nothing exactly when every neighbour of a crossing, dead end or lane switch is a segment |
| ValidationProperties.NodeReportEmptyIff | graph.py:48-111 | with distinct ids, a node gets no diagnostic and no fault exactly when it satisfies every enabled rule |
| ValidationProperties.NodeReportParts | graph.py:48-111 | as a multiset, a node's diagnostics are the six rule parts (their order is fixed by `NodeReport`), and the neighbour-type part holds only neighbour-type diagnostics |
| ValidationProperties.NodeReportCount | graph.py:48-111 | the number of times a diagnostic occurs in a node's report is the sum of its occurrences in the six rule parts |
| ValidationProperties.WeightPartCountAt | graph.py:50-53 | the weight rule reports a slot exactly once when its weight is not positive, and never otherwise |
| ValidationProperties.NameTooLongCount | graph.py:55-57 | a node gets one name diagnostic exactly when its name is longer than one character, none otherwise |
| ValidationProperties.InvalidTypeCount | graph.py:59-61 | a node gets one type diagnostic exactly when its type is none of the four known types, none otherwise |
| ValidationProperties.WrongSlotCountCount | graph.py:94-96 | a node gets one slot-count diagnostic exactly when it does not have six slots, none otherwise |
| ValidationProperties.NodeReportWeightCounts | graph.py:50-53 | each slot with a non-positive weight yields exactly one weight diagnostic, each other slot none |
| ValidationProperties.ValidateFailsIff | graph.py:88-92 | the validator raises exactly when a crossing, dead end or lane switch has a slot naming a missing id |
| ValidationProperties.ValidateEmptyIff | graph.py:38-113 | the validator returns an empty list exactly when ids are distinct and every node satisfies every enabled rule |
| ValidationProperties.MismatchedWeightsAccepted | graph.py:72-86 | two mutually linked nodes with positive weights are accepted whether or not the two directions carry the same weight |
| ValidationProperties.DanglingCrossingRaises | graph.py:88-92 | a crossing naming a missing id makes the validator raise |
| ValidationProperties.DanglingSegmentReported | graph.py:64-70 | a segment naming a missing id is reported as dangling |
| OutputProperties.CollectContains | graph.py:48-111 | without a fault, the diagnostics of every node reach the result of the loop over the nodes, each at least as often |
| OutputProperties.CollectMember | graph.py:48-111 | every entry of that result comes from some node's diagnostics |
| OutputProperties.ValidateContains | graph.py:38-113 | without a fault, the diagnostics of every node are in the returned list, each at least as often |
| OutputProperties.ValidateMemberIff | graph.py:38-113 | without a fault, an entry is in the returned list exactly when it is a duplicate-id entry of the first loop or in some node's diagnostics |
| OutputProperties.NodeEntryIff | graph.py:48-111 | an entry other than a duplicate-id entry is in the returned list exactly when some node's diagnostics hold it |
| OutputProperties.NodeReportNoDuplicate | graph.py:48-111 | the per-node rules never produce a duplicate-id entry |
| OutputProperties.DuplicatesInOutput | graph.py:38-113 | without a fault, the duplicate-id entries of the returned list are exactly those of the first loop, in order, and there are as many as nodes minus distinct ids |
| OutputProperties.NodeReportMember | graph.py:48-97 | an entry is in a node's diagnostics exactly when one of the six rule parts holds it |
| OutputProperties.WeightEntryOfNode | graph.py:50-53 | a weight entry of a node names a slot of that node whose weight, the one reported, is not positive |
| OutputProperties.OtherEntryOfNode | graph.py:55-61 | a name, type or slot-count entry of a node is that node's own, and its rule is violated |
| OutputProperties.SymmetryEntryOfNode | graph.py:64-83 | a dangling or not-pointed-back entry of a node comes from its symmetry rule and names that node |
| OutputProperties.NeighbourTypeEntryOfNode | graph.py:88-92 | a neighbour-type entry of a node names a slot of that crossing, dead end or lane switch whose neighbour is not a segment |
| OutputProperties.WeightInOutputIff | graph.py:50-53 | without a fault, the returned list reports slot `k` of node `id` with weight `w` exactly when some node with that id has that non-positive weight in slot `k` |
| OutputProperties.NameInOutputIff | graph.py:55-57 | without a fault, the returned list holds a name entry for `id` exactly when some node with that id has a name longer than one character |
| OutputProperties.TypeInOutputIff | graph.py:59-61 | without a fault, the returned list holds a type entry for `id` and `t` exactly when some node with that id has the unknown type `t` |
| OutputProperties.DanglingInOutputIff | graph.py:64-70 | without a fault, the returned list reports `b`, declared by `id`, as missing exactly when some node with id `id` has a slot naming `b` and no node has id `b` |
| OutputProperties.MissingInOutputIff | graph.py:64-83 | without a fault, the returned list reports that `b` does not point back at `id` exactly when some node with id `id` names `b` and the first description with id `b` has no slot naming `id` |
| OutputProperties.NeighbourTypeInOutputIff | graph.py:88-92 | without a fault, the returned list reports slot `k` of `id` exactly when some crossing, dead end or lane switch with that id names, in slot `k`, an id whose first description is not a segment |
| OutputProperties.SlotCountInOutputIff | graph.py:94-96 | without a fault, the returned list holds a slot-count entry for `id` exactly when some node with that id does not have six slots |
| Building.DisplayName | graph.py:124-127 | the name given to a built node is never empty: the description's name when it is not empty, a blank otherwise |
| Building.WiredNeighbour | graph.py:158-160 | an empty slot, or a slot naming an id no built node has, gives no node; otherwise a built node with the named id; `Building.WiredNeighbourIsFirst` states that it is the first |
| Building.CreateNodes | graph.py:121-130 | pass one creates one fresh, distinct node per description, in order, with its id, type and display name and no slots |
| Building.WiredNeighbourIsFirst | graph.py:158 | the node a populated slot is wired to is the first built node with the named id |
| Building.WireNode | graph.py:155-160 | pass two wires a node slot by slot, or fails at its first slot naming a missing id, no earlier slot of the node naming one; on success each populated slot holds the first node with the id and its weight, and each empty slot holds no node and infinity |
| Building.WiredNodeMaterialises | graph.py:155-160 | a node wired this way is the node built for its description |
| Building.WireNodes | graph.py:155-165 | pass two over all nodes fails exactly when some slot names a missing id, and then names the first such slot in node-then-slot order; otherwise every node is the node built for its description |
| Building.FromDict | graph.py:118-165 | building fails exactly when some slot names a missing id, and then names the first such slot in node-then-slot order; otherwise it returns one fresh, distinct node per description, each built for its description |
| Building.AcceptedDescriptionBuilds | graph.py:38-113 | a description the validator accepts with no diagnostics has no slot naming a missing id, so it builds |
| Building.CrossingAndSegmentWiring | graph.py:155-160 | the nodes built for a crossing and a segment that name each other point at each other through their first slot, with their own weights |
| Building.BuildCrossingAndSegment | graph.py:118-165 | building that pair with weights 1.0 and 2.0 succeeds and links the two nodes both ways |

## Left out

- Reading descriptions from files is not part of this model. The dictionary
  shape is replaced by the `Desc` datatype; descriptions whose fields are
  missing or of the wrong type are not modelled.
- Weights are real numbers or infinity. IEEE floats, NaN and negative
  infinity are not modelled; Python's `<= 0` is taken on the reals.
- Diagnostics are values, not message strings. The text of each message is
  not modelled.
- Validation.WeightDiagnostics: lines 51-53 pass a generator of one-element
  lists to `extend`, so each weight error lands in the list as a list
  holding the message. The model reports one diagnostic per slot and does
  not model that nesting.
- The rule that a neighbour's back reference carries the same weight is
  disabled in the source (lines 85-86). `ScanBackReferences` computes the
  flag; no diagnostic is produced from it.
- The neighbour-count rule for dead ends, lane switches and segments is
  disabled in the source (lines 98-111). It produces no diagnostic and is
  not modelled.
- `has_cross` (lines 122 and 129-130) and the commented-out crossing
  synthesis (lines 132-153 and 162-163) have no effect and are not modelled.
- Nodes.Node.SetNeighbour: `idx` is a natural number. Python's negative
  indices, which count from the end of the lists, are not modelled.
- A `Node`'s id, type and name are constant fields, because nothing in
  `graph.py` reassigns them after construction.
- When `fromDict` fails, the nodes wired before the failing slot keep their
  slots, as in the source. Nothing is stated about them, since the source
  discards them with the exception.
