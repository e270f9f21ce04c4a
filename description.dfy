/**
 * The raw road-network description handed to the validator and the builder:
 * `{"nodes": [{"id", "type", "name", "neighbours": [[id or None, weight], ...]}, ...]}`.
 * Python's duck-typed dictionaries become records; a description whose shape is
 * wrong (missing key, wrong type) cannot be written down here.
 */
module Description {
  import opened Wrappers

  /** A weight: a real number, or `float('inf')`, which marks an empty slot. */
  datatype Weight = Finite(value: real) | Inf

  /** One neighbour slot `[neighbour_id or None, weight]`. */
  datatype SlotDesc = SlotDesc(target: Option<int>, weight: Weight)

  /** One node description; `nodeType` is the description's `type` string. */
  datatype NodeDesc = NodeDesc(id: int, nodeType: string, name: string, neighbours: seq<SlotDesc>)

  /** The whole description: its `nodes` list. */
  datatype Desc = Desc(nodes: seq<NodeDesc>)

  const CrossingType: string := "crossing"
  const SegmentType: string := "segment"
  const LaneSwitchType: string := "lane_switch"
  const DeadEndType: string := "dead_end"

  /** `weight <= 0` in Python: false for infinity. */
  predicate NonPositive(w: Weight) {
    w.Finite? && w.value <= 0.0
  }

  /** The four types the validator accepts. */
  predicate KnownType(t: string) {
    t in [CrossingType, SegmentType, LaneSwitchType, DeadEndType]
  }

  /** The types whose populated neighbours must all be segments. */
  predicate SegmentOnlyType(t: string) {
    t in [CrossingType, DeadEndType, LaneSwitchType]
  }
}
