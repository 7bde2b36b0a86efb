/** Bounds and policy errors of the dependency-graph writer. */
module GraphPolicy {
  const I32_MAX := 0x7FFF_FFFF

  datatype GraphError =
    | EdgeSourceNotNode
    | EdgeTargetNotNode
    | RootNotNode
    | DepthExceedsI32
    | UnreachableNode
    | CycleCountExceedsI32
    | NodeCountExceedsI32
}
