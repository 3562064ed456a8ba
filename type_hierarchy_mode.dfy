/** The order in which a descriptor lists a type and its ancestors. */
module TypeHierarchyModes {
  datatype TypeHierarchyMode =
    | DerivedFirst     // the type itself first, the root last
    | AbstractFirst    // the root first, the type itself last
}
