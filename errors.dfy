/** The error kinds of the shared node operations (src/engine/dom/shared_node/mod.rs). */
module NodeErrors {

  /** Conditions the engine's authors consider impossible, reported rather than panicking. */
  datatype UnreachableError =
    | SelectorHasNoSimpleSelectors
    | SelectorHasMoreCombinatorsThanSelectors
    | NoParentThus(reason: string)
    | NoParent
    | NodeNotFoundInParentChildren
    | NodeIndexExistsButGetReturnedNone

  datatype NodeError =
    | Poison
    | MissingParentUpgrade
    | Unreachable(cause: UnreachableError)
    // Declared by the engine but never constructed there: a failed parse in `query_select`
    // is reported as `Selection.SelectError.SelectorParse`.
    | SelectorParsing
}
