# tb document engine: a verified model

This project models the core of the `tb` terminal browser engine (`src/engine/`) in Dafny. It covers:

- the stylesheet keys: origins and their cascade tiers, specificity tuples and their order, selector specificity, unit-name parsing and colour display;
- the node data: node kinds, element attributes, the `id` and `class` accessors and simple-selector matching;
- the shared document tree: append, attribute get/set, the parent link, complex-selector selection, the depth-first node iterator and the cascade winner `ask_style`;
- the `Dom` wrapper that delegates selection to its root.

Modules follow the Rust files:

| Dafny file | module | source |
|---|---|---|
| `wrappers.dfy` | `Wrappers` | `Option`, `Result` and sequence lemmas |
| `stylesheet.dfy` | `Stylesheet` | `src/engine/stylesheet.rs` |
| `node.dfy` | `Nodes` | `src/engine/dom/node.rs`, plus the heap class `Node` |
| `errors.dfy` | `NodeErrors` | the error enums of `src/engine/dom/shared_node/mod.rs` |
| `parent.dfy` | `ParentLink` | `src/engine/dom/shared_node/parent.rs` |
| `append.dfy` | `Appending` | `src/engine/dom/shared_node/append.rs` |
| `get_set_attr.dfy` | `Attributes` | `src/engine/dom/shared_node/get_set_attr.rs` |
| `tree.dfy` | `Trees` | a pure view of a heap subtree, used to specify selection and iteration |
| `select.dfy` | `Selection` | `src/engine/dom/shared_node/select.rs` |
| `iterator.dfy` | `Iteration` | `src/engine/dom/shared_node/iterator.rs` |
| `ask_style.dfy` | `Cascade` | `src/engine/dom/shared_node/ask_style.rs` |
| `dom.dfy` | `Document` | `src/engine/dom/dom.rs` |

## How the model is built

- **Pure code becomes functions and lemmas.** This covers stylesheet.rs, node.rs and parent.rs.
- **`SharedNode` becomes `class Node`.** A `SharedNode` is an `Arc<RwLock<Node>>`. In the model it has the mutable fields `nodeType`, `parent`, `children`, `appliedStyles` and `alive`.
  - `alive` says whether some strong handle still holds the node. A parent link to a node that is not alive fails to upgrade.
  - The ghost field `repr` is the node's subtree footprint.
  - `Valid()` says the subtree is a well-formed tree. Every child lists this node as its parent. Sibling subtrees are disjoint. The footprint is exactly the node plus its children's footprints. It follows that no node is below itself.
- **Methods that change nodes take a ghost `tree`.** This is the root of the tree the node lives in. The `ensures` state both that the tree stays well formed and what changed.
- **Selection and iteration read the tree.** They are specified against a pure value `Trees.Tree` that mirrors the heap subtree (`Reflects`). `Trees.Snap` builds that value from any well-formed subtree.
  - `select_simple_recursive` is specified by `SelectIn`, a pre-order filter over the view.
  - The combinator loop of `select` is specified by `CombineFrom`.
  - The iterator's output is specified by `Walk`, the stack-driven depth-first order.
- **`ask_style` keeps its passes.** They are a `filter` and two `retain` passes with maxima computed before each. In the model these become loops, specified by `Keep`. The result is characterised by `Wins`, an independent statement of the cascade rule: highest tier, then highest specificity, then first in list order.
- **`todo!()` becomes an error value.** The adjacent-sibling and general-sibling combinators are `todo!()` in the source. The model reports them as the distinct error `Unimplemented(combinator)`.

## Model

| member | source | states |
|---|---|---|
| Stylesheet.OriginValue | src/engine/stylesheet.rs:36-42 | a non-important value is the origin's position (at most 2); an important value is 5 minus that position (3 to 5) |
| Stylesheet.OriginOrder | src/engine/stylesheet.rs:26-42 | Agent < User < Author; non-important values 0, 1, 2 and important values 5, 4, 3 |
| Stylesheet.ImportanceSwap | src/engine/stylesheet.rs:37-42 | every important declaration outranks every non-important one; importance reverses the origin order, which the non-important values follow |
| Stylesheet.SpecLess | src/engine/stylesheet.rs:59-65 | definition: the derived order on specificities, lexicographic on (inline, ids, classes, tags) |
| Stylesheet.SpecLessStrictTotal | src/engine/stylesheet.rs:59-65 | the derived lexicographic order on specificities is irreflexive, transitive, asymmetric and total |
| Stylesheet.SpecMax | src/engine/stylesheet.rs:59-65 | the larger of two specificities is one of them and is not below either |
| Stylesheet.SelectorSpecificity | src/engine/stylesheet.rs:105-113 | (0, 1 if an id is present, number of classes counting repeats, 1 if a tag is present) |
| Stylesheet.FoldClosedForm | src/engine/stylesheet.rs:88-95 | the specificity fold, started from (0, 0, x, y), equals a closed form in which each compound's slots move one place right |
| Stylesheet.ComplexSpecificity | src/engine/stylesheet.rs:88-95 | as written: the first two slots are 0; the empty list gives all zeros; otherwise slot 3 is the last compound's id presence and slot 4 is the last compound's class count plus the previous compound's id presence |
| Stylesheet.ComplexSpecificityDropsTags | src/engine/stylesheet.rs:88-95 | a tag-only compound has selector specificity (0,0,0,1) but complex specificity (0,0,0,0) |
| Stylesheet.ComplexSpecificityIgnoresAncestors | src/engine/stylesheet.rs:88-95 | as written, `h1 .a` and `.a` get the same specificity |
| Stylesheet.IntendedFoldClosedForm | src/engine/stylesheet.rs:88-95 | the componentwise fold adds up the id, class and tag counts of all compounds |
| Stylesheet.IntendedComplexSpecificity | src/engine/stylesheet.rs:88-95 | the corrected specificity is (0, ids, classes, tags) summed over every compound |
| Stylesheet.IntendedAgreesOnOneCompound | src/engine/stylesheet.rs:88-113 | on one compound the corrected complex specificity equals that compound's `Selector::specificity` |
| Stylesheet.IntendedCountsEveryCompound | src/engine/stylesheet.rs:88-95 | each added compound contributes its own id, classes and tag to the corrected counts |
| Stylesheet.ClassCountsAsWritten | src/engine/stylesheet.rs:88-95 | as written, a single compound with a class still gets a nonzero specificity |
| Stylesheet.ClassOutranksTag | src/engine/stylesheet.rs:88-95 | both as written and corrected, a compound with a class outranks a tag-only compound |
| Stylesheet.Lower | src/engine/stylesheet.rs:168 | lower-casing keeps the length and maps each character on its own, lower-casing the ASCII letters and keeping every other character |
| Stylesheet.LowerIdempotent | src/engine/stylesheet.rs:168 | lower-casing twice equals lower-casing once |
| Stylesheet.NonAsciiIsInvalid | src/engine/stylesheet.rs:167-185 | a unit string holding any character beyond ASCII parses to `Invalid` |
| Stylesheet.KelvinFoldIsInvalid | src/engine/stylesheet.rs:167-185 | a unit string holding the KELVIN SIGN parses to `Invalid`, and still does once that sign is folded to `k` as Unicode lower-casing does |
| Stylesheet.UnitName | src/engine/stylesheet.rs:143-162 | definition: strum's `Display` for each unit, its variant name, with `%` for Percent, the empty string for Unitless and `Invalid` for Invalid |
| Stylesheet.UnitFromStr | src/engine/stylesheet.rs:164-185 | the table of unit names, matched after lower-casing; no string parses to `Cm`, and only the empty string parses to `Unitless` |
| Stylesheet.UnitFromStrCaseInsensitive | src/engine/stylesheet.rs:167-185 | strings equal up to case parse to the same unit, and parsing a string equals parsing its lower-cased form |
| Stylesheet.UnitRoundTrip | src/engine/stylesheet.rs:143-185 | parsing a unit's `Display` name gives the unit back, for every unit except `Cm` (including `%` to Percent and the empty string to Unitless) |
| Stylesheet.CentimetreIsInvalid | src/engine/stylesheet.rs:164-185 | `"cm"`, `"CM"` and `Cm`'s own display name all parse to `Invalid` |
| Stylesheet.IntendedUnitRoundTrip | src/engine/stylesheet.rs:143-185 | the parser with a `cm` arm inverts `Display` for every unit |
| Stylesheet.Hex2 | src/engine/stylesheet.rs:200 | a byte's `{:02x}` form is two lowercase hex digits |
| Stylesheet.ColorToString | src/engine/stylesheet.rs:196-204 | a colour displays as 9 characters: `#` and then 8 lowercase hex digits |
| Stylesheet.HexValue | src/engine/stylesheet.rs:200 | reading a hex digit gives a value below 16 |
| Stylesheet.HexDigitRoundTrip | src/engine/stylesheet.rs:200 | reading back the digit for d gives d |
| Stylesheet.Hex2RoundTrip | src/engine/stylesheet.rs:200 | reading back a byte's two digits gives the byte |
| Stylesheet.ColorRoundTrip | src/engine/stylesheet.rs:196-204 | decoding a colour's display string gives back r, g, b and a |
| Stylesheet.NewStylesheet | src/engine/stylesheet.rs:18-23 | the rule list is the given one, or empty for None; the origin is the given one |
| Nodes.NewElementData | src/engine/dom/node.rs:73-78 | the tag is as given; the attributes are as given, or empty for None |
| Nodes.Id | src/engine/dom/node.rs:80-82 | present exactly when an `id` attribute exists, and then that attribute's value |
| Nodes.SplitSpace | src/engine/dom/node.rs:86 | splitting on `" "` gives at least one piece, and no piece contains a space |
| Nodes.SplitJoin | src/engine/dom/node.rs:86 | joining the pieces with single spaces gives the original string back |
| Nodes.SplitPrefix | src/engine/dom/node.rs:86 | splitting a space-free prefix glued to a string extends that string's first piece |
| Nodes.JoinSplit | src/engine/dom/node.rs:86 | splitting a space-joined list of space-free names gives the list back |
| Nodes.Classes | src/engine/dom/node.rs:84-89 | empty without a `class` attribute; otherwise exactly the pieces of that attribute split on `" "` |
| Nodes.EmptySelectorMatchesAll | src/engine/dom/node.rs:91-102 | a selector with no id, tag or classes matches every element |
| Nodes.MatchesSelector | src/engine/dom/node.rs:91-102 | definition: the id is absent from the selector or equal to the element's, the tag likewise, and every selector class is one of the element's classes |
| Nodes.MatchesWithClassList | src/engine/dom/node.rs:91-102 | for `class="a b c"`, a match holds exactly when the id is absent or equal, the tag is absent or equal, and every selector class is one of the listed names |
| Nodes.NoClassAttribute | src/engine/dom/node.rs:84-102 | without a `class` attribute, an element matches exactly the selectors with no classes whose id and tag agree |
| Nodes.ClassOrderIrrelevant | src/engine/dom/node.rs:96-99 | selectors with the same id, the same tag and the same set of classes (any order, any repeats) match the same elements |
| Nodes.OracleClasses | src/engine/dom/node.rs:118-124 | the sample `h1` has id `ooo` and the class set {yellow, red, pink} |
| Nodes.OracleNames | src/engine/dom/node.rs:121 | `"yellow red pink"` is the space-join of three space-free names |
| Nodes.SelectorOracleMatches | src/engine/dom/node.rs:126-146 | the sample `h1` matches `*`, `h1`, `#ooo`, `h1#ooo`, `.yellow` (also written `*.yellow`), `h1.yellow`, `*.yellow.pink`, `*.yellow.pink.red` and `*.yellow.pink.red.pink.pink` |
| Nodes.SelectorOracleMismatches | src/engine/dom/node.rs:138-149 | the sample `h1` does not match `h1.yellow#iowjefoijweijf`, `h2.yellow` or `pink.red.yellow.blue` |
| Nodes.Take | src/engine/dom/node.rs:47-51 | `chars().take(n)` is a prefix of length min(n, length) |
| Nodes.NodeDisplay | src/engine/dom/node.rs:44-52 | definition: a text node as its first 24 characters in double quotes, a comment as its first 24 characters inside `<!-- ` and ` -->` |
| Nodes.DisplayKeepsPrefix | src/engine/dom/node.rs:44-52 | text displays as `"` + first 24 characters + `"`; a comment as `<!-- ` + first 24 characters + ` -->` |
| Nodes.DisplayShortInFull | src/engine/dom/node.rs:47-51 | text of at most 24 characters is shown in full |
| Nodes.DisplayTruncates | src/engine/dom/node.rs:47-51 | texts that agree on their first 24 characters display alike, with lengths 26 (text) and 33 (comment) |
| Nodes.Node.constructor | src/engine/dom/node.rs:27-36 | the new node has the given type, no parent, no children and no applied styles, and forms a well-formed one-node tree |
| Nodes.Node.SubtreeValid | src/engine/dom/node.rs:19-25 | every node inside a well-formed tree roots a well-formed subtree within it |
| Nodes.Node.ChildSmaller | src/engine/dom/node.rs:19-25 | a child's subtree is strictly smaller than its parent's and does not contain the parent |
| Nodes.Node.Acyclic | src/engine/dom/node.rs:19-25 | no node of a well-formed tree has the root below it |
| ParentLink.Parent | src/engine/dom/shared_node/parent.rs:11-19 | no link gives `Unreachable(NoParent)`; a link that cannot upgrade gives `MissingParentUpgrade`; otherwise the parent; the absence check comes first |
| ParentLink.NonRootParent | src/engine/dom/shared_node/parent.rs:11-19 | below a live well-formed root, `parent()` succeeds with the unique node of the tree that lists the node as a child |
| ParentLink.RootIsNoChild | src/engine/dom/shared_node/parent.rs:16 | no node of a well-formed tree lists the root as a child |
| Appending.AppendSharedNode | src/engine/dom/shared_node/append.rs:37-54 | the node's parent becomes `self` (and `parent()` returns `self`); it is pushed last onto `self`'s children; types, styles and other nodes are unchanged; a former parent still lists it; attaching a disjoint well-formed subtree keeps the tree well formed and grows its footprint by that subtree |
| Appending.AppendKeepsValid | src/engine/dom/shared_node/append.rs:37-54 | setting the parent link and pushing the child keeps a well-formed tree well formed, with the child's subtree added |
| Appending.AppendNode | src/engine/dom/shared_node/append.rs:22-35 | a fresh node with the given type, children and styles, parented by `self` (and `parent()` returns `self`), is pushed last; the given children's own fields, parent links included, are untouched, and nothing else changes; when the node is childless the tree stays well formed and gains exactly that node |
| Appending.AppendElement | src/engine/dom/shared_node/append.rs:56-63 | as `AppendNode` with no children, with an element of that tag and the given attributes, or none; the tree stays well formed and gains exactly that node |
| Appending.AppendText | src/engine/dom/shared_node/append.rs:65-68 | as `AppendNode` with no children, with a text node holding the string; the tree stays well formed and gains exactly that node |
| Appending.AppendComment | src/engine/dom/shared_node/append.rs:70-73 | as `AppendNode` with no children, with a comment node holding the string; the tree stays well formed and gains exactly that node |
| Attributes.WithAttr | src/engine/dom/shared_node/get_set_attr.rs:20-24 | the tag is unchanged and the key set gains the key |
| Attributes.AttrOf | src/engine/dom/shared_node/get_set_attr.rs:38 | present exactly when the key is in the map, and then its value |
| Attributes.GetAfterSet | src/engine/dom/shared_node/get_set_attr.rs:20-24 | after setting k to v, k reads v and every other key reads as before |
| Attributes.SetOverwrites | src/engine/dom/shared_node/get_set_attr.rs:20-24 | a second set of the same key replaces the first |
| Attributes.SetCommutes | src/engine/dom/shared_node/get_set_attr.rs:20-24 | sets of different keys commute |
| Attributes.SetPresentIsIdentity | src/engine/dom/shared_node/get_set_attr.rs:20-24 | setting a key to its current value changes nothing |
| Attributes.SetIdGivesId | src/engine/dom/shared_node/get_set_attr.rs:20-24 | after setting `id`, the element's id is that value |
| Attributes.SetClassGivesClasses | src/engine/dom/shared_node/get_set_attr.rs:20-24 | after setting `class` to space-joined names, the class set is exactly those names |
| Attributes.GetAttr | src/engine/dom/shared_node/get_set_attr.rs:32-42 | on an element, the attribute's value or None when it is missing; only reads |
| Attributes.SetAttr | src/engine/dom/shared_node/get_set_attr.rs:13-30 | on an element, the key now reads the value and every other key reads as before; parent, children, styles and liveness are unchanged, and a well-formed tree stays well formed |
| Selection.SelectIn | src/engine/dom/shared_node/select.rs:73-93 | definition: for each tree in order, an element contributes itself when it matches and then what its children contribute; a non-element contributes nothing, nor does anything below it |
| Selection.SelectSimpleRecursive | src/engine/dom/shared_node/select.rs:73-93 | the result is `SelectIn` of the node's children: matching element descendants in pre-order, never descending into non-elements |
| Selection.SelectSimpleNoRecursive | src/engine/dom/shared_node/select.rs:95-113 | the result is the node's element children that match, in children order |
| Selection.DescendantPass | src/engine/dom/shared_node/select.rs:38-44 | the concatenation, over the candidates in order, of each candidate's recursive selection |
| Selection.ChildPass | src/engine/dom/shared_node/select.rs:45-51 | the concatenation, over the candidates in order, of each candidate's direct-child selection |
| Selection.SelectSpec | src/engine/dom/shared_node/select.rs:22-58 | definition: an empty compound list fails; otherwise the first compound's recursive selection below the node, then each combinator in turn applied with the next compound (descendant: recursive selection below each candidate; child: each candidate's matching children), failing when a combinator has no compound after it or is a sibling combinator |
| Selection.Select | src/engine/dom/shared_node/select.rs:22-58 | the result is the selection specification applied below the node; it only reads |
| Selection.SelectInBelow | src/engine/dom/shared_node/select.rs:73-93 | every recursively selected view matches the selector and lies below the node |
| Selection.FilterExact | src/engine/dom/shared_node/select.rs:95-113 | the direct selection holds exactly the children that match |
| Selection.SelectInIsPreOrderFilter | src/engine/dom/shared_node/select.rs:73-93 | when only elements have children, the recursive selection is the pre-order list of descendants filtered by the selector |
| Selection.SelectSucceeds | src/engine/dom/shared_node/select.rs:26-54 | selection succeeds exactly when there is at least one compound, more compounds than combinators, and only descendant and child combinators are used |
| Selection.MoreCombinatorsError | src/engine/dom/shared_node/select.rs:33-36 | with no more compounds than combinators (and implemented combinators) the result is the "more combinators than selectors" error |
| Selection.SiblingUnimplemented | src/engine/dom/shared_node/select.rs:52-53 | the first sibling combinator reached gives the `Unimplemented` error |
| Selection.ExtraCompoundsIgnored | src/engine/dom/shared_node/select.rs:33-36 | compounds beyond one more than the combinators do not change the result |
| Selection.SelectSound | src/engine/dom/shared_node/select.rs:22-58 | on success, every result matches the compound after the last combinator and lies below the node |
| Selection.RootNeverSelected | src/engine/dom/shared_node/select.rs:80-91 | the node that selection starts from is never in its result |
| Selection.NestedCandidatesRepeat | src/engine/dom/shared_node/select.rs:38-44 | for `div div` on root > a > b > c, all divs, the result is [b, c, c]: no deduplication |
| Selection.SimpleExcludesSelf | src/engine/dom/shared_node/select.rs:80-91 | the recursive single-compound selection never returns the node itself |
| Iteration.Walk | src/engine/dom/shared_node/iterator.rs:10-19 | definition: the order a stack of subtrees yields its nodes in: the top tree's node, then the walk of the stack with that tree replaced by its children |
| Iteration.NodeIterator.From | src/engine/dom/shared_node/iterator.rs:22-28 | the stack starts as the node's children, so the node itself is never yielded |
| Iteration.NodeIterator.Next | src/engine/dom/shared_node/iterator.rs:10-19 | None exactly when the stack is empty, which then stays as it is; otherwise the last entry is popped and returned and its children are pushed in order; what is still to come shrinks by the yielded node |
| Iteration.WalkAppend | src/engine/dom/shared_node/iterator.rs:12-16 | with trees stacked on top of others, the top ones are yielded completely first |
| Iteration.SiblingsLastFirst | src/engine/dom/shared_node/iterator.rs:12-16 | below a node, the last child's subtree comes out first, starting with that child |
| Iteration.WalkPermutation | src/engine/dom/shared_node/iterator.rs:10-19 | the iterator yields the same nodes, with the same multiplicities, as a pre-order traversal |
| Iteration.EachDescendantOnce | src/engine/dom/shared_node/iterator.rs:10-28 | on a well-formed tree, the iterator yields every descendant of the start node exactly once, and nothing else |
| Cascade.Keep | src/engine/dom/shared_node/ask_style.rs:12-16 | definition: the entries meeting a criterion, in their order |
| Cascade.KeepPass | src/engine/dom/shared_node/ask_style.rs:12-16 | a `filter`/`retain` pass keeps the entries meeting the criterion, in order |
| Cascade.KeepMembers | src/engine/dom/shared_node/ask_style.rs:12-29 | an entry survives a pass exactly when it is in the input and meets the criterion |
| Cascade.KeepThrice | src/engine/dom/shared_node/ask_style.rs:12-30 | the key filter followed by the tier and specificity retains keeps exactly what meets all three criteria, in order |
| Cascade.KeepFirst | src/engine/dom/shared_node/ask_style.rs:33 | the first survivor of a pass is the first entry that meets the criterion |
| Cascade.MaxRank | src/engine/dom/shared_node/ask_style.rs:19-22 | the maximum tier is that of some entry and at least that of every entry |
| Cascade.MaxSpecificity | src/engine/dom/shared_node/ask_style.rs:27 | the maximum specificity is that of some entry and no entry's specificity is above it |
| Cascade.Wins | src/engine/dom/shared_node/ask_style.rs:10-39 | definition: the cascade winner for a key is an entry for the key with no entry for the key of a higher tier, none of its tier more specific, and no earlier entry tying with it on both |
| Cascade.WinnerUnique | src/engine/dom/shared_node/ask_style.rs:18-33 | at most one applied style is the cascade winner for a key |
| Cascade.WinsByFilters | src/engine/dom/shared_node/ask_style.rs:18-33 | the first survivor of the three passes is the winner: the highest tier, then the highest specificity within it, then first in list order |
| Cascade.AskStyle | src/engine/dom/shared_node/ask_style.rs:10-39 | None exactly when no applied style has the key; otherwise an applied style of the node that is the cascade winner for the key; only the node's own list is read |
| Document.Dom.New | src/engine/dom/dom.rs:14-23 | the doctype is stored as given; the root is a fresh element tagged `root` with no attributes, children or styles; `parent()` on it is `Unreachable(NoParent)` |
| Document.Dom.Select | src/engine/dom/dom.rs:29-34 | the root's selection, and the root is never in the result |
| Document.Dom.QuerySelect | src/engine/dom/dom.rs:25-27 | a parse failure gives the selector-parse error; otherwise the root's selection, which never holds the root |
| Document.ChildlessSelectsNothing | src/engine/dom/shared_node/select.rs:80-92 | a node without children selects nothing, unless the selector fails |
| Document.NewDocumentSelectsNothing | src/engine/dom/dom.rs:14-34 | every successful selection on a new document is empty |

## Left out

- Locking and reference counting: `RwLock`, lock poisoning and the `Arc`/`Weak` counts are not modelled. Nodes are ordinary heap objects, so `Error::Poison` and the poison branches of append, get_set_attr and parent never arise. The `alive` field stands for "some strong handle remains". No operation of the core drops a node, so it only matters to `parent()`.
- Parsing: `ComplexSelector::from_str` and the pest grammars are not part of this model. `Document.Dom.QuerySelect` receives the parsed selector, with `None` standing for a parse failure. `SharedNode::query_select` (select.rs:18-20) is the same wrapper and is left out for that reason.
- The `anyhow` errors of `select` (select.rs:27-29, 34-36) are modelled as the values `EmptySelectorList` and `MoreCombinatorsThanSelectors` of `Selection.SelectError`. The message texts are not modelled.
- Selection.SelectSimpleRecursive: the `?` on the recursive call never fires. The callee only ever returns `Ok`, and a poisoned lock panics through the `unwrap` of `read()` (select.rs:77, 81) rather than returning an error. The model therefore returns the list directly, and a panic is not modelled.
- Selection.SelectInIsPreOrderFilter: needs text and comment nodes to have no children. The source does let a text node receive children, and `select_simple_recursive` then skips them, which the function `SelectIn` models.
- Appending.AppendSharedNode: tree well-formedness is promised only when the appended node roots a subtree disjoint from the tree. Re-appending a node that already has a parent leaves it listed by both parents, as in the source. That state is outside `Valid`, and the contract then states only the field updates.
- Appending.AppendNode: tree well-formedness is promised only when the given node has no children. The source keeps the children it is given but does not point their parent links at the new node, so a node appended with children is listed as their parent while each child still names its old parent (or none). That state is outside `Valid`, and the contract then states only the field updates.
- `Error::SelectorParsing` (mod.rs:53-54) is declared but never constructed in the engine, so `NodeErrors.SelectorParsing` is not produced by any member. The parse failure of `query_select` comes from the selector parser and is modelled as `Selection.SelectError.SelectorParse`.
- Attributes.GetAttr: the `unreachable!` panics for text and comment nodes are modelled as the precondition that the node is an element. The same holds for Attributes.SetAttr.
- `applied_style.rs` is not part of this model. It is a stale struct that does not match how `AppliedStyle` is used. `AppliedStyle` follows its use in ask_style.rs.
- `src/engine/dom/shared_node.rs` is an older copy of the `shared_node/` module and is not part of this model.
- `parent.rs` is not declared in `shared_node/mod.rs`, so the crate does not compile it. It is modelled anyway, together with the error enums of mod.rs.
- `Value` and `Dimension` carry an `f64`, so floating point is not modelled. Unit conversion, `as_tb`, `apply_stylesheet` and inheritance are not in the core. Cascade.AskStyle reads only the node's own applied styles; the "ask my parent" branch is an empty TODO.
- Element `Display` iterates a `HashMap` in unspecified order and is left out. `pretty_print_tree.rs` (console output), the layout glue, `src/engine/simply/` and the demo binaries are left out too.
- Stylesheet.Lower: lower-cases only the ASCII letters, where `str::to_lowercase` (stylesheet.rs:168) applies the full Unicode mapping (`Σ` to `σ`, `İ` to two characters). For `Unit::from_str`, the one caller, the two give the same unit. On strings of ASCII characters they agree exactly. A string holding any other character parses to `Invalid` in the model (Stylesheet.NonAsciiIsInvalid). In the source, its lower-cased form still holds a character beyond ASCII, and no unit name has one. The one exception is the KELVIN SIGN, which becomes `k`, and no unit name has a `k` (Stylesheet.KelvinFoldIsInvalid). This rests on the Unicode case tables, which are not modelled.
- Stylesheet.ComplexSpecificity: the `usize` sums of the fold are unbounded in the model, so overflow is not modelled. The same holds for the class count of Stylesheet.SelectorSpecificity.
- Iteration.NodeIterator.Next: relates the iterator to the `Walk` order only while its `pending` views describe the heap. On a cyclic heap the source iterator does not terminate, and that case is not modelled.

## Findings

| source | as written | input that shows it | evidently intended | confidence | as-written member | corrected member |
|---|---|---|---|---|---|---|
| src/engine/stylesheet.rs:92-94 | the fold builds `Specificity(0, r.0 + v.0, r.1 + v.1, r.2 + v.2)`, moving every slot one place right and dropping the tag count | the single compound `h1` has `Selector::specificity` (0,0,0,1) but `ComplexSelector::specificity` (0,0,0,0); `h1 .a` ties with `.a` | componentwise sum `Specificity(r.0 + v.0, r.1 + v.1, r.2 + v.2, r.3 + v.3)` | not executed | Stylesheet.ComplexSpecificityDropsTags | Stylesheet.IntendedAgreesOnOneCompound |
| src/engine/stylesheet.rs:169-184 | the match has no `"cm"` arm although `Unit::Cm` exists | `"cm"` (and `Cm`'s own display name `"Cm"`) parses to `Unit::Invalid` | a `"cm" => Unit::Cm` arm, making parsing invert `Display` for every unit | not executed | Stylesheet.CentimetreIsInvalid | Stylesheet.IntendedUnitRoundTrip |
