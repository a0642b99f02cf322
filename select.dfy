/**
 * Complex-selector selection over a subtree (src/engine/dom/shared_node/select.rs), specified
 * over the value view of the subtree.
 */
module Selection {
  import opened Wrappers
  import opened Stylesheet
  import opened Nodes
  import opened Trees

  /** Why a selection fails. */
  datatype SelectError =
    | EmptySelectorList
    | MoreCombinatorsThanSelectors
    | Unimplemented(combinator: Combinator)
    | SelectorParse

  /** The view `u` holds an element matching `s`. */
  predicate Matches(u: Tree, s: Selector) {
    u.nodeType.Element? && MatchesSelector(u.nodeType.data, s)
  }

  /**
   * What `select_simple_recursive` collects below the trees `ts`, in order: for each element
   * tree, the tree itself when it matches and then what it collects below its own children.
   * A non-element tree is skipped together with everything under it.
   */
  function SelectIn(ts: seq<Tree>, s: Selector): seq<Tree>
    decreases ts
  {
    if ts == [] then []
    else
      var k := ts[|ts| - 1];
      var rest := SelectIn(ts[..|ts| - 1], s);
      if k.nodeType.Element? then
        (if MatchesSelector(k.nodeType.data, s) then rest + [k] else rest) + SelectIn(k.kids, s)
      else rest
  }

  /** The trees of `ts` that match `s`, in order. */
  function Filter(ts: seq<Tree>, s: Selector): seq<Tree>
    decreases ts
  {
    if ts == [] then []
    else
      var rest := Filter(ts[..|ts| - 1], s);
      if Matches(ts[|ts| - 1], s) then rest + [ts[|ts| - 1]] else rest
  }

  /** `select_simple_recursive`: the matching elements below `n`, in document order. */
  method SelectSimpleRecursive(n: Node, s: Selector, ghost t: Tree) returns (r: seq<Node>)
    requires t.node == n && Reflects(t)
    ensures r == NodeSeq(SelectIn(t.kids, s))
    decreases t
  {
    NodesAllocated(t);
    r := [];
    ghost var found: seq<Tree> := [];
    for i := 0 to |n.children|
      invariant Reflects(t)
      invariant found == SelectIn(t.kids[..i], s) && r == NodeSeq(found)
    {
      assert t.kids[..i + 1][..i] == t.kids[..i];
      var c := n.children[i];
      ghost var k := t.kids[i];
      if c.nodeType.Element? {
        if MatchesSelector(c.nodeType.data, s) {
          NodeSeqAppend(found, [k]);
          r := r + [c];
          found := found + [k];
        }
        var below := SelectSimpleRecursive(c, s, k);
        NodeSeqAppend(found, SelectIn(k.kids, s));
        r := r + below;
        found := found + SelectIn(k.kids, s);
      }
    }
    assert t.kids[..|n.children|] == t.kids;
  }

  /** `select_simple_no_recursive`: the matching element children of `n`, in children order. */
  method SelectSimpleNoRecursive(n: Node, s: Selector, ghost t: Tree) returns (r: seq<Node>)
    requires t.node == n && Reflects(t)
    ensures r == NodeSeq(Filter(t.kids, s))
  {
    r := [];
    ghost var found: seq<Tree> := [];
    for i := 0 to |n.children|
      invariant found == Filter(t.kids[..i], s) && r == NodeSeq(found)
    {
      assert t.kids[..i + 1][..i] == t.kids[..i];
      var c := n.children[i];
      if c.nodeType.Element? && MatchesSelector(c.nodeType.data, s) {
        NodeSeqAppend(found, [t.kids[i]]);
        r := r + [c];
        found := found + [t.kids[i]];
      }
    }
    assert t.kids[..|n.children|] == t.kids;
  }

  /** The descendant combinator: what each candidate collects below it, concatenated in candidate order. */
  function DescendantStep(cands: seq<Tree>, s: Selector): seq<Tree>
    decreases |cands|
  {
    if cands == [] then []
    else DescendantStep(cands[..|cands| - 1], s) + SelectIn(cands[|cands| - 1].kids, s)
  }

  /** The child combinator: each candidate's matching children, concatenated in candidate order. */
  function ChildStep(cands: seq<Tree>, s: Selector): seq<Tree>
    decreases |cands|
  {
    if cands == [] then []
    else ChildStep(cands[..|cands| - 1], s) + Filter(cands[|cands| - 1].kids, s)
  }

  /**
   * The combinators from index `k` on, applied in order to `cands`: combinator `k` takes the
   * compound `k + 1`, which must exist, and the sibling combinators are not implemented.
   */
  function CombineFrom(sel: ComplexSelector, k: nat, cands: seq<Tree>): Result<seq<Tree>, SelectError>
    requires k <= |sel.combinators|
    decreases |sel.combinators| - k
  {
    if k == |sel.combinators| then Success(cands)
    else if k + 1 >= |sel.inner| then Failure(MoreCombinatorsThanSelectors)
    else
      match sel.combinators[k]
      case Descendant => CombineFrom(sel, k + 1, DescendantStep(cands, sel.inner[k + 1]))
      case Child => CombineFrom(sel, k + 1, ChildStep(cands, sel.inner[k + 1]))
      case AdjacentSibling => Failure(Unimplemented(AdjacentSibling))
      case GeneralSibling => Failure(Unimplemented(GeneralSibling))
  }

  /** What `select` computes on the subtree viewed as `t`. */
  function SelectSpec(t: Tree, sel: ComplexSelector): Result<seq<Tree>, SelectError> {
    if |sel.inner| == 0 then Failure(EmptySelectorList)
    else CombineFrom(sel, 0, SelectIn(t.kids, sel.inner[0]))
  }

  /** A selection result with each view replaced by its node. */
  function NodesResult(r: Result<seq<Tree>, SelectError>): Result<seq<Node>, SelectError> {
    match r
    case Success(ts) => Success(NodeSeq(ts))
    case Failure(e) => Failure(e)
  }

  /** `select`: the first compound selects below `node`, then each combinator refines the candidates. */
  method Select(node: Node, selector: ComplexSelector, ghost t: Tree) returns (r: Result<seq<Node>, SelectError>)
    requires t.node == node && Reflects(t)
    ensures r == NodesResult(SelectSpec(t, selector))
  {
    if |selector.inner| == 0 {
      return Failure(EmptySelectorList);
    }
    NodesAllocated(t);
    var candidates := SelectSimpleRecursive(node, selector.inner[0], t);
    ghost var trees := SelectIn(t.kids, selector.inner[0]);
    SelectInBelow(t.kids, selector.inner[0]);
    for k := 0 to |selector.combinators|
      invariant Reflects(t)
      invariant candidates == NodeSeq(trees)
      invariant forall u :: u in trees ==> u in ForestPreOrder(t.kids)
      invariant SelectSpec(t, selector) == CombineFrom(selector, k, trees)
    {
      if k + 1 >= |selector.inner| {
        return Failure(MoreCombinatorsThanSelectors);
      }
      var simple := selector.inner[k + 1];
      match selector.combinators[k]
      case Descendant =>
        candidates := DescendantPass(candidates, simple, t, trees);
        DescendantStepBelow(t, trees, simple);
        trees := DescendantStep(trees, simple);
      case Child =>
        candidates := ChildPass(candidates, simple, t, trees);
        ChildStepBelow(t, trees, simple);
        trees := ChildStep(trees, simple);
      case AdjacentSibling =>
        return Failure(Unimplemented(AdjacentSibling));
      case GeneralSibling =>
        return Failure(Unimplemented(GeneralSibling));
    }
    r := Success(candidates);
  }

  /** The descendant-combinator loop of `select`: each candidate's recursive matches, concatenated. */
  method DescendantPass(candidates: seq<Node>, simple: Selector, ghost t: Tree, ghost trees: seq<Tree>)
    returns (next: seq<Node>)
    requires Reflects(t) && candidates == NodeSeq(trees)
    requires forall u :: u in trees ==> u in ForestPreOrder(t.kids)
    ensures next == NodeSeq(DescendantStep(trees, simple))
  {
    NodesAllocated(t);
    next := [];
    ghost var nextTrees: seq<Tree> := [];
    for j := 0 to |candidates|
      invariant Reflects(t)
      invariant nextTrees == DescendantStep(trees[..j], simple) && next == NodeSeq(nextTrees)
    {
      assert trees[..j + 1][..j] == trees[..j];
      ghost var c := trees[j];
      SubtreeReflects(t, c);
      var found := SelectSimpleRecursive(candidates[j], simple, c);
      NodeSeqAppend(nextTrees, SelectIn(c.kids, simple));
      next := next + found;
      nextTrees := nextTrees + SelectIn(c.kids, simple);
    }
    assert trees[..|candidates|] == trees;
  }

  /** The child-combinator loop of `select`: each candidate's matching children, concatenated. */
  method ChildPass(candidates: seq<Node>, simple: Selector, ghost t: Tree, ghost trees: seq<Tree>)
    returns (next: seq<Node>)
    requires Reflects(t) && candidates == NodeSeq(trees)
    requires forall u :: u in trees ==> u in ForestPreOrder(t.kids)
    ensures next == NodeSeq(ChildStep(trees, simple))
  {
    NodesAllocated(t);
    next := [];
    ghost var nextTrees: seq<Tree> := [];
    for j := 0 to |candidates|
      invariant Reflects(t)
      invariant nextTrees == ChildStep(trees[..j], simple) && next == NodeSeq(nextTrees)
    {
      assert trees[..j + 1][..j] == trees[..j];
      ghost var c := trees[j];
      SubtreeReflects(t, c);
      var found := SelectSimpleNoRecursive(candidates[j], simple, c);
      NodeSeqAppend(nextTrees, Filter(c.kids, simple));
      next := next + found;
      nextTrees := nextTrees + Filter(c.kids, simple);
    }
    assert trees[..|candidates|] == trees;
  }

  // ---------------------------------------------------------------------------------------------
  // Properties of the specification

  /** Everything `SelectIn` collects is a matching element inside the trees `ts`. */
  lemma {:induction false} SelectInBelow(ts: seq<Tree>, s: Selector)
    ensures forall u :: u in SelectIn(ts, s) ==> Matches(u, s) && u in ForestPreOrder(ts)
    decreases ts
  {
    if ts != [] {
      var prefix, k := ts[..|ts| - 1], ts[|ts| - 1];
      SelectInBelow(prefix, s);
      SelectInBelow(k.kids, s);
      ForestSingleton(prefix, k);
      SplitLast(ts);
    }
  }

  /** A direct child is a proper subtree. */
  lemma KidsBelow(c: Tree)
    ensures forall u :: u in c.kids ==> u in ForestPreOrder(c.kids)
  {
    forall u | u in c.kids
      ensures u in ForestPreOrder(c.kids)
    {
      var i :| 0 <= i < |c.kids| && c.kids[i] == u;
      ForestSplit(c.kids, i);
    }
  }

  /** What lies properly below a proper subtree of `t` lies properly below `t`. */
  lemma BelowTransitive(t: Tree, c: Tree)
    requires c in ForestPreOrder(t.kids)
    ensures forall u :: u in ForestPreOrder(c.kids) ==> u in ForestPreOrder(t.kids)
  {
    var i := ForestMember(t.kids, c);
    ForestSplit(t.kids, i);
    forall u | u in ForestPreOrder(c.kids)
      ensures u in ForestPreOrder(t.kids)
    {
      PreOrderTransitive(t.kids[i], c, u);
    }
  }

  /** The child step keeps exactly the matching trees, in order. */
  lemma {:induction false} FilterExact(ts: seq<Tree>, s: Selector)
    ensures forall u :: u in Filter(ts, s) ==> u in ts && Matches(u, s)
    ensures forall u :: u in ts && Matches(u, s) ==> u in Filter(ts, s)
    decreases ts
  {
    if ts != [] {
      FilterExact(ts[..|ts| - 1], s);
      SplitLast(ts);
    }
  }

  /** The descendant step keeps the candidates below `t`. */
  lemma {:induction false} DescendantStepBelow(t: Tree, cands: seq<Tree>, s: Selector)
    requires forall u :: u in cands ==> u in ForestPreOrder(t.kids)
    ensures forall u :: u in DescendantStep(cands, s) ==> Matches(u, s) && u in ForestPreOrder(t.kids)
    decreases |cands|
  {
    if cands != [] {
      var c := cands[|cands| - 1];
      DescendantStepBelow(t, cands[..|cands| - 1], s);
      SelectInBelow(c.kids, s);
      BelowTransitive(t, c);
    }
  }

  /** The child step keeps the candidates below `t`. */
  lemma {:induction false} ChildStepBelow(t: Tree, cands: seq<Tree>, s: Selector)
    requires forall u :: u in cands ==> u in ForestPreOrder(t.kids)
    ensures forall u :: u in ChildStep(cands, s) ==> Matches(u, s) && u in ForestPreOrder(t.kids)
    decreases |cands|
  {
    if cands != [] {
      var c := cands[|cands| - 1];
      ChildStepBelow(t, cands[..|cands| - 1], s);
      FilterExact(c.kids, s);
      KidsBelow(c);
      BelowTransitive(t, c);
      forall u | u in Filter(c.kids, s)
        ensures u in ForestPreOrder(c.kids)
      {
        assert u in c.kids;
      }
    }
  }

  /** Filtering distributes over concatenation. */
  lemma {:induction false} FilterAppend(a: seq<Tree>, b: seq<Tree>, s: Selector)
    ensures Filter(a + b, s) == Filter(a, s) + Filter(b, s)
    decreases |b|
  {
    if b == [] {
      assert a + b == a;
    } else {
      assert (a + b)[..|a + b| - 1] == a + b[..|b| - 1];
      FilterAppend(a, b[..|b| - 1], s);
    }
  }

  /** No non-element subtree of `ts` has children. */
  ghost predicate OnlyElementsHaveKids(ts: seq<Tree>) {
    forall u :: u in ForestPreOrder(ts) && !u.nodeType.Element? ==> u.kids == []
  }

  /**
   * When no text or comment node has children, `select_simple_recursive` returns exactly the
   * matching subtrees in pre-order: the document-order filter of everything below.
   */
  lemma {:induction false} SelectInIsPreOrderFilter(ts: seq<Tree>, s: Selector)
    requires OnlyElementsHaveKids(ts)
    ensures SelectIn(ts, s) == Filter(ForestPreOrder(ts), s)
    decreases ts
  {
    if ts != [] {
      var p, k := ts[..|ts| - 1], ts[|ts| - 1];
      OnlyElementsHaveKidsParts(ts);
      SelectInIsPreOrderFilter(p, s);
      SelectInIsPreOrderFilter(k.kids, s);
      var below := ForestPreOrder(k.kids);
      FilterAppend(ForestPreOrder(p), PreOrder(k), s);
      FilterAppend([k], below, s);
      FilterSingle(k, s);
      AppendAssoc(Filter(ForestPreOrder(p), s), Filter([k], s), Filter(below, s));
    }
  }

  /** The condition holds for the prefix and last tree of a forest, and the last tree, if not an element, is a leaf. */
  lemma OnlyElementsHaveKidsParts(ts: seq<Tree>)
    requires ts != [] && OnlyElementsHaveKids(ts)
    ensures OnlyElementsHaveKids(ts[..|ts| - 1]) && OnlyElementsHaveKids(ts[|ts| - 1].kids)
    ensures !ts[|ts| - 1].nodeType.Element? ==> ForestPreOrder(ts[|ts| - 1].kids) == []
    ensures ForestPreOrder(ts) == ForestPreOrder(ts[..|ts| - 1]) + PreOrder(ts[|ts| - 1])
  {
    var p, k := ts[..|ts| - 1], ts[|ts| - 1];
    assert forall u :: u in ForestPreOrder(p) || u in PreOrder(k) ==> u in ForestPreOrder(ts);
  }

  lemma FilterSingle(k: Tree, s: Selector)
    ensures Filter([k], s) == if Matches(k, s) then [k] else []
  {
    assert [k][..0] == [];
  }

  /** A combinator `select` implements. */
  predicate Implemented(c: Combinator) {
    c.Descendant? || c.Child?
  }

  /** At least one compound, fewer combinators than compounds, and only implemented combinators. */
  predicate Selectable(sel: ComplexSelector) {
    && |sel.inner| > 0
    && |sel.combinators| < |sel.inner|
    && forall k :: 0 <= k < |sel.combinators| ==> Implemented(sel.combinators[k])
  }

  /** `select` succeeds exactly on the selectable complex selectors, whatever the tree. */
  lemma SelectSucceeds(t: Tree, sel: ComplexSelector)
    ensures SelectSpec(t, sel).Success? <==> Selectable(sel)
  {
    if |sel.inner| > 0 {
      CombineFromSucceeds(sel, 0, SelectIn(t.kids, sel.inner[0]));
    }
  }

  lemma {:induction false} CombineFromSucceeds(sel: ComplexSelector, k: nat, cands: seq<Tree>)
    requires k <= |sel.combinators| && |sel.inner| > 0
    ensures CombineFrom(sel, k, cands).Success? <==>
      (k == |sel.combinators| || |sel.combinators| < |sel.inner|) &&
      forall j :: k <= j < |sel.combinators| ==> Implemented(sel.combinators[j])
    decreases |sel.combinators| - k
  {
    if k < |sel.combinators| && k + 1 < |sel.inner| {
      var simple := sel.inner[k + 1];
      match sel.combinators[k]
      case Descendant => CombineFromSucceeds(sel, k + 1, DescendantStep(cands, simple));
      case Child => CombineFromSucceeds(sel, k + 1, ChildStep(cands, simple));
      case AdjacentSibling =>
      case GeneralSibling =>
    }
  }

  /** With too few compounds for the implemented combinators that precede, `select` reports it. */
  lemma MoreCombinatorsError(t: Tree, sel: ComplexSelector)
    requires 0 < |sel.inner| <= |sel.combinators|
    requires forall j :: 0 <= j < |sel.inner| - 1 ==> Implemented(sel.combinators[j])
    ensures SelectSpec(t, sel) == Failure(MoreCombinatorsThanSelectors)
  {
    CombineFromTooFew(sel, 0, SelectIn(t.kids, sel.inner[0]));
  }

  lemma {:induction false} CombineFromTooFew(sel: ComplexSelector, k: nat, cands: seq<Tree>)
    requires k < |sel.inner| <= |sel.combinators|
    requires forall j :: k <= j < |sel.inner| - 1 ==> Implemented(sel.combinators[j])
    ensures CombineFrom(sel, k, cands) == Failure(MoreCombinatorsThanSelectors)
    decreases |sel.inner| - k
  {
    if k + 1 < |sel.inner| {
      var simple := sel.inner[k + 1];
      match sel.combinators[k]
      case Descendant => CombineFromTooFew(sel, k + 1, DescendantStep(cands, simple));
      case Child => CombineFromTooFew(sel, k + 1, ChildStep(cands, simple));
    }
  }

  /** The first sibling combinator that has its compound makes `select` fail as unimplemented. */
  lemma SiblingUnimplemented(t: Tree, sel: ComplexSelector, j: nat)
    requires j < |sel.combinators| && j + 1 < |sel.inner| && !Implemented(sel.combinators[j])
    requires forall i :: 0 <= i < j ==> Implemented(sel.combinators[i])
    ensures SelectSpec(t, sel) == Failure(Unimplemented(sel.combinators[j]))
  {
    CombineFromSibling(sel, 0, j, SelectIn(t.kids, sel.inner[0]));
  }

  lemma {:induction false} CombineFromSibling(sel: ComplexSelector, k: nat, j: nat, cands: seq<Tree>)
    requires k <= j < |sel.combinators| && j + 1 < |sel.inner| && !Implemented(sel.combinators[j])
    requires forall i :: k <= i < j ==> Implemented(sel.combinators[i])
    ensures CombineFrom(sel, k, cands) == Failure(Unimplemented(sel.combinators[j]))
    decreases j - k
  {
    if k < j {
      var simple := sel.inner[k + 1];
      match sel.combinators[k]
      case Descendant => CombineFromSibling(sel, k + 1, j, DescendantStep(cands, simple));
      case Child => CombineFromSibling(sel, k + 1, j, ChildStep(cands, simple));
    }
  }

  /** Compounds beyond the one the last combinator takes are ignored. */
  lemma ExtraCompoundsIgnored(t: Tree, sel: ComplexSelector, extra: seq<Selector>)
    requires |sel.combinators| < |sel.inner|
    ensures SelectSpec(t, ComplexSelector(sel.inner + extra, sel.combinators)) == SelectSpec(t, sel)
  {
    var longer := ComplexSelector(sel.inner + extra, sel.combinators);
    CombineFromExtra(sel, longer, 0, SelectIn(t.kids, sel.inner[0]));
  }

  lemma {:induction false} CombineFromExtra(sel: ComplexSelector, longer: ComplexSelector, k: nat, cands: seq<Tree>)
    requires k <= |sel.combinators| < |sel.inner| && longer.combinators == sel.combinators
    requires |longer.inner| >= |sel.inner| && longer.inner[..|sel.inner|] == sel.inner
    ensures CombineFrom(longer, k, cands) == CombineFrom(sel, k, cands)
    decreases |sel.combinators| - k
  {
    if k < |sel.combinators| {
      assert longer.inner[k + 1] == sel.inner[k + 1] by {
        assert longer.inner[..|sel.inner|][k + 1] == longer.inner[k + 1];
      }
      var simple := sel.inner[k + 1];
      match sel.combinators[k]
      case Descendant => CombineFromExtra(sel, longer, k + 1, DescendantStep(cands, simple));
      case Child => CombineFromExtra(sel, longer, k + 1, ChildStep(cands, simple));
      case AdjacentSibling =>
      case GeneralSibling =>
    }
  }

  /** Every selected subtree lies strictly below `t` and matches the compound the last combinator takes. */
  lemma SelectSound(t: Tree, sel: ComplexSelector)
    ensures SelectSpec(t, sel).Success? ==>
      |sel.combinators| < |sel.inner| &&
      forall u :: u in SelectSpec(t, sel).value ==>
        Matches(u, sel.inner[|sel.combinators|]) && u in ForestPreOrder(t.kids)
  {
    if |sel.inner| > 0 {
      SelectInBelow(t.kids, sel.inner[0]);
      CombineFromSound(t, sel, 0, SelectIn(t.kids, sel.inner[0]));
    }
  }

  lemma {:induction false} CombineFromSound(t: Tree, sel: ComplexSelector, k: nat, cands: seq<Tree>)
    requires k <= |sel.combinators| && k < |sel.inner|
    requires forall u :: u in cands ==> Matches(u, sel.inner[k]) && u in ForestPreOrder(t.kids)
    ensures CombineFrom(sel, k, cands).Success? ==>
      |sel.combinators| < |sel.inner| &&
      forall u :: u in CombineFrom(sel, k, cands).value ==>
        Matches(u, sel.inner[|sel.combinators|]) && u in ForestPreOrder(t.kids)
    decreases |sel.combinators| - k
  {
    if k < |sel.combinators| && k + 1 < |sel.inner| {
      var simple := sel.inner[k + 1];
      match sel.combinators[k]
      case Descendant =>
        DescendantStepBelow(t, cands, simple);
        CombineFromSound(t, sel, k + 1, DescendantStep(cands, simple));
      case Child =>
        ChildStepBelow(t, cands, simple);
        CombineFromSound(t, sel, k + 1, ChildStep(cands, simple));
      case AdjacentSibling =>
      case GeneralSibling =>
    }
  }

  /** The node `select` is called on is never part of its result. */
  lemma RootNeverSelected(t: Tree, sel: ComplexSelector)
    requires Reflects(t)
    ensures SelectSpec(t, sel).Success? ==> t.node !in NodeSeq(SelectSpec(t, sel).value)
  {
    SelectSound(t, sel);
    if SelectSpec(t, sel).Success? {
      var ts := SelectSpec(t, sel).value;
      forall i | 0 <= i < |ts|
        ensures ts[i].node != t.node
      {
        RootNotBelow(t, ts[i]);
      }
    }
  }

  /** An element `div` without attributes. */
  function Div(): NodeType {
    Element(ElementData("div", map[]))
  }

  /**
   * No deduplication: in a chain `root > a > b > c` of `div`s, the selector `div div` reaches
   * `c` once below `a` and again below `b`.
   */
  lemma NestedCandidatesRepeat(root: Node, a: Node, b: Node, c: Node)
    ensures
      var tc := Tree(c, Div(), []);
      var tb := Tree(b, Div(), [tc]);
      var ta := Tree(a, Div(), [tb]);
      var div := Selector(None, Some("div"), []);
      SelectSpec(Tree(root, Div(), [ta]), ComplexSelector([div, div], [Descendant])) == Success([tb, tc, tc])
  {
    var tc := Tree(c, Div(), []);
    var tb := Tree(b, Div(), [tc]);
    var ta := Tree(a, Div(), [tb]);
    var div := Selector(None, Some("div"), []);
    assert MatchesSelector(ElementData("div", map[]), div);
    assert [ta][..0] == [] && [tb][..0] == [] && [tc][..0] == [];
    assert SelectIn([tc], div) == [tc];
    assert SelectIn([tb], div) == [tb, tc];
    assert SelectIn([ta], div) == [ta, tb, tc];
    assert [ta, tb, tc][..2] == [ta, tb] && [ta, tb][..1] == [ta];
    assert DescendantStep([ta], div) == [tb, tc];
    assert DescendantStep([ta, tb], div) == [tb, tc, tc];
    assert DescendantStep([ta, tb, tc], div) == [tb, tc, tc];
  }

  /** `select_simple_recursive` never returns the node it is called on. */
  lemma SimpleExcludesSelf(t: Tree, s: Selector)
    requires Reflects(t)
    ensures t.node !in NodeSeq(SelectIn(t.kids, s))
  {
    SelectInBelow(t.kids, s);
    var ts := SelectIn(t.kids, s);
    forall i | 0 <= i < |ts|
      ensures ts[i].node != t.node
    {
      RootNotBelow(t, ts[i]);
    }
  }
}
