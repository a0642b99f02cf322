/** The document: a doctype and the root node every query starts from (src/engine/dom/dom.rs). */
module Document {
  import opened Wrappers
  import opened Stylesheet
  import opened Nodes
  import opened NodeErrors
  import opened ParentLink
  import opened Trees
  import opened Selection

  class Dom {
    var doctype: string
    var root: Node

    ghost predicate Valid()
      reads this, root, root.repr
    {
      root.Valid()
    }

    /** `Dom::new`: the doctype as given and a fresh element root tagged "root" with no attributes. */
    constructor New(doctype: string)
      ensures this.doctype == doctype && fresh(root)
      ensures root.nodeType == Element(ElementData("root", map[]))
      ensures root.children == [] && root.appliedStyles == [] && root.alive
      ensures Parent(root) == Failure(Unreachable(NoParent))
      ensures Valid()
    {
      this.doctype := doctype;
      root := new Node(Element(ElementData("root", map[])));
    }

    /**
     * `Dom::select`: the selector applied below the root. The result is the one the tree
     * below the root determines, and the root itself is never part of it.
     */
    method Select(selector: ComplexSelector) returns (r: Result<seq<Node>, SelectError>)
      requires Valid()
      ensures r == NodesResult(SelectSpec(Snap(root), selector))
      ensures r.Success? ==> root !in r.value
    {
      ghost var t := Snap(root);
      SnapReflects(root);
      r := Selection.Select(root, selector, t);
      RootNeverSelected(t, selector);
    }

    /**
     * `Dom::query_select`: the query is parsed first (the parser is outside this model, so the
     * parsed selector arrives as an argument, `None` standing for a parse error); a parse error
     * is reported as such, otherwise the query selects like `Select`.
     */
    method QuerySelect(parsed: Option<ComplexSelector>) returns (r: Result<seq<Node>, SelectError>)
      requires Valid()
      ensures parsed.None? ==> r == Failure(SelectorParse)
      ensures parsed.Some? ==> r == NodesResult(SelectSpec(Snap(root), parsed.value))
      ensures r.Success? ==> root !in r.value
    {
      if parsed.None? {
        return Failure(SelectorParse);
      }
      r := Select(parsed.value);
    }
  }

  /** A tree with nothing below its root selects nothing, whatever the selector, unless it fails. */
  lemma ChildlessSelectsNothing(t: Tree, sel: ComplexSelector)
    requires t.kids == []
    ensures SelectSpec(t, sel).Success? ==> SelectSpec(t, sel).value == []
  {
    assert ForestPreOrder(t.kids) == [];
    if SelectSpec(t, sel).Success? && SelectSpec(t, sel).value != [] {
      var ts := SelectSpec(t, sel).value;
      assert ts[0] in ts;
      SelectSound(t, sel);
    }
  }

  /** A new document's root has nothing below it, so every selection on it that succeeds is empty. */
  lemma NewDocumentSelectsNothing(root: Node, sel: ComplexSelector)
    requires root.Valid() && root.children == []
    ensures SelectSpec(Snap(root), sel).Success? ==> SelectSpec(Snap(root), sel).value == []
  {
    SnapReflects(root);
    ChildlessSelectsNothing(Snap(root), sel);
  }
}
