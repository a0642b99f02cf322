/** Following a node's weak parent link (src/engine/dom/shared_node/parent.rs). */
module ParentLink {
  import opened Wrappers
  import opened Nodes
  import opened NodeErrors

  /**
   * `Parent::parent`: no link is the "no parent" error, a link whose node is no longer held
   * by any strong handle fails to upgrade, otherwise the parent node.
   */
  function Parent(n: Node): (r: Result<Node, NodeError>)
    reads n, n.parent
    ensures r == Failure(Unreachable(NoParent)) <==> n.parent == null
    ensures r == Failure(MissingParentUpgrade) <==> n.parent != null && !n.parent.alive
    ensures r.Success? <==> n.parent != null && n.parent.alive
    ensures r.Success? ==> r.value == n.parent
  {
    if n.parent == null then Failure(Unreachable(NoParent))
    else if !n.parent.alive then Failure(MissingParentUpgrade)
    else Success(n.parent)
  }

  /**
   * In a well-formed tree every node below the root has a parent that upgrades, lies in the
   * tree and lists the node among its children; no other node of the tree lists it.
   */
  lemma {:induction false} NonRootParent(t: Node, m: Node)
    requires t.Valid() && m in t.repr && m != t && t.alive
    ensures Parent(m).Success?
    ensures var p := Parent(m).value; p in t.repr && m in p.children
    ensures forall q :: q in t.repr && m in q.children ==> q == Parent(m).value
    decreases t.repr
  {
    var i :| 0 <= i < |t.children| && m in t.children[i].repr;
    var c := t.children[i];
    t.ChildSmaller(i);
    if m != c {
      NonRootParent(c, m);
    }
    forall q | q in t.repr && m in q.children
      ensures q == m.parent
    {
      t.SubtreeValid(q);
      var k :| 0 <= k < |q.children| && q.children[k] == m;
    }
  }

  /** The root of a well-formed tree is nobody's child within it. */
  lemma RootIsNoChild(t: Node)
    requires t.Valid()
    ensures forall q :: q in t.repr ==> t !in q.children
  {
    forall q | q in t.repr
      ensures t !in q.children
    {
      t.SubtreeValid(q);
      if q != t {
        t.Acyclic(q);
      }
    }
  }
}
