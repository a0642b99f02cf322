/** Appending children (src/engine/dom/shared_node/append.rs). */
module Appending {
  import opened Wrappers
  import opened Nodes
  import opened ParentLink

  /** One attachment: `child` goes below `node`, a node of `tree`. */
  datatype Attach = Attach(tree: Node, node: Node, child: Node)

  /** The conditions under which attaching keeps a tree well formed. */
  twostate predicate AppendPre(a: Attach)
  {
    && old(a.tree.Valid()) && old(a.child.Valid()) && old(a.child.alive)
    && a.node in old(a.tree.repr) && old(a.tree.repr) !! old(a.child.repr)
  }

  /**
   * The heap after the attachment: the parent link and the children list are set, nothing
   * else structural changed in either subtree, and every footprint that contained the
   * target node grew by the child's footprint.
   */
  twostate predicate AppendedState(a: Attach)
    reads *
  {
    var tr := old(a.tree.repr);
    var xr := old(a.child.repr);
    && a.child.parent == a.node
    && a.node.children == old(a.node.children) + [a.child]
    && (forall m :: m in tr + xr && m != a.node ==> m.children == old(m.children))
    && (forall m :: m in tr + xr && m != a.child ==> m.parent == old(m.parent))
    && (forall m :: m in tr + xr ==> m.alive == old(m.alive))
    && (forall m :: m in tr ==> m.repr == if a.node in old(m.repr) then old(m.repr) + xr else old(m.repr))
    && (forall m :: m in xr ==> m.repr == old(m.repr))
  }

  /** Nodes of the attached subtree keep their local conditions. */
  twostate lemma InsertedLocalValid(a: Attach)
    requires AppendPre(a) && AppendedState(a)
    ensures forall m :: m in old(a.child.repr) ==> m.LocalValid()
  {
    var child := a.child;
    forall m | m in old(child.repr)
      ensures m.LocalValid()
    {
      assert old(m.LocalValid() && m.repr <= child.repr);
      forall o | o in old(m.repr) && o != m
        ensures o != child
      {
        if m != child {
          var i :| 0 <= i < |old(child.children)| && old(child.children[i] in child.repr && m in child.children[i].repr);
          var c := old(child.children[i]);
          assert old(c.LocalValid() && m.repr <= c.repr && child !in c.repr);
        }
      }
      LocalValidFrame(m);
    }
  }

  /** Nodes of the tree that do not contain the target keep their local conditions. */
  twostate lemma BystandersLocalValid(a: Attach)
    requires AppendPre(a) && AppendedState(a)
    ensures forall m :: m in old(a.tree.repr) && a.node !in old(m.repr) ==> m.LocalValid()
  {
    var tree := a.tree;
    forall m | m in old(tree.repr) && a.node !in old(m.repr)
      ensures m.LocalValid()
    {
      assert old(m.LocalValid() && m.repr <= tree.repr);
      forall o | o in old(m.repr)
        ensures o.repr == old(o.repr)
      {
        assert old(o in tree.repr && o.repr <= m.repr);
      }
      LocalValidFrame(m);
    }
  }

  /** The footprint of an ancestor of the target, grown by the attached subtree, stays closed. */
  twostate lemma AncestorsClosed(a: Attach)
    requires AppendPre(a) && AppendedState(a)
    ensures forall m :: m in old(a.tree.repr) && a.node in old(m.repr) ==> m.Closed()
  {
    var tree, child := a.tree, a.child;
    forall m | m in old(tree.repr) && a.node in old(m.repr)
      ensures m.Closed()
    {
      assert old(m.LocalValid() && m.repr <= tree.repr);
      forall o | o in m.repr
        ensures o.repr <= m.repr
      {
        if o in old(child.repr) {
          assert old(o.LocalValid() && o.repr <= child.repr);
        } else {
          assert old(o in tree.repr && o.repr <= m.repr);
        }
      }
    }
  }

  /** An ancestor's children, with the attached child last, stay linked to it. */
  twostate lemma AncestorsChildrenLinked(a: Attach)
    requires AppendPre(a) && AppendedState(a)
    ensures forall m :: m in old(a.tree.repr) && a.node in old(m.repr) ==> m.ChildrenLinked()
  {
    var tree, node, child := a.tree, a.node, a.child;
    forall m | m in old(tree.repr) && node in old(m.repr)
      ensures m.ChildrenLinked()
    {
      assert old(m.LocalValid() && m.repr <= tree.repr);
      forall i | 0 <= i < |m.children|
        ensures m.children[i] in m.repr && m !in m.children[i].repr
        ensures m.children[i].parent == m && m.children[i].alive
      {
        if m == node && i == |old(m.children)| {
          assert m.children[i] == child;
        } else {
          var c := old(m.children[i]);
          assert c == m.children[i];
          assert old(c in m.repr && m !in c.repr && c.parent == m && c.alive);
          assert c in old(tree.repr);
        }
      }
    }
  }

  /** An ancestor's child subtrees stay pairwise disjoint. */
  twostate lemma AncestorsSiblingsDisjoint(a: Attach)
    requires AppendPre(a) && AppendedState(a)
    ensures forall m :: m in old(a.tree.repr) && a.node in old(m.repr) ==> m.SiblingsDisjoint()
  {
    var tree, node := a.tree, a.node;
    forall m | m in old(tree.repr) && node in old(m.repr)
      ensures m.SiblingsDisjoint()
    {
      assert old(m.LocalValid() && m.repr <= tree.repr);
      forall i, j | 0 <= i < j < |m.children| && m.children[i] in m.repr && m.children[j] in m.repr
        ensures m.Apart(i, j)
      {
        var ci := old(m.children[i]);
        assert old(ci in m.repr && ci in tree.repr && ci.repr <= tree.repr);
        if m == node && j == |old(m.children)| {
          assert old(node !in ci.repr);
        } else {
          var cj := old(m.children[j]);
          assert old(cj in m.repr && cj in tree.repr && cj.repr <= tree.repr);
          assert old(m.Apart(i, j));
        }
      }
    }
  }

  /** The index of the child whose subtree holds `o`, for a node of `m`'s footprint other than `m`. */
  ghost function CoveringChild(m: Node, o: Node): (i: nat)
    reads m, m.repr
    requires m.LocalValid() && o in m.repr && o != m
    ensures i < |m.children| && m.children[i] in m.repr && o in m.children[i].repr
  {
    var i :| 0 <= i < |m.children| && m.children[i] in m.repr && o in m.children[i].repr; i
  }

  /** An ancestor's grown footprint is still covered by its children's footprints. */
  twostate lemma AncestorsCovered(a: Attach)
    requires AppendPre(a) && AppendedState(a)
    ensures forall m :: m in old(a.tree.repr) && a.node in old(m.repr) ==> m.Covered()
  {
    var tree, node, child := a.tree, a.node, a.child;
    forall m | m in old(tree.repr) && node in old(m.repr)
      ensures m.Covered()
    {
      assert old(m.LocalValid() && m.repr <= tree.repr);
      forall o | o in m.repr && o != m
        ensures exists i :: 0 <= i < |m.children| && m.children[i] in m.repr && o in m.children[i].repr
      {
        if o in old(child.repr) && m == node {
          var k := |m.children| - 1;
          assert m.children[k] == child && child in m.repr && o in child.repr;
        } else {
          var target := if o in old(child.repr) then node else o;
          assert old(target in m.repr) && target != m;
          var i := old(CoveringChild(m, target));
          var c := old(m.children[i]);
          assert c == m.children[i];
          assert c in old(tree.repr);
          assert o in c.repr && c in m.repr;
        }
      }
    }
  }

  /** Attaching a disjoint well-formed subtree below a node of a well-formed tree keeps it well formed. */
  twostate lemma AppendKeepsValid(a: Attach)
    requires AppendPre(a) && AppendedState(a)
    ensures a.tree.Valid() && a.tree.repr == old(a.tree.repr) + old(a.child.repr)
  {
    InsertedLocalValid(a);
    BystandersLocalValid(a);
    AncestorsClosed(a);
    AncestorsChildrenLinked(a);
    AncestorsSiblingsDisjoint(a);
    AncestorsCovered(a);
    assert a.tree.repr == old(a.tree.repr) + old(a.child.repr);
  }

  /** Adds `xr` to the footprint of every node of `s`, changing nothing else. */
  ghost method GrowFootprints(s: set<Node>, xr: set<Node>)
    modifies s
    ensures forall m :: m in s ==> m.repr == old(m.repr) + xr && DataUnchanged(m)
  {
    forall m | m in s {
      m.repr := m.repr + xr;
    }
  }

  /**
   * `Append::append_shared_node`: points `child`'s parent link at `node` and pushes `child`
   * onto `node`'s children.  A former parent is not told: it still lists `child`.  When
   * `node` lies in the well-formed tree `tree` and `child` roots a disjoint well-formed
   * subtree, the tree stays well formed and gains that subtree.
   */
  method AppendSharedNode(node: Node, child: Node, ghost tree: Node) returns (r: Node)
    modifies node, child, tree.repr
    ensures r == child && child.parent == node
    ensures node.alive ==> Parent(child) == Success(node)
    ensures node.children == old(node.children) + [child]
    ensures child != node ==> child.children == old(child.children) && node.parent == old(node.parent)
    ensures node.nodeType == old(node.nodeType) && node.appliedStyles == old(node.appliedStyles)
    ensures child.nodeType == old(child.nodeType) && child.appliedStyles == old(child.appliedStyles)
    ensures node.alive == old(node.alive) && child.alive == old(child.alive)
    ensures child !in old(tree.repr) ==> child.repr == old(child.repr)
    ensures forall m :: m in old(tree.repr) && m != node && m != child ==> DataUnchanged(m)
    ensures var p := old(child.parent);
      p != null && p != node && child in old(p.children) ==> child in p.children && child.parent != p
    ensures AppendPre(Attach(tree, node, child)) ==>
      AppendedState(Attach(tree, node, child)) && tree.Valid() && tree.repr == old(tree.repr) + old(child.repr)
  {
    ghost var pre := tree.Valid() && child.Valid() && child.alive && node in tree.repr && tree.repr !! child.repr;
    ghost var ancestors := set m | m in tree.repr && node in m.repr;
    ghost var xr := child.repr;
    child.parent := node;
    node.children := node.children + [child];
    if pre {
      GrowFootprints(ancestors, xr);
      AppendKeepsValid(Attach(tree, node, child));
    }
    forall m | m in old(tree.repr) && m != node && m != child
      ensures DataUnchanged(m)
    {
      assert m in ancestors ==> DataUnchanged(m);
    }
    r := child;
  }

  /**
   * What appending a new node does: the new node is fresh, alive, held and parented by
   * `node`, and last among `node`'s children; nothing else of the source's fields changes.
   */
  twostate predicate AttachedFresh(node: Node, new r: Node, tree: Node)
    reads *
  {
    && fresh(r) && r.parent == node && r.alive
    && node.children == old(node.children) + [r]
    && node.nodeType == old(node.nodeType) && node.parent == old(node.parent)
    && node.appliedStyles == old(node.appliedStyles) && node.alive == old(node.alive)
    && (forall m :: m in old(tree.repr) && m != node ==> DataUnchanged(m))
  }

  /** A well-formed tree holding `node` stays well formed and gains exactly the childless node `r`. */
  twostate predicate GrewBy(node: Node, new r: Node, tree: Node)
    reads *
  {
    old(tree.Valid()) && node in old(tree.repr) ==>
      tree.Valid() && tree.repr == old(tree.repr) + {r} && r.repr == {r}
  }

  /**
   * `Append::append_node`: wraps the given node (its type, children and styles) in a fresh
   * shared handle and appends it. The children keep their own parent links: nothing here
   * points them at the new node, so only a childless node is promised to keep the tree
   * well formed.
   */
  method AppendNode(node: Node, nodeType: NodeType, children: seq<Node>, appliedStyles: seq<AppliedStyle>,
                    ghost tree: Node)
    returns (r: Node)
    modifies node, tree.repr
    ensures AttachedFresh(node, r, tree)
    ensures r.nodeType == nodeType && r.children == children && r.appliedStyles == appliedStyles
    ensures forall c :: c in children && c != node ==> DataUnchanged(c)
    ensures node.alive ==> Parent(r) == Success(node)
    ensures children == [] ==> GrewBy(node, r, tree)
  {
    var created := new Node(nodeType);
    created.children := children;
    created.appliedStyles := appliedStyles;
    assert created !in tree.repr;
    r := AppendSharedNode(node, created, tree);
  }

  /** `Append::append_element`: a new element, with no attributes when none are given. */
  method AppendElement(node: Node, tag: string, attrs: Option<map<string, string>>, ghost tree: Node)
    returns (r: Node)
    modifies node, tree.repr
    ensures AttachedFresh(node, r, tree) && GrewBy(node, r, tree)
    ensures r.nodeType == Element(ElementData(tag, attrs.GetOr(map[])))
    ensures r.children == [] && r.appliedStyles == []
    ensures node.alive ==> Parent(r) == Success(node)
  {
    r := AppendNode(node, Element(NewElementData(tag, attrs)), [], [], tree);
  }

  /** `Append::append_text`. */
  method AppendText(node: Node, text: string, ghost tree: Node) returns (r: Node)
    modifies node, tree.repr
    ensures AttachedFresh(node, r, tree) && GrewBy(node, r, tree)
    ensures r.nodeType == Text(text) && r.children == [] && r.appliedStyles == []
    ensures node.alive ==> Parent(r) == Success(node)
  {
    r := AppendNode(node, Text(text), [], [], tree);
  }

  /** `Append::append_comment`. */
  method AppendComment(node: Node, text: string, ghost tree: Node) returns (r: Node)
    modifies node, tree.repr
    ensures AttachedFresh(node, r, tree) && GrewBy(node, r, tree)
    ensures r.nodeType == Comment(text) && r.children == [] && r.appliedStyles == []
    ensures node.alive ==> Parent(r) == Success(node)
  {
    r := AppendNode(node, Comment(text), [], [], tree);
  }
}
