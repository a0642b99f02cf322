/** The stack-based node iterator (src/engine/dom/shared_node/iterator.rs). */
module Iteration {
  import opened Wrappers
  import opened Nodes
  import opened Trees

  /** Replacing the top of a stack of trees by its children removes exactly one subtree from the stack's forest. */
  lemma PopShrinks(ts: seq<Tree>)
    requires ts != []
    ensures ForestPreOrder(ts) ==
      ForestPreOrder(ts[..|ts| - 1]) + [ts[|ts| - 1]] + ForestPreOrder(ts[|ts| - 1].kids)
    ensures ForestPreOrder(ts[..|ts| - 1] + ts[|ts| - 1].kids) ==
      ForestPreOrder(ts[..|ts| - 1]) + ForestPreOrder(ts[|ts| - 1].kids)
  {
    var p, top := ts[..|ts| - 1], ts[|ts| - 1];
    SplitLast(ts);
    ForestSingleton(p, top);
    ForestAppend(p, top.kids);
    AppendAssoc(ForestPreOrder(p), [top], ForestPreOrder(top.kids));
  }

  /**
   * The nodes the iterator yields from a stack holding the trees `ts` (top last): the top's
   * node, then what it yields once the top is replaced by its children.
   */
  function Walk(ts: seq<Tree>): seq<Node>
    decreases |ForestPreOrder(ts)|
  {
    if ts == [] then []
    else
      var top := ts[|ts| - 1];
      PopShrinks(ts);
      [top.node] + Walk(ts[..|ts| - 1] + top.kids)
  }

  /** `NodeIterator`: a stack of nodes still to be yielded; `pending` views the subtree under each. */
  class NodeIterator {
    var stack: seq<Node>
    ghost var pending: seq<Tree>

    /** The stack holds the nodes of the pending views, and they describe the heap. */
    ghost predicate Valid()
      reads this, ForestNodes(pending)
    {
      stack == NodeSeq(pending) && ForestReflects(pending)
    }

    /** `From<&SharedNode>`: the stack starts as the node's children; the node itself is not on it. */
    constructor From(node: Node, ghost t: Tree)
      requires t.node == node && Reflects(t)
      ensures stack == node.children && pending == t.kids && Valid()
    {
      assert ForestReflects(t.kids);
      ForestAllocated(t.kids);
      stack := node.children;
      pending := t.kids;
    }

    /** `next`: pop the top node, push its children in order, and yield it; None once the stack is empty. */
    method Next() returns (r: Option<Node>)
      requires Valid()
      modifies this
      ensures Valid()
      ensures r.None? <==> old(stack) == []
      ensures r.None? ==> stack == old(stack) && pending == old(pending)
      ensures r.Some? ==>
        r.value == old(stack)[|old(stack)| - 1] && stack == old(stack)[..|old(stack)| - 1] + r.value.children
      ensures Walk(old(pending)) == (if r.Some? then [r.value] + Walk(pending) else [])
    {
      if stack == [] {
        return None;
      }
      var node := stack[|stack| - 1];
      ghost var top := pending[|pending| - 1];
      ghost var rest := pending[..|pending| - 1];
      assert Reflects(top);
      assert ForestReflects(rest + top.kids) by {
        forall i | 0 <= i < |rest + top.kids|
          ensures Reflects((rest + top.kids)[i])
        {
          if i >= |rest| {
            assert (rest + top.kids)[i] == top.kids[i - |rest|];
          }
        }
      }
      ForestAllocated(rest + top.kids);
      stack := stack[..|stack| - 1];
      pending := pending[..|pending| - 1];
      NodeSeqAppend(pending, top.kids);
      stack := stack + node.children;
      pending := pending + top.kids;
      r := Some(node);
    }
  }

  /** Trees pushed later are yielded first, each with everything below it: the stack is last-in, first-out. */
  lemma {:induction false} WalkAppend(p: seq<Tree>, q: seq<Tree>)
    ensures Walk(p + q) == Walk(q) + Walk(p)
    decreases |ForestPreOrder(q)|
  {
    if q == [] {
      assert p + q == p;
    } else {
      var q', u := q[..|q| - 1], q[|q| - 1];
      assert (p + q)[..|p + q| - 1] == p + q';
      assert (p + q)[|p + q| - 1] == u;
      AppendAssoc(p, q', u.kids);
      PopShrinks(q);
      WalkAppend(p, q' + u.kids);
      AppendAssoc([u.node], Walk(q' + u.kids), Walk(p));
    }
  }

  /** The children of a node come out last child first, each followed by everything below it. */
  lemma SiblingsLastFirst(t: Tree)
    requires t.kids != []
    ensures Walk(t.kids) == Walk([t.kids[|t.kids| - 1]]) + Walk(t.kids[..|t.kids| - 1])
    ensures Walk(t.kids)[0] == t.kids[|t.kids| - 1].node
  {
    SplitLast(t.kids);
    WalkAppend(t.kids[..|t.kids| - 1], [t.kids[|t.kids| - 1]]);
  }

  /** The nodes yielded from a stack are the nodes of its forest, each as often as it occurs there. */
  lemma {:induction false} WalkPermutation(ts: seq<Tree>)
    ensures multiset(Walk(ts)) == multiset(NodeSeq(ForestPreOrder(ts)))
    decreases |ForestPreOrder(ts)|
  {
    if ts != [] {
      var p, top := ts[..|ts| - 1], ts[|ts| - 1];
      PopShrinks(ts);
      WalkPermutation(p + top.kids);
      NodeSeqAppend(ForestPreOrder(p), ForestPreOrder(top.kids));
      NodeSeqAppend(ForestPreOrder(p) + [top], ForestPreOrder(top.kids));
      NodeSeqAppend(ForestPreOrder(p), [top]);
    }
  }

  /**
   * Iterating from a node of a well-formed tree yields every node strictly below it exactly
   * once; the node itself is never yielded.
   */
  lemma EachDescendantOnce(n: Node)
    requires n.Valid()
    ensures NoDup(Walk(Snap(n).kids))
    ensures forall x :: x in Walk(Snap(n).kids) <==> x in n.repr && x != n
  {
    SnapReflects(n);
    SnapDistinct(n);
    SnapCovers(n);
    DistinctWalk(Snap(n), n.repr);
  }

  /** Below a view whose nodes are distinct and make up `r`, the iterator yields `r` minus the root, once each. */
  lemma DistinctWalk(t: Tree, r: set<Node>)
    requires NoDup(NodeSeq(PreOrder(t)))
    requires forall u :: u in PreOrder(t) ==> u.node in r
    requires forall m :: m in r ==> m in NodeSeq(PreOrder(t))
    ensures NoDup(Walk(t.kids))
    ensures forall x :: x in Walk(t.kids) <==> x in r && x != t.node
  {
    var below := NodeSeq(ForestPreOrder(t.kids));
    RootThenBelow(t);
    NoDupTail(t.node, below);
    WalkPermutation(t.kids);
    NoDupPermutation(below, Walk(t.kids));
    WalkSameNodes(t.kids);
    forall x | x in below
      ensures x in r
    {
      assert x in [t.node] + below;
      var k :| 0 <= k < |NodeSeq(PreOrder(t))| && NodeSeq(PreOrder(t))[k] == x;
      assert PreOrder(t)[k] in PreOrder(t);
    }
    forall x | x in r && x != t.node
      ensures x in below
    {
      assert x in [t.node] + below;
    }
  }

  /** The nodes of a view in pre-order: its root, then the nodes below it. */
  lemma RootThenBelow(t: Tree)
    ensures NodeSeq(PreOrder(t)) == [t.node] + NodeSeq(ForestPreOrder(t.kids))
  {
    NodeSeqAppend([t], ForestPreOrder(t.kids));
  }

  /** The iterator yields exactly the nodes of its forest. */
  lemma WalkSameNodes(ts: seq<Tree>)
    ensures forall x :: x in Walk(ts) <==> x in NodeSeq(ForestPreOrder(ts))
  {
    WalkPermutation(ts);
    forall x
      ensures x in Walk(ts) <==> x in NodeSeq(ForestPreOrder(ts))
    {
      assert x in Walk(ts) <==> x in multiset(Walk(ts));
      assert x in NodeSeq(ForestPreOrder(ts)) <==> x in multiset(NodeSeq(ForestPreOrder(ts)));
    }
  }
}
