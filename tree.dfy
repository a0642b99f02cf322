/**
 * A value-level view of a subtree of nodes: each node paired with the type it holds and the
 * views of its children.  Selection and iteration are specified over these views; `Reflects`
 * ties a view to the heap and `Snap` builds the view of a well-formed subtree.
 */
module Trees {
  import opened Wrappers
  import opened Nodes

  datatype Tree = Tree(node: Node, nodeType: NodeType, kids: seq<Tree>)

  /** The subtrees of `t` in pre-order (document order), `t` itself first. */
  function PreOrder(t: Tree): seq<Tree>
    decreases t
  {
    [t] + ForestPreOrder(t.kids)
  }

  /** The pre-orders of the trees of `ts`, one after the other. */
  function ForestPreOrder(ts: seq<Tree>): seq<Tree>
    decreases ts
  {
    if ts == [] then [] else ForestPreOrder(ts[..|ts| - 1]) + PreOrder(ts[|ts| - 1])
  }

  /** The nodes of a sequence of views, in order. */
  function NodeSeq(ts: seq<Tree>): (r: seq<Node>)
    ensures |r| == |ts| && forall i :: 0 <= i < |ts| ==> r[i] == ts[i].node
  {
    seq(|ts|, i requires 0 <= i < |ts| => ts[i].node)
  }

  lemma NodeSeqAppend(a: seq<Tree>, b: seq<Tree>)
    ensures NodeSeq(a + b) == NodeSeq(a) + NodeSeq(b)
  {
  }

  /** Pre-order distributes over concatenation of forests. */
  lemma {:induction false} ForestAppend(a: seq<Tree>, b: seq<Tree>)
    ensures ForestPreOrder(a + b) == ForestPreOrder(a) + ForestPreOrder(b)
    decreases |b|
  {
    if b == [] {
      assert a + b == a;
    } else {
      var b' := b[..|b| - 1];
      assert (a + b)[..|a + b| - 1] == a + b';
      assert (a + b)[|a + b| - 1] == b[|b| - 1];
      ForestAppend(a, b');
    }
  }

  /** The forest's pre-order around its `i`-th tree. */
  lemma ForestSplit(ts: seq<Tree>, i: nat)
    requires i < |ts|
    ensures ForestPreOrder(ts) == ForestPreOrder(ts[..i]) + PreOrder(ts[i]) + ForestPreOrder(ts[i + 1..])
  {
    var p, x, q := ts[..i], ts[i], ts[i + 1..];
    var px := p + [x];
    SplitAt(ts, i);
    calc {
      ForestPreOrder(ts);
      ForestPreOrder(px + q);
      { ForestAppend(px, q); }
      ForestPreOrder(px) + ForestPreOrder(q);
      { ForestSingleton(p, x); }
      ForestPreOrder(p) + PreOrder(x) + ForestPreOrder(q);
    }
  }

  lemma SplitAt<T>(s: seq<T>, i: nat)
    requires i < |s|
    ensures s == s[..i] + [s[i]] + s[i + 1..]
  {
  }

  /** Pre-order of a forest with one more tree at the end. */
  lemma ForestSingleton(p: seq<Tree>, x: Tree)
    ensures ForestPreOrder(p + [x]) == ForestPreOrder(p) + PreOrder(x)
  {
    assert (p + [x])[..|p|] == p;
  }

  /** Every subtree in a forest's pre-order lies in the pre-order of one of its trees. */
  lemma {:induction false} ForestMember(ts: seq<Tree>, u: Tree) returns (i: nat)
    requires u in ForestPreOrder(ts)
    ensures i < |ts| && u in PreOrder(ts[i])
    decreases |ts|
  {
    var prefix := ts[..|ts| - 1];
    if u in PreOrder(ts[|ts| - 1]) {
      i := |ts| - 1;
    } else {
      i := ForestMember(prefix, u);
    }
  }

  /** A subtree of a subtree of `t` is a subtree of `t`. */
  lemma {:induction false} PreOrderTransitive(t: Tree, u: Tree, v: Tree)
    requires u in PreOrder(t) && v in PreOrder(u)
    ensures v in PreOrder(t) && |PreOrder(u)| <= |PreOrder(t)|
    decreases t
  {
    if u != t {
      var i := ForestMember(t.kids, u);
      PreOrderTransitive(t.kids[i], u, v);
      ForestSplit(t.kids, i);
    }
  }

  /** A proper subtree of `t` is strictly smaller than `t`. */
  lemma ProperSubtreeSmaller(t: Tree, u: Tree)
    requires u in ForestPreOrder(t.kids)
    ensures |PreOrder(u)| < |PreOrder(t)| && u in PreOrder(t)
  {
    var i := ForestMember(t.kids, u);
    PreOrderTransitive(t.kids[i], u, u);
    ForestSplit(t.kids, i);
  }

  /** The nodes of the view `t`. */
  function NodesOf(t: Tree): (r: set<Node>)
    ensures t.node in r && ForestNodes(t.kids) <= r
    decreases t
  {
    {t.node} + ForestNodes(t.kids)
  }

  /** The nodes of the views `ts`. */
  function ForestNodes(ts: seq<Tree>): (r: set<Node>)
    ensures forall i :: 0 <= i < |ts| ==> NodesOf(ts[i]) <= r
    decreases ts
  {
    if ts == [] then {} else ForestNodes(ts[..|ts| - 1]) + NodesOf(ts[|ts| - 1])
  }

  /** The nodes of a forest lie in any set holding the nodes of each of its trees. */
  lemma {:induction false} ForestNodesWithin(ts: seq<Tree>, s: set<Node>)
    requires forall i :: 0 <= i < |ts| ==> NodesOf(ts[i]) <= s
    ensures ForestNodes(ts) <= s
    decreases |ts|
  {
    if ts != [] {
      ForestNodesWithin(ts[..|ts| - 1], s);
    }
  }

  /** The node of every subtree in the pre-order of `t` is a node of `t`. */
  lemma {:induction false} PreOrderNodes(t: Tree, u: Tree)
    requires u in PreOrder(t)
    ensures u.node in NodesOf(t)
    decreases t
  {
    if u != t {
      var i := ForestMember(t.kids, u);
      PreOrderNodes(t.kids[i], u);
    }
  }

  /** The view `t` describes the heap: node types and children agree, all the way down. */
  ghost predicate Reflects(t: Tree)
    reads NodesOf(t)
    decreases t
  {
    && t.node.nodeType == t.nodeType
    && |t.node.children| == |t.kids|
    && forall i :: 0 <= i < |t.kids| ==> t.node.children[i] == t.kids[i].node && Reflects(t.kids[i])
  }

  /** Every view of a forest describes the heap. */
  ghost predicate ForestReflects(ts: seq<Tree>)
    reads ForestNodes(ts)
  {
    forall i :: 0 <= i < |ts| ==> Reflects(ts[i])
  }

  /** The nodes of a view are allocated objects. */
  lemma {:induction false} NodesAllocated(t: Tree)
    ensures forall x :: x in NodesOf(t) ==> allocated(x)
    decreases t
  {
    ForestAllocated(t.kids);
  }

  lemma {:induction false} ForestAllocated(ts: seq<Tree>)
    ensures forall x :: x in ForestNodes(ts) ==> allocated(x)
    decreases ts
  {
    if ts != [] {
      ForestAllocated(ts[..|ts| - 1]);
      NodesAllocated(ts[|ts| - 1]);
    }
  }

  /** Every subtree of a view that describes the heap describes it too. */
  lemma {:induction false} SubtreeReflects(t: Tree, u: Tree)
    requires Reflects(t) && u in PreOrder(t)
    ensures Reflects(u)
    decreases t
  {
    if u != t {
      var i := ForestMember(t.kids, u);
      SubtreeReflects(t.kids[i], u);
    }
  }

  /** The heap determines the view: two views of one node that both describe the heap are equal. */
  lemma {:induction false} ReflectsUnique(t: Tree, u: Tree)
    requires Reflects(t) && Reflects(u) && t.node == u.node
    ensures t == u
    decreases t
  {
    forall i | 0 <= i < |t.kids|
      ensures t.kids[i] == u.kids[i]
    {
      ReflectsUnique(t.kids[i], u.kids[i]);
    }
    assert t.kids == u.kids;
  }

  /** No proper subtree of a view that describes the heap has the root's node. */
  lemma RootNotBelow(t: Tree, u: Tree)
    requires Reflects(t) && u in ForestPreOrder(t.kids)
    ensures u.node != t.node
  {
    ProperSubtreeSmaller(t, u);
    SubtreeReflects(t, u);
    if u.node == t.node {
      ReflectsUnique(t, u);
    }
  }

  /** The view of the well-formed subtree rooted at `n`. */
  ghost function Snap(n: Node): Tree
    reads n, n.repr
    requires n.Valid()
    decreases n.repr, |n.children| + 1
  {
    Tree(n, n.nodeType, SnapKids(n, |n.children|))
  }

  /** The views of the first `i` children of `n`. */
  ghost function SnapKids(n: Node, i: nat): (ts: seq<Tree>)
    reads n, n.repr
    requires n.Valid() && i <= |n.children|
    ensures |ts| == i
    decreases n.repr, i
  {
    if i == 0 then []
    else
      n.ChildSmaller(i - 1);
      SnapKids(n, i - 1) + [Snap(n.children[i - 1])]
  }

  /** The view of a well-formed subtree describes it and uses only its nodes. */
  lemma {:induction false} SnapReflects(n: Node)
    requires n.Valid()
    ensures Snap(n).node == n && Reflects(Snap(n)) && NodesOf(Snap(n)) <= n.repr
    decreases n.repr
  {
    var t := Snap(n);
    forall j | 0 <= j < |n.children|
      ensures t.kids[j] == Snap(n.children[j]) && Reflects(t.kids[j]) && NodesOf(t.kids[j]) <= n.repr
    {
      SnapKidAt(n, |n.children|, j);
      n.ChildSmaller(j);
      SnapReflects(n.children[j]);
    }
    ForestNodesWithin(t.kids, n.repr);
  }

  /** The `j`-th view among the first `i` children is the view of child `j`. */
  lemma {:induction false} SnapKidAt(n: Node, i: nat, j: nat)
    requires n.Valid() && j < i <= |n.children|
    ensures n.children[j].Valid() && SnapKids(n, i)[j] == Snap(n.children[j])
    decreases i
  {
    n.ChildSmaller(j);
    if j < i - 1 {
      SnapKidAt(n, i - 1, j);
    }
  }

  /** In the view of a well-formed subtree no node occurs twice, and every node is in the subtree. */
  lemma {:induction false} SnapDistinct(n: Node)
    requires n.Valid()
    ensures NoDup(NodeSeq(PreOrder(Snap(n))))
    ensures forall u :: u in PreOrder(Snap(n)) ==> u.node in n.repr
    decreases n.repr, 1
  {
    var t := Snap(n);
    SnapForestDistinct(n, |n.children|);
    DistinctStep(ForestPreOrder(t.kids), [t], {n});
  }

  /** Appending views whose nodes lie in `s` to views whose nodes avoid `s` keeps the nodes distinct. */
  lemma DistinctStep(a: seq<Tree>, b: seq<Tree>, s: set<Node>)
    requires NoDup(NodeSeq(a)) && NoDup(NodeSeq(b))
    requires forall u :: u in a ==> u.node !in s
    requires forall u :: u in b ==> u.node in s
    ensures NoDup(NodeSeq(b + a)) && NoDup(NodeSeq(a + b))
  {
    NodeSeqAppend(a, b);
    NodeSeqAppend(b, a);
    assert forall x, y :: 0 <= x < |a| && 0 <= y < |b| ==> a[x] in a && b[y] in b;
    NoDupAppend(NodeSeq(a), NodeSeq(b));
    NoDupAppend(NodeSeq(b), NodeSeq(a));
  }

  lemma {:induction false} SnapForestDistinct(n: Node, i: nat)
    requires n.Valid() && i <= |n.children|
    ensures NoDup(NodeSeq(ForestPreOrder(SnapKids(n, i))))
    ensures forall u :: u in ForestPreOrder(SnapKids(n, i)) ==>
      u.node in n.repr && u.node != n && forall j :: i <= j < |n.children| ==> u.node !in n.children[j].repr
    decreases n.repr, 0, i
  {
    if i > 0 {
      SnapForestDistinct(n, i - 1);
      n.ChildSmaller(i - 1);
      SnapDistinct(n.children[i - 1]);
      ForestDistinctStep(n, i);
    }
  }

  /** One more child's view keeps the views of the first children distinct and placed. */
  lemma ForestDistinctStep(n: Node, i: nat)
    requires n.Valid() && 0 < i <= |n.children|
    requires NoDup(NodeSeq(ForestPreOrder(SnapKids(n, i - 1))))
    requires forall u :: u in ForestPreOrder(SnapKids(n, i - 1)) ==>
      u.node in n.repr && u.node != n && forall j :: i - 1 <= j < |n.children| ==> u.node !in n.children[j].repr
    requires NoDup(NodeSeq(PreOrder(Snap(n.children[i - 1]))))
    requires forall u :: u in PreOrder(Snap(n.children[i - 1])) ==> u.node in n.children[i - 1].repr
    ensures NoDup(NodeSeq(ForestPreOrder(SnapKids(n, i))))
    ensures forall u :: u in ForestPreOrder(SnapKids(n, i)) ==>
      u.node in n.repr && u.node != n && forall j :: i <= j < |n.children| ==> u.node !in n.children[j].repr
  {
    var c := n.children[i - 1];
    n.ChildSmaller(i - 1);
    var a, b := ForestPreOrder(SnapKids(n, i - 1)), PreOrder(Snap(c));
    assert SnapKids(n, i) == SnapKids(n, i - 1) + [Snap(c)];
    ForestSingleton(SnapKids(n, i - 1), Snap(c));
    forall u | u in a
      ensures u.node !in c.repr
    {
      assert u.node !in n.children[i - 1].repr;
    }
    DistinctStep(a, b, c.repr);
    LaterSiblingsApart(n, i - 1);
    var all := ForestPreOrder(SnapKids(n, i));
    assert all == a + b;
    forall u | u in all
      ensures u.node in n.repr && u.node != n
      ensures forall j :: i <= j < |n.children| ==> u.node !in n.children[j].repr
    {
      if u !in a {
        assert u in b && u.node in c.repr;
      }
    }
  }

  /** A node below child `k` is below no later sibling. */
  lemma LaterSiblingsApart(n: Node, k: nat)
    requires n.Valid() && k < |n.children|
    ensures forall x, j :: x in n.children[k].repr && k < j < |n.children| ==> x !in n.children[j].repr
  {
    forall j | k < j < |n.children|
      ensures n.children[k].repr !! n.children[j].repr
    {
      assert n.children[j] in n.repr && n.children[k] in n.repr;
      assert n.Apart(k, j);
    }
  }

  /** Every node of a well-formed subtree appears in its view. */
  lemma {:induction false} SnapCovers(n: Node)
    requires n.Valid()
    ensures forall m :: m in n.repr ==> m in NodeSeq(PreOrder(Snap(n)))
    decreases n.repr
  {
    var t := Snap(n);
    forall m | m in n.repr
      ensures m in NodeSeq(PreOrder(t))
    {
      if m == n {
        assert NodeSeq(PreOrder(t))[0] == n;
      } else {
        var i :| 0 <= i < |n.children| && n.children[i] in n.repr && m in n.children[i].repr;
        n.ChildSmaller(i);
        SnapKidAt(n, |n.children|, i);
        SnapCovers(n.children[i]);
        var kid := t.kids[i];
        var k :| 0 <= k < |PreOrder(kid)| && PreOrder(kid)[k].node == m;
        ForestSplit(t.kids, i);
        assert PreOrder(kid)[k] in PreOrder(t);
      }
    }
  }
}
