/**
 * The document node (src/engine/dom/node.rs): the node-kind variant, element data,
 * simple-selector matching and the text/comment display, and the shared node handle
 * as a heap object whose children, parent link and applied styles are updated in place.
 */
module Nodes {
  import opened Wrappers
  import opened Stylesheet

  /** An element's tag and attribute map. */
  datatype ElementData = ElementData(tag: string, attrs: map<string, string>)

  datatype NodeType = Text(text: string) | Comment(comment: string) | Element(data: ElementData)

  /** A declaration applied to a node, with the fields the cascade reads. */
  datatype AppliedStyle = AppliedStyle(key: string, value: PropertyValue, origin: Origin, ruleSpecificity: Specificity)

  /** `ElementData::new`: an absent attribute map is an empty one. */
  function NewElementData(tag: string, attrs: Option<map<string, string>>): (e: ElementData)
    ensures e.tag == tag
    ensures attrs.None? ==> e.attrs == map[]
    ensures attrs.Some? ==> e.attrs == attrs.value
  {
    ElementData(tag, attrs.GetOr(map[]))
  }

  /** `ElementData::id`: the `id` attribute, if any. */
  function Id(e: ElementData): (r: Option<string>)
    ensures r.Some? <==> "id" in e.attrs
    ensures r.Some? ==> r.value == e.attrs["id"]
  {
    if "id" in e.attrs then Some(e.attrs["id"]) else None
  }

  /**
   * `str::split(" ")`: the pieces between single spaces, empty pieces included, so the
   * empty string gives one empty piece and two adjacent spaces give an empty piece.
   */
  function SplitSpace(s: string): (r: seq<string>)
    ensures |r| >= 1
    ensures forall i :: 0 <= i < |r| ==> ' ' !in r[i]
    decreases |s|
  {
    if s == [] then [""]
    else
      var rest := SplitSpace(s[1..]);
      if s[0] == ' ' then [""] + rest
      else [[s[0]] + rest[0]] + rest[1..]
  }

  /** Joins pieces with single spaces; the inverse of `SplitSpace`. */
  function JoinSpace(parts: seq<string>): string
    requires |parts| >= 1
    decreases |parts|
  {
    if |parts| == 1 then parts[0] else parts[0] + " " + JoinSpace(parts[1..])
  }

  lemma {:induction false} SplitJoin(s: string)
    ensures JoinSpace(SplitSpace(s)) == s
    decreases |s|
  {
    if s != [] {
      SplitJoin(s[1..]);
      var rest := SplitSpace(s[1..]);
      if s[0] == ' ' {
        assert ([""] + rest)[1..] == rest;
      } else {
        var r := [[s[0]] + rest[0]] + rest[1..];
        if |rest| == 1 {
          assert r == [[s[0]] + rest[0]];
        } else {
          assert r[1..] == rest[1..];
          assert JoinSpace(rest) == rest[0] + " " + JoinSpace(rest[1..]);
        }
      }
    }
  }

  lemma {:induction false} SplitPrefix(p: string, t: string)
    requires ' ' !in p
    ensures SplitSpace(p + t) == [p + SplitSpace(t)[0]] + SplitSpace(t)[1..]
    decreases |p|
  {
    if p != [] {
      assert (p + t)[1..] == p[1..] + t;
      SplitPrefix(p[1..], t);
      assert [p[0]] + (p[1..] + SplitSpace(t)[0]) == p + SplitSpace(t)[0];
    } else {
      var r := SplitSpace(t);
      assert p + t == t;
      assert p + r[0] == r[0];
      assert [r[0]] + r[1..] == r;
    }
  }

  lemma {:induction false} JoinSplit(parts: seq<string>)
    requires |parts| >= 1
    requires forall i :: 0 <= i < |parts| ==> ' ' !in parts[i]
    ensures SplitSpace(JoinSpace(parts)) == parts
    decreases |parts|
  {
    if |parts| == 1 {
      SplitPrefix(parts[0], "");
      assert parts[0] + "" == parts[0];
    } else {
      var tail := parts[1..];
      var j := JoinSpace(tail);
      JoinSplit(tail);
      var rest := " " + j;
      assert JoinSpace(parts) == parts[0] + rest;
      SplitPrefix(parts[0], rest);
      assert rest[0] == ' ' && rest[1..] == j;
      var split := SplitSpace(rest);
      assert split == [""] + tail;
      assert split[0] == "" && split[1..] == tail;
      assert parts[0] + "" == parts[0];
      assert parts == [parts[0]] + tail;
    }
  }

  /** `ElementData::classes`: the set of pieces of the `class` attribute, empty without one. */
  function Classes(e: ElementData): (r: set<string>)
    ensures "class" !in e.attrs ==> r == {}
    ensures "class" in e.attrs ==> forall c :: c in r <==> c in SplitSpace(e.attrs["class"])
  {
    if "class" in e.attrs then (set c | c in SplitSpace(e.attrs["class"])) else {}
  }

  /** `ElementData::matches_selector`: id, tag and every class must agree where the selector names them. */
  predicate MatchesSelector(e: ElementData, s: Selector) {
    var idOk := s.id.None? || s.id == Id(e);
    var tagOk := s.tagName.None? || s.tagName == Some(e.tag);
    var classesOk := forall c :: c in s.classes ==> c in Classes(e);
    idOk && tagOk && classesOk
  }

  /** A selector naming nothing matches every element. */
  lemma EmptySelectorMatchesAll(e: ElementData)
    ensures MatchesSelector(e, Selector(None, None, []))
  {
  }

  /**
   * With the `class` attribute written as space-separated names, a selector's classes are
   * satisfied exactly when each of them is one of those names.
   */
  lemma MatchesWithClassList(e: ElementData, s: Selector, names: seq<string>)
    requires |names| >= 1 && forall i :: 0 <= i < |names| ==> ' ' !in names[i]
    requires "class" in e.attrs && e.attrs["class"] == JoinSpace(names)
    ensures MatchesSelector(e, s) <==>
      && (s.id.Some? ==> "id" in e.attrs && e.attrs["id"] == s.id.value)
      && (s.tagName.Some? ==> s.tagName.value == e.tag)
      && (forall c :: c in s.classes ==> c in names)
  {
    JoinSplit(names);
  }

  /** An element without a `class` attribute matches exactly the selectors without classes whose id and tag agree. */
  lemma NoClassAttribute(e: ElementData, s: Selector)
    requires "class" !in e.attrs
    ensures MatchesSelector(e, s) <==>
      && (s.id.Some? ==> "id" in e.attrs && e.attrs["id"] == s.id.value)
      && (s.tagName.Some? ==> s.tagName.value == e.tag)
      && s.classes == []
  {
    if s.classes != [] {
      var c := s.classes[0];
      assert c in s.classes && c !in Classes(e);
    }
  }

  /** Repeating or reordering a selector's classes does not change whether it matches. */
  lemma ClassOrderIrrelevant(e: ElementData, s: Selector, t: Selector)
    requires s.id == t.id && s.tagName == t.tagName
    requires forall c :: c in s.classes <==> c in t.classes
    ensures MatchesSelector(e, s) == MatchesSelector(e, t)
  {
  }

  /** The `h1` with classes "yellow red pink" and id "ooo" from the source's unit test. */
  function OracleElement(): ElementData {
    ElementData("h1", map["class" := "yellow red pink", "id" := "ooo"])
  }

  lemma OracleClasses()
    ensures Id(OracleElement()) == Some("ooo")
    ensures forall c :: c in Classes(OracleElement()) <==> c == "yellow" || c == "red" || c == "pink"
  {
    var names := ["yellow", "red", "pink"];
    OracleNames();
    ClassesOfJoin(OracleElement(), names);
    forall c
      ensures c in names <==> c == "yellow" || c == "red" || c == "pink"
    {
      assert c in names <==> c == names[0] || c == names[1] || c == names[2];
    }
  }

  /** The class set of `class="a b c"` holds exactly the listed names. */
  lemma ClassesOfJoin(e: ElementData, names: seq<string>)
    requires |names| >= 1 && forall i :: 0 <= i < |names| ==> ' ' !in names[i]
    requires "class" in e.attrs && e.attrs["class"] == JoinSpace(names)
    ensures forall c :: c in Classes(e) <==> c in names
  {
    JoinSplit(names);
  }

  lemma OracleNames()
    ensures JoinSpace(["yellow", "red", "pink"]) == "yellow red pink"
    ensures forall i :: 0 <= i < 3 ==> ' ' !in ["yellow", "red", "pink"][i]
  {
    var names := ["yellow", "red", "pink"];
    assert names[1..] == ["red", "pink"] && names[2..] == ["pink"];
    assert JoinSpace(["pink"]) == "pink";
    assert JoinSpace(["red", "pink"]) == "red pink";
  }

  /** The selectors the source's unit test expects to match. */
  lemma SelectorOracleMatches()
    ensures MatchesSelector(OracleElement(), Selector(None, None, []))
    ensures MatchesSelector(OracleElement(), Selector(None, Some("h1"), []))
    ensures MatchesSelector(OracleElement(), Selector(Some("ooo"), None, []))
    ensures MatchesSelector(OracleElement(), Selector(Some("ooo"), Some("h1"), []))
    ensures MatchesSelector(OracleElement(), Selector(None, None, ["yellow"]))
    ensures MatchesSelector(OracleElement(), Selector(None, Some("h1"), ["yellow"]))
    ensures MatchesSelector(OracleElement(), Selector(None, None, ["yellow", "pink"]))
    ensures MatchesSelector(OracleElement(), Selector(None, None, ["yellow", "pink", "red"]))
    ensures MatchesSelector(OracleElement(), Selector(None, None, ["yellow", "pink", "red", "pink", "pink"]))
  {
    OracleClasses();
  }

  /** The selectors the source's unit test expects not to match. */
  lemma SelectorOracleMismatches()
    ensures !MatchesSelector(OracleElement(), Selector(Some("iowjefoijweijf"), Some("h1"), ["yellow"]))
    ensures !MatchesSelector(OracleElement(), Selector(None, Some("h2"), ["yellow"]))
    ensures !MatchesSelector(OracleElement(), Selector(None, Some("pink"), ["red", "yellow", "blue"]))
  {
    OracleClasses();
    assert "pink" != "h1";
  }

  /** The first `n` characters, or all of them when there are fewer. */
  function Take(s: string, n: nat): (r: string)
    ensures |r| == if |s| <= n then |s| else n
    ensures r <= s
  {
    if |s| <= n then s else s[..n]
  }

  /** `Display` of a text or comment node; element display is not modelled. */
  function NodeDisplay(t: NodeType): string
    requires !t.Element?
  {
    match t
    case Text(text) => "\"" + Take(text, 24) + "\""
    case Comment(comment) => "<!-- " + Take(comment, 24) + " -->"
  }

  /** Stripping the delimiters from a display gives back the first 24 characters. */
  lemma DisplayKeepsPrefix(t: NodeType)
    requires !t.Element?
    ensures t.Text? ==>
      var d := NodeDisplay(t);
      |d| == |Take(t.text, 24)| + 2 && d[0] == '"' && d[|d| - 1] == '"' && d[1..|d| - 1] == Take(t.text, 24)
    ensures t.Comment? ==>
      var d := NodeDisplay(t);
      |d| == |Take(t.comment, 24)| + 9 && d[..5] == "<!-- " && d[|d| - 4..] == " -->"
      && d[5..|d| - 4] == Take(t.comment, 24)
  {
  }

  /** Text of at most 24 characters is shown in full. */
  lemma DisplayShortInFull(a: string)
    requires |a| <= 24
    ensures NodeDisplay(Text(a)) == "\"" + a + "\""
    ensures NodeDisplay(Comment(a)) == "<!-- " + a + " -->"
  {
  }

  /** Beyond 24 characters only the first 24 matter, and the display has a fixed length. */
  lemma DisplayTruncates(a: string, b: string)
    requires |a| >= 24 && |b| >= 24 && a[..24] == b[..24]
    ensures NodeDisplay(Text(a)) == NodeDisplay(Text(b))
    ensures NodeDisplay(Comment(a)) == NodeDisplay(Comment(b))
    ensures |NodeDisplay(Text(a))| == 26 && |NodeDisplay(Comment(a))| == 33
  {
    assert Take(a, 24) == a[..24] == Take(b, 24);
  }

  /**
   * A node behind a shared handle.  `alive` says whether some strong handle still holds
   * the node, which decides whether a weak parent link can be upgraded; `repr` is the set
   * of nodes of the subtree rooted here.
   */
  class Node {
    var nodeType: NodeType
    var parent: Node?
    var children: seq<Node>
    var appliedStyles: seq<AppliedStyle>
    var alive: bool
    ghost var repr: set<Node>

    /** `Node::new` followed by `into_shared`: an orphaned, childless node. */
    constructor (nodeType: NodeType)
      ensures this.nodeType == nodeType && parent == null && children == [] && appliedStyles == []
      ensures alive && repr == {this} && Valid()
    {
      this.nodeType := nodeType;
      parent := null;
      children := [];
      appliedStyles := [];
      alive := true;
      repr := {this};
    }

    /** The footprint holds this node and the footprint of each of its nodes. */
    ghost predicate Closed()
      reads this, repr
    {
      this in repr && forall m {:trigger m in repr} :: m in repr ==> m.repr <= repr
    }

    /** Each child lies in the footprint, is held, points back here and does not contain this node. */
    ghost predicate ChildrenLinked()
      reads this, repr
    {
      forall i :: 0 <= i < |children| ==>
        children[i] in repr && this !in children[i].repr && children[i].parent == this && children[i].alive
    }

    /** Children `i` and `j` have disjoint subtrees. */
    ghost predicate Apart(i: int, j: int)
      reads this, repr
      requires 0 <= i < |children| && 0 <= j < |children| && children[i] in repr && children[j] in repr
    {
      children[i].repr !! children[j].repr
    }

    /** Sibling subtrees are disjoint. */
    ghost predicate SiblingsDisjoint()
      reads this, repr
    {
      forall i, j {:trigger Apart(i, j)} :: 0 <= i < j < |children| && children[i] in repr && children[j] in repr ==>
        Apart(i, j)
    }

    /** The footprint is this node and its children's footprints. */
    ghost predicate Covered()
      reads this, repr
    {
      forall m :: m in repr && m != this ==>
        exists i :: 0 <= i < |children| && children[i] in repr && m in children[i].repr
    }

    /** The conditions on this one node. */
    ghost predicate LocalValid()
      reads this, repr
    {
      Closed() && ChildrenLinked() && SiblingsDisjoint() && Covered()
    }

    /** A well-formed, acyclic subtree: every node of the footprint satisfies `LocalValid`. */
    ghost predicate Valid()
      reads this, repr
    {
      LocalValid() && forall m {:trigger m.LocalValid()} :: m in repr ==> m.LocalValid()
    }

    /** Every node of a well-formed subtree roots a well-formed subtree. */
    lemma SubtreeValid(m: Node)
      requires Valid() && m in repr
      ensures m.Valid() && m.repr <= repr
    {
    }

    /** A child's subtree is strictly smaller and excludes this node. */
    lemma ChildSmaller(i: nat)
      requires Valid() && i < |children|
      ensures children[i].Valid() && children[i].repr < repr && this !in children[i].repr
    {
      SubtreeValid(children[i]);
    }

    /** Below this node, no subtree contains this node: the structure is acyclic. */
    lemma Acyclic(m: Node)
      requires Valid() && m in repr && m != this
      ensures this !in m.repr && m.repr < repr
    {
      var i :| 0 <= i < |children| && m in children[i].repr;
      SubtreeValid(children[i]);
    }
  }

  /** `m` is an element matching `s`. */
  predicate IsMatch(m: Node, s: Selector)
    reads m
  {
    m.nodeType.Element? && MatchesSelector(m.nodeType.data, s)
  }

  /** The fields of the source's `Node` are as they were. */
  twostate predicate DataUnchanged(m: Node)
    reads m
  {
    && m.nodeType == old(m.nodeType) && m.parent == old(m.parent) && m.children == old(m.children)
    && m.appliedStyles == old(m.appliedStyles) && m.alive == old(m.alive)
  }

  /** The structural fields of every node of `m`'s footprint are as they were. */
  twostate predicate StructureUnchanged(s: set<Node>)
    reads s
  {
    forall o :: o in s ==>
      o.children == old(o.children) && o.parent == old(o.parent) && o.alive == old(o.alive) && o.repr == old(o.repr)
  }

  /** A node's local conditions depend only on the structural fields of its footprint. */
  twostate lemma LocalValidFrame(m: Node)
    requires old(m.LocalValid())
    requires forall o :: o in old(m.repr) ==>
      o.children == old(o.children) && o.alive == old(o.alive) && o.repr == old(o.repr)
    requires forall o :: o in old(m.repr) && o != m ==> o.parent == old(o.parent)
    ensures m.LocalValid()
  {
    assert m.repr == old(m.repr);
    assert m.Closed() by {
      forall o | o in m.repr
        ensures o.repr <= m.repr
      {
        assert old(o.repr <= m.repr);
      }
    }
    assert m.ChildrenLinked() by {
      forall i | 0 <= i < |m.children|
        ensures m.children[i] in m.repr && m !in m.children[i].repr
        ensures m.children[i].parent == m && m.children[i].alive
      {
        assert old(m.children[i] in m.repr);
      }
    }
    assert m.SiblingsDisjoint() by {
      forall i, j | 0 <= i < j < |m.children| && m.children[i] in m.repr && m.children[j] in m.repr
        ensures m.Apart(i, j)
      {
        assert old(m.children[i] in m.repr && m.children[j] in m.repr && m.Apart(i, j));
      }
    }
    assert m.Covered() by {
      forall o | o in m.repr && o != m
        ensures exists i :: 0 <= i < |m.children| && m.children[i] in m.repr && o in m.children[i].repr
      {
        var i :| 0 <= i < |m.children| && old(m.children[i] in m.repr && o in m.children[i].repr);
        assert m.children[i] in m.repr && o in m.children[i].repr;
      }
    }
  }

  /** Well-formedness depends only on children, parent links, liveness and footprints. */
  twostate lemma StructureFrame(t: Node)
    requires old(t.Valid())
    requires StructureUnchanged(old(t.repr))
    ensures t.Valid() && t.repr == old(t.repr)
  {
    forall m | m in t.repr
      ensures m.LocalValid()
    {
      assert old(m.LocalValid() && m.repr <= t.repr);
      LocalValidFrame(m);
    }
  }
}
