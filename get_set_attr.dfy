/** Reading and writing element attributes (src/engine/dom/shared_node/get_set_attr.rs). */
module Attributes {
  import opened Wrappers
  import opened Stylesheet
  import opened Nodes

  /** The attribute map with `key` bound to `value`, inserted or overwritten. */
  function WithAttr(e: ElementData, key: string, value: string): (r: ElementData)
    ensures r.tag == e.tag
    ensures r.attrs.Keys == e.attrs.Keys + {key}
  {
    ElementData(e.tag, e.attrs[key := value])
  }

  /** The value bound to `key`, if any. */
  function AttrOf(e: ElementData, key: string): (r: Option<string>)
    ensures r.Some? <==> key in e.attrs
    ensures r.Some? ==> r.value == e.attrs[key]
  {
    if key in e.attrs then Some(e.attrs[key]) else None
  }

  /** Reading back a key just written gives the written value; other keys read as before. */
  lemma GetAfterSet(e: ElementData, key: string, value: string, other: string)
    ensures AttrOf(WithAttr(e, key, value), key) == Some(value)
    ensures other != key ==> AttrOf(WithAttr(e, key, value), other) == AttrOf(e, other)
  {
  }

  /** A second write of the same key overwrites the first. */
  lemma SetOverwrites(e: ElementData, key: string, v1: string, v2: string)
    ensures WithAttr(WithAttr(e, key, v1), key, v2) == WithAttr(e, key, v2)
  {
  }

  /** Writes to different keys commute. */
  lemma SetCommutes(e: ElementData, k1: string, v1: string, k2: string, v2: string)
    requires k1 != k2
    ensures WithAttr(WithAttr(e, k1, v1), k2, v2) == WithAttr(WithAttr(e, k2, v2), k1, v1)
  {
  }

  /** Writing back a value already present changes nothing. */
  lemma SetPresentIsIdentity(e: ElementData, key: string)
    requires key in e.attrs
    ensures WithAttr(e, key, e.attrs[key]) == e
  {
  }

  /** Writing `id` makes it the element's id. */
  lemma SetIdGivesId(e: ElementData, value: string)
    ensures Id(WithAttr(e, "id", value)) == Some(value)
  {
  }

  /** Writing `class` as a space-separated list makes exactly those names the element's classes. */
  lemma SetClassGivesClasses(e: ElementData, names: seq<string>)
    requires |names| >= 1 && forall i :: 0 <= i < |names| ==> ' ' !in names[i]
    ensures forall c :: c in Classes(WithAttr(e, "class", JoinSpace(names))) <==> c in names
  {
    JoinSplit(names);
  }

  /** `GetSetAttr::get_attr`: attributes exist only on elements; other kinds are unreachable. */
  function GetAttr(node: Node, key: string): (r: Option<string>)
    reads node
    requires node.nodeType.Element?
    ensures r == AttrOf(node.nodeType.data, key)
  {
    AttrOf(node.nodeType.data, key)
  }

  /**
   * `GetSetAttr::set_attr`: binds `key` to `value` in an element's attribute map and changes
   * nothing else; text and comment nodes are unreachable.  Any well-formed tree stays well
   * formed, since attributes are no part of its structure.
   */
  method SetAttr(node: Node, key: string, value: string, ghost tree: Node)
    requires node.nodeType.Element?
    modifies node
    ensures node.nodeType == Element(WithAttr(old(node.nodeType.data), key, value))
    ensures GetAttr(node, key) == Some(value)
    ensures forall k :: k != key ==> GetAttr(node, k) == old(GetAttr(node, k))
    ensures node.parent == old(node.parent) && node.children == old(node.children)
    ensures node.appliedStyles == old(node.appliedStyles) && node.alive == old(node.alive)
    ensures node.repr == old(node.repr)
    ensures old(tree.Valid()) ==> tree.Valid() && tree.repr == old(tree.repr)
  {
    node.nodeType := Element(WithAttr(node.nodeType.data, key, value));
    if old(tree.Valid()) {
      StructureFrame(tree);
    }
  }
}
