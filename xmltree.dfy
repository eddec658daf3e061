/**
 * The compact element tree that the XML codec maps to and from text.
 * An element has its attributes (an element without attributes has an
 * empty list), an optional text child and its named children.  A name
 * that occurs once holds one element, a name that occurs several times
 * holds the list of them, just as the compact form does.
 */
module XmlTree {
  import opened Wrappers
  import opened Units

  datatype Node = Node(attrs: seq<(string, string)>, text: Option<string>, kids: seq<(string, Value)>)

  datatype Value = One(node: Node) | Many(nodes: seq<Node>)

  /** `element._attributes[name]`. */
  function Attr(n: Node, name: string): Option<string> {
    Get(n.attrs, name)
  }

  /** `element[name]`: the child value stored under a name. */
  function Kid(n: Node, name: string): Option<Value> {
    Get(n.kids, name)
  }

  /**
   * A field read through a child value: a single element yields itself;
   * a list of elements has no such field, and neither has a missing child.
   */
  function Single(v: Option<Value>): (r: Option<Node>)
    ensures r.Some? <==> v.Some? && v.value.One?
  {
    if v.Some? && v.value.One? then Some(v.value.node) else None
  }

  /** makeArray: a list stays as it is, a single element becomes a list of one. */
  function MakeArray(v: Value): (r: seq<Node>)
    ensures v.One? ==> r == [v.node]
    ensures v.Many? ==> r == v.nodes
  {
    match v
    case One(n) => [n]
    case Many(ns) => ns
  }
}
