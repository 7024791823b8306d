/**
 * The slice of an lxml tree that the scripts touch: elements with their
 * source line, comments and text, the `find`/`findall`/`.text` queries, a
 * serialisation that keeps the line structure of `etree.tostring`, and an
 * element whose child list is changed in place by `remove` and `append`.
 */
module Xml {
  import opened Wrappers
  import opened Strings
  import opened Seqs

  /** A node of the tree. `id` stands for the identity of the node object:
      two nodes of one tree never share it, so a child list is Distinct.
      Adjacent text is merged into a single `Text` node, as lxml keeps it
      in one `.text` or `.tail`, so no two `Text` children are adjacent. */
  datatype Node =
    | Element(id: nat, line: nat, tag: string, children: seq<Node>)
    | Comment(id: nat, text: string)
    | Text(id: nat, value: string)

  function Tagged(tag: string): Node -> bool {
    (n: Node) => n.Element? && n.tag == tag
  }

  /** `n.findall(tag)` and `n.xpath("./tag")`: the child elements named `tag`. */
  function FindAll(n: Node, tag: string): seq<Node> {
    if n.Element? then Filter(n.children, Tagged(tag)) else []
  }

  /** `n.find(tag)`: the first child element named `tag`, or `None`. */
  function Find(n: Node, tag: string): Option<Node> {
    if n.Element? then FirstTagged(n.children, tag) else None
  }

  function FirstTagged(children: seq<Node>, tag: string): Option<Node> {
    if children == [] then None
    else if children[0].Element? && children[0].tag == tag then Some(children[0])
    else FirstTagged(children[1..], tag)
  }

  /** `find` returns the head of what `findall` returns. */
  lemma {:induction false} FindIsFirst(n: Node, tag: string)
    ensures Find(n, tag) == if FindAll(n, tag) == [] then None else Some(FindAll(n, tag)[0])
  {
    if n.Element? {
      FirstTaggedIsFirst(n.children, tag);
    }
  }

  lemma {:induction false} FirstTaggedIsFirst(children: seq<Node>, tag: string)
    ensures var all := Filter(children, Tagged(tag));
      FirstTagged(children, tag) == if all == [] then None else Some(all[0])
  {
    if children != [] {
      FirstTaggedIsFirst(children[1..], tag);
    }
  }

  /** `n.find("outer/inner")`: the first `inner` child of any `outer` child,
      in document order. */
  function FindPath(n: Node, outer: string, inner: string): Option<Node> {
    if n.Element? then FirstPathIn(n.children, outer, inner) else None
  }

  function FirstPathIn(children: seq<Node>, outer: string, inner: string): Option<Node> {
    if children == [] then None
    else if children[0].Element? && children[0].tag == outer && Find(children[0], inner).Some? then Find(children[0], inner)
    else FirstPathIn(children[1..], outer, inner)
  }

  /** A path found under `outer` means an `outer` child exists. */
  lemma {:induction false} FindPathNeedsOuter(n: Node, outer: string, inner: string)
    ensures FindPath(n, outer, inner).Some? ==> Find(n, outer).Some?
  {
    if n.Element? {
      FirstPathNeedsOuter(n.children, outer, inner);
    }
  }

  lemma {:induction false} FirstPathNeedsOuter(children: seq<Node>, outer: string, inner: string)
    ensures FirstPathIn(children, outer, inner).Some? ==> FirstTagged(children, outer).Some?
  {
    if children != [] {
      FirstPathNeedsOuter(children[1..], outer, inner);
    }
  }

  /** lxml keeps no empty text; an empty `Text` value stands for no text. */
  predicate IsText(n: Node) {
    n.Text? && n.value != ""
  }

  /** `n.text`: the text before the first child node, or `None`. */
  function TextOf(n: Node): Option<string> {
    if n.Element? && n.children != [] && IsText(n.children[0]) then Some(n.children[0].value)
    else None
  }

  /** `n.xpath("text()")`: the values of the text children, in order. */
  function TextNodes(children: seq<Node>): seq<string> {
    if children == [] then []
    else (if IsText(children[0]) then [children[0].value] else []) + TextNodes(children[1..])
  }

  /** `etree.tostring(n)` without the tail: attributes and escaping are not
      modelled; neither adds a line break, so the line structure is kept. */
  function Serialise(n: Node): string
    decreases n
  {
    match n
    case Element(_, _, tag, children) =>
      if children == [] then "<" + tag + "/>"
      else "<" + tag + ">" + SerialiseAll(children) + "</" + tag + ">"
    case Comment(_, text) => "<!--" + text + "-->"
    case Text(_, value) => value
  }

  function SerialiseAll(ns: seq<Node>): string
    decreases ns
  {
    if ns == [] then "" else Serialise(ns[0]) + SerialiseAll(ns[1..])
  }

  /** An element whose child list the scripts rewrite in place. */
  class XmlElement {
    const tag: string
    var children: seq<Node>

    /** Each child object is in the list once. */
    ghost predicate Valid()
      reads this
    {
      Distinct(children)
    }

    constructor (tag: string, children: seq<Node>)
      requires Distinct(children)
      ensures Valid() && this.tag == tag && this.children == children
    {
      this.tag := tag;
      this.children := children;
    }

    /** `element.remove(n)`; lxml raises ValueError for a node that is not a child. */
    method Remove(n: Node)
      requires Valid() && n in children
      modifies this
      ensures Valid()
      ensures children == Seqs.Remove(old(children), n)
      ensures n !in children
    {
      RemoveDistinct(children, n);
      RemoveLeavesNone(children, n);
      children := Seqs.Remove(children, n);
    }

    /** `element.append(n)`: a node that is already a child moves to the end. */
    method Append(n: Node)
      requires Valid()
      modifies this
      ensures Valid()
      ensures children == Seqs.Remove(old(children), n) + [n]
    {
      RemoveDistinct(children, n);
      RemoveLeavesNone(children, n);
      var rest := Seqs.Remove(children, n);
      assert Distinct(rest + [n]) by {
        forall i, j | 0 <= i < j < |rest + [n]| ensures (rest + [n])[i] != (rest + [n])[j] {
          if j == |rest| {
            assert (rest + [n])[i] in rest;
          }
        }
      }
      children := rest + [n];
    }
  }
}
