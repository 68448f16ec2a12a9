/** The document tree: elements with the attributes "name" (empty when missing) and "type", and texts. */
module Dom {
  /** The type that a "type" attribute names; `NoType` when it is missing or names none. */
  datatype TypeName =
    | NoType | BoolType | IntType | UIntType | LongLongType | ULongLongType | StringType
    | StringListType | ByteArrayType | MapType | OtherType(name: string)
  {
    predicate Scalar() {
      BoolType? || IntType? || UIntType? || LongLongType? || ULongLongType? || StringType?
    }
  }

  datatype Node = Text(data: string) | Element(tag: string, name: string, typ: TypeName, kids: seq<Node>)

  /** `QDomElement::text()`: all the text below the nodes. */
  function TextOf(nodes: seq<Node>): string {
    if nodes == [] then []
    else (if nodes[0].Text? then nodes[0].data else TextOf(nodes[0].kids)) + TextOf(nodes[1..])
  }

  /** `elementsByTagName`: the matching elements below, at any depth, in document order. */
  function ByTag(nodes: seq<Node>, tag: string): (r: seq<Node>)
    ensures forall e <- r :: e.Element? && e.tag == tag
    decreases nodes, 0
  {
    if nodes == [] then [] else ByTagAt(nodes[0], tag) + ByTag(nodes[1..], tag)
  }

  function ByTagAt(node: Node, tag: string): (r: seq<Node>)
    ensures forall e <- r :: e.Element? && e.tag == tag
    decreases node, 1
  {
    if node.Text? then [] else (if node.tag == tag then [node] else []) + ByTag(node.kids, tag)
  }

  /** The node is one of these, or below one of them. */
  ghost predicate Below(node: Node, nodes: seq<Node>)
    decreases nodes, 0
  {
    nodes != [] && (node == nodes[0] || (nodes[0].Element? && Below(node, nodes[0].kids)) || Below(node, nodes[1..]))
  }

  /** The search finds the elements with the tag at every depth, and nothing else. */
  lemma {:induction false} ByTagFindsAll(nodes: seq<Node>, tag: string, node: Node)
    ensures node in ByTag(nodes, tag) <==> Below(node, nodes) && node.Element? && node.tag == tag
    decreases nodes, 0
  {
    if nodes != [] {
      ByTagAtFindsAll(nodes[0], tag, node);
      ByTagFindsAll(nodes[1..], tag, node);
    }
  }

  lemma {:induction false} ByTagAtFindsAll(top: Node, tag: string, node: Node)
    ensures node in ByTagAt(top, tag)
       <==> (node == top || (top.Element? && Below(node, top.kids))) && node.Element? && node.tag == tag
    decreases top, 1
  {
    if top.Element? {
      ByTagFindsAll(top.kids, tag, node);
    }
  }

  /** The text of nodes is the texts below them in document order, whatever elements they are in. */
  lemma {:induction false} TextOfParts(a: seq<Node>, b: seq<Node>, top: Node)
    ensures TextOf(a + b) == TextOf(a) + TextOf(b)
    ensures TextOf([top]) == if top.Text? then top.data else TextOf(top.kids)
    decreases a
  {
    assert [top][1..] == [];
    if a == [] {
      assert a + b == b;
    } else {
      TextOfParts(a[1..], b, top);
      assert (a + b)[0] == a[0] && (a + b)[1..] == a[1..] + b;
    }
  }
}
