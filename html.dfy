/** The part of a parsed HTML tree the document scanner looks at.
    The parser itself (golang.org/x/net/html) is not part of this model: a tree is taken
    as given, with the fields the scanner reads from each node. */
module Html {

  /** The scanner only tests for element nodes; every other node type
      (text, comment, document, doctype, ...) is one case here. */
  datatype NodeType = ElementNode | OtherNode

  /** One attribute of a start tag, in the order the markup gives them. */
  datatype Attribute = Attribute(key: string, val: string)

  /** A node: its type, its data (the tag name for an element), its attributes and
      its children in sibling order (FirstChild, then NextSibling, ...). */
  datatype Node = Node(kind: NodeType, data: string, attr: seq<Attribute>, children: seq<Node>)
}
