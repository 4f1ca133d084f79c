/** The markup scanner: getAllDocuments and its recursive `traverse` closure
    (main.go:44-75). It walks a parsed page in pre-order and, for every `<a>`
    element, scans the attribute list for an `href` (the URL) and a `download`
    (the file name), emitting one Document as soon as both are non-empty. */
module Scanner {
  import opened Wrappers
  import opened Html

  /** A downloadable link: where to fetch it and the file name to save it under. */
  datatype Document = Document(url: string, filename: string)

  /** The zero value a `var doc Document` starts from. */
  const Zero := Document("", "")

  /** Only an element node whose tag is exactly "a" is scanned for attributes. */
  predicate IsAnchor(n: Node)
  {
    n.kind == ElementNode && n.data == "a"
  }

  /** Both fields filled in: the condition that appends the document and ends the scan. */
  predicate Complete(d: Document)
  {
    d.url != "" && d.filename != ""
  }

  /** One iteration of the attribute loop before its completeness test:
      `href` overwrites the URL, `download` overwrites the file name. */
  function Observe(d: Document, a: Attribute): Document
  {
    var d1 := if a.key == "href" then d.(url := a.val) else d;
    if a.key == "download" then d1.(filename := a.val) else d1
  }

  /** The attribute loop, continued from the partly filled document `d`:
      the first complete document, or None when the list runs out first. */
  function ScanAttrs(d: Document, attrs: seq<Attribute>): (r: Option<Document>)
    ensures r.Some? ==> Complete(r.value)
    // each emitted field is the partial document's or the value of one of these attributes
    ensures r.Some? ==> r.value.url == d.url || Attribute("href", r.value.url) in attrs
    ensures r.Some? ==> r.value.filename == d.filename || Attribute("download", r.value.filename) in attrs
    decreases attrs
  {
    if attrs == [] then None
    else
      var d' := Observe(d, attrs[0]);
      if Complete(d') then Some(d') else ScanAttrs(d', attrs[1..])
  }

  /** What one anchor with these attributes contributes. */
  function AnchorDoc(attrs: seq<Attribute>): (r: Option<Document>)
    ensures r.Some? ==> Complete(r.value)
    ensures r.Some? ==> Attribute("href", r.value.url) in attrs && Attribute("download", r.value.filename) in attrs
  {
    ScanAttrs(Zero, attrs)
  }

  /** What one node contributes by itself (not counting its descendants). */
  function Own(n: Node): seq<Document>
  {
    if IsAnchor(n) then ToSeq(AnchorDoc(n.attr)) else []
  }

  /** The documents `traverse(n)` appends: the node's own, then each child's in sibling order. */
  function Extract(n: Node): (r: seq<Document>)
    ensures forall d :: d in r ==> Complete(d)
    decreases n
  {
    Own(n) + ExtractAll(n.children)
  }

  /** The documents of a list of sibling subtrees, left to right. */
  function ExtractAll(ns: seq<Node>): (r: seq<Document>)
    ensures forall d :: d in r ==> Complete(d)
    decreases ns
  {
    if ns == [] then [] else ExtractAll(ns[..|ns| - 1]) + Extract(ns[|ns| - 1])
  }

  lemma ExtractAllSnoc(ns: seq<Node>, i: nat)
    requires i < |ns|
    ensures ExtractAll(ns[..i + 1]) == ExtractAll(ns[..i]) + Extract(ns[i])
  {
    assert ns[..i + 1][..i] == ns[..i];
  }

  /** The attribute loop of `traverse` (main.go:50-62), with its early `break`. */
  method ScanAnchor(attrs: seq<Attribute>) returns (r: Option<Document>)
    ensures r == AnchorDoc(attrs)
  {
    var doc := Zero;
    r := None;
    for i := 0 to |attrs|
      invariant r == None
      invariant !Complete(doc)
      invariant ScanAttrs(doc, attrs[i..]) == AnchorDoc(attrs)
    {
      assert attrs[i..][0] == attrs[i] && attrs[i..][1..] == attrs[i + 1..];
      var a := attrs[i];
      if a.key == "href" {
        doc := doc.(url := a.val);
      }
      if a.key == "download" {
        doc := doc.(filename := a.val);
      }
      if doc.url != "" && doc.filename != "" {
        r := Some(doc);
        break;
      }
    }
  }

  /** The closure `traverse` together with the slice `docs` it appends to. */
  class Collector {
    var docs: seq<Document>

    constructor ()
      ensures docs == []
    {
      docs := [];
    }

    /** main.go:48-70: scan the node if it is an anchor, then recurse into every child. */
    method Traverse(n: Node)
      modifies this
      ensures docs == old(docs) + Extract(n)
      decreases n
    {
      if IsAnchor(n) {
        var found := ScanAnchor(n.attr);
        if found.Some? {
          docs := docs + [found.value];
        }
      }
      ghost var before := old(docs) + Own(n);
      assert docs == before;
      for i := 0 to |n.children|
        invariant docs == before + ExtractAll(n.children[..i])
      {
        Traverse(n.children[i]);
        ExtractAllSnoc(n.children, i);
      }
      assert n.children[..|n.children|] == n.children;
    }
  }

  /** getAllDocuments (main.go:44-75): every document of the tree, in pre-order. */
  method GetAllDocuments(root: Node) returns (docs: seq<Document>)
    ensures docs == Extract(root)
  {
    var c := new Collector();
    c.Traverse(root);
    docs := c.docs;
  }
}
