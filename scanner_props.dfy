/** Properties of the markup scanner (main.go:44-75), each proved against an
    independent description of what the walk and the attribute loop compute. */
module ScannerProperties {
  import opened Wrappers
  import opened Html
  import opened Scanner

  // ---------------------------------------------------------------------------
  // The attribute loop, described by prefixes instead of by steps
  // ---------------------------------------------------------------------------

  /** The value of the last attribute named `key`, or "" when there is none:
      what a field of `doc` holds after the loop has seen `attrs`. */
  function LastValue(attrs: seq<Attribute>, key: string): (r: string)
    ensures r == "" || Attribute(key, r) in attrs
    ensures (exists a :: a in attrs && a.key == key) ==> Attribute(key, r) in attrs
  {
    if attrs == [] then ""
    else if attrs[|attrs| - 1].key == key then attrs[|attrs| - 1].val
    else LastValue(attrs[..|attrs| - 1], key)
  }

  /** The partly filled document after the loop has seen the attributes `p`. */
  function StateAfter(p: seq<Attribute>): Document
  {
    Document(LastValue(p, "href"), LastValue(p, "download"))
  }

  /** The first `n` attributes already supply a non-empty URL and file name. */
  predicate CompleteAt(attrs: seq<Attribute>, n: nat)
    requires n <= |attrs|
  {
    Complete(StateAfter(attrs[..n]))
  }

  /** The last attribute with the key wins. */
  lemma {:induction false} LastValueIsLast(attrs: seq<Attribute>, key: string, i: nat)
    requires i < |attrs| && attrs[i].key == key
    requires forall j :: i < j < |attrs| ==> attrs[j].key != key
    ensures LastValue(attrs, key) == attrs[i].val
  {
    var k := |attrs| - 1;
    if i < k {
      assert attrs[k].key != key;
      LastValueIsLast(attrs[..k], key, i);
    }
  }

  lemma ObserveStep(p: seq<Attribute>, a: Attribute)
    ensures Observe(StateAfter(p), a) == StateAfter(p + [a])
  {
    assert (p + [a])[..|p|] == p;
  }

  /** While no prefix up to `i` is complete, the loop is exactly at StateAfter(attrs[..i]). */
  lemma {:induction false} ScanFrom(attrs: seq<Attribute>, i: nat)
    requires i <= |attrs|
    requires forall m :: 1 <= m <= i ==> !CompleteAt(attrs, m)
    ensures AnchorDoc(attrs) == ScanAttrs(StateAfter(attrs[..i]), attrs[i..])
  {
    if i == 0 {
      assert attrs[..0] == [] && attrs[0..] == attrs;
    } else {
      ScanFrom(attrs, i - 1);
      var p := attrs[..i - 1];
      ObserveStep(p, attrs[i - 1]);
      assert p + [attrs[i - 1]] == attrs[..i];
      assert !CompleteAt(attrs, i);
      assert attrs[i - 1..][0] == attrs[i - 1] && attrs[i - 1..][1..] == attrs[i..];
    }
  }

  /** The anchor yields the document the loop holds at the first complete prefix:
      the last `href` and the last `download` among the first `n` attributes. */
  lemma AnchorDocFirstComplete(attrs: seq<Attribute>, n: nat)
    requires 1 <= n <= |attrs| && CompleteAt(attrs, n)
    requires forall m :: 1 <= m < n ==> !CompleteAt(attrs, m)
    ensures AnchorDoc(attrs) == Some(StateAfter(attrs[..n]))
  {
    ScanFrom(attrs, n - 1);
    ObserveStep(attrs[..n - 1], attrs[n - 1]);
    assert attrs[..n - 1] + [attrs[n - 1]] == attrs[..n];
    assert attrs[n - 1..][0] == attrs[n - 1];
  }

  lemma {:induction false} NoneHasNoCompletePrefix(attrs: seq<Attribute>, n: nat)
    requires AnchorDoc(attrs).None? && 1 <= n <= |attrs|
    ensures !CompleteAt(attrs, n)
    decreases n
  {
    forall m | 1 <= m < n
      ensures !CompleteAt(attrs, m)
    {
      NoneHasNoCompletePrefix(attrs, m);
    }
    if CompleteAt(attrs, n) {
      AnchorDocFirstComplete(attrs, n);
    }
  }

  /** An anchor contributes nothing exactly when no prefix of its attributes
      supplies both a non-empty URL and a non-empty file name. */
  lemma AnchorDocNoneIff(attrs: seq<Attribute>)
    ensures AnchorDoc(attrs).None? <==> forall n :: 1 <= n <= |attrs| ==> !CompleteAt(attrs, n)
  {
    if AnchorDoc(attrs).None? {
      forall n | 1 <= n <= |attrs|
        ensures !CompleteAt(attrs, n)
      {
        NoneHasNoCompletePrefix(attrs, n);
      }
    }
    if forall n :: 1 <= n <= |attrs| ==> !CompleteAt(attrs, n) {
      ScanFrom(attrs, |attrs|);
      assert attrs[|attrs|..] == [];
    }
  }

  lemma {:induction false} ScanAttrsExtend(d: Document, attrs: seq<Attribute>, rest: seq<Attribute>)
    requires ScanAttrs(d, attrs).Some?
    ensures ScanAttrs(d, attrs + rest) == ScanAttrs(d, attrs)
    decreases attrs
  {
    assert (attrs + rest)[0] == attrs[0];
    var d' := Observe(d, attrs[0]);
    if !Complete(d') {
      assert (attrs + rest)[1..] == attrs[1..] + rest;
      ScanAttrsExtend(d', attrs[1..], rest);
    }
  }

  /** Attributes after the point where the scan breaks are ignored. */
  lemma AnchorDocIgnoresLaterAttributes(attrs: seq<Attribute>, rest: seq<Attribute>)
    requires AnchorDoc(attrs).Some?
    ensures AnchorDoc(attrs + rest) == AnchorDoc(attrs)
  {
    ScanAttrsExtend(Zero, attrs, rest);
  }

  /** An anchor whose `href` or whose `download` is absent or only ever empty contributes nothing. */
  lemma MissingAttributeContributesNothing(attrs: seq<Attribute>)
    requires (forall a | a in attrs && a.key == "href" :: a.val == "") ||
             (forall a | a in attrs && a.key == "download" :: a.val == "")
    ensures AnchorDoc(attrs) == None
  {
  }

  /** An anchor carrying one non-empty URL and one non-empty file name (each possibly
      repeated with the same value) contributes exactly that document. */
  lemma WellFormedAnchor(attrs: seq<Attribute>, url: string, filename: string)
    requires url != "" && filename != ""
    requires Attribute("href", url) in attrs && Attribute("download", filename) in attrs
    requires forall a | a in attrs && a.key == "href" :: a.val == url
    requires forall a | a in attrs && a.key == "download" :: a.val == filename
    ensures AnchorDoc(attrs) == Some(Document(url, filename))
  {
    assert attrs[..|attrs|] == attrs;
    assert CompleteAt(attrs, |attrs|);
    AnchorDocNoneIff(attrs);
  }

  // ---------------------------------------------------------------------------
  // The walk, described as a pre-order listing of nodes
  // ---------------------------------------------------------------------------

  /** The nodes of a tree in pre-order: a node before its children, children left to right. */
  function PreOrder(n: Node): seq<Node>
    decreases n
  {
    [n] + PreOrderAll(n.children)
  }

  function PreOrderAll(ns: seq<Node>): seq<Node>
    decreases ns
  {
    if ns == [] then [] else PreOrderAll(ns[..|ns| - 1]) + PreOrder(ns[|ns| - 1])
  }

  lemma {:induction false} PreOrderAllAppend(a: seq<Node>, b: seq<Node>)
    ensures PreOrderAll(a + b) == PreOrderAll(a) + PreOrderAll(b)
    decreases |b|
  {
    if b == [] {
      assert a + b == a;
    } else {
      var k := |b| - 1;
      assert (a + b)[..|a + b| - 1] == a + b[..k];
      PreOrderAllAppend(a, b[..k]);
    }
  }

  /** Siblings are listed left to right, each child's whole subtree in one block:
      the listing of child `i` follows those of the children before it and
      precedes those of the children after it. */
  lemma {:induction false} SiblingsInOrder(ns: seq<Node>, i: nat)
    requires i < |ns|
    ensures PreOrderAll(ns) == PreOrderAll(ns[..i]) + PreOrder(ns[i]) + PreOrderAll(ns[i + 1..])
  {
    var front, back := ns[..i + 1], ns[i + 1..];
    assert front[..i] == ns[..i];
    calc {
      PreOrderAll(ns);
      { assert ns == front + back; }
      PreOrderAll(front + back);
      { PreOrderAllAppend(front, back); }
      PreOrderAll(front) + PreOrderAll(back);
      PreOrderAll(ns[..i]) + PreOrder(ns[i]) + PreOrderAll(back);
    }
  }

  /** The contributions of a flat list of nodes, each scanned on its own. */
  function Collect(ns: seq<Node>): seq<Document>
  {
    if ns == [] then [] else Collect(ns[..|ns| - 1]) + Own(ns[|ns| - 1])
  }

  /** How many anchor elements a list of nodes holds. */
  function CountAnchors(ns: seq<Node>): nat
  {
    if ns == [] then 0
    else CountAnchors(ns[..|ns| - 1]) + (if IsAnchor(ns[|ns| - 1]) then 1 else 0)
  }

  lemma {:induction false} CollectAppend(a: seq<Node>, b: seq<Node>)
    ensures Collect(a + b) == Collect(a) + Collect(b)
    decreases |b|
  {
    if b == [] {
      assert a + b == a;
    } else {
      var k := |b| - 1;
      assert (a + b)[..|a + b| - 1] == a + b[..k];
      CollectAppend(a, b[..k]);
    }
  }

  /** The walk emits exactly the per-node contributions, listed in pre-order. */
  lemma {:induction false} ExtractIsPreOrder(n: Node)
    ensures Extract(n) == Collect(PreOrder(n))
    decreases n
  {
    ExtractAllIsPreOrder(n.children);
    CollectAppend([n], PreOrderAll(n.children));
    assert Collect([n]) == Own(n) by {
      assert [n][..0] == [];
    }
  }

  lemma {:induction false} ExtractAllIsPreOrder(ns: seq<Node>)
    ensures ExtractAll(ns) == Collect(PreOrderAll(ns))
    decreases ns
  {
    if ns != [] {
      var k := |ns| - 1;
      ExtractAllIsPreOrder(ns[..k]);
      ExtractIsPreOrder(ns[k]);
      CollectAppend(PreOrderAll(ns[..k]), PreOrder(ns[k]));
    }
  }

  /** Each node contributes at most one document, and only an anchor contributes. */
  lemma {:induction false} CollectAtMostOnePerAnchor(ns: seq<Node>)
    ensures |Collect(ns)| <= CountAnchors(ns)
  {
    if ns != [] {
      CollectAtMostOnePerAnchor(ns[..|ns| - 1]);
    }
  }

  /** A document is collected exactly when some anchor in the list yields it. */
  lemma {:induction false} CollectMember(ns: seq<Node>, d: Document)
    ensures d in Collect(ns) <==> exists m :: m in ns && IsAnchor(m) && AnchorDoc(m.attr) == Some(d)
  {
    if ns != [] {
      var k := |ns| - 1;
      CollectMember(ns[..k], d);
      assert ns == ns[..k] + [ns[k]];
      if d in Collect(ns) && d !in Collect(ns[..k]) {
        assert IsAnchor(ns[k]) && AnchorDoc(ns[k].attr) == Some(d);
      }
      if exists m :: m in ns && IsAnchor(m) && AnchorDoc(m.attr) == Some(d) {
        var m :| m in ns && IsAnchor(m) && AnchorDoc(m.attr) == Some(d);
        if m !in ns[..k] {
          assert m == ns[k];
          assert Own(m) == [d];
        }
      }
    }
  }

  /** The walk emits no more documents than the tree has `<a>` elements. */
  lemma AtMostOneDocumentPerAnchor(root: Node)
    ensures |Extract(root)| <= CountAnchors(PreOrder(root))
  {
    ExtractIsPreOrder(root);
    CollectAtMostOnePerAnchor(PreOrder(root));
  }

  /** Every emitted document comes from an `<a>` element of the tree, carries a
      non-empty URL and file name, and every anchor that yields one is emitted. */
  lemma ExtractedDocuments(root: Node, d: Document)
    ensures d in Extract(root) <==>
      exists m :: m in PreOrder(root) && IsAnchor(m) && AnchorDoc(m.attr) == Some(d)
    ensures d in Extract(root) ==> d.url != "" && d.filename != ""
  {
    ExtractIsPreOrder(root);
    CollectMember(PreOrder(root), d);
  }
}
