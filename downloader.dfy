/** The download executor: the end of `main` (main.go:121-147). The inventory
    `oldDocsMap` is seeded with the names already on disk; then, for each
    extracted document in order, a name already in the inventory is skipped,
    any other is downloaded, and a successful download adds the name to the
    inventory and increments `newDownloads`.

    `saveDocument` (network and file I/O) is replaced by an oracle: `outcomes[k]`
    is the result of the k-th download attempted (true for a nil error). The
    calls it would have received are returned as `calls`, the observable effect
    of the loop besides the inventory and the counter. */
module Downloader {
  import opened Html
  import opened Scanner
  import opened ScannerProperties

  /** The loop's state: the keys of `oldDocsMap`, the counter `newDownloads`,
      and the documents passed to `saveDocument` so far, in order. */
  datatype RunState = RunState(inventory: set<string>, newDownloads: nat, calls: seq<Document>)

  /** One iteration of the loop over `docs` (main.go:133-146). The next attempt,
      if there is one, consumes outcome number |s.calls|. */
  function Step(s: RunState, d: Document, outcomes: seq<bool>): (r: RunState)
    requires |s.calls| < |outcomes|
    // the inventory only grows, and at most by this document's name
    ensures s.inventory <= r.inventory <= s.inventory + {d.filename}
    // the counter grows exactly when the inventory does
    ensures r.newDownloads == s.newDownloads + |r.inventory - s.inventory|
    // a name already present is skipped: no call, nothing changes
    ensures d.filename in s.inventory ==> r == s
    // any other name is downloaded once, and is in the inventory afterwards iff that succeeded
    ensures d.filename !in s.inventory ==>
      r.calls == s.calls + [d] && (d.filename in r.inventory <==> outcomes[|s.calls|])
  {
    if d.filename in s.inventory then s
    else if outcomes[|s.calls|] then
      RunState(s.inventory + {d.filename}, s.newDownloads + 1, s.calls + [d])
    else
      s.(calls := s.calls + [d])
  }

  /** The whole loop over `docs`, from inventory `inventory` and a zero counter. */
  function Run(inventory: set<string>, docs: seq<Document>, outcomes: seq<bool>): (r: RunState)
    requires |docs| <= |outcomes|
    ensures r.newDownloads <= |r.calls| <= |docs|
  {
    if docs == [] then RunState(inventory, 0, [])
    else Step(Run(inventory, docs[..|docs| - 1], outcomes), docs[|docs| - 1], outcomes)
  }

  /** The names of the attempted downloads that succeeded, in order. */
  function Successes(calls: seq<Document>, outcomes: seq<bool>): seq<string>
    requires |calls| <= |outcomes|
  {
    if calls == [] then []
    else
      var k := |calls| - 1;
      Successes(calls[..k], outcomes) + (if outcomes[k] then [calls[k].filename] else [])
  }

  /** How many of the outcomes are successes. */
  function CountTrue(bs: seq<bool>): nat
  {
    if bs == [] then 0 else CountTrue(bs[..|bs| - 1]) + (if bs[|bs| - 1] then 1 else 0)
  }

  predicate Distinct(names: seq<string>)
  {
    forall i, j :: 0 <= i < j < |names| ==> names[i] != names[j]
  }

  lemma {:induction false} SuccessesCount(calls: seq<Document>, outcomes: seq<bool>)
    requires |calls| <= |outcomes|
    ensures |Successes(calls, outcomes)| == CountTrue(outcomes[..|calls|])
  {
    if calls != [] {
      var k := |calls| - 1;
      SuccessesCount(calls[..k], outcomes);
      assert outcomes[..|calls|][..k] == outcomes[..k];
    }
  }

  lemma {:induction false} SuccessesContain(calls: seq<Document>, outcomes: seq<bool>, i: nat)
    requires |calls| <= |outcomes| && i < |calls| && outcomes[i]
    ensures calls[i].filename in Successes(calls, outcomes)
  {
    var k := |calls| - 1;
    if i < k {
      SuccessesContain(calls[..k], outcomes, i);
    }
  }

  lemma SuccessesSnoc(calls: seq<Document>, d: Document, outcomes: seq<bool>)
    requires |calls| < |outcomes|
    ensures Successes(calls + [d], outcomes) ==
      Successes(calls, outcomes) + (if outcomes[|calls|] then [d.filename] else [])
  {
    assert (calls + [d])[..|calls|] == calls;
  }

  /** The names successfully downloaded by the whole loop, in order. */
  function Downloaded(inventory: set<string>, docs: seq<Document>, outcomes: seq<bool>): seq<string>
    requires |docs| <= |outcomes|
  {
    Successes(Run(inventory, docs, outcomes).calls, outcomes)
  }

  /** The inventory only grows, and what it gains is exactly the names of the
      successful downloads; the counter is the number of those downloads. */
  lemma {:induction false} RunInventory(inventory: set<string>, docs: seq<Document>, outcomes: seq<bool>)
    requires |docs| <= |outcomes|
    ensures inventory <= Run(inventory, docs, outcomes).inventory
    ensures forall f :: f in Run(inventory, docs, outcomes).inventory <==>
      f in inventory || f in Downloaded(inventory, docs, outcomes)
    ensures Run(inventory, docs, outcomes).newDownloads == |Downloaded(inventory, docs, outcomes)|
  {
    if docs != [] {
      var k := |docs| - 1;
      var s := Run(inventory, docs[..k], outcomes);
      RunInventory(inventory, docs[..k], outcomes);
      SuccessesSnoc(s.calls, docs[k], outcomes);
    }
  }

  /** No name is downloaded successfully twice in one run, nor a name that was
      already in the inventory when the run started. */
  lemma {:induction false} NoDuplicateDownloads(inventory: set<string>, docs: seq<Document>, outcomes: seq<bool>)
    requires |docs| <= |outcomes|
    ensures Distinct(Downloaded(inventory, docs, outcomes))
    ensures forall f :: f in Downloaded(inventory, docs, outcomes) ==> f !in inventory
  {
    if docs != [] {
      var k := |docs| - 1;
      var s := Run(inventory, docs[..k], outcomes);
      NoDuplicateDownloads(inventory, docs[..k], outcomes);
      RunInventory(inventory, docs[..k], outcomes);
      SuccessesSnoc(s.calls, docs[k], outcomes);
    }
  }

  /** Once a name has been downloaded successfully, no later call is made for it:
      every later document with that name is skipped. */
  lemma {:induction false} NoCallAfterSuccess(inventory: set<string>, docs: seq<Document>, outcomes: seq<bool>)
    requires |docs| <= |outcomes|
    ensures var r := Run(inventory, docs, outcomes);
      forall i, j :: 0 <= i < j < |r.calls| && outcomes[i] ==> r.calls[j].filename != r.calls[i].filename
  {
    if docs != [] {
      var k := |docs| - 1;
      var s := Run(inventory, docs[..k], outcomes);
      NoCallAfterSuccess(inventory, docs[..k], outcomes);
      RunInventory(inventory, docs[..k], outcomes);
      forall i | 0 <= i < |s.calls| && outcomes[i]
        ensures s.calls[i].filename in s.inventory
      {
        SuccessesContain(s.calls, outcomes, i);
      }
    }
  }

  /** Every download attempted is for one of the documents, and never for a
      name that was in the inventory when the run started. */
  lemma {:induction false} CallsSkipInventory(inventory: set<string>, docs: seq<Document>, outcomes: seq<bool>)
    requires |docs| <= |outcomes|
    ensures forall c :: c in Run(inventory, docs, outcomes).calls ==> c in docs && c.filename !in inventory
  {
    if docs != [] {
      var k := |docs| - 1;
      CallsSkipInventory(inventory, docs[..k], outcomes);
      RunInventory(inventory, docs[..k], outcomes);
      assert docs == docs[..k] + [docs[k]];
    }
  }

  /** A failure never ends the run: every document whose name is still missing
      from the inventory at the end was attempted. */
  lemma {:induction false} MissingWereAttempted(inventory: set<string>, docs: seq<Document>, outcomes: seq<bool>)
    requires |docs| <= |outcomes|
    ensures var r := Run(inventory, docs, outcomes);
      forall d :: d in docs ==> d.filename in r.inventory || d in r.calls
  {
    if docs != [] {
      var k := |docs| - 1;
      MissingWereAttempted(inventory, docs[..k], outcomes);
      assert docs == docs[..k] + [docs[k]];
    }
  }

  /** The final count is the number of successful attempts and at most the number of documents. */
  lemma CountIsSuccesses(inventory: set<string>, docs: seq<Document>, outcomes: seq<bool>)
    requires |docs| <= |outcomes|
    ensures var r := Run(inventory, docs, outcomes);
      r.newDownloads == CountTrue(outcomes[..|r.calls|]) && r.newDownloads <= |docs|
  {
    var r := Run(inventory, docs, outcomes);
    RunInventory(inventory, docs, outcomes);
    SuccessesCount(r.calls, outcomes);
  }

  /** When every name is already in the inventory nothing is fetched and nothing changes. */
  lemma {:induction false} AllPresentNothingToDo(inventory: set<string>, docs: seq<Document>, outcomes: seq<bool>)
    requires |docs| <= |outcomes|
    requires forall d :: d in docs ==> d.filename in inventory
    ensures Run(inventory, docs, outcomes) == RunState(inventory, 0, [])
  {
    if docs != [] {
      var k := |docs| - 1;
      assert docs[k] in docs;
      assert forall d :: d in docs[..k] ==> d in docs;
      AllPresentNothingToDo(inventory, docs[..k], outcomes);
    }
  }

  /** A second pass over the same documents, starting from the inventory the
      first pass ended with, fetches and downloads nothing when every attempt of
      the first pass succeeded. (A new directory listing gives that inventory
      only for names without path components.) */
  lemma SecondRunDownloadsNothing(inventory: set<string>, docs: seq<Document>,
                                  first: seq<bool>, second: seq<bool>)
    requires |docs| <= |first| && |docs| <= |second|
    requires forall i :: 0 <= i < |Run(inventory, docs, first).calls| ==> first[i]
    ensures var r := Run(inventory, docs, first);
      Run(r.inventory, docs, second) == RunState(r.inventory, 0, [])
  {
    var r := Run(inventory, docs, first);
    RunInventory(inventory, docs, first);
    MissingWereAttempted(inventory, docs, first);
    forall d | d in docs
      ensures d.filename in r.inventory
    {
      if d.filename !in r.inventory {
        var i :| 0 <= i < |r.calls| && r.calls[i] == d;
        SuccessesContain(r.calls, first, i);
      }
    }
    AllPresentNothingToDo(r.inventory, docs, second);
  }

  /** main.go:121-125: the inventory holds the base names of the files on disk. */
  method SeedInventory(oldDocs: seq<string>) returns (inventory: set<string>)
    ensures forall f :: f in inventory <==> f in oldDocs
  {
    inventory := {};
    for i := 0 to |oldDocs|
      invariant forall f :: f in inventory <==> f in oldDocs[..i]
    {
      assert oldDocs[..i + 1] == oldDocs[..i] + [oldDocs[i]];
      inventory := inventory + {oldDocs[i]};
    }
    assert oldDocs[..|oldDocs|] == oldDocs;
  }

  /** main.go:132-146: the skip/download/count loop. */
  method DownloadMissing(inventory0: set<string>, docs: seq<Document>, outcomes: seq<bool>)
    returns (inventory: set<string>, newDownloads: nat, calls: seq<Document>)
    requires |docs| <= |outcomes|
    ensures RunState(inventory, newDownloads, calls) == Run(inventory0, docs, outcomes)
  {
    inventory, newDownloads, calls := inventory0, 0, [];
    for i := 0 to |docs|
      invariant RunState(inventory, newDownloads, calls) == Run(inventory0, docs[..i], outcomes)
    {
      assert docs[..i + 1][..i] == docs[..i];
      var doc := docs[i];
      if doc.filename in inventory {
        continue;
      }
      var ok := outcomes[|calls|];  // saveDocument(doc.URL, ...) == nil
      calls := calls + [doc];
      if ok {
        inventory := inventory + {doc.filename};
        newDownloads := newDownloads + 1;
      }
    }
    assert docs[..|docs|] == docs;
  }

  /** The seeded inventory, then the loop over the documents of the parsed page. */
  function Pipeline(oldDocs: seq<string>, page: Node, outcomes: seq<bool>): RunState
    requires |Extract(page)| <= |outcomes|
  {
    Run((set f | f in oldDocs), Extract(page), outcomes)
  }

  /** main.go:121-147, after the page has been fetched and parsed. */
  method Sync(oldDocs: seq<string>, page: Node, outcomes: seq<bool>)
    returns (inventory: set<string>, newDownloads: nat, calls: seq<Document>)
    requires |Extract(page)| <= |outcomes|
    ensures RunState(inventory, newDownloads, calls) == Pipeline(oldDocs, page, outcomes)
  {
    var seeded := SeedInventory(oldDocs);
    assert seeded == set f | f in oldDocs;
    var docs := GetAllDocuments(page);
    inventory, newDownloads, calls := DownloadMissing(seeded, docs, outcomes);
  }

  // ---------------------------------------------------------------------------
  // Scenarios
  // ---------------------------------------------------------------------------

  /** A page holding one anchor `<a href="http://x/a.pdf" download="a.pdf">`. */
  function OneAnchorPage(): Node
  {
    Node(OtherNode, "", [], [
      Node(ElementNode, "a", [Attribute("href", "http://x/a.pdf"), Attribute("download", "a.pdf")], [])])
  }

  lemma OneAnchorPageDocuments()
    ensures Extract(OneAnchorPage()) == [Document("http://x/a.pdf", "a.pdf")]
  {
    var page := OneAnchorPage();
    var a := page.children[0];
    WellFormedAnchor(a.attr, "http://x/a.pdf", "a.pdf");
    assert Own(a) == [Document("http://x/a.pdf", "a.pdf")];
    assert Extract(a) == Own(a) + ExtractAll([]);
    assert page.children[..0] == [];
    assert ExtractAll(page.children) == ExtractAll([]) + Extract(a);
  }

  /** Empty directory: the one document is fetched and counted. */
  lemma FreshDirectoryDownloadsOne()
    ensures Pipeline([], OneAnchorPage(), [true]) ==
      RunState({"a.pdf"}, 1, [Document("http://x/a.pdf", "a.pdf")])
  {
    var doc := Document("http://x/a.pdf", "a.pdf");
    OneAnchorPageDocuments();
    assert (set f: string | f in []) == {};
    assert [doc][..0] == [];
    assert Run({}, [doc], [true]) == Step(Run({}, [], [true]), doc, [true]);
  }

  /** The file is already on disk: no call, nothing counted. */
  lemma PresentFileIsSkipped(outcomes: seq<bool>)
    requires |outcomes| >= 1
    ensures Pipeline(["a.pdf"], OneAnchorPage(), outcomes) == RunState({"a.pdf"}, 0, [])
  {
    var doc := Document("http://x/a.pdf", "a.pdf");
    OneAnchorPageDocuments();
    assert (set f | f in ["a.pdf"]) == {"a.pdf"};
    assert [doc][..0] == [];
    assert Run({"a.pdf"}, [doc], outcomes) == Step(Run({"a.pdf"}, [], outcomes), doc, outcomes);
  }

  lemma RunSnoc(inventory: set<string>, docs: seq<Document>, d: Document, outcomes: seq<bool>)
    requires |docs| < |outcomes|
    ensures Run(inventory, docs + [d], outcomes) == Step(Run(inventory, docs, outcomes), d, outcomes)
  {
    assert (docs + [d])[..|docs|] == docs;
  }

  /** One failure among three documents: the other two are still attempted
      and only the true successes are counted. */
  lemma FailureDoesNotStopTheRun()
    ensures var docs := [Document("u1", "a"), Document("u2", "b"), Document("u3", "c")];
      Run({}, docs, [true, false, true]) == RunState({"a", "c"}, 2, docs)
  {
    var d1, d2, d3 := Document("u1", "a"), Document("u2", "b"), Document("u3", "c");
    var o := [true, false, true];
    RunSnoc({}, [], d1, o);
    assert [] + [d1] == [d1];
    var s1 := RunState({"a"}, 1, [d1]);
    assert Run({}, [d1], o) == s1;
    RunSnoc({}, [d1], d2, o);
    assert [d1] + [d2] == [d1, d2];
    var s2 := RunState({"a"}, 1, [d1, d2]);
    assert Run({}, [d1, d2], o) == s2;
    RunSnoc({}, [d1, d2], d3, o);
    assert [d1, d2] + [d3] == [d1, d2, d3];
    assert Step(s2, d3, o) == RunState({"a", "c"}, 2, [d1, d2, d3]);
  }
}
