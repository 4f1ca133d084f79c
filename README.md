# dvcon-proceedings downloader, modelled in Dafny

The program fetches one listing page, walks its parsed HTML tree for `<a>`
elements that carry both an `href` (the document's URL) and a `download`
(the file name to save it under), and downloads every such document whose
file name is not already in the destination directory, counting the
successful downloads.

This project models the two pieces of logic in `main.go` that do not depend
on I/O, and proves what they promise:

- **The markup scanner** (`getAllDocuments` and its `traverse` closure).
  `Html.Node` stands for a parsed node. It holds the node type, the tag name,
  the attribute list in markup order, and the children in sibling order.
  `Scanner.ScanAnchor` is the attribute loop with its early `break`.
  `Scanner.Collector` is the closure together with the `docs` slice it appends to.
  `Scanner.GetAllDocuments` creates a collector and runs the walk.
  All three are proved against the functions `AnchorDoc` and `Extract`.
  `ScannerProperties` relates these functions to two independent descriptions.
  The first describes the attribute loop by prefixes: after a prefix, the URL
  is the last `href` value seen and the file name is the last `download` value
  seen. The second describes the walk as a pre-order list of nodes, each
  contributing on its own.
- **The download executor** (the end of `main`). `SeedInventory` builds the
  inventory from the names already on disk. `DownloadMissing` is the
  skip/download/count loop. `Sync` runs the two in sequence with the scanner
  between them. `saveDocument` is replaced by an oracle: `outcomes[k]` is the
  result of the k-th download attempted. The documents handed to it are
  returned as `calls`. The loop is proved against the function `Run`. The
  lemmas next to `Run` show that the inventory only grows, that the counter
  equals the number of successes, that no name is downloaded twice, and that
  names already on disk are never fetched.

An anchor that has both attributes yields an entry only when both values
are non-empty. The loop reads the attributes in order and stops at the first
point where both fields are non-empty, so an empty or repeated
`href`/`download` can change the result. `WellFormedAnchor` states when an
anchor yields exactly its `href` and `download` values.

## Model

| member | source | states |
|---|---|---|
| Scanner.ScanAttrs | main.go:51-62 | whatever the attribute loop emits has a non-empty URL and file name, each either already held by the partial document or the value of one of the scanned `href`/`download` attributes |
| Scanner.AnchorDoc | main.go:50-62 | starting from the zero `Document`, an emitted URL and file name are non-empty values of the anchor's own `href` and `download` attributes |
| Scanner.ScanAnchor | main.go:50-62 | the loop over `n.Attr` with its `break` yields exactly the anchor's document `AnchorDoc(attrs)`, or none |
| Scanner.Collector.constructor | main.go:45 | the collected slice starts empty |
| Scanner.Collector.Traverse | main.go:48-70 | `traverse(n)` appends the node's own document, if any, then those of every child subtree in sibling order; nothing already collected changes |
| Scanner.GetAllDocuments | main.go:44-75 | the result is the documents of the whole tree, `Extract(root)` |
| Scanner.Extract | main.go:48-70 | every document `traverse(n)` appends for a subtree has a non-empty URL and file name |
| Scanner.ExtractAll | main.go:67-69 | every document appended for a list of sibling subtrees has a non-empty URL and file name |
| ScannerProperties.LastValue | main.go:50-57 | a field of the loop's document holds the value of an attribute with that key whenever the key occurs, and keeps its zero value "" otherwise |
| ScannerProperties.LastValueIsLast | main.go:52-57 | of several attributes with one key, the last one's value is the one held |
| ScannerProperties.ScanFrom | main.go:51-61 | until some prefix is complete, the loop's document after `i` attributes is the last `href`/`download` value among them |
| ScannerProperties.AnchorDocFirstComplete | main.go:51-61 | the emitted document is the last `href` and the last `download` value among the attributes up to the first point where both are non-empty |
| ScannerProperties.AnchorDocNoneIff | main.go:51-62 | an anchor contributes nothing if and only if no prefix of its attributes supplies both a non-empty URL and a non-empty file name |
| ScannerProperties.AnchorDocIgnoresLaterAttributes | main.go:58-61 | attributes after the `break` do not affect the result |
| ScannerProperties.MissingAttributeContributesNothing | main.go:51-62 | an anchor whose `href`, or whose `download`, is absent or always empty contributes nothing |
| ScannerProperties.WellFormedAnchor | main.go:49-61 | an anchor whose `href` and `download` each carry one non-empty value contributes exactly that document |
| ScannerProperties.SiblingsInOrder | main.go:67-69 | in the pre-order listing each child's whole subtree forms one block, after the blocks of the children before it and before those of the children after it |
| ScannerProperties.ExtractIsPreOrder | main.go:48-69 | the walk emits the per-node contributions of all nodes, taken in pre-order (node before children, children left to right), whatever each node's type |
| ScannerProperties.CollectAtMostOnePerAnchor | main.go:49-61 | a list of nodes contributes at most one document per anchor element in it |
| ScannerProperties.CollectMember | main.go:49-61 | a document is contributed by a list of nodes if and only if some `<a>` element in it yields that document |
| ScannerProperties.AtMostOneDocumentPerAnchor | main.go:49-69 | the walk emits no more documents than the tree has `<a>` elements |
| ScannerProperties.ExtractedDocuments | main.go:49-69 | a document is emitted if and only if some `<a>` element of the tree yields it, and every emitted document has a non-empty URL and file name |
| Downloader.Step | main.go:133-146 | a name already in the inventory is skipped with no call and no change; any other name causes one call and is in the inventory afterwards exactly when that call succeeded; the counter grows exactly when the inventory does |
| Downloader.Run | main.go:131-146 | the count never exceeds the number of attempts, which never exceeds the number of documents |
| Downloader.SuccessesCount | main.go:139-145 | the number of successful downloads equals the number of successful outcomes among the attempts made |
| Downloader.SuccessesContain | main.go:139-145 | a successful attempt's file name is among the successful downloads |
| Downloader.RunInventory | main.go:134-145 | the inventory only grows; what it gains is exactly the names of the successful downloads; the counter is their number |
| Downloader.NoDuplicateDownloads | main.go:134-145 | no name is downloaded successfully twice in one run, nor a name that was on disk at the start |
| Downloader.NoCallAfterSuccess | main.go:134-143 | once a name has been downloaded successfully, every later document with that name is skipped: no later call is made for it, even one that would fail |
| Downloader.CallsSkipInventory | main.go:134-138 | every download attempted is for one of the documents and never for a name in the starting inventory |
| Downloader.MissingWereAttempted | main.go:138-141 | a failure does not stop the run: every document whose name is missing at the end was attempted |
| Downloader.CountIsSuccesses | main.go:132-147 | the reported count equals the number of successful attempts and is at most the number of documents |
| Downloader.AllPresentNothingToDo | main.go:133-137 | when every name is already in the inventory, nothing is fetched and nothing changes |
| Downloader.SecondRunDownloadsNothing | main.go:131-146 | a second pass of the loop over the same documents, starting from the inventory the first pass ended with, fetches and counts nothing when every attempt of the first pass succeeded |
| Downloader.SeedInventory | main.go:121-125 | the inventory holds exactly the names already on disk |
| Downloader.DownloadMissing | main.go:131-146 | the loop ends with the inventory, count and calls that `Run` gives |
| Downloader.Sync | main.go:121-147 | seeding, extraction and the loop together give `Run` over the seeded inventory and the page's documents |
| Downloader.RunSnoc | main.go:133-146 | one more document adds one more loop iteration at the end |
| Downloader.OneAnchorPageDocuments | main.go:44-75 | a page with one `<a href="http://x/a.pdf" download="a.pdf">` yields that one document |
| Downloader.FreshDirectoryDownloadsOne | main.go:121-147 | with an empty directory that document is fetched once, saved and counted (count 1) |
| Downloader.PresentFileIsSkipped | main.go:133-137 | with `a.pdf` already on disk there is no fetch and the count is 0 |
| Downloader.FailureDoesNotStopTheRun | main.go:138-145 | when one download fails among three, all three are attempted and the count is 2 |

## Left out

- `saveDocument` (main.go:17-37) performs an HTTP GET, creates the file and copies the body. This is network and file I/O, so each attempt is modelled only by its success or failure. The HTTP status code is not checked by the source, so a 404 body counts as a success there; in the model, that is simply an outcome the oracle can give.
- The outcome oracle must hold at least one outcome per extracted document (`|docs| <= |outcomes|`). This is a bound on the model's input, not on the source's callers: the loop never makes more attempts than there are documents.
- `isDirExists` and `getFilesInDir` (main.go:78-96) are filesystem calls. The names on disk are an input sequence. A missing directory or a failed glob appears as an empty sequence.
- `filepath.Base` (main.go:124) and `filepath.Join` (main.go:138) are library path functions. The input names are taken as base names already, and the joined path is not modelled.
- Directory creation, the fetch of the listing page and `html.Parse` (main.go:99-119) are I/O and a foreign parser. The fatal early returns there are not modelled; the parsed tree is an input.
- The `html.Node` type of golang.org/x/net/html is not part of this model. Node types other than element are one case. The `FirstChild`/`NextSibling` links are a sequence of children, so the model assumes the parser returns a finite tree with no sharing.
- `log.Printf` and `log.Println` calls have no effect on the state.
- `DVCON_DOCS_DIR` and the listing URL are only used by the I/O above.
- The `defer ... Close()` calls release resources and have no effect on the modelled state.
- The counter `newDownloads` is a `nat` rather than a Go `int`. It cannot overflow, because the count is at most the number of documents.
- Downloader.SecondRunDownloadsNothing: the second pass starts from the inventory the first pass ended with, not from a new listing of the directory (main.go:121-125). A new listing gives the same set only when every downloaded name is its own base name. A name with a path component is saved under `filepath.Join(dir, name)` and listed by `filepath.Base`: `./a.pdf` is listed as `a.pdf`, and `../a.pdf` is written outside the directory and never listed. The program downloads such names again on every run, and the lemma does not claim otherwise.
