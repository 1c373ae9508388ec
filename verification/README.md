# Shutu Knowledge: a Dafny model of its core

The project models six parts of the knowledge service and proves what each is for.

- **Evidence windows** (`Text`, `Tokens`, `Focus`, `Excerpts`, `CropLaws`, `Overlap`,
  `Window`, `Compose`, `ComposeLaws`, `WindowLaws`). A hit is cropped to a token budget,
  overlap with its neighbours is removed, the rest of the budget is split and donated,
  and the window is shrunk from the outside until its serialized form fits. Every
  composed window meets its budget, every excerpt is an exact slice of its chunk, and
  each side is the nearest run of the deduplicated neighbours with only the farthest
  excerpt cut. Which chunks these are, and that all of them are shown when there is
  room, is said of the given chunks and options alone.
- **Graph exploration** (`Traversal`, `Exactness`, `FanOut`, `Explore`, `ExploreLaws`,
  `GraphLaws`). The bounded breadth-first search is sound for every request and
  independent of the order of its input. When it is complete is settled exactly.
- **Durable deletes and restores** (`DeleteReplay`, `DeleteRuns`, `DeleteOutcomes`,
  `RetainedRaw`, `Keyset`, `RestoreBase`). Any number of workers of one delete
  operation, crashing and replaying anywhere, among imports and other deletes, form a
  step system. Restores are methods that may crash at any document.
- **Semantic compilation** (`SemanticCompile`, `SemanticService`, `SemanticRuns`). The
  metadata fast path is shown to agree with rebuilding everything, over runs in which
  documents change, marks are lost, the compiler is upgraded and the process crashes.
- **Text chunking** (`Markdown`, `Blocks`, `SplitBlocks`, `BlockLaws`, `Windows`,
  `Pieces`, `PieceLaws`, `Fragments`). Splitting, windowing, refining and merging are
  tied to declarative forms and shown to conserve content.
- **Jobs, automatic context and document binding** (`JobRuns`, `JobManager`,
  `AutoContext`, `DocumentIr`, `OutlineLaws`, `DocumentStore`).

Loops and in-place updates of the source are methods proved against specification
functions; the laws are lemmas that say what those functions yield without naming them.
Texts are sequences of symbols with an additive weight; identifiers are numbers where
only their order and equality matter. Scores, similarity, hashing, crashes, failures of
writes and the order of concurrent steps are parameters or choices of the step systems.

## What the proofs found

Where the code does less than its comments or names promise, the model follows the code.

- Document and directory deletes drop the rows that name retained raw files before
  deleting those files (`internal/knowledge/service_doc.go:674-684`). A crash in between
  orphans them although the replay reports success. It cannot happen if and only if no
  document of the scope has a raw file besides its active one
  (`RetainedRaw.LeakFreeIffNothingRetained`), so importing a document twice is enough
  (`RetainedRaw.UpdatedDocumentLeaks`). Base deletes are not affected.
- An exploration that reaches its node cap exactly at the end of a unit's steps skips
  the rest of the frontier without setting `Truncated`
  (`internal/agentquery/explore.go:389-391`). So an unflagged result can miss a unit
  (`ExploreLaws.UnflaggedMayMissUnit`), and it is complete if and only if the units
  within `maxHops` of the seeds are no more than `maxNodes`
  (`ExploreLaws.BuiltIsCompleteIff`). With exactly that many it can still miss an edge
  (`ExploreLaws.UnflaggedMayMissEdge`); with fewer everything is exact
  (`ExploreLaws.BuiltIsComplete`).
- Ready documents without IR are dirty in every compile, so a repeated compile keeps
  creating generations unless all documents have IR or none has
  (`SemanticRuns.SecondCompileReturnsSame`, `SemanticRuns.SecondCompileMayDiffer`).
  After a compiler upgrade with no document left that has IR, compiling fails and the
  old compilation stays active (`SemanticCompile.FailsIffNothingToCompile`,
  `SemanticRuns.UpgradeMayFail`).
- The sentence marks of Chinese and Japanese never end a crop, since the text is decoded
  one byte at a time (`Excerpts.OnlyAsciiMarksEndSentences`), and in focus mode the
  snapping to sentences is undone entirely (`Excerpts.CropAroundFocus`).
- The overlap between windows of a block never takes effect (`Windows.WindowBlock`),
  despite the comment in `internal/chunk/chunk.go:37-40`.
- The selection limit of three keeps automatic context at 540 tokens, so its total
  budget of 640 never binds (`AutoContext.SelectionIsBounded`). The notice put in front
  of each contribution is not counted: a contribution can be delivered with 211 tokens
  (`AutoContext.DeliveryMayExceed`), though never more than 633 together
  (`AutoContext.NoticeIsUncounted`).
- A bound node without text cannot be found by its id
  (`DocumentStore.Document.NodeByID`, `DocumentStore.BlankNodeIsNotFound`).
- A normalized text none of whose lines is kept, such as one of headings only, is cut to
  its first chunk size and the rest is dropped (`Pieces.OnlyTheStartIsLeft`,
  `Pieces.LongHeadingIsCut`).

## Model

| member | source | states |
|---|---|---|
| Tokens.CeilOfTwelfths | internal/chunk/chunk.go:106-108 | The real-valued estimate ceil(cjk/1.5 + other/4) is an exact integer formula in twelfths |
| Tokens.EstimateTokens | internal/chunk/chunk.go:95-109 | The counting loop computes that estimate, zero exactly for the empty text |
| Tokens.Subadditive | internal/chunk/chunk.go:95-109 | Joining two texts never costs more than both, and saves at most one token |
| Tokens.NestedWindows | internal/chunk/chunk.go:95-109 | Of two nested windows on one text the inner one never weighs more |
| Focus.ComponentSpanSpells | internal/evidence/fit.go:171-231 | The fallback focus exists exactly when some component is usable, and spells a usable one that none has more UTF-8 bytes than |
| Focus.FocusSpanInText | internal/evidence/fit.go:171-200 | The focus span lies in the text, and is the needle itself whenever the needle occurs |
| Focus.FocusRange | internal/evidence/fit.go:171-200 | The search with its fallback loop returns that span |
| CropLaws.FocusSpanIs | internal/evidence/fit.go:171-200 | The focus is nowhere if blank; else where it first occurs, whole; else where the first of its longest usable components first occurs; else nowhere |
| CropLaws.ComponentsAre | internal/evidence/fit.go:202-244 | The components are the blank-separated words, in order, each followed, if CJK throughout, by its pairs of neighbouring symbols |
| Excerpts.SliceKeepsFaithful | internal/evidence/fit.go:270-280 | Slicing with any offsets keeps Text == canonical[TextStart..TextEnd] and both truncation flags exact |
| Excerpts.OnlyAsciiMarksEndSentences | internal/evidence/fit.go:7-13 | Decoded one byte at a time, only the ASCII marks and line ends ever end a sentence |
| Excerpts.FindSentenceEnd | internal/evidence/fit.go:259-268 | The forward scan finds the first boundary within the radius, or the target |
| Excerpts.FindSentenceStart | internal/evidence/fit.go:246-257 | The backward scan finds the last boundary within the radius, or the target |
| Excerpts.SnappingIsMonotone | internal/evidence/fit.go:246-268 | Sentence snapping is monotone in the target although its window moves |
| CropLaws.SentenceEndIsFirst | internal/evidence/fit.go:259-268 | The snapped end is just after the first of six ASCII marks in the next 96 symbols, or the target when there is none |
| CropLaws.SentenceStartIsLast | internal/evidence/fit.go:246-257 | The snapped start is just after the last such mark in the 96 symbols before, or the target |
| Excerpts.CropAroundFocus | internal/evidence/fit.go:133-159 | Snapping both ends and undoing the excess leaves exactly the centred window |
| Excerpts.FocusCropIsExact | internal/evidence/fit.go:133-159 | A focus crop of length L inside the text has exactly L symbols and contains any focus no wider than L |
| CropLaws.HeadCropEndsSentence | internal/evidence/fit.go:130-142 | A head crop, and a focus crop without a focus, keep the opening up to the end of a sentence |
| CropLaws.TailCropOpensSentence | internal/evidence/fit.go:130-136 | A tail crop keeps the ending from the start of a sentence |
| CropLaws.FocusCropIsCentred | internal/evidence/fit.go:143-161 | A focus crop has the focus in its middle: the margins differ by at most one, unless the text ends on the shorter side |
| Excerpts.CutsAreNested | internal/evidence/fit.go:122-159 | In every mode a longer crop contains every shorter one |
| Excerpts.CropCostIsMonotone | internal/evidence/fit.go:122-159 | Hence the serialized cost grows with the crop length, which is what the binary search needs |
| Excerpts.SearchLongestFit | internal/evidence/fit.go:104-117 | The low/high/best loop returns the longest crop that fits, in every mode |
| Excerpts.FitIsLongest | internal/evidence/fit.go:87-117 | No fitting crop is longer than the one kept, and the one kept fits |
| Excerpts.FitMeetsBudget | internal/evidence/fit.go:87-117 | The result is within budget unless no text could be kept; only the heading may be dropped besides |
| CropLaws.HeadingIsDroppedIff | internal/evidence/fit.go:87-103 | What does not fit whole loses its heading exactly when mark and heading alone reach the budget |
| Excerpts.FitKeepsFaithful | internal/evidence/fit.go:87-117 | Fitting keeps an excerpt faithful to its canonical text |
| Excerpts.AnchorAlwaysFits | internal/evidence/fit.go:17-24 | With a budget of at least one token the anchor always fits |
| Overlap.LongestSuffixPrefix | internal/evidence/fit.go:322-330 | The loop finds the longest overlap of at least the minimum length, or none |
| Overlap.BeforeIsLossless | internal/evidence/fit.go:286-301 | Each original earlier text is a prefix of the trimmed texts from its place through the anchor |
| Overlap.AfterIsLossless | internal/evidence/fit.go:302-310 | Each original later text is a suffix of the anchor and the trimmed texts up to its place |
| Overlap.NonEmptyKeepsTexts | internal/evidence/fit.go:312-320 | Dropping emptied excerpts changes no reading |
| Overlap.RemoveAdjacentOverlap | internal/evidence/fit.go:286-310 | The two in-place loops and the filter compute those trims |
| Window.FitBeforeIsRun | internal/evidence/fit.go:29-64 | The earlier side is the nearest run of its candidates within the allowance, only its farthest excerpt cut, and stops only where nothing more fits whole |
| Window.FitAfterIsRun | internal/evidence/fit.go:29-64 | The same for the later side |
| Window.FitSideBefore | internal/evidence/fit.go:29-64 | The reversing, filling loop computes the earlier side |
| Window.FitSideAfter | internal/evidence/fit.go:29-64 | The filling loop computes the later side |
| WindowLaws.FitBeforeTakes | internal/evidence/fit.go:29-64 | The earlier side is its nearest candidates whole, as many as fit one after the other, and then the longest part of the next that fits what room is left, if any |
| WindowLaws.FitAfterTakes | internal/evidence/fit.go:29-64 | The same for the later side |
| Window.FartherSideIsNotEmpty | internal/evidence/fit.go:339-368 | The shrink loop never indexes an empty side, since before indices < anchor < after indices |
| Window.GivingLastProgresses | internal/evidence/fit.go:349-358 | Each shrink of the later side lowers total text length plus excerpt count |
| Window.GivingFirstProgresses | internal/evidence/fit.go:359-368 | Each shrink of the earlier side lowers it too |
| Window.ShrinkMeetsBudget | internal/evidence/fit.go:334-376 | If the anchor fits alone, shrinking ends within the budget |
| Window.ShrinkKeepsRuns | internal/evidence/fit.go:334-376 | Shrinking only ever cuts the farthest remaining excerpt of a side |
| Window.ShrinkIsFaithful | internal/evidence/fit.go:334-376 | Shrinking keeps every excerpt faithful |
| WindowLaws.ShrinkStep | internal/evidence/fit.go:339-368 | One step over the budget: of the two outermost excerpts the farther, on a tie the later, is cropped to the longest part that saves the excess and one token more, and dropped only when nothing shorter is left of it |
| WindowLaws.ShrinkIsBalanced | internal/evidence/fit.go:334-376 | Whatever shrinking cropped or dropped was at least as far from the anchor as all that is left of the other side |
| Compose.NeighboursAreNearest | internal/evidence/evidence.go:237-262 | Neighbours are exactly the nearest contiguous chunks under the anchor's heading, up to the limit |
| Compose.NearestNeighbours | internal/evidence/evidence.go:103-129 | The map walk, the heading filter and the limit compute them |
| Compose.EnforceSerializedBudget | internal/evidence/fit.go:334-376 | The loop computes the shrink and leaves an anchor that fits alone untouched; otherwise the window ends as the refitted anchor only |
| Compose.SplitBudget | internal/evidence/evidence.go:137-160 | Both fitting passes and the donation of unused budget compute the specified sides |
| Compose.ComposeWindow | internal/evidence/evidence.go:80-187 | The whole composition, with its pooling, walks, crops, trims, two fitting passes, shrink and hints, computes the window the laws below describe |
| ComposeLaws.ShownIsInReach | internal/evidence/evidence.go:80-187 | Of the given chunks and options alone: each side shows no more excerpts than its own limit (1 unless told, 0 to 10), each a part of a chunk loaded that near to the anchor with every chunk between loaded and under its heading unless headings may be crossed; an anchor that fits is whole |
| ComposeLaws.RoomShowsAll | internal/evidence/evidence.go:103-164 | When all chunks in reach fit beside the anchor, with a token more each for the separator, every one of them is shown but for what it repeats of the text next to it, which is the longest such repetition of at least 24 symbols |
| ComposeLaws.ReachIsListed | internal/evidence/evidence.go:88-129 | For every input the chunks in reach are a run of indices around the anchor |
| ComposeLaws.HintsAreExact | internal/evidence/evidence.go:166-187 | The hints are as told, else exactly whether the first excerpt is cut, is not of chunk 0 or has a chunk loaded before it, and whether the last is cut or the document, or what is loaded of it, goes on |
| WindowLaws.AnchorShowsFocus | internal/evidence/fit.go:17-24 | A cropped anchor shows the whole focus if what is kept of it is long enough |
| WindowLaws.SerializedIsJoined | internal/evidence/evidence.go:189-212 | A window is written out in reading order with a blank line between excerpts, the anchor marked, headings in brackets |
| Compose.SidesAreSound | internal/evidence/evidence.go:131-164 | Across both passes, donation and shrinking each side stays the nearest run of the deduplicated candidates |
| Compose.SidesShareTheRest | internal/evidence/evidence.go:137-160 | The side fitted last stays within what the other leaves, the earlier side fills all the later one leaves, and the later one fills its own half and all that the earlier one left of the other |
| Compose.ComposedIsSound | internal/evidence/evidence.go:80-187 | Every window costs at most maxTokens, is faithful throughout with strictly increasing indices, and its anchor is exactly the fitted anchor |
| Compose.NothingBeforeIsExact | internal/evidence/evidence.go:166-177 | Inferred HasMoreBefore is false exactly when the window opens at offset 0 of chunk 0 |
| Compose.NothingAfterIsExact | internal/evidence/evidence.go:170-185 | With the chunk count known, inferred HasMoreAfter is false exactly when the window closes at the end of the last chunk |
| Traversal.ExploredIsRooted | internal/agentquery/explore.go:358-394 | Cut or not: at most maxNodes nodes, a forest of real steps rooted at the seeds, only real edges |
| Traversal.ChainIsReal | internal/agentquery/explore.go:419-453 | The parent walk ends at a seed after exactly Hops recorded edges, each a real step through visible units |
| Traversal.WithinIsReachable | internal/agentquery/explore.go:362-394 | The reachability used below is existence of a walk of at most k steps |
| Traversal.UncutIsComplete | internal/agentquery/explore.go:353-394 | Untruncated and with fewer nodes than maxNodes: nodes, true distances and edge ids are exact |
| Exactness.ExploredKeepsHops | internal/agentquery/explore.go:358-394 | In every walk, cut or not, no node lies farther than maxHops |
| Exactness.UnflaggedIsTrue | internal/agentquery/explore.go:358-394 | In every unflagged walk, complete or not, each returned unit is at its true distance from the seeds |
| Exactness.UnflaggedIsCompleteIff | internal/agentquery/explore.go:386-391 | An unflagged walk returns every unit within maxHops if and only if there are no more of them than maxNodes |
| Exactness.RoomyIsExact | internal/agentquery/explore.go:358-394 | With fewer units within maxHops than maxNodes an unflagged walk has exact nodes, distances and edges |
| Exactness.NarrowIsUnflagged | internal/agentquery/explore.go:362-391 | The flag stays clear when no unit nearer than maxHops has more than fanOut steps and there is room for all within reach |
| FanOut.ExploredKeepsFanOut | internal/agentquery/explore.go:362-388 | In every walk from distinct seeds, cut or not, at most fanOut nodes are discovered from any one unit |
| ExploreLaws.BuiltKeepsFanOut | internal/agentquery/explore.go:362-453 | In every graph from distinct hits at most fanOut paths differ in their last edge only |
| Explore.SortedIsUnique | internal/agentquery/explore.go:347-351 | Any sort by distinct relation id gives the same adjacency |
| Explore.SeedsAreVisible | internal/agentquery/explore.go:309-323 | Seeds are the visible hits, all of them unless the node cap cut them |
| Explore.BuildAdjacency | internal/agentquery/explore.go:329-351 | The loop over relations, filters and direction, then the sort, build the adjacency |
| Explore.ScanUnit | internal/agentquery/explore.go:364-388 | The candidate loop with fan-out, visibility, edge recording and node cap |
| Explore.WalkGraph | internal/agentquery/explore.go:361-394 | The level loop, with the cap break that abandons the rest of a level |
| Explore.BuildGraph | internal/agentquery/explore.go:295-455 | The whole of buildGraph computes the graph the laws below describe |
| GraphLaws.SeedsAreTheFirstVisible | internal/agentquery/explore.go:305-323 | The seeds are the first maxNodes of the visible hits, in order and with their scores; with more of them the graph says it is cut |
| GraphLaws.SeedsAreTheSeedNodes | internal/agentquery/explore.go:305-417 | The units of the seeds are exactly the nodes marked as seeds |
| GraphLaws.StepsAtUnit | internal/agentquery/explore.go:329-351 | The steps at a unit are exactly the relations of a wanted kind, neither superseded nor deleted nor an unwanted contradiction, that lead from it in a direction followed, by ascending id |
| GraphLaws.EdgesAreAskedFor | internal/agentquery/explore.go:376-417 | Every edge of every graph is such a relation, with its evidence and contradiction flags, from a node to a visible unit |
| GraphLaws.AllAskedForAreListed | internal/agentquery/explore.go:353-417 | Below the cap an unflagged graph lists all of them that leave a node nearer than maxHops |
| GraphLaws.NothingElseIsLeftOut | internal/agentquery/explore.go:358-394 | In every walk below the node cap, flagged or not, each node nearer than maxHops has had its steps looked at in order, all of them or until it had discovered fanOut units |
| GraphLaws.GraphLeavesNothingElseOut | internal/agentquery/explore.go:358-417 | So in every graph below the node cap what such a node leads to is there, unless it has discovered its fill |
| Explore.NormalizeTraversal | internal/agentquery/explore.go:467-512 | A request is refused exactly when it names an unknown direction or relation type; an accepted one has 1 to 4 hops, 1 to 256 nodes and a fan-out of 1 to 64 |
| GraphLaws.RequestIsTakenOver | internal/agentquery/explore.go:467-512 | An accepted request keeps numbers that are in range and sets the others to the default or the greatest; direction, kinds and the exclusion of conflicts are as given |
| ExploreLaws.BuiltIsSound | internal/agentquery/explore.go:295-455 | For every request, cut or not: visible input units within maxHops, at most maxNodes, nearest first, each once; edges eligible input relations from a node to a visible unit, each once; one real path of exactly Hops listed edges per node that is no seed |
| ExploreLaws.BuiltIsCompleteIff | internal/agentquery/explore.go:386-391 | An unflagged graph shows all units within maxHops if and only if they are no more than maxNodes, and every shown unit at its true distance |
| ExploreLaws.BuiltIsComplete | internal/agentquery/explore.go:353-417 | For an accepted request, unflagged and with fewer units within maxHops than maxNodes: exactly those units, at their true distance, and exactly the eligible relations leaving nearer nodes |
| ExploreLaws.NarrowIsNotCut | internal/agentquery/explore.go:317-391 | A condition on the input alone under which nothing is cut |
| ExploreLaws.UnflaggedMayMissUnit | internal/agentquery/explore.go:389-391 | An accepted request whose unflagged result misses a unit one step from a seed |
| ExploreLaws.UnflaggedMayMissEdge | internal/agentquery/explore.go:389-391 | One whose reach equals maxNodes: unflagged, all units returned, and a relation between two of them missing |
| ExploreLaws.BuiltIsOrderFree | internal/agentquery/explore.go:286-455 | The whole result is unchanged by permuting units and relations with distinct ids |
| DeleteReplay.StepKeepsInv | internal/app/operations.go:396-442 | Every step of any worker, crash, replay or other operation keeps: committed implies fenced, and every worker's claim about what is clean |
| DeleteReplay.WorkerStepKeepsStore | internal/knowledge/service_doc.go:627-698 | A worker step keeps the store sound, only shrinks a fenced scope, and commits the marker only over a fenced scope |
| DeleteReplay.RecheckedIsFenced | internal/knowledge/service_doc.go:639-646 | A target found deleting means its whole subtree is fenced, so cleanup may resume |
| DeleteReplay.EndIsClean | internal/knowledge/service_doc.go:656-707 | After a short keyset page whose documents are clean the whole scope is clean |
| DeleteReplay.PagesAreKeysetPages | internal/knowledge/service_doc.go:656-668 | The pages of a delete are keyset pages over the ids of its scope |
| DeleteOutcomes.AttemptsGoUp | internal/operations/items.go:163-200 | In every run an item, once marked, stays marked, by attempts that never go down |
| DeleteOutcomes.StaleWritesNothing | internal/operations/items.go:163-200 | No step of a worker, not even its failure, changes a marker that is committed or of a later attempt |
| DeleteOutcomes.FencingCommits | internal/knowledge/store.go:1634-1668 | In every run: a worker that deletes the target, in a pass that found the item unresolved and marked by no later attempt, commits the marker in that same step |
| DeleteOutcomes.LonePassEnds | internal/app/operations.go:396-516 | Every pass left alone that found the item so: an active target ends deleted, clean and committed; one being deleted ends clean, and committed unless it is a document; a missing directory is skipped; a missing document or base is an error |
| DeleteOutcomes.SkippedStaysSkipped | internal/app/operations.go:407-427 | One that finds the item skipped reports just that and changes nothing |
| DeleteRuns.CommittedIsFinal | internal/app/operations.go:192-218 | In every run a committed marker is never rewritten or downgraded and its target stays fenced |
| DeleteRuns.DeletedStaysDeleted | internal/knowledge/store.go:1633-1676 | In every run a deleted document or directory stays deleted and only loses data, whatever other operations do |
| DeleteRuns.DeletingBaseStays | internal/knowledge/service_base.go:897-949 | In every run a base that is being deleted stays so, marker or not |
| DeleteRuns.SuccessIsClean | internal/app/operations.go:474-515 | Once any worker has reported success the scope is fenced and clean at every later point |
| DeleteRuns.StepProgresses | internal/knowledge/service_doc.go:656-707 | Every step of a worker lowers a lexicographic measure, so no pass runs forever |
| DeleteRuns.LoneRunSucceeds | internal/knowledge/service_doc.go:627-724 | Whatever batches, pages and orders it chooses, a worker that cannot miss its target and is left alone stops only in success, with the scope clean |
| DeleteRuns.LoneRunEnds | internal/knowledge/service_doc.go:656-707 | No worker steps on forever |
| DeleteRuns.RunsToSuccess | internal/knowledge/service_doc.go:627-724 | From where it stands such a worker has a run to success |
| DeleteRuns.ReplayConverges | internal/app/operations.go:918-980 | From any reachable point after the commit, however many workers crashed, every replay left alone until it stops succeeds and leaves the scope clean |
| RetainedRaw.BaseLeavesNothing | internal/knowledge/service_base.go:897-949 | A successful base delete leaves no raw file and no chunk of the base |
| RetainedRaw.WithoutStrayNothingIsLeft | internal/knowledge/service_doc.go:670-698 | If every raw file of the scope was its document's active one at the start and none was replaced meanwhile, success leaves none, whatever else was imported |
| RetainedRaw.RetainedFileCanLeak | internal/knowledge/store.go:1882-1940 | A retained raw file is enough: some run with one crash ends in success with it orphaned |
| RetainedRaw.ForgottenFileStays | internal/knowledge/service_doc.go:670-698 | A raw file orphaned by an earlier delete stays through a successful one |
| RetainedRaw.LeakFreeIffNothingRetained | internal/knowledge/service_doc.go:670-698 | From any sound store with the item uncommitted: success leaves no raw file in every run, with crashes, replays, other deletes and all imports but those that replace a raw file of the scope, if and only if a base is deleted or no document of the scope, tombstones included, has a raw file besides its active one at the start |
| RetainedRaw.UpdatedDocumentLeaks | internal/knowledge/service_doc.go:674-684 | A document imported once deletes without leaks; imported twice, a crash during its delete can orphan the first raw file |
| Keyset.ScanVisitsAll | internal/knowledge/service_base.go:755-785 | Keyset paging visits every row that stays, whatever rows come and go meanwhile |
| Keyset.VisitedOnce | internal/knowledge/service_base.go:755-785 | ... and none twice |
| Keyset.NextPage | internal/knowledge/service_base.go:757-764 | A page is the next rows in key order, complete up to its last |
| RestoreBase.Restore.RestoreDocument | internal/knowledge/service_base.go:800-854 | One document: a ready copy is kept whatever has become of its source; otherwise a file without bytes is an error, a blank text is skipped, anything else is ingested |
| RestoreBase.Restore.RestoreAll | internal/knowledge/service_base.go:720-782 | A completed attempt leaves a ready copy per restorable source, the one it had or one with its content, and nothing else new; it is stopped only by a file that has lost its bytes and has no ready copy |
| RestoreBase.Restore.RestoreWithRetries | internal/knowledge/service_base.go:720-782 | After any number of crashed attempts, with sources changing in between, it completes if and only if no file without a ready copy has lost its bytes; no row is lost and ready ones stay; new rows are only those of sources some attempt found restorable, one each, and ready ones hold what the source had then |
| SemanticCompile.FindChanges | internal/knowledge/semantic_memory.go:210-232 | The loops over pending marks, signatures and prior signatures compute the dirty and the deleted documents |
| SemanticCompile.CollectCurrent | internal/knowledge/semantic_memory.go:255-272 | The loops over ids and fingerprints, with the missing-fingerprint exit |
| SemanticCompile.FingerprintsAreReusable | internal/knowledge/semantic_memory.go:262-272 | The error "lacks a reusable fingerprint" is unreachable |
| SemanticCompile.CompileIsSound | internal/knowledge/semantic_memory.go:302-355 | Whatever changed between listing and reading, the compiled ids, signatures, fingerprints and provenance agree id by id and are never newer than the documents |
| SemanticCompile.BuiltIsRebuild | internal/knowledge/semantic_memory.go:210-355 | With no change in between, the fast path's ids, fingerprints and provenance equal a full rebuild, whatever the pending marks say |
| SemanticCompile.UpToDateIsRebuild | internal/knowledge/semantic_memory.go:233-240 | When nothing is found to do the active compilation already is the full rebuild, so a lost mark hides nothing |
| SemanticCompile.FailsIffNothingToCompile | internal/knowledge/semantic_memory.go:291-311 | An undisturbed compile fails exactly when no ready document has IR and it is the first one or the compiler changed |
| SemanticService.Service.Decide | internal/knowledge/semantic_memory.go:208-355 | The source's branches compute the specified outcome |
| SemanticService.Service.CompileSemanticMemory | internal/knowledge/semantic_memory.go:136-376 | One call over the store: on success the active compilation is the full rebuild and no mark is pending, on failure nothing changed |
| SemanticRuns.StepKeepsInv | internal/knowledge/semantic_memory.go:357-368 | Document changes, marks, upgrades, crashes between create, activate and resolve keep every stored compilation coherent and at most one active |
| SemanticRuns.CompileRebuilds | internal/knowledge/semantic_memory.go:136-376 | At any reachable point, whatever crashed and whichever marks were lost, an undisturbed compile equals the full rebuild, or fails for want of IR and changes no compilation |
| SemanticRuns.CompileExists | internal/knowledge/semantic_memory.go:136-376 | From every point that is not amid a compile, a compile can run to its end |
| SemanticRuns.SecondCompileReturnsSame | internal/knowledge/semantic_memory.go:159-171 | A second compile with no change returns the same generation if and only if every ready document has IR or none has |
| SemanticRuns.SecondCompileMayDiffer | internal/knowledge/semantic_memory.go:159-171 | A run with one ready document with IR and one without, where compiling twice makes two generations |
| SemanticRuns.UpgradeMayFail | internal/knowledge/semantic_memory.go:291-311 | A run in which the only document loses its IR and the compiler is upgraded: compiling fails and the old compilation stays active |
| Markdown.FenceClosesIff | internal/chunk/split.go:105-112 | A fence is closed exactly by a line holding only a run of its own mark, at least as long |
| BlockLaws.FenceOpensIff | internal/chunk/split.go:82-103 | A fence is opened exactly by a run of three or more backticks or tildes after blanks, and by all of it |
| BlockLaws.HeadingMatchesIff | internal/chunk/split.go:114-125 | A heading is exactly one to six number signs after blanks, a blank, and the title |
| BlockLaws.NumberedMatchesIff | internal/chunk/split.go:127-165 | A numbered heading is exactly a section number with single dots between its digit groups, a blank and more; its level is one more than the dots, at most six |
| BlockLaws.KindsAre | internal/chunk/split.go:31-58 | Every line is in a fence exactly when some earlier opening line is closed by no line since, and else an opening, a heading, blank or plain, in that order |
| BlockLaws.KindsAreUnique | internal/chunk/split.go:31-58 | ... which leaves no choice |
| Blocks.FencesAreProtected | internal/chunk/split.go:31-44 | Inside a fence no blank line or heading drops or starts anything |
| Blocks.RangesAreBlocking | internal/chunk/split.go:31-67 | The line-by-line ranges meet the declarative form: in order, disjoint, maximal, and covering every kept line |
| Blocks.BlockingIsUnique | internal/chunk/split.go:31-67 | ... and no other ranges do |
| Blocks.GoverningTitle | internal/chunk/split.go:45-58 | The heading entry at a level is the last heading of that level with no later one that outranks it |
| Blocks.NoGoverningTitle | internal/chunk/split.go:45-58 | Where no heading governs a level the entry is missing or blank |
| BlockLaws.HeadingPathIs | internal/chunk/split.go:72-80 | The heading path is the titles that govern, not blank, from the highest level to the deepest, joined with an angle bracket, and empty exactly when there is none |
| BlockLaws.BlocksAre | internal/chunk/split.go:18-69 | The blocks follow one another, leave out only headings and blank lines outside fences, begin and end only at these, at fence openings and at the ends of the text, and hold their lines, trimmed, under the heading path before them |
| SplitBlocks.Split | internal/chunk/split.go:18-69 | The loop with its current block, headings and fence computes those blocks |
| SplitBlocks.SplitKeepsContent | internal/chunk/split.go:18-69 | Blocks hold every non-white-space symbol of the kept lines, in order, and nothing else |
| Windows.CutIsBest | internal/chunk/split.go:207-271 | For any score decay, min < cut <= end, and no eligible break outscores the one cut at |
| PieceLaws.BreaksFromAre | internal/chunk/split.go:226-256 | The line breaks of a stretch are exactly those of its lines: 20 before the line after a blank one, 100 to 50 after a heading by its level, 80 a fence, 60 a rule, 5 a list item |
| PieceLaws.SentencesAre | internal/chunk/split.go:258-265 | The sentence breaks are exactly those after one of three Chinese and Japanese marks |
| PieceLaws.FoundCutIsBest | internal/chunk/split.go:207-271 | The cut is at the break that fades to the most, and of several at the one that comes first; at the end when none fades to more than -1 |
| Windows.ScanForCut | internal/chunk/split.go:207-271 | The line scan and the sentence scan compute that cut |
| Windows.WindowsTile | internal/chunk/split.go:170-193 | Untrimmed windows concatenate to the block: the overlap never takes effect |
| Windows.WindowSizes | internal/chunk/split.go:170-193 | No window exceeds the size and all but the last exceed what precedes the final 22 percent, which bounds their number |
| Windows.WindowBlock | internal/chunk/split.go:170-193 | The windowing loop computes those windows, trimmed |
| Windows.WindowsKeepContent | internal/chunk/split.go:170-193 | Windowing keeps every symbol that is not white space |
| PieceLaws.WindowsAre | internal/chunk/split.go:170-193 | Every window but the last ends at the best cut of the last 22 percent of a full window, and the last is what is left |
| PieceLaws.LinesAreParts | internal/chunk/split.go:31 | The lines of a text are its parts between line ends |
| Pieces.Chunk | internal/chunk/chunk.go:41-81 | Heading-aware chunking of a normalized text, with the fallback when nothing is left |
| PieceLaws.ChunksAre | internal/chunk/chunk.go:41-81 | The chunks are the pieces of the blocks in order: a block that fits as it is, else its windows, all under its heading; the start of the text when there is no block |
| Pieces.ChunkingKeepsContent | internal/chunk/chunk.go:70-81 | What the chunker returns holds exactly the content of the kept lines, or, when these have none, exactly that of the start of the text |
| Pieces.OnlyTheStartIsLeft | internal/chunk/chunk.go:76-80 | In that case exactly what follows the first chunk size is lost |
| Pieces.LongHeadingIsCut | internal/chunk/chunk.go:76-80 | For every size, a single heading longer than it, of which some content is lost |
| Pieces.ChunksAreShort | internal/chunk/chunk.go:70-81 | No chunk is longer than the size |
| Pieces.HalvesAreGood | internal/chunk/split.go:302-321 | Both halves of a split have content, together all of it, and each is at most three quarters of the text |
| PieceLaws.SplitIsPreferred | internal/chunk/split.go:302-321 | A text is halved after the last occurrence, within a quarter of it around the middle, of the first of seven separators that leaves something on both sides |
| PieceLaws.RefinesAtBoundary | internal/chunk/chunk.go:154-180 | What is within the limit, under 40 symbols or without such a boundary stays; the halves of anything else are refined in turn |
| PieceLaws.RefinedAre | internal/chunk/chunk.go:154-180 | Every piece is refined in its place, under its heading |
| Pieces.RefinedAreLeaves | internal/chunk/chunk.go:154-180 | Every refined piece is within the limit, or short, or has no boundary, so refining again changes nothing |
| Pieces.RefiningKeepsContent | internal/chunk/chunk.go:154-180 | Refining one piece loses no content |
| Pieces.RefiningAllKeepsContent | internal/chunk/chunk.go:154-180 | Nor does refining a list of pieces |
| Pieces.DepthIsLogarithmic | internal/chunk/chunk.go:154-180 | To recurse d levels deep a text needs 40 * (4/3)^(d-1) symbols |
| Pieces.RefineByTokenLimit | internal/chunk/chunk.go:154-180 | The appending recursion computes the refined pieces |
| Fragments.HygieneIsSound | internal/knowledge/quality.go:186-230 | Hygiene keeps all content, returns its input or only pieces with ten meaningful symbols, and never holds a fragment at the end |
| Fragments.HygieneMakesGroups | internal/knowledge/quality.go:186-230 | One piece for each healthy one, under its heading: untouched when no fragment is next to it, else with the fragments up to the next healthy one, and before the first one, on lines of their own |
| Fragments.HygienizeChunks | internal/knowledge/quality.go:186-230 | The sweep with its held fragment computes it; the trailing branch is dead |
| Fragments.GroupsAreMaximal | internal/chunk/semantic.go:44-69 | Greedy groups follow one another, fit the size unless single, and end only where the next segment does not fit or is not similar |
| Fragments.GroupsRejoin | internal/chunk/semantic.go:44-69 | Merged texts rejoin with newlines to the original |
| Fragments.MergeSemanticSegments | internal/chunk/semantic.go:18-70 | The merging loop computes those groups |
| JobRuns.StepKeepsInv | internal/jobs/manager.go:184-330 | Every step of submitters, the persisting goroutine, workers, cancellers and restarts keeps the registry, queue, table and writes consistent |
| JobRuns.WritesAreOrdered | internal/jobs/manager.go:204-330 | In every interleaving a job's durable writes are pending, running any number of times and one terminal, or a part of that, or one failure; finishTask runs at most once |
| JobRuns.TerminalIsFinal | internal/jobs/manager.go:356-379 | Once a reader has seen a terminal state every later reader sees the same job |
| JobManager.Manager.Submit | internal/jobs/manager.go:184-222 | An accepted task is visible as pending at once; a full queue leaves no trace of it |
| JobManager.Manager.Apply | internal/jobs/manager.go:265-300 | Field by field what a report makes of a job: running; the count, else the byte percentage, else the percentage, kept within 0 and 100; every other field as reported when it is |
| JobManager.Manager.ReportProgress | internal/jobs/manager.go:265-303 | The critical section of a report is the specified step |
| JobManager.Manager.CancelTask | internal/jobs/manager.go:382-391 | Only a task that has not ended can be cancelled, and nothing a reader sees changes |
| JobManager.Manager.Status | internal/jobs/manager.go:356-379 | A reader is told the registry's job, or the table's when it is not there |
| JobManager.Manager.FinishTask | internal/jobs/manager.go:310-325 | The critical section of finishTask makes the task terminal and unregisters it in one step |
| JobManager.Manager.RunTask | internal/jobs/manager.go:240-308 | One worker run ends in failed, cancelled or its own outcome as the pending write, the cancellation and the work decide |
| AutoContext.LongestIsLongest | internal/extension/context.go:238-264 | A prefix fits if and only if it is no longer than the longest one |
| AutoContext.ClipToTokens | internal/extension/context.go:238-264 | Halving, then growing, finds the longest fitting prefix before trimming |
| AutoContext.EvidenceFits | internal/extension/context.go:216-233 | Label, space and clipped body always fit the budget together |
| AutoContext.NeverClippedAgain | internal/extension/context.go:130-139 | So the second clipping after the fact never happens |
| AutoContext.SelectionIsBounded | internal/extension/context.go:94-165 | Whatever the hits and filters: at most 180 tokens each, at most 540 together, no base beyond its seats, in hit order, so the total budget of 640 never binds |
| AutoContext.SelectContributions | internal/extension/context.go:94-165 | Every chosen hit had a seat left, passed the filter given those chosen before it, and has evidence; every other hit had no seat left, came when the limit was reached, was refused by the filter given those chosen before it, or has no evidence |
| AutoContext.SelectionIsUnique | internal/extension/context.go:94-165 | ... and only one selection is like that |
| AutoContext.EvidenceIs | internal/extension/context.go:216-264 | The evidence of a hit is its label, a blank and the source, or the longest opening of it within the rest of 180 tokens, trimmed; nothing without a body |
| AutoContext.NoticeIsUncounted | internal/extension/context.go:145-150 | The notice put before each contribution is not counted: every contribution costs exactly 31 tokens more than is accounted for, and all of them together at most 633, still under 640 |
| AutoContext.DeliveryMayExceed | internal/extension/context.go:130-150 | A hit that fills its budget of 180 is delivered with 211 tokens |
| DocumentIr.BindingKeepsParents | internal/documentir/document.go:121-173 | Where identities are told apart, binding keeps the tree: a node's parent is the same node as before, none if it named none, and besides identities and children lists nothing changes |
| DocumentIr.BindingKeepsEnds | internal/documentir/document.go:166-170 | And both ends of every relationship |
| DocumentIr.IdentitiesAreMadeOf | internal/documentir/document.go:108-172 | A node's identity is made of its document, kind, position and anchor, a relationship's of its new ends and its kind |
| DocumentIr.ValidIff | internal/documentir/document.go:121-197 | Binding validates if and only if every node has a kind and no two share kind, position and anchor |
| DocumentIr.ChildrenInvertParents | internal/documentir/document.go:149-165 | Children lists are the exact inverse of parent links |
| DocumentIr.ChildrenOrdered | internal/documentir/document.go:158-165 | ... and come in node order, each once |
| DocumentIr.RebindingIsDirect | internal/documentir/document.go:137-172 | Binding to A after binding to B equals binding to A, for every document |
| DocumentIr.RebindingLinksIsDirect | internal/documentir/document.go:166-170 | The same for relationships |
| DocumentIr.FromText | internal/documentir/document.go:246-279 | The loop over parts builds the specified outline |
| OutlineLaws.OutlineIs | internal/documentir/document.go:246-279 | The outline is the root and a node for each part with a text: its kind, text and place, the last heading before it as its parent, and the path of the headings in force |
| DocumentIr.FromTextBinds | internal/documentir/document.go:246-279 | What a plain text becomes always validates after binding |
| DocumentIr.FromTextIsAcyclic | internal/documentir/document.go:246-279 | ... and every node's parent is an earlier heading or the root |
| DocumentStore.Document.BindDocument | internal/documentir/document.go:121-173 | In place: nodes and relationships become the bound ones and success is validity; a blank id or foreign version leaves them alone |
| DocumentStore.Document.NodeByID | internal/documentir/document.go:202-238 | The cached lookup misses exactly the ids that only nodes without text carry |
| DocumentStore.BlankNodesAreNotFound | internal/documentir/document.go:202-238 | After a binding that validates, no node without text is found by its id |
| DocumentStore.BlankNodeIsNotFound | internal/documentir/document.go:202-238 | A picture without a caption binds and validates, and its own id finds nothing |

## Left out

- Bytes and UTF-8: texts are sequences of symbols. Where the source compares byte lengths (window-or-keep, the refinement threshold, the merge size, crop lengths) the model compares symbol counts: also the minimum overlap of 24 and the sentence radius of 96 are symbols here and bytes there. Focus components are ranked by their UTF-8 bytes as in the source. Case folding keeps lengths.
- Excerpts.SearchLongestFit: the focus span is located once per fit, not once per probe; it depends only on the text and the query, so the result is the same.
- Compose.ComposeWindow: chunks are pooled by index before the walk, without the sort of the source's map keys, which affects nothing the walk reads.
- Go's map and slice aliasing in the evidence, exploration and chunking loops: slices are reassigned sequences, so updates through a shared backing array are not captured. `sort.Slice` is a sorting function; `Explore.SortedIsUnique` shows the algorithm does not matter.
- Explore.NormalizeTraversal: words of a request are taken as already looked up, known or unknown.
- Explore: evidence resolution of nodes and its errors (`internal/agentquery/explore.go:425-434`), temporal visibility (a given property of units) and the multi-base merge.
- Delete replay: semantic propagation of a delete (`service_doc.go:709-723`), retirement of old generations, and an import whose raw file write is still in flight while the fence commits. Parent links are given as the set of directories above a document. Ids are numbers ordered like the source's keys.
- The batch executor `delete_documents` skips resolved items without resuming their cleanup (`internal/app/operations.go:1645-1653`); the convergence results are about the three single-target deletes only.
- DeleteRuns.ReplayConverges: the replay runs undisturbed; with other operations interleaved only the safety results hold.
- FanOut.ExploredKeepsFanOut: for seeds without repetition, as semantic activation gives them; nothing is claimed of a repeated seed.
- ExploreLaws.BuiltKeepsFanOut: likewise for hits without repetition.
- RetainedRaw.LeakFreeIffNothingRetained: nothing is claimed of runs in which a document of the scope is imported over another raw file of its own while the delete is under way; such an import makes a retained file.
- RestoreBase.Restore.RestoreAll: the source base may change between attempts, not during one, and parsing inside ingest is a single step that succeeds or crashes; reads of a changing source are covered by `Keyset.ScanVisitsAll`.
- SemanticCompile.CompileIsSound: metadata, active compilation and pending marks are read in one step, also off the fast path, where the source lists the documents twice; IR is read later, at the generation current then. Compilations from before metadata signatures existed are not modelled. Units and relations are represented by the document each stems from, which is what the merge selects by.
- SemanticRuns.CompileRebuilds: a document's IR is taken to be fixed per generation and the fingerprint to be a function of what was read.
- The semantic in-memory cache and concurrent compilers in several processes.
- Pieces.Chunk: takes an already normalized text and a size in symbols; line-ending normalization, the conversion of tokens to symbols through a floating ratio and the separator mode are not modelled.
- Windows.CutIsBest: scores fade by an arbitrary function instead of powers of 0.7; rounding of 22 percent is exact arithmetic.
- Fragments.MergeSemanticSegments: texts only, without the headings of the pieces; similarity is an arbitrary relation between a group and the next segment; the derived vectors are not modelled.
- JobRuns.WritesAreOrdered: reports of one task come one after another; the two queues are one set from which workers take in any order; failures of later writes are allowed.
- JobManager.Manager.Apply: the byte percentage is exact and truncated; the source truncates a product of floats, which can be one less (29 of 100 gives 28).
- JobManager.Manager.ReportProgress: the same holds of its byte percentage.
- JobManager.Manager.RunTask: one worker alone whose later writes succeed; interleavings are in JobRuns.
- AutoContext.SelectContributions: scores, keywords, identifiers and pruning are one arbitrary filter over the hits chosen so far; labels are given texts.
- DocumentIr.FromText: takes the parts already split at blank lines, with heading level and label recognized; hashing and number formatting are injective functions.
- Configuration clamps, citation formatting, scope resolution, HTTP and MCP transports, providers, parsers, health checks and command line programs: plumbing, or members that would only be easy.
