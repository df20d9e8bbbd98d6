# Verified model of the knowledge base's core

This project states, in Dafny, what the deterministic core of the knowledge-base application computes, and proves
properties of it that hold for every input, every run or every reachable state. Code that works by updating fields
and collections is modelled by classes and methods with loops; each such method is proved against a function of the
old state, and the properties are lemmas about that function or clauses of the method. Code made of expressions is
modelled by functions.

| module | models |
|---|---|
| Sequences, OrderedDict, Ranking, Text | Python's list comprehensions, insertion-ordered dict, stable sort, slices and string operations |
| GraphModel, BreadthFirst | nodes, edges and walks, and the order in which a breadth-first search finds nodes |
| ShortestPath, Neighbourhood, Selection, Overview, PlainGraph, GraphStore | the in-memory graph store: upserts, `path`, `neighbors`, `search` |
| StarStore, HiddenDocument | inputs on which `neighbors` exceeds its limit and `path` raises a KeyError |
| Similarity, VectorStore | the in-memory vector store and what its scores mean |
| Retrieval, RagRecords, PlainRetrieval, RagService | indexing and keyword, vector and hybrid search |
| Chunking, Heading, ChunkSpacing, ChunkPlaces | paragraph packing, offset recovery and headings, and where the chunks of a text belong |
| Anchors | evidence anchors, from their validation to the reader page's highlights |
| KnowledgeBase, MergeQuotient, MergeDuplicates, MergeCounts, PlainMerge | merging one entity into another |
| AutoMerge, JoinedPairs, PlainAutoMerge | the workspace-wide merge |
| EntityResolution, PlainResolution, PlainExtraction, EntityLifecycle, PlainRelations, EntityServices | resolving, extracting, relating and cleaning up entities |
| TaskWorker, WorkerRuns, WorkerSync | the background worker |
| GraphSync, ProjectionIds, SyncClosure, SyncRows, SyncService | projecting the database into the graph store |
| ModelRouting | providers, models and routes |

The lemmas named `...InPlainTerms` restate what an operation does over the fields of the stored rows and records alone,
by predicates that no modelled operation uses; the methods promise those too.

Parameters stand for what the code gets from outside: the answers of language models, embeddings and digests, case
folding, token overlap, the text match of a query, keyword scores, new ids, how a job's handler ends and whether a sync
goes through. Scores and confidences are real numbers.

`flush` in the merge modules says whether the query that de-duplicates relations sees the pending changes of its
session. The application's sessions have autoflush off (backend/app/infrastructure/database.py:42), so `flush` is
false there; the quotient and integrity theorems hold for both values.

## Where the code differs from what is said about it

- Merging: the text of `_dedupe_relations` promises that identical relations are collapsed
  (backend/app/services/entity_merge.py:211-215). With autoflush off this fails exactly when there is a hidden
  collision (`UnflushedMergeLeavesNoDuplicatesIff`, `TwoRowsToOneTargetStay` gives an input); with flushing it holds.
  The reported counts can then be too high as well: `UnflushedMergeConservesIff` says exactly when,
  `JoiningPairIsMiscounted` gives an input.
- Merging entities of different types or workspaces is accepted and can uncover a name, so that it may be created
  again: `MergeCoversIff` says exactly when, `CrossTypeMergeUncovers` gives an input.
- Resolving an item again can create a second entity if the item has neither a name nor an alias, because a match does
  not store the item's normalized name: `RecreatedAtOnceIff` says exactly when.
- Without a language model extraction goes by exact normalized names of the whole workspace
  (backend/app/services/entity_extraction.py:50-58): the type is not compared (`PlainIsExact`), and the name of a
  merged-away entity is created again (`PlainForgetsMerged` says exactly when), although the merge keeps it as an alias.
- `auto_merge` without a language model treats every overlapping pair as confirmed, although a comment calls these
  dry-run candidates (backend/app/services/entity_merge.py:143-146). In either mode it skips a pair one of whose
  entities was consumed (backend/app/services/entity_merge.py:96-98), so a confirmed pair can end in two entities:
  `AutoMergeJoinsIff` says exactly when, `RowOfThreeIsLeftApart` gives an input.
- Worker: a document without pending extraction jobs is said to get a graph sync
  (backend/app/services/task_worker.py:17-18). A last job that fails is followed by none, and a sync that fails is not
  tried again (`SyncAfterLastSuccess`).
- `neighbors` can return limit + 1 nodes: `ExceedsLimitIff` says exactly when, `StarExceedsLimit` gives a store for
  every limit. A limit below 1 returns the seed.
- `path` raises a KeyError exactly when the walk it finds visits a node that is not stored (`PathFailsIff`). A hidden
  document that is mentioned makes such walks (`HiddenMentionDangles`, `HiddenDocumentBreaksPath`). With equal source
  and target it finds the first non-empty closed walk.
- Chunk offsets need not slice out their chunk: `OffsetsInOrder` and `OffsetsExactIff` say exactly when,
  `DocumentInPlaceIff` says for which spacing of the text they are the places of the chunk's own paragraphs, and
  `ExtraBlankLineMisplaces` gives a family of inputs.
- `validate_anchor` accepts a claimed end beyond the chunk, because a Python slice is clamped; the reader page then
  drops that insight: `AnchorInsideUnlessClaimOvershoots` says exactly when, `OvershootingClaimIsAccepted` gives inputs.
- Cleanup's count is not the number of entities removed when a stored id is listed twice (`CleanupCountIff`,
  `TwoListedOneRemoved`).
- The refusal to delete a routed model asks to remove its route first, but no operation removes a route
  (`SessionsKeepConsistent`). The model can be deleted once its capability is routed to another one
  (`RerouteFreesModel`).

## Model

| member | source | states |
|---|---|---|
| `GraphStore.InMemoryGraphStore.IncidentEdges` | backend/app/infrastructure/graph_store.py:204-219 | Exactly the stored edges that touch the node and meet the filters, in store order: with relation types asked for the edge has one of them, with a bound its confidence, 0 if absent, is no lower. |
| `GraphStore.InMemoryGraphStore.Search` | backend/app/infrastructure/graph_store.py:129-175 | The answer equals the ranked, cut candidate list with its induced edges; for a non-negative limit: at most limit nodes of the asked workspace and types that match, all of them if fewer came back, and every edge between them; a wildcard answer is sorted by the number of edge ends, and none left out has more. |
| `GraphStore.InMemoryGraphStore.Degrees` | backend/app/infrastructure/graph_store.py:154-159 | The degree table counts, for each candidate, the ends of induced edges at it. |
| `GraphStore.InMemoryGraphStore.UpsertNodes` | backend/app/infrastructure/graph_store.py:84-86 | The nodes become the old ones overwritten by the list in order; ids stay keys; edges are untouched. |
| `GraphStore.InMemoryGraphStore.UpsertEdges` | backend/app/infrastructure/graph_store.py:88-90 | The same for edges. |
| `GraphStore.InMemoryGraphStore.Report` | backend/app/infrastructure/graph_store.py:191-194 | Records for the ids of a walk in order, or the KeyError for its first node that is not stored; never that on an edge-closed store. |
| `GraphStore.InMemoryGraphStore.CandidateNodes` | backend/app/infrastructure/graph_store.py:139-146 | The nodes of the workspace and type filter that match, in store order. |
| `GraphStore.InMemoryGraphStore.EdgesWithin` | backend/app/infrastructure/graph_store.py:169-174 | The stored edges with both ends among the returned nodes, in store order. |
| `GraphStore.InMemoryGraphStore.Path` | backend/app/infrastructure/graph_store.py:177-198 | On every valid store: nothing when an endpoint is not stored or no undirected walk of 1 to max_depth edges joins them; otherwise the first walk (shortest, then first by the places of its edges in the store), or the KeyError for the first of its nodes that is not stored. |
| `GraphStore.InMemoryGraphStore.FollowEdges` | backend/app/infrastructure/graph_store.py:186-197 | One expansion: either the first walk to the target, or the next state in which the nodes found are still the nearest ones in order, the queue carries their walks, and every step from the nodes done leads to one of them. |
| `GraphStore.InMemoryGraphStore.Neighbors` | backend/app/infrastructure/graph_store.py:92-127 | Nothing for an unknown seed. Otherwise a sound answer (stored nodes and admissible edges, none twice, joined to the seed by at most depth returned edges); for a limit below 1 the seed; the whole ball, nearest first, if that has fewer than limit nodes; and else exactly the limit nearest nodes, the end of the first step that leaves them if there is one, and exactly the edges taken on the way. The edges stand in the order in which they are first taken: by the node they are taken from, then by their place in the store. |
| `GraphStore.InMemoryGraphStore.SelectAround` | backend/app/infrastructure/graph_store.py:111-123 | The inner loop keeps the phase of the selection: below the limit all steps are taken, the step that meets it is the last, and afterwards only the first step of a node is. |
| `GraphStore.InMemoryGraphStore.SelectEdge` | backend/app/infrastructure/graph_store.py:112-121 | An inadmissible end changes nothing; an admissible one is taken with its edge, and labelled and queued if it is new. |
| `GraphStore.InMemoryGraphStore.ExpandHead` | backend/app/infrastructure/graph_store.py:107-123 | One turn of the loop keeps its invariant and adds a node or shortens the queue. |
| `PlainGraph.PathInPlainTerms` | backend/app/infrastructure/graph_store.py:177-198 | Over the fields of the stored records: the answer is a chain of 1 to max_depth stored edges, each joining two stored nodes next to each other in the answer, from source to target, and no chain with fewer exists; nothing comes back only if an end is not stored or there is none; a KeyError names a node on a shortest chain that is not stored. |
| `PlainGraph.NeighboursInPlainTerms` | backend/app/infrastructure/graph_store.py:92-127 | Over the fields of the stored records: every edge returned has an asked relation type and enough confidence, every node but the seed an asked node type; and an answer below the limit holds exactly the nodes at the end of a chain of at most depth such edges through such nodes, and exactly such edges at nodes on shorter chains. |
| `PlainGraph.LinkIff` | backend/app/infrastructure/graph_store.py:111-119 | An edge leads from one node to another if and only if it joins them, in either direction, meets the edge filters, and the other node is stored and meets the node filter. |
| `PlainGraph.SearchInPlainTerms` | backend/app/infrastructure/graph_store.py:129-175 | Over the fields of the stored records: what Search promises, with degrees as numbers of edge ends. |
| `PlainGraph.DegreeCountsEnds` | backend/app/infrastructure/graph_store.py:153-159 | A degree is the number of edges inside the candidates that leave the node plus those that enter it. |
| `ShortestPath.SearchEnds` | backend/app/infrastructure/graph_store.py:198 | When the queue runs empty no walk of 1 to max_depth edges joins source and target. |
| `ShortestPath.ShortestReversed` | backend/app/infrastructure/graph_store.py:177-198 | Searching from b to a finds walks of the same length as from a to b: a shortest walk read backwards is one. |
| `ShortestPath.FirstTripIsShortest` | backend/app/infrastructure/graph_store.py:177-198 | The reported walk has a least number of edges among all non-empty walks between the two. |
| `ShortestPath.PathIsDetermined` | backend/app/infrastructure/graph_store.py:177-198 | Two answers that keep the promise of path are equal: nothing is left open, on any store. |
| `ShortestPath.PathFailsIff` | backend/app/infrastructure/graph_store.py:191-194 | The KeyError is raised if and only if the first walk between the stored endpoints lies within max_depth and visits a node that is not stored. |
| `ShortestPath.ClosedNeverMisses` | backend/app/infrastructure/graph_store.py:191-194 | On a store whose edges all end at stored nodes this never happens. |
| `HiddenDocument.HiddenDocumentBreaksPath` | backend/app/services/graph_sync.py:222-235 | The input: after syncing two entities of different types mentioned only in one hidden document d, every correct path answer between them at max_depth 2 is KeyError(d). |
| `BreadthFirst.NearestOneMore` | backend/app/infrastructure/graph_store.py:186-197 | The next unvisited node reached is the next one in the order of first walks: adding it keeps the list of nearest nodes. |
| `BreadthFirst.FirstToUnmet` | backend/app/infrastructure/graph_store.py:190-194 | The walk over the next edge to an unmet node comes before all other walks to it. |
| `BreadthFirst.NearestUnique` | backend/app/infrastructure/graph_store.py:180-197 | There is only one list of the n nearest nodes around a root. |
| `BreadthFirst.AllFound` | backend/app/infrastructure/graph_store.py:182-198 | When every node found is done, each node within the depth is found, no deeper than its distance. |
| `Neighbourhood.NeighboursAreDetermined` | backend/app/infrastructure/graph_store.py:92-127 | Two answers that keep the promise of neighbors are equal: nodes, edges and their order are determined. |
| `Neighbourhood.ExceedsLimitIff` | backend/app/infrastructure/graph_store.py:107-123 | The answer has more nodes than its limit if and only if the limit nearest nodes lie within the depth and the first step of one of them, by store order, leads to a node that is not among them. |
| `Neighbourhood.LimitOneExceedsIff` | backend/app/infrastructure/graph_store.py:107-123 | At limit 1 two nodes come back if and only if the depth is positive and the first admissible edge of the seed leads to another node. |
| `Neighbourhood.NeverMoreThanOneOver` | backend/app/infrastructure/graph_store.py:107-123 | Never more than limit + 1 nodes; and the whole ball whenever fewer than limit come back. |
| `Neighbourhood.SmallBallIsReturnedWhole` | backend/app/infrastructure/graph_store.py:92-127 | A ball of fewer than limit nodes is returned whole with all edges leading on from nodes at distance below depth; one of limit nodes is never exceeded. |
| `StarStore.StarExceedsLimit` | backend/app/infrastructure/graph_store.py:107-123 | For every limit from 1 on and every depth from 2 on there is a valid closed store on which the answer has limit + 1 nodes. |
| `Selection.CollectedIsSound` | backend/app/infrastructure/graph_store.py:103-123 | The selection (each recorded depth is the length of a walk over selected edges) makes any answer sound, cut short or not. |
| `Selection.OpenIsExact` | backend/app/infrastructure/graph_store.py:106-127 | If the limit was never met and every node found is done, the nodes are exactly those within depth and the edges exactly those leading on from distance below depth. |
| `Selection.OpenToFull` | backend/app/infrastructure/graph_store.py:112-123 | The step that meets the limit leaves the limit nearest nodes, and exactly the steps no later than it have been taken. |
| `Overview.SearchPromise` | backend/app/infrastructure/graph_store.py:139-175 | Only candidates; all of them if they fit; a wildcard answer is sorted by (degree descending, insertion order) and no candidate left out outranks one returned; the edges are exactly those between returned nodes. |
| `Overview.Handshake` | backend/app/infrastructure/graph_store.py:153-159 | The degrees inside a candidate set add up to twice the number of edges inside it, self-loops counted twice. |
| `OrderedDict.PutAllRecords` | backend/app/infrastructure/graph_store.py:84-90 | After a batch of upserts a listed id holds a listed record with that id and every other id its old record. |
| `OrderedDict.PutAllHoldsLast` | backend/app/infrastructure/graph_store.py:84-90 | After a batch of upserts a listed id holds the last listed record with that id. |
| `Ranking.SortDescSorts` | backend/app/infrastructure/graph_store.py:160-166 | The sort is a descending rearrangement that keeps the order of equal keys. |
| `Ranking.StableSortUnique` | backend/app/infrastructure/graph_store.py:160-166 | Those facts determine the sorted list: no other sequence has them. |
| `Retrieval.TruncationLossless` | backend/app/services/rag_service.py:172-184 | For all score lists with one hit a chunk and every limit: cutting keyword and vector hits to limit before the max-merge gives the same sequence of top scores as merging the full lists. |
| `Retrieval.ReturnedScoreIsFull` | backend/app/services/rag_service.py:172-184 | Every hit returned carries the score that the full merge gives its chunk. |
| `Retrieval.FuseAbove` | backend/app/services/rag_service.py:173-183 | A fused score reaches t exactly when the keyword score plus 0.05 or the vector score does. |
| `Retrieval.TopAbove` | backend/app/services/rag_service.py:141 | A ranked and cut list either kept every chunk scoring t or better, or is full of them. |
| `Retrieval.RankByCount` | backend/app/services/rag_service.py:141 | In a ranked list, position i scores t or better exactly when i is below the number of chunks that do. |
| `Retrieval.TopIsBest` | backend/app/services/rag_service.py:131-141 | A bare keyword search returns its best hits: one left out scores no better and the answer is full. |
| `RagService.RagService.HybridSearch` | backend/app/services/rag_service.py:172-184 | Re-indexes, searches and merges; keeps one record a chunk. In terms of the rows and records: a hit's score is the best that its chunk has by keyword plus 0.05 or by vector, whichever list the cut took it from; it shows the row or record of that chunk and names the list it is best in; hits come best first, one a chunk; and a chunk left out reaches no more than each of the hits, of which there are then limit. |
| `RagService.RagService.IndexChunks` | backend/app/services/rag_service.py:49-84 | The store is overwritten by one record a chunk under its vector id; each chunk keeps its other fields and its vector id if it has one; and, with distinct vector ids, every chunk has its record with its embedding, workspace, document and text. |
| `RagService.RagService.KeywordSearch` | backend/app/services/rag_service.py:131-141 | The rows scoring above zero, ranked stably and cut: each hit carries its row's text and score, and a row that scores above zero is left out only behind limit hits that score no less. |
| `RagService.RagService.VectorSearch` | backend/app/services/rag_service.py:143-170 | Indexes first, then the usable ones of the store's cut answer. |
| `RagService.RagService.MergeVector` | backend/app/services/rag_service.py:178-183 | The merged dictionary after the vector hits: one replaces an entry only if it scores strictly better. |
| `RagService.RagService.MergeKeyword` | backend/app/services/rag_service.py:173-177 | The dictionary of the keyword hits, each raised by the bonus. |
| `RagService.RagService.ConvertHits` | backend/app/services/rag_service.py:151-170 | Hits without a chunk or document id are dropped, the others converted in order. |
| `PlainRetrieval.IndexInPlainTerms` | backend/app/services/rag_service.py:49-84 | Every indexed chunk has its record under its vector id, with the embedding of its text and its ids and text in the payload. |
| `PlainRetrieval.KeywordsInPlainTerms` | backend/app/services/rag_service.py:131-141 | Each keyword hit shows a row and its score, and a scoring row is left out only behind a full answer that scores no less. |
| `PlainRetrieval.HybridInPlainTerms` | backend/app/services/rag_service.py:172-184 | The cut-then-merge of the two lists gives each chunk its best score over all rows and records, with the bonus for keywords, whatever the cut dropped. |
| `PlainRetrieval.TieKeepsKeyword` | backend/app/services/rag_service.py:178-183 | A returned hit names the vector list only if its chunk's keyword score plus the bonus is strictly lower, though the keyword hit may have been cut: the tie rule survives the cut. |
| `RagRecords.VectorTop` | backend/app/services/rag_service.py:143-170 | Cutting the store's answer before dropping unusable payloads equals ranking and cutting the converted hits, when every record is usable. |
| `RagRecords.ReindexingChangesNothing` | backend/app/services/rag_service.py:49-84 | Indexing the same chunks again under the vector ids they were given leaves the store as it is, order included. |
| `RagRecords.UpsertKeepsKeys` | backend/app/services/rag_service.py:66-82 | Upserting records keyed by their chunk keeps one usable record a chunk. |
| `VectorStore.InMemoryVectorStore.Upsert` | backend/app/infrastructure/vector_store.py:55-57 | The records become the old ones overwritten by the list in order; ids stay keys. |
| `VectorStore.InMemoryVectorStore.Delete` | backend/app/infrastructure/vector_store.py:78-80 | Exactly the listed ids are gone, and the other records keep their order, which breaks ties of score. |
| `VectorStore.InMemoryVectorStore.Search` | backend/app/infrastructure/vector_store.py:59-76 | The records that meet all filters scored, ranked stably and cut; so at most limit, best first, each with the score of its own vector, none left out better than one returned, and among vectors of equal norm none left out nearer to the query. |
| `VectorStore.HitsInPlainTerms` | backend/app/infrastructure/vector_store.py:59-76 | Ranking and cutting the scored records gives the hits that Search promises over the components of the stored vectors. |
| `VectorStore.PlainHitsAreNearest` | backend/app/infrastructure/vector_store.py:59-76 | No record left out is nearer to the query than one returned with a vector of equal norm. |
| `Similarity.ScoreIsDistance` | backend/app/services/embeddings.py:79-82 | For vectors of one non-zero dimension twice the score is what their squared norms exceed their squared distance by; for any others the score is 0. |
| `Similarity.NearerScoresHigher` | backend/app/services/embeddings.py:79-82 | Among vectors of equal norm one scores at least as high as another if and only if it is at least as near. |
| `Chunking.SplitText` | backend/app/services/document_service.py:362-376 | The chunks are the greedy packing of the stripped non-blank paragraphs and a best packing: allowed groups in order, no allowed grouping has fewer, no text lost, no two neighbours could have been one. |
| `Chunking.PackingIsOptimal` | backend/app/services/document_service.py:364-376 | The chunks are joined groups of paragraphs, each of one paragraph or at most max_chars long, and every in-order grouping with that property has at least as many. |
| `Chunking.StaysAhead` | backend/app/services/document_service.py:366-375 | The exchange argument: from any point on, greedy needs no more groups than a grouping it is level with, and at most one more than one it is ahead of. |
| `Chunking.ChunksJoinToParagraphs` | backend/app/services/document_service.py:362-376 | Joining the chunks with blank lines equals joining the paragraphs. |
| `Chunking.NeighboursDoNotFit` | backend/app/services/document_service.py:369-373 | The first paragraph of a chunk would not have fitted into the chunk before it. |
| `Chunking.SplitIsExact` | backend/app/services/document_service.py:363 | Splitting at blank lines loses nothing and no part contains the separator. |
| `Chunking.OffsetsInOrder` | backend/app/services/document_service.py:344-358 | For every text: chunks carry the pieces in order, the intervals are ordered, disjoint and of the pieces' lengths, and an interval slices out its piece if and only if the piece occurs at or after the previous end. |
| `Chunking.NormalFormIsExact` | backend/app/services/document_service.py:337-376 | For stripped paragraphs separated by exactly one blank line, with any white space around them: the pieces pack those paragraphs, every interval slices out its piece, neighbours are exactly two apart, the first starts after the leading and the last ends before the trailing white space. |
| `Chunking.ExtraBlankLineMisplaces` | backend/app/services/document_service.py:345-347 | The failing family: two paragraphs that fit together but have one more blank line between them make a chunk that occurs nowhere in the text and gets the fallback interval. |
| `Chunking.ListParagraphs` | backend/app/services/document_service.py:363 | The parts that are not blank, stripped, in order. |
| `Chunking.PackParagraphs` | backend/app/services/document_service.py:364-376 | The packing loop computes the greedy packing. |
| `Chunking.LocatePieces` | backend/app/services/document_service.py:343-358 | The loop gives each piece its index and the offset of its first occurrence from the previous end, or that end. |
| `Chunking.SplitDocument` | backend/app/services/document_service.py:337-359 | An empty text gives one empty chunk; any other the pieces with the offsets of the find loop; and each chunk as heading the title of its first line that starts with a hash, without hashes and surrounding space, or nothing. |
| `Chunking.OffsetsExactIff` | backend/app/services/document_service.py:344-358 | For a whole document: every interval slices out its piece if and only if the pieces have any places in the text in order and apart. |
| `Chunking.LeftmostSuffices` | backend/app/services/document_service.py:344-358 | The exchange argument: taking each piece at its first place leaves room for the rest wherever any placement does. |
| `Heading.HeadingInPlainTerms` | backend/app/services/document_service.py:379-384 | For every text, cut into its lines: the heading is the title of the first line whose first visible character is a hash, what follows the hashes with the space around it taken off, and nothing if that is empty or there is no such line. |
| `Heading.TextHasLines` | backend/app/services/document_service.py:380 | The lines of a text, each with its line end, are the text; they hold no line break, only the last may have no end, and a carriage return and line feed end one line. |
| `Heading.TitleInPlainTerms` | backend/app/services/document_service.py:382-383 | A heading line is white space, hashes, white space, the title and white space, and the title starts with no hash. |
| `Heading.FirstDecides` | backend/app/services/document_service.py:380-384 | The first line that is a heading decides, and without one there is none. |
| `ChunkSpacing.TextIsWoven` | backend/app/services/document_service.py:363 | Every text is its stripped paragraphs, each behind a gap of white space, with a blank line in each gap between two, and white space at the end. |
| `ChunkSpacing.GapsAreUnique` | backend/app/services/document_service.py:363 | There is only one way to cut a text into those gaps and paragraphs. |
| `ChunkPlaces.ChunksInPlaceIff` | backend/app/services/document_service.py:344-358 | Every chunk gets exactly the interval from the start of its first paragraph to the end of its last if and only if inside each packed group the paragraphs are one blank line apart, whatever separates the groups; and then every interval slices out its chunk. |
| `ChunkPlaces.DocumentInPlaceIff` | backend/app/services/document_service.py:337-376 | The same for every document, with the groups that the packing makes of its own paragraphs. |
| `Text.Find` | backend/app/services/document_service.py:345 | The first occurrence at or after the start, overlapping ones included, or -1 exactly when there is none. |
| `Anchors.AnchorsHoldEvidence` | backend/app/services/reading_companion.py:56-64 | An accepted anchor slices out the evidence; a relocated one is at its only occurrence, overlapping ones counted; a draft is rejected exactly when its own offsets are wrong and there is no single occurrence. |
| `Anchors.AnchorInsideUnlessClaimOvershoots` | backend/app/services/reading_companion.py:59-64 | An accepted anchor ends inside the chunk if and only if it is not a claim whose end overshoots the chunk but whose clamped slice is the evidence. |
| `Anchors.OvershootingClaimIsAccepted` | backend/app/services/reading_companion.py:59-64 | The inputs: evidence that ends the chunk, claimed with any end beyond it, is accepted with that end. |
| `Anchors.RunAnalysis` | backend/app/services/reading_companion.py:185-222 | The stored insights are, chunk by chunk and in the order of the drafts, exactly one for each draft that names its chunk and whose own offsets slice out the evidence or whose evidence occurs exactly once: with the draft's evidence and the claimed offsets, or else the place of the only occurrence. |
| `Anchors.AllInsightsAnchored` | backend/app/services/reading_companion.py:185-222 | Every stored insight belongs to an analysed chunk and slices its evidence out of it. |
| `Anchors.RenderChunk` | frontend/src/pages/ReaderPage.tsx:134-148 | The loop renders the in-range insights in order of start, skipping any that starts before the cursor. |
| `Anchors.HighlightingIsLossless` | frontend/src/pages/ReaderPage.tsx:134-148 | For any insights with increasing offsets the text of the nodes is the chunk, the marks are the kept insights in order and disjoint, and each in-range insight not kept starts inside a kept one. |
| `Anchors.AnchoredInsightsRender` | frontend/src/pages/ReaderPage.tsx:134-148 | With anchored insights every mark moreover shows its evidence, and each insight is marked, overlaps a marked one or overshoots the chunk. |
| `Anchors.StoredInsightsAreAnchored` | backend/app/services/reading_companion.py:185-222 | End to end: a page that shows stored insights of a chunk shows the chunk's text unchanged. |
| `Anchors.ChunkStoresAccepted` | backend/app/services/reading_companion.py:197-222 | The insights of a chunk correspond one to one and in order to its accepted drafts. |
| `Anchors.InsightsByChunk` | backend/app/services/reading_companion.py:185-222 | The stored insights are those of the chunks one after the other. |
| `KnowledgeBase.AddAliases` | backend/app/services/entity_merge.py:246-250 | Keeps the old aliases in place, adds every non-empty new one, and nothing else. |
| `PlainMerge.MergeInPlainTerms` | backend/app/services/entity_merge.py:51-83 | A merge row by row, over the fields of the rows before and after it. |
| `MergeQuotient.DedupeKeepsBest` | backend/app/services/entity_merge.py:224-242 | One keeper a key, at least as confident as every row of its key; every row is a keeper or a loser, never both; losers and keepers add up to the rows. |
| `MergeQuotient.OldHasImage` | backend/app/services/entity_merge.py:179-242 | Every relation that does not collapse to a loop has an image with its repointed endpoints and type and at least its confidence, whatever the query saw. |
| `MergeQuotient.NewIsImage` | backend/app/services/entity_merge.py:179-242 | Every relation after the merge is the image of one before it. |
| `MergeQuotient.MergeKeepsConnectivity` | backend/app/services/entity_merge.py:179-242 | Two images are connected after the merge if and only if the originals were connected before it with keep and gone linked. |
| `MergeDuplicates.FlushedMergeLeavesNoDuplicates` | backend/app/services/entity_merge.py:210-242 | If the query sees the pending changes, no two relations at the kept entity share endpoints and type. |
| `MergeDuplicates.UnflushedMergeLeavesNoDuplicatesIff` | backend/app/services/entity_merge.py:216-223 | With the session's autoflush off, duplicates are left if and only if some relation that touches only the merged entity collides with another one after repointing. |
| `MergeDuplicates.TwoRowsToOneTargetStay` | backend/app/services/entity_merge.py:216-223 | The input: two relations of one type, from the kept and from the merged entity to one third entity, are both left at the kept entity. |
| `MergeDuplicates.FlushedMergeConserves` | backend/app/services/entity_merge.py:191-242 | With flushing, relations before = relations after + dropped loops + duplicates. |
| `MergeDuplicates.MentionsConserved` | backend/app/services/entity_merge.py:169-177 | No mention is lost: the kept entity has its own and the merged one's, the merged one none. |
| `MergeDuplicates.MergeKeepsIntegrity` | backend/app/services/entity_merge.py:51-83 | A merge keeps referential integrity and removes exactly the merged entity, flushed or not. |
| `MergeCounts.MergeCounted` | backend/app/services/entity_merge.py:191-242 | Flushed or not: relations before + rows counted as both = relations after + dropped loops + duplicates. |
| `MergeCounts.UnflushedMergeConservesIff` | backend/app/services/entity_merge.py:191-242 | With autoflush off the counts add up if and only if every row joining the two entities wins against the other rows of its type that join them and against the kept entity's self-loops of its type. |
| `MergeCounts.JoiningPairIsMiscounted` | backend/app/services/entity_merge.py:201-242 | The input: two opposite rows of one type between the two entities leave nothing, are dropped as two loops, and one is still reported as a duplicate. |
| `MergeCounts.LoserIff` | backend/app/services/entity_merge.py:224-242 | A row is deleted as a duplicate if and only if another row of its key is more confident, or as confident and earlier. |
| `PlainAutoMerge.CandidatesAre` | backend/app/services/entity_merge.py:111-165 | A pair is a candidate if and only if two entities at places i < j, of the workspace and of one type, have its ids and overlapping names, and the verdict, if there is one, has it. |
| `PlainAutoMerge.AutoMergeInPlainTerms` | backend/app/services/entity_merge.py:87-109 | An entity goes only by a candidate pair whose first entity stays in that step, and every candidate pair loses one of its two. |
| `AutoMerge.CandidatePairsSorted` | backend/app/services/entity_merge.py:111-165 | For every name filter and every set of confirmed pairs: the pairs join stored entities and are in lexicographic order of the entities' places in their groups. |
| `AutoMerge.MergesMakeStarForest` | backend/app/services/entity_merge.py:92-109 | Merging sorted pairs in order: every merge succeeds, no entity is merged twice, every keeper survives, exactly the consumed entities are gone, survivors + merges = initial count, every pair has a consumed entity, and something is merged if and only if there is a pair. |
| `AutoMerge.AutoMergeNeverTrips` | backend/app/services/entity_merge.py:87-147 | The two together: a workspace-wide merge never raises, and is a star forest over its candidate pairs. |
| `JoinedPairs.AllJoinedIff` | backend/app/services/entity_merge.py:92-109 | Every pair ends in one entity if and only if, in each connected component of the pairs, the first entity is paired with every other one. |
| `JoinedPairs.AutoMergeJoinsIff` | backend/app/services/entity_merge.py:87-147 | The same for the workspace-wide merge, whose merges depend on the pairs alone; every entity's keeper survives in any case. |
| `JoinedPairs.RowOfThreeIsLeftApart` | backend/app/services/entity_merge.py:96-106 | The input: three entities of one type of which only neighbours overlap; the second pair is confirmed and left in two entities. |
| `EntityResolution.ResolveStages` | backend/app/services/entity_resolution.py:65-83 | A normalized-name match wins, else an entity sharing a lower-cased name, else only an asked-about entity that the language model affirmed. |
| `EntityResolution.CreatedOnlyIfUncovered` | backend/app/services/entity_resolution.py:71-86 | An entity is created only if none of the item's lower-cased names is covered in its workspace and type. |
| `EntityResolution.ResolveCovers` | backend/app/services/entity_resolution.py:174-205 | Resolving uncovers no name, covers the item's name, keeps ids unique and adds an id exactly when it reports a creation. |
| `EntityResolution.CoveredNameIsNeverRecreated` | backend/app/services/entity_resolution.py:54-86 | After any run, an item with a once covered name in any letter case resolves to a stored entity, even if its entity was merged away. |
| `EntityResolution.CreatedIff` | backend/app/services/entity_resolution.py:65-86 | An item is created if and only if no entity in scope has its normalized name or shares a lower-cased name, and no decision affirms an entity that the language model may be asked about. |
| `EntityResolution.RecreatedAtOnceIff` | backend/app/services/entity_resolution.py:54-86 | Resolving an item again at once creates an entity if and only if the item has neither a name nor an alias, was unknown, and was affirmed by the first decisions but not by the second: its normalized name is not stored on a match. |
| `EntityResolution.RecreatedOnlyIfUnnamed` | backend/app/services/entity_resolution.py:54-86 | After any run, resolving an item again creates an entity only if it has neither a name nor an alias, shared no stored non-empty name, and was not created with a normalized name the first time. So an item with a name is never created twice, whatever the language model says. |
| `EntityResolution.FindByNormalized` | backend/app/services/entity_resolution.py:90-99 | A candidate with this normalized name if there is one. |
| `EntityResolution.MatchByAlias` | backend/app/services/entity_resolution.py:115-126 | A candidate that shares a lower-cased name with the item if there is one. |
| `EntityResolution.LlmHitWasAffirmed` | backend/app/services/entity_resolution.py:159-170 | A match by the language model was affirmed by a decision about the new item that names it. |
| `EntityResolution.MergeCovers` | backend/app/services/entity_merge.py:244-251 | A merge within one workspace and type, or whose merged names are covered elsewhere in their scope, uncovers no name. |
| `EntityResolution.MergeCoversIff` | backend/app/services/entity_merge.py:51-83 | A merge uncovers no name of any workspace and type if and only if the two entities are of one workspace and type or every non-empty name of the merged one is covered by another entity of its scope. |
| `EntityResolution.CrossTypeMergeUncovers` | backend/app/services/entity_merge.py:51-83 | The input: merging two entities of different types uncovers the merged one's name. |
| `EntityResolution.CoverageIsMonotone` | backend/app/services/entity_resolution.py:54-86 | Over every run of resolutions and merges that lose no name the covered names of every workspace and type only grow. |
| `PlainResolution.ResolveInPlainTerms` | backend/app/services/entity_resolution.py:54-86 | A resolution over the fields of the rows: which entity is found, what it has afterwards, and what a created one has. |
| `PlainExtraction.PlainIsExact` | backend/app/services/entity_extraction.py:244-267 | Without a resolution service an entity is created if and only if none of the workspace, of any type, has the normalized name; the entity returned has it; and unique normalized names stay unique. |
| `PlainExtraction.PlainForgetsMerged` | backend/app/services/entity_extraction.py:244-267 | Without a resolution service an item with the normalized name of a merged-away entity is created again if and only if no other entity of the workspace has that normalized name. |
| `PlainExtraction.GotCovers` | backend/app/services/entity_extraction.py:232-267 | With or without a resolution service no name is uncovered, ids stay unique, and an id is added exactly when a creation is reported. |
| `PlainExtraction.FallbackInPlainTerms` | backend/app/services/entity_extraction.py:244-267 | The same for the fallback without a resolution service. |
| `EntityLifecycle.FindByText` | backend/app/services/relation_extraction.py:98-111 | Finds an entity of the workspace by lower-cased normalized name, else by exact name; nothing exactly when neither exists. |
| `EntityLifecycle.CleanupIsExact` | backend/app/services/entity_cleanup.py:112-148 | Cleanup removes exactly the invalid entities, their mentions and the relations at them, and keeps integrity. |
| `EntityLifecycle.ExtractKeepsIntegrity` | backend/app/services/entity_extraction.py:84-102 | Finding or creating an extracted entity, with or without a resolution service, and adding its mention keeps integrity; one mention is appended, as given, of the entity found or created. |
| `EntityLifecycle.RunsKeepIntegrity` | backend/app/services/entity_merge.py:51-109 | In every run of extraction, relation persisting, merge, workspace-wide merge and cleanup, every mention and relation endpoint names a stored entity and keys stay unique. |
| `EntityLifecycle.AutoMergeCovers` | backend/app/services/entity_merge.py:87-109 | A workspace-wide merge uncovers no name of any workspace and type. |
| `EntityLifecycle.RunsCover` | backend/app/services/entity_merge.py:51-109 | Over every run of extraction, relation persisting, workspace-wide merges and merges that lose no name the covered names only grow. |
| `EntityLifecycle.CleanupCountIff` | backend/app/services/entity_cleanup.py:142-148 | The reported count is the number of entities removed if and only if no stored id is listed twice. |
| `EntityLifecycle.TwoListedOneRemoved` | backend/app/services/entity_cleanup.py:142-148 | The input: one entity listed twice is removed once and counted twice. |
| `PlainRelations.PersistedInPlainTerms` | backend/app/services/relation_extraction.py:43-66 | The rows appended for a list of items, one by one, over the fields of entities and items. |
| `EntityServices.EntitySession.Merge` | backend/app/services/entity_merge.py:51-83 | The tables become those of the merge function and the reply its outcome, with the three errors in the source's order. Row by row: every relation moves its ends from the merged to the kept entity or is dropped as a loop or as a duplicate of a kept, no less confident one; mentions move; the kept entity has the larger confidence, its own properties before the other's, the aliases of both and the other's name; every other entity is as it was; and the reply counts the rows moved. |
| `EntityServices.EntitySession.RepointMentions` | backend/app/services/entity_merge.py:169-177 | All mentions of the merged entity, and no others, move to the kept one; the reply counts them. |
| `EntityServices.EntitySession.RepointRelations` | backend/app/services/entity_merge.py:179-205 | Both endpoints are repointed, rows that became self-loops are marked for deletion, and the others are counted. |
| `EntityServices.EntitySession.DedupeRelations` | backend/app/services/entity_merge.py:224-242 | The rows to delete are the losers of the per-key comparison. |
| `EntityServices.EntitySession.AutoMerge` | backend/app/services/entity_merge.py:87-109 | A dry run changes nothing; otherwise tables and replies are those of merging the pairs in order. A pair is returned if and only if two entities at places i < j, of the workspace and of one type, have those ids and overlapping names, and the verdict, if there is one, has it; nothing is merged away but by such a pair. |
| `EntityServices.EntitySession.ResolveEntity` | backend/app/services/entity_resolution.py:54-86 | Table, returned id and created flag are those of the resolution function: the first entity of the scope with the normalized name, else the first that shares a name, else the first affirmed one is returned, with the higher of its confidence and the item's, the item's properties put over its own and the item's names among its aliases, and no other row is changed; else one row with the item's fields is appended. |
| `EntityServices.EntitySession.PersistRelations` | backend/app/services/relation_extraction.py:43-66 | In order, one row is appended for each item whose two texts both name an entity, running from the entity of the source text to that of the target text with the item's type and confidence; nothing else changes. |
| `EntityServices.EntitySession.GetOrCreateEntity` | backend/app/services/entity_extraction.py:232-267 | With a resolution service the resolution function; without one the first entity of the workspace with the normalized name is refreshed, keeping its name, aliases and type, or a row with the item's fields is appended. |
| `EntityServices.EntitySession.FoldEntity` | backend/app/services/entity_merge.py:244-251 | The merged row is gone, the kept row has the combined fields, all others are unchanged. |
| `EntityServices.EntitySession.MergePair` | backend/app/services/entity_merge.py:96-106 | A pair with a consumed entity is skipped; any other is merged and its second entity consumed. |
| `EntityServices.EntitySession.MergeInto` | backend/app/services/entity_resolution.py:174-182 | Only the matched row changes, to the folded one. |
| `EntityServices.EntitySession.MergeAllPairs` | backend/app/services/entity_merge.py:95-106 | Tables and replies are those of merging the pairs in order. |
| `EntityServices.EntitySession.CollectAliases` | backend/app/services/entity_merge.py:246-250 | The alias loop computes the added aliases. |
| `EntityServices.EntitySession.DeleteRelations` | backend/app/services/entity_merge.py:240-241 | Exactly the rows with a doomed id are gone, the order is kept. |
| `EntityServices.EntitySession.Remove` | backend/app/services/entity_cleanup.py:112-148 | The tables are the cleaned ones; the reply is the number of entities removed if and only if no stored id is listed twice. |
| `TaskWorker.TaskJobProcessor.RunOnce` | backend/app/services/task_worker.py:218-236 | One tick: a chain of states from the old one to the new one, in which the jobs of the batch, the oldest pending ones, are processed one by one in order of creation, each with the outcome of its own handler; the reply is their number. |
| `TaskWorker.TaskJobProcessor.ProcessJob` | backend/app/services/task_worker.py:238-257 | An external job without a handler is left alone and any other without one fails; a handled one succeeds with progress 100, fails with its message or is pending again with its progress, as its handler ended. Only this job and, for an extraction, the field of its kind on its document change, to completed or failed; a sync is tried exactly after a success that leaves no entity or relation extraction of the document pending. |
| `TaskWorker.TaskJobProcessor.AfterSuccess` | backend/app/services/task_worker.py:261-276 | Marks the document and syncs its workspace when no extraction job of it is pending. |
| `TaskWorker.ClaimedAre` | backend/app/services/task_worker.py:223-230 | The claimed jobs are pending, in order of creation, at most batch_size, and a pending job not claimed is younger than a full batch. |
| `TaskWorker.TaskJobProcessor.MarkFailed` | backend/app/services/task_worker.py:311-322 | The job fails with the message and the document's field for this kind of job says so. |
| `TaskWorker.TaskJobProcessor.MarkDeferred` | backend/app/services/task_worker.py:324-330 | The job is pending again with the given progress. |
| `TaskWorker.TaskJobProcessor.HasPending` | backend/app/services/task_worker.py:362-373 | True exactly when some extraction job targeting the document is pending. |
| `TaskWorker.TaskJobProcessor.MarkRunning` | backend/app/services/task_worker.py:299-302 | Only the job's status changes, to running. |
| `TaskWorker.TaskJobProcessor.MarkSucceeded` | backend/app/services/task_worker.py:304-309 | The job succeeds with progress 100; nothing else changes. |
| `TaskWorker.ProcessInPlainTerms` | backend/app/services/task_worker.py:238-293 | What processing a job does, over the fields of jobs, documents and log. |
| `TaskWorker.TickInPlainTerms` | backend/app/services/task_worker.py:218-236 | A tick is such a chain of single jobs. |
| `WorkerRuns.TickIsPerJob` | backend/app/services/task_worker.py:218-257 | A tick changes the claimed jobs, each as its own handler ended, and no others. |
| `WorkerRuns.TickIsSafe` | backend/app/services/task_worker.py:299-330 | Jobs that are not pending stay as they are, no job is newly left running, external jobs are untouched. |
| `WorkerRuns.FinishedStays` | backend/app/services/task_worker.py:304-322 | Finished jobs are never taken up again in any run. |
| `WorkerRuns.ClaimedIffFewOlder` | backend/app/services/task_worker.py:223-230 | A pending job is claimed if and only if fewer than batch_size older jobs are pending. |
| `WorkerRuns.BoundedWait` | backend/app/services/task_worker.py:218-257 | With r older pending jobs of which at most b below batch_size can stall, a job that does not defer is finished after more than (r - b) / (batch_size - b) ticks, whatever arrives. |
| `WorkerRuns.WaitInTurns` | backend/app/services/task_worker.py:218 | (r - b) / (batch_size - b) + 1 ticks are enough. |
| `WorkerRuns.StarvedBehindStalledJobs` | backend/app/services/task_worker.py:238-251 | Behind batch_size older jobs that stall at every tick a job is never claimed, in any run. |
| `WorkerRuns.ProcessTouchesOneJob` | backend/app/services/task_worker.py:238-257 | Processing a job changes that job as its handler ended and no other; an external one without a handler changes nothing at all. |
| `WorkerRuns.ProcessMarksItsDocument` | backend/app/services/task_worker.py:261-322 | Of the documents only the job's own changes, in the field of its kind of extraction: completed if it succeeded, failed if it failed, nothing if it was deferred or left alone. |
| `WorkerSync.SyncAfterLastSuccess` | backend/app/services/task_worker.py:256-293 | An extraction job that empties its document's pending set adds a sync of the workspace to the log if and only if it succeeded, and leaves the graph synced if and only if that sync goes through: a failing one is only logged. |
| `WorkerSync.RunKeepsGraphFresh` | backend/app/services/task_worker.py:261-293 | In every run: if the last extraction job that ran for a document succeeded and none is pending, a sync of its workspace was tried after that job, hence after all extraction writes of the document. |
| `SyncService.GraphSyncService.SyncWorkspace` | backend/app/services/graph_sync.py:35-54 | The store becomes the old one overwritten by the projected nodes and edges. With unique, separator-free row ids: every visible document, chunk, type and entity is stored under its id with its label, type and workspace; every relation of a known type from its source to its target under the type's name with its confidence, and likewise the chunk, type and mention edges; every other id keeps what it had; the counts are those of the projection. |
| `SyncService.GraphSyncService.Path` | backend/app/services/graph_sync.py:96-110 | Sync, then a correct path answer on the synced store; no KeyError when the store was closed and the workspace is self-contained. |
| `SyncService.GraphSyncService.ListMentionEdges` | backend/app/services/graph_sync.py:222-247 | A document edge for every mention of the workspace, visible or not, and a chunk edge if it has a chunk. |
| `SyncService.GraphSyncService.ListRelationEdges` | backend/app/services/graph_sync.py:249-272 | An edge for every relation of the workspace whose type exists, under the type's name. |
| `SyncService.GraphSyncService.ListEntityNodes` | backend/app/services/graph_sync.py:168-189 | A node for every entity of the workspace, its own properties overriding the standard ones. |
| `SyncService.GraphSyncService.Neighbors` | backend/app/services/graph_sync.py:56-77 | Nothing for an unknown entity; otherwise its workspace is synced, the entity is stored, and the answer keeps the promise of neighbors and its filters. |
| `SyncService.GraphSyncService.Search` | backend/app/services/graph_sync.py:79-94 | Syncs the workspace, then answers as the store's search does on it. |
| `SyncRows.SyncInPlainTerms` | backend/app/services/graph_sync.py:35-54 | What a sync leaves in the store, over the fields of the rows of the workspace. |
| `GraphSync.SyncAgreesWithProjection` | backend/app/services/graph_sync.py:35-54 | The store agrees with the database projection on every projected record and is unchanged under every other id. |
| `GraphSync.SyncIsIdempotent` | backend/app/services/graph_sync.py:35-54 | A second sync changes nothing, not even the order of records. |
| `GraphSync.EdgesEndIff` | backend/app/services/graph_sync.py:191-272 | All projected edges end at projected or stored nodes if and only if every row that the entities, mentions and typed relations of the workspace refer to is projected or stored. |
| `GraphSync.SelfContainedSyncKeepsClosed` | backend/app/services/graph_sync.py:112-272 | A workspace whose rows refer only to its own visible rows keeps the store closed. |
| `GraphSync.SyncRunsKeepClosed` | backend/app/services/graph_sync.py:35-54 | Over any run of such syncs, of any workspaces and database states, the store stays closed. |
| `GraphSync.NodesAreRows` | backend/app/services/graph_sync.py:112-189 | A node is projected if and only if it is that of a visible document of the workspace, a chunk of one, or a type or entity of the workspace. |
| `GraphSync.EdgesAreRows` | backend/app/services/graph_sync.py:191-272 | An edge is projected if and only if it is that of a visible chunk, an entity's type, a mention (visible or not) or a relation with a known type. |
| `ProjectionIds.NodesAreDistinct` | backend/app/services/graph_sync.py:112-189 | With unique row ids no two projected nodes have one id. |
| `ProjectionIds.EdgesAreDistinct` | backend/app/services/graph_sync.py:191-272 | With unique row ids that contain no colon no two projected edges have one id. |
| `ProjectionIds.SyncStoresAll` | backend/app/services/graph_sync.py:35-54 | Under those two conditions a sync stores every projected record under its id. |
| `SyncClosure.SyncKeepsClosedIff` | backend/app/services/graph_sync.py:191-272 | With unique row ids free of the separator: syncing a closed store leaves it closed if and only if every row that the rows of the workspace refer to is projected or already stored. |
| `SyncClosure.UnknownDocumentDangles` | backend/app/services/graph_sync.py:222-235 | One mention of a document that is neither projected nor stored leaves the store not closed. |
| `SyncClosure.HiddenMentionDangles` | backend/app/services/graph_sync.py:222-235 | So does one mention of a hidden document that is not stored. |
| `ModelRouting.RequestKeepsConsistent` | backend/app/services/model_management.py:40-154 | Every request keeps: one route a capability, to an existing model of that capability, and a provider for every model; and removes no route. |
| `ModelRouting.SessionsKeepConsistent` | backend/app/services/model_management.py:40-154 | So does every sequence of requests, and a capability once routed stays routed. |
| `ModelRouting.ResolveFindsTheRoute` | backend/app/services/model_runtime.py:25-37 | In every reachable state a capability resolves if and only if it has a route whose model and provider are enabled, to that model; and the type filter makes no difference. |
| `ModelRouting.ModelManagementService.SetRoute` | backend/app/services/model_management.py:130-154 | The guards in the source's order; a refused request changes nothing; an accepted one, and only one whose model exists with this capability, makes the capability resolve to the model, routed before or not, and no other route changes. |
| `ModelRouting.ModelManagementService.DeleteModel` | backend/app/services/model_management.py:111-118 | Refused if unknown or routed; otherwise the model alone is removed. |
| `ModelRouting.ModelManagementService.DeleteProvider` | backend/app/services/model_management.py:70-79 | Refused if unknown or in use by a model; otherwise the provider alone is removed. |
| `ModelRouting.ModelManagementService.CreateModel` | backend/app/services/model_management.py:87-100 | Refused without its provider; otherwise stored under its id, with nothing else changed. |
| `ModelRouting.ModelManagementService.UpdateProvider` | backend/app/services/model_management.py:56-68 | Each field given is set and each not given is kept, for this provider alone; an unknown one is refused. |
| `ModelRouting.ModelManagementService.UpdateModel` | backend/app/services/model_management.py:102-109 | Each field given is set and each not given is kept, never the type or the provider, for this model alone; an unknown one is refused. |
| `ModelRouting.Resolve` | backend/app/services/model_runtime.py:25-39 | A model that some route of the capability selects, or nothing exactly when none does. |
| `ModelRouting.ModelManagementService.CreateProvider` | backend/app/services/model_management.py:40-54 | The provider is stored under its new id; models and routes are untouched. |
| `ModelRouting.DeletableIff` | backend/app/services/model_management.py:111-118 | In a consistent state a model can be deleted if and only if it exists and the route of its own capability is not to it. |
| `ModelRouting.RerouteFreesModel` | backend/app/services/model_management.py:111-154 | A routed model can be deleted once its capability is routed to another model. |
| `ModelRouting.ServedInPlainTerms` | backend/app/services/model_management.py:40-154 | What each request does, over the fields of providers, models and routes: when it is refused and what it changes. |
| `ModelRouting.RouteIsSet` | backend/app/services/model_management.py:130-154 | After an accepted request the capability resolves to the model, whether or not it had a route before, and the other capabilities' routes are as before. |

## Left out

- GraphStore.InMemoryGraphStore.Search: for a negative limit, where Python's slice counts from the end, the answer is given by the ranked list only.
- EntityServices.EntitySession.FoldEntity: the entity row is folded and the merged row deleted in one rebuild of the table, so row identity and aliasing in the session are not captured.
- Anchors.RunAnalysis: the insight's other fields, corroborations and the analysis status are not modelled.
- TaskWorker.TaskJobProcessor.RunOnce: a handler's own writes, jobs it creates while it runs, timestamps and outputs are not modelled; new jobs arrive between ticks, and creation times are a total order.
- SyncService.GraphSyncService.SyncWorkspace: properties that are not strings (chunk index, confidence), the type's status and domain, and edge evidence are not modelled.
- RagService.RagService.HybridSearch: titles, headings, metadata and the reranker that runs afterwards are not modelled.
- Language model calls and prompts, HTTP, web search, Qdrant, Kuzu and file storage are not modelled.
- Floating-point rounding, Unicode normalisation, and characters outside the basic plane, which Python and JavaScript index differently, are not modelled.
- Tokenisation, regular-expression extraction and the text match of a query are parameters.
- Removing duplicates among the items extracted from one text, creation of entity and relation types and the specialised stock and industry-chain profiles are not modelled.
- API keys, timeouts and other plain fields of providers and models are not modelled.
- The stores' `clear`, list operations and response mapping are not modelled.
