# Shellclave verification

Dafny models of three parts of Shellclave, and proofs about them.

* The command gate (`shellgate/src/shellgate.c`): the compiled path-fragment automaton, the
  streaming path matcher, the compressed trie that identifies files, the passes over the
  dependency graph (adjacency, reachability with group inheritance, taint, containment forest,
  write-then-read), the calibration state of anomaly detection, and the policy loop with the
  final verdict.
* The anomaly models (`shellgate/src/sg_anomaly.c`): n-gram tables with derived contexts,
  transactional updates with rollback, rebuild, decay, prune, save and load, and the
  Kneser-Ney probabilities computed from the tables.
* Threshold calibration (`shellgate/tools/anomaly_calibrate.c`): exact decimal arithmetic on
  digit arrays, the threshold grid, and the area under the curve.

Allocation failures are oracles: a function that may say "no" at any step, or a flag. Callbacks and
numeric functions that are not exact on reals (path normalization, square root, logarithms, rounding)
are parameters. A hash table is a finite map visited in any order.

`dafny verify dfyconfig.toml` checks everything.

Modules, in reading order:

| part | files |
|---|---|
| shared | `arithmetic`, `bytes`, `reordering`, `nodelists`, `relation` |
| path matcher | `fragment`, `filematch`, `trie`, `documents` |
| graph passes | `graph`, `reachability`, `taint`, `groups`, `context`, `routes`, `writeread` |
| n-gram store | `netstring`, `store`, `journal`, `update`, `rebuild`, `decaycount`, `maintain` |
| persistence | `records`, `header`, `tally`, `persist` |
| scores | `kneser` |
| gate state | `window`, `histogram`, `calibration`, `detection`, `verdict`, `meaning` |
| calibration tool | `digits`, `decimal`, `literal`, `grid`, `auc` |

One place where code and comment differ: the comment at `shellgate/src/sg_anomaly.c:530-532` says that
keys of over-long stages never fit the buffer, but a single stage of 1024 bytes does
(`Netstring.StageThatFits`, and exactly up to 4110 bytes: `Netstring.LongStageFits`). What makes such a
stage unknown is that no stored key contains one (`KneserNey.LongStageIsUnknown`).

One corner of the verdict: an evaluation may answer ALLOW and still ask for the inspection of
substituted words. `GateVerdict.AllowWithRoute` says exactly when, and
`GateVerdict.AllowDespiteRoute` gives a graph, that of `[[ -n $(<file) ]]`.

## Model

| member | source | states |
|---|---|---|
| `PathFragment.NumberBytes` | shellgate/src/shellgate.c:661-671 | numbers the bytes of a NUL-free pattern injectively, 1 to at most 255, and gives every other byte class 0 |
| `PathFragment.Compile` | shellgate/src/shellgate.c:368-394 | the compiled table is correct for every NUL-free pattern: each row maps each byte of the alphabet to the length of the longest pattern prefix that is a suffix of the state's prefix plus that byte |
| `PathFragment.BorderStep` | shellgate/src/shellgate.c:378-392 | why copying the shadow row is right: on a mismatch state i behaves like the border of the first i bytes without the first, and the shadow advances to the next such border |
| `PathFragment.StateSuffices` | shellgate/src/shellgate.c:396-416 | the state alone determines the next state: the text before it can be forgotten |
| `PathFragment.AbsentByteResets` | shellgate/src/shellgate.c:396-416 | a byte outside the pattern leaves no prefix of the pattern as a suffix, so resetting to state 0 loses nothing |
| `PathFragment.OccursSnoc` | shellgate/src/shellgate.c:396-416 | the pattern occurs in a text plus one byte exactly if it occurred before or now ends there |
| `PathFragment.Advance` | shellgate/src/shellgate.c:396-416 | reports a match exactly if the pattern occurs anywhere in everything read so far, across chunk boundaries; otherwise the state is the longest pattern prefix ending there |
| `PathFragment.AdvanceAll` | shellgate/src/shellgate.c:396-416 | any cut of a text into chunks gives the answer of searching the whole text |
| `FileMatch.Init` | shellgate/src/shellgate.c:2378-2400 | the initial value describes the empty text under every mode |
| `FileMatch.ExtendCandidate` | shellgate/src/shellgate.c:2402-2447 | a candidate latches exactly if the text now starts with the prefix followed by its end at a slash, and stays live exactly if the text is still a prefix of it |
| `FileMatch.ExtendPrefixList` | shellgate/src/shellgate.c:2402-2447 | a list's flag is set exactly if some enabled prefix has latched, and an unlatched list keeps exactly its still possible candidates |
| `FileMatch.ExtendFragmentList` | shellgate/src/shellgate.c:2402-2457 | a list's flag is set exactly if some enabled fragment occurs; the states of an unflagged list are those of its automata on the whole text |
| `FileMatch.Extend` | shellgate/src/shellgate.c:2402-2457 | a value that describes a text describes the longer text after any further piece |
| `FileMatch.Flags` | shellgate/src/shellgate.c:2459-2474 | prefix flags: the text equals an enabled prefix, or starts with it where it ends in a slash or the next byte is one; fragment flags: some enabled fragment occurs |
| `FileMatch.ScanChunks` | shellgate/src/shellgate.c:2378-2474 | for every chunking the flags are those of the whole text |
| `FileMatch.SameObservations` | shellgate/src/shellgate.c:2402-2474 | two scans of one text, cut differently, agree on length, all latched flags and the live state of every list that has not latched |
| `IdentityTrie.SameTextSameNode` | shellgate/src/shellgate.c:2682-2770 | below one root two nodes denote the same byte string only if they are the same node |
| `IdentityTrie.WithLeafLinked` | shellgate/src/shellgate.c:2682-2727 | adding a leaf below a node without a child for its first byte keeps the trie well linked and every existing string |
| `IdentityTrie.SplitLinked` | shellgate/src/shellgate.c:2729-2768 | splitting an edge keeps the trie well linked and every existing string, and the new middle node denotes the shared part |
| `IdentityTrie.IdentityIndex.SplitEdge` | shellgate/src/shellgate.c:2729-2755 | the in-place split produces the split trie, with the matcher value of the shared part cached at the middle node |
| `IdentityTrie.IdentityIndex.Intern` | shellgate/src/shellgate.c:2682-2770 | returns the node of exactly the start's string plus the input; every existing node keeps its string, root and cached matcher; failure changes nothing and means the pool is too small; at most 2 nodes and as many pool bytes as the input are added |
| `IdentityTrie.IdentityIndex.AssignGroup` | shellgate/src/shellgate.c:2856-2858 | a node gets one group for ever, and different nodes different groups |
| `FileDocuments.DocumentIndex.PrepareCwd` | shellgate/src/shellgate.c:2772-2812 | caches for a directory the node of its normalized text and the node a relative operand continues from, within 3 nodes and its length plus one pool bytes |
| `FileDocuments.DocumentIndex.DocumentFlags` | shellgate/src/shellgate.c:2378-2400 | a flag is raised exactly by: an absolute prefix under which the full path of a known identity of absolute origin lies, any prefix under which the spelling lies (a relative one if an identity is known), a fragment in that full path (a relative one if its origin is relative), or in the spelling (a relative one if an identity is known) |
| `FileDocuments.IdentityIs` | shellgate/src/shellgate.c:2772-2862 | the identity of a document is its origin and its full path: a relative operand joined to its directory with one slash, the directory itself for the operand ., the operand alone below the directory ., and / for an empty directory |
| `FileDocuments.DocumentIndex.PlaceIdentified` | shellgate/src/shellgate.c:2841-2862 | an identified document is placed at the node of its directory's text plus its own, and gets that node's group |
| `FileDocuments.DocumentIndex.Build` | shellgate/src/shellgate.c:2814-2870 | every document gets group and flags of its full path, the flags as written out for `FileDocuments.DocumentIndex.DocumentFlags`; success is certain if the pool has room for the texts, and 5 nodes per document suffice |
| `FileDocuments.DocumentIndex.SameGroupSameFile` | shellgate/src/shellgate.c:2841-2870 | two identified documents share a group exactly if root and full identity text agree |
| `DepGraph.BuildAdjacency` | shellgate/src/shellgate.c:2663-2676 | the linked lists hold, per node and in edge order, exactly its outgoing and its incoming edges |
| `DepGraph.BuildFlow` | shellgate/src/shellgate.c:2890-2908 | the data-flow lists hold exactly the edges that carry data, at the end the data comes from |
| `DepGraph.ListStep` | shellgate/src/shellgate.c:2663-2676 | walking a list meets every edge of the node once and ends |
| `Relation.MinimalMember` | shellgate/src/shellgate.c:2941-2965 | in an acyclic relation every nonempty finite set has a member without predecessor in it, which is why the queue never starves |
| `Reachability.CountIndegrees` | shellgate/src/shellgate.c:2941-2960 | each counter is the number of control edges into its node |
| `Reachability.Relax` | shellgate/src/shellgate.c:2960-2978 | taking a node off the queue lowers exactly its successors' counters and queues exactly those that reach zero, none twice |
| `Reachability.Order` | shellgate/src/shellgate.c:2941-2978 | on an acyclic graph every node is queued exactly once, after all its predecessors |
| `Reachability.Collect` | shellgate/src/shellgate.c:2979-2998 | with the successors closed, one node's set becomes its reflexive-transitive closure |
| `Reachability.Propagate` | shellgate/src/shellgate.c:2979-2998 | the backward pass turns every set into the reflexive-transitive closure, for control and for containment |
| `Reachability.FinalUnfolds` | shellgate/src/shellgate.c:2999-3020 | the closed form (own reach, or what an enclosing group reaches outside itself) satisfies the recursion over direct containers that the forward pass computes |
| `Reachability.NoSiblingsInvented` | shellgate/src/shellgate.c:2999-3020 | a direct member of a group never gains a descendant of that group it could not already reach |
| `Reachability.HandDown` | shellgate/src/shellgate.c:2999-3020 | one group hands its outside successors to its direct members and changes nothing else |
| `Reachability.Prepare` | shellgate/src/shellgate.c:2931-3020 | the final set of every node is exactly its closure united with the outside part of every enclosing group's closure; written out: it holds the node and the targets of its sequence, and, or, pipe, background and containment edges, and everything else in it is such a target, reached over such an edge out of the node or a group around it; a member also reaches what its group precedes, unless that is itself contained |
| `Reachability.StaysInside` | shellgate/src/shellgate.c:2931-3020 | a set of nodes that no control edge leaves, and that holds the container of each of its members, holds everything its nodes reach |
| `Taint.Visit` | shellgate/src/shellgate.c:3171-3182 | marks every unmarked flow successor with the same witness and queues it once |
| `Taint.MarksAreExact` | shellgate/src/shellgate.c:3164-3183 | when the queue is exhausted a node is marked exactly if some sensitive document flows to it |
| `Taint.Propagate` | shellgate/src/shellgate.c:3164-3183 | a node is marked exactly if a sensitive document reaches it along data flow, and the recorded witness is such a document |
| `Taint.MarkFollowsData` | shellgate/src/shellgate.c:2890-2908 | a marked node marks the other end of every read, pipe and substitution edge out of it, of a write into an endpoint, of an argument edge into it, and the group it is contained in |
| `Taint.MarkComesFromData` | shellgate/src/shellgate.c:2890-2908 | every marked node is a sensitive document or the other end of such an edge at a marked node |
| `GroupSummary.ScanEdges` | shellgate/src/shellgate.c:3034-3105 | one scan finds every node's container, every group's subgroups, which nodes touch observable I/O or own a token-bearing command, which argv-less commands have compatible edges only, and which nodes are timed |
| `GroupSummary.Scanner.NoteEndpoints` | shellgate/src/shellgate.c:3075-3104 | one edge more: an argv-less endpoint stays compatible exactly if the edge is one of the compatible kinds there |
| `GroupSummary.SubjectUnfolds` | shellgate/src/shellgate.c:3076-3105 | a group has a token-bearing command below it exactly if a member is one or a subgroup has one |
| `GroupSummary.Fold` | shellgate/src/shellgate.c:3085-3105 | folding a finished group into its container keeps the counters of unfinished subgroups and the partial answers exact |
| `GroupSummary.Ascend` | shellgate/src/shellgate.c:3076-3105 | the upward pass finds exactly the groups with a token-bearing command anywhere below |
| `GroupSummary.UnsafeUnfolds` | shellgate/src/shellgate.c:3106-3139 | a group is unsafe exactly if it hides I/O itself or its container is unsafe |
| `GroupSummary.Descend` | shellgate/src/shellgate.c:3106-3139 | the downward pass marks exactly the groups with an ancestor-or-self that has observable I/O and no token-bearing command below |
| `GroupSummary.Summarize` | shellgate/src/shellgate.c:3034-3139 | both passes together: containers and unsafe groups of the whole containment forest (also with the five edge kinds written out), and the compatible and the timed nodes |
| `GroupSummary.HiddenIs` | shellgate/src/shellgate.c:3050-3062 | a group hides I/O exactly if a read, write, append, descriptor open or descriptor close edge touches it, of no descriptor node and not from an implicit document, and no command with arguments lies below it |
| `GroupSummary.NeutralIs` | shellgate/src/shellgate.c:3081-3105 | which argv-less commands are neutral, edge kind by edge kind, with the container condition in those terms |
| `GroupSummary.IsNeutral` | shellgate/src/shellgate.c:3141-3159 | an argv-less command is neutral exactly if it is an expression without redirections or empty timing, all its edges are compatible and its container is not unsafe |
| `GroupSummary.HiddenIsNotNeutral` | shellgate/src/shellgate.c:3141-3159 | a command is never neutral if any group anywhere around it has observable I/O and no token-bearing command below |
| `GroupContext.AroundMember` | shellgate/src/shellgate.c:3187-3216 | the groups around a member are its container and the groups around that |
| `GroupContext.HandToMembers` | shellgate/src/shellgate.c:3196-3215 | hands the totals of one group to exactly its direct members and queues its subgroups once |
| `GroupContext.Prepare` | shellgate/src/shellgate.c:3187-3216 | every node ends with the union of the flags and the 32-bit sum of the counters over all its enclosing groups |
| `GroupContext.ContextIs` | shellgate/src/shellgate.c:3196-3215 | along a containment edge the context of the member is that of its group plus what the group owns, counters modulo 2^32; a node outside all groups has none |
| `Routes.RouteConsumers` | shellgate/src/shellgate.c:3276-3362 | the endpoints a dynamic substitution route delivers to, each once: its target, or what the edges of its target document hand that to |
| `Routes.RouteIs` | shellgate/src/shellgate.c:3330-3346 | which edges are dynamic substitution routes, kind by kind: every substitution, and descriptor openings between a running endpoint and a retained one that are no duplicates |
| `Routes.ConsumersAre` | shellgate/src/shellgate.c:3250-3362 | who consumes a route: the command or group it ends at, the readers of the here-document or here-string it ends at, and whoever opens the file of a dynamic name it ends at |
| `Routes.WalkDocument` | shellgate/src/shellgate.c:3290-3318 | one adjacency list of a document adds exactly the endpoints its edges supply |
| `Routes.FindRoutes` | shellgate/src/shellgate.c:4276-4283 | the whole result is marked exactly by the routes that exist |
| `Routes.MarkRoutes` | shellgate/src/shellgate.c:4676-4703 | every node is marked exactly by the routes that deliver to it |
| `Routes.MemberReached` | shellgate/src/shellgate.c:4066-4100 | a route reaches a member of a group exactly if it delivers to it or reaches the group |
| `Routes.InheritMarks` | shellgate/src/shellgate.c:4060-4100 | after the pass a node is marked exactly by the routes that deliver to it or to any group around it |
| `WriteThenRead.ReadTargets` | shellgate/src/shellgate.c:2876-2889 | per identity group the set of nodes that read one of its documents |
| `WriteThenRead.LowestCommon` | shellgate/src/shellgate.c:3740-3760 | the lowest number in both sets, or none exactly if they are disjoint |
| `WriteThenRead.Detect` | shellgate/src/shellgate.c:3727-3766 | an output edge is blamed exactly if a reader of the same group is in the writer's final reachable set, on the lowest-numbered such node |
| `WriteThenRead.GroupIsFile` | shellgate/src/shellgate.c:2841-2859 | equal groups mean the same file, also where one document has none |
| `WriteThenRead.DetectFiles` | shellgate/src/shellgate.c:3727-3766 | composed with the index and the reachability passes: blame is decided by full file identity |
| `WriteThenRead.WrittenThenRead` | shellgate/src/shellgate.c:3220-3235 | a write, append or opened output into a file, and a node right after the writer that reads the same file or names it as an argument: the edge is always flagged |
| `WriteThenRead.BlameIsExplained` | shellgate/src/shellgate.c:2876-2889 | a flagged edge is such an output, and the blamed node has an edge that reads the same file or names it |
| `Netstring.DecimalDigits` | shellsplit/include/shell_netstring.h:55-98 | the length field is canonical decimal and reads back as the number |
| `Netstring.NextIsRecord` | shellsplit/include/shell_netstring.h:55-98 | the parser returns a payload and a rest exactly if the input is the encoding of that payload followed by that rest |
| `Netstring.EncodeAllInjective` | shellsplit/include/shell_netstring.h:55-98 | different lists of payloads have different encodings |
| `Netstring.Parse` | shellsplit/include/shell_netstring.h:55-98 | a sequence is accepted exactly if it is the encoding of a list, and then that list is returned |
| `Netstring.EncodeExample` | shellsplit/include/shell_netstring.h:55-98 | three bytes abc are the record 3:abc, byte by byte |
| `Netstring.BuildKey` | shellgate/src/sg_anomaly.c:184-204 | the key is the encoding of all items, or empty exactly if it does not fit the buffer |
| `Netstring.PrefixLength` | shellgate/src/sg_anomaly.c:206-217 | for every key of enough components the length cuts off exactly the encoding of the first ones |
| `Netstring.KeyFits` | shellgate/src/sg_anomaly.c:62-64 | four learnable stages always fit the key buffer |
| `Netstring.LongStageFits` | shellgate/src/sg_anomaly.c:524-533 | the key of one stage too long to be learned fits the buffer exactly up to 4110 bytes |
| `Netstring.StageThatFits` | shellgate/src/sg_anomaly.c:524-533 | a stage of 1024 bytes cannot be learned, but its key fits the buffer |
| `NgramStore.PrefixOf` | shellgate/src/sg_anomaly.c:206-217 | the context of an n-gram key is determined by the key and is the key of its first components |
| `NgramStore.BumpTotal` | shellgate/src/sg_anomaly.c:806-855 | one more occurrence raises the sum of a table by one |
| `NgramStore.BumpDerived` | shellgate/src/sg_anomaly.c:806-855 | the incremental context step (total plus one, continuations plus one exactly for a new n-gram) gives the table a rebuild would derive |
| `NgramStore.ContextMeans` | shellgate/src/sg_anomaly.c:806-855 | under the invariant the context of some components holds the number of the n-grams that continue them by one component, and the sum of their counts |
| `Journal.UndoDo` | shellgate/src/sg_anomaly.c:770-803 | undoing a step with the flags recorded when it was done restores all seven tables and the totals exactly, inserted or not |
| `Journal.PlanLearns` | shellgate/src/sg_anomaly.c:746-766 | running the journal of a sequence counts every window of every order once, each context right after its n-gram |
| `Journal.LearnIsHistogram` | shellgate/src/sg_anomaly.c:746-766 | every n-gram count grows by the number of windows equal to it and every total by the number of windows of its order |
| `Journal.OccurrencesAre` | shellgate/src/sg_anomaly.c:746-766 | a key is counted once for every position at which it is a window of its order |
| `Journal.LearnConsistent` | shellgate/src/sg_anomaly.c:746-766 | learning keeps: contexts equal what a rebuild derives, totals equal the sums, every count is positive, every key decodes to learnable stages |
| `ModelUpdate.Validate` | shellgate/src/sg_anomaly.c:535-556 | accepts exactly well framed inputs whose stages are all short enough |
| `ModelUpdate.PlanActions` | shellgate/src/sg_anomaly.c:692-767 | the journal lists the steps of the plan in order |
| `ModelUpdate.NextStep` | shellgate/src/sg_anomaly.c:806-855 | doing a step and recording what it met extends the record of what has been done by one |
| `ModelUpdate.LastStep` | shellgate/src/sg_anomaly.c:770-803 | undoing the last recorded step leaves exactly the record and tables of one step fewer, also for keys hit several times |
| `ModelUpdate.BoundedAfter` | shellgate/src/sg_anomaly.c:822-830 | a step that passes the limit guard keeps every counter within its machine type |
| `ModelUpdate.Transaction.Apply` | shellgate/src/sg_anomaly.c:806-856 | success means the whole plan was learned; otherwise the first step without room or memory decides the status; always the journal records what was done |
| `ModelUpdate.Transaction.Rollback` | shellgate/src/sg_anomaly.c:770-803 | from any number of applied steps restores tables, totals and unknown count to their values before the first |
| `ModelUpdate.LearnedMeans` | shellgate/src/sg_anomaly.c:867-888 | a learned input is well framed, adds its histogram and keeps the invariant |
| `ModelUpdate.UpdateNetseq` | shellgate/src/sg_anomaly.c:867-888 | success adds the histogram, keeps the invariant and raises the unknown count by the number of new stages; any failure changes nothing but the failure mark; given which allocations fail, the status is exactly determined by the first step that cannot be done |
| `ModelUpdate.DecidesOnce` | shellgate/src/sg_anomaly.c:806-888 | what decides an update decides one status only |
| `ModelUpdate.ApplyBoth` | shellgate/src/sg_anomaly.c:920-936 | both journals are applied, or both models are as before |
| `ModelUpdate.UpdatePair` | shellgate/src/sg_anomaly.c:890-940 | both models learn their sequence of equal stage count, or neither changes, also where there is no type model; each status has its cause |
| `ModelUpdate.UpdatedMeans` | shellgate/src/sg_anomaly.c:746-766 | a successful update in plain terms: every count of order one to four grows by the number of positions of its key, every total by the number of windows, the unknown count by the number of new stages |
| `Rebuild.InsertDerived` | shellgate/src/sg_anomaly.c:159-176 | adding one n-gram's count to its context gives the contexts of the larger table, in any visiting order |
| `Rebuild.RebuildTable` | shellgate/src/sg_anomaly.c:256-283 | total and contexts of one table, or a limit exactly when a sum does not fit its counter |
| `Rebuild.RebuildDerived` | shellgate/src/sg_anomaly.c:243-300 | success establishes the invariant from any validated counts; failure changes nothing; a limit is reported only for counts that cannot be represented |
| `Rebuild.ShrunkFits` | shellgate/src/sg_anomaly.c:243-300 | counts that are smaller and fewer than counts that fit also fit |
| `Records.IntegerRoundTrip` | shellgate/src/sg_anomaly.c:1005-1013 | fixed-width little-endian integers read back |
| `Records.BodyRoundTrip` | shellgate/src/sg_anomaly.c:997-1016 | reading a written body gives the records |
| `Records.BodyIsWritten` | shellgate/src/sg_anomaly.c:1273-1307 | an accepted body is the concatenation of the records it means, and nothing else |
| `Records.RecordExample` | shellgate/src/sg_anomaly.c:997-1016 | a record octet by octet |
| `Records.KeyValid` | shellgate/src/sg_anomaly.c:1055-1067 | a stored key is valid exactly if it is the encoding of that many stages of at most 1023 bytes |
| `ModelHeader.ParseSize` | shellgate/src/sg_anomaly.c:1149-1174 | a counter is a limit error exactly if its digits exceed the machine size, a format error exactly if there is no digit or no separator or line end follows, and otherwise its value; no intermediate value overflows |
| `ModelHeader.ParseSizes` | shellgate/src/sg_anomaly.c:1198-1210 | the counters of a header line, or the first failure |
| `ModelHeader.SizesRoundTrip` | shellgate/src/sg_anomaly.c:1025-1029 | a reader gets back the counters a writer wrote |
| `ModelHeader.LineExamples` | shellgate/src/sg_anomaly.c:1149-1210 | two counters on a line, written and in the spellings that are read; a comma between them is refused |
| `Tally.TallyCounts` | shellgate/src/sg_anomaly.c:100-122 | after loading, the count of a key is the sum of its records |
| `Tally.OnlySumsMatter` | shellgate/src/sg_anomaly.c:100-122 | the loaded table and total depend only on the per-key sums |
| `Tally.Reordered` | shellgate/src/sg_anomaly.c:1273-1328 | reordering records does not change the per-key sums |
| `Tally.Split` | shellgate/src/sg_anomaly.c:1273-1328 | splitting a record in two, wherever they stand, does not change the per-key sums |
| `Persistence.SaveTable` | shellgate/src/sg_anomaly.c:997-1016 | in any visiting order the records add up to the table |
| `Persistence.Save` | shellgate/src/sg_anomaly.c:1018-1038 | the file holds the parameters, the counters and records that add up to the four tables |
| `Persistence.LoadOne` | shellgate/src/sg_anomaly.c:1273-1328 | one more record is accumulated exactly, or proves that the file does not fit the counters |
| `Persistence.Load` | shellgate/src/sg_anomaly.c:1245-1337 | publishes a model exactly of the meaning of an acceptable file, with the invariant; a format error means that header or body is malformed or they disagree, a limit that some count does not fit; otherwise only memory can fail |
| `Persistence.SaveThenLoad` | shellgate/src/sg_anomaly.c:997-1037 | a file saved from a consistent model is acceptable and means exactly that model, contexts included |
| `Persistence.OnlySumsAreLoaded` | shellgate/src/sg_anomaly.c:1273-1328 | two files whose records have the same per-key sums are both acceptable or not, and mean the same model |
| `Persistence.DisagreeingHeader` | shellgate/src/sg_anomaly.c:1330-1335 | a header total that differs from its records makes the file unacceptable |
| `Persistence.AcceptableMeans` | shellgate/src/sg_anomaly.c:1245-1337 | a loaded file has usable parameters, six counters that state the totals and the vocabulary size, and records of orders one to four with positive 63-bit counts |
| `KneserNey.UnigramInUnit` | shellgate/src/sg_anomaly.c:391-412 | every single-stage probability is in (0, 1] |
| `KneserNey.UnigramSumsToOne` | shellgate/src/sg_anomaly.c:391-412 | learned stages and the unknown bucket sum to exactly 1 |
| `KneserNey.GuardsUnreachable` | shellgate/src/sg_anomaly.c:428-452 | for a count its context accounts for and a lower probability in (0, 1], none of the three clamps acts and the interpolated value is in (0, 1] |
| `KneserNey.ContextAccounts` | shellgate/src/sg_anomaly.c:420-427 | by the invariant every observed n-gram has a context whose total leaves at least one for every other continuation |
| `KneserNey.ChainInUnit` | shellgate/src/sg_anomaly.c:454-505 | for every model satisfying the invariant each probability is in (0, 1] and is the unguarded interpolation, or the lower level's if unobserved |
| `KneserNey.ChainMeans` | shellgate/src/sg_anomaly.c:391-505 | the probabilities stated by multiplication: alpha smoothing of single stages, and for a counted window its discounted count plus the discounted mass of its context times the lower probability, from the total of the context |
| `KneserNey.LongStageIsUnknown` | shellgate/src/sg_anomaly.c:524-533 | a stage longer than 1023 bytes reads as unknown after any history, also when its key fits the buffer |
| `KneserNey.KnProbability` | shellgate/src/sg_anomaly.c:454-505 | the lookup chain computes that probability, for three or four stages |
| `KneserNey.ScoreNetseq` | shellgate/src/sg_anomaly.c:558-599 | one pass over the ring of four scores exactly the windows of the sequence; badly framed input gives no score and no count |
| `KneserNey.ScoreNotNegative` | shellgate/src/sg_anomaly.c:558-599 | a finite score is never negative |
| `KneserNey.ShortScores` | shellgate/src/sg_anomaly.c:558-599 | without three stages or training there is no score; three or four stages score the code length of their one window |
| `KneserNey.LongerScores` | shellgate/src/sg_anomaly.c:558-599 | every further stage adds the code length of the last four to the mean over all windows |
| `DecayCount.OrDisjoint` | shellgate/src/sg_anomaly.c:1660-1666 | joining non-overlapping bit fields is addition |
| `DecayCount.ProductExact` | shellgate/src/sg_anomaly.c:1651-1660 | the two words are exactly the 128-bit product; no 64-bit sum on the way wraps |
| `DecayCount.Sums` | shellgate/src/sg_anomaly.c:1651-1660 | every intermediate sum of the four half products stays below 2^64 |
| `DecayCount.DecayExact` | shellgate/src/sg_anomaly.c:1649-1667 | for every 64-bit count, 53-bit significand and shift of at least 53 the result is the exact floor of the quotient |
| `Maintenance.FactorBelowOne` | shellgate/src/sg_anomaly.c:1630-1643 | a decomposed factor below one has a shift of at least 53 |
| `Maintenance.DecayIsFloor` | shellgate/src/sg_anomaly.c:1645-1667 | the decayed count is the floor of count times factor in exact arithmetic |
| `Maintenance.DecayShrinks` | shellgate/src/sg_anomaly.c:1645-1667 | every live count strictly decreases |
| `Maintenance.EventuallyEmpty` | shellgate/src/sg_anomaly.c:1669-1718 | repeated decay empties a table in at most as many rounds as its largest count |
| `Maintenance.TableDecay` | shellgate/src/sg_anomaly.c:1669-1718 | every count is decayed and exactly the dead entries go, in any visiting order |
| `Maintenance.DecayModel` | shellgate/src/sg_anomaly.c:1720-1766 | all four tables and the unknown count are decayed and the invariant rebuilt, or nothing but the failure mark changes; a limit cannot occur |
| `Maintenance.DecayMeans` | shellgate/src/sg_anomaly.c:1669-1718 | in every table a count becomes the floor of count times factor, and stays exactly if that is at least one |
| `Maintenance.TablePrune` | shellgate/src/sg_anomaly.c:1768-1815 | exactly the entries below the threshold go, and their number is returned |
| `Maintenance.PruneModel` | shellgate/src/sg_anomaly.c:1817-1862 | all four tables are pruned, the removed entries counted and the invariant rebuilt, or nothing but the failure mark changes |
| `Maintenance.PruneMeans` | shellgate/src/sg_anomaly.c:1768-1815 | exactly the counts that reach the threshold stay, unchanged; the number removed is the sum over the four tables |
| `ScoreWindow.HoldsMore` | shellgate/src/shellgate.c:833-837 | writing at the index keeps: the buffer holds the last scores, each at its index modulo the size |
| `ScoreWindow.ThresholdOfLast` | shellgate/src/shellgate.c:810-829 | the threshold computed from the rotated buffer is that of the last scores in order |
| `ScoreWindow.Threshold` | shellgate/src/shellgate.c:810-829 | mean plus k standard deviations of the window |
| `ScoreWindow.ThresholdIs` | shellgate/src/shellgate.c:810-829 | the threshold from any numbers that satisfy: mean times count is the sum, variance times count is the sum of squared distances |
| `ScoreWindow.ThresholdExample` | shellgate/src/shellgate.c:810-829 | the scores 1 and 3 give 2 plus k times the root of 1 |
| `ScoreWindow.ThresholdAboveMean` | shellgate/src/shellgate.c:810-829 | the root is taken of a number that is not negative, so with a root that keeps the sign the threshold is at least the mean |
| `ScoreHistogram.BucketOrdered` | shellgate/src/shellgate.c:914-921 | a larger score never lands in a lower bucket, and every score in one of 128 |
| `ScoreHistogram.BucketIs` | shellgate/src/shellgate.c:914-921 | 128 buckets of equal width below 50, the last one for everything from 50 on |
| `ScoreHistogram.Record` | shellgate/src/shellgate.c:923-931 | exactly one bucket and the sample count grow by one, for a finite score that is not negative; otherwise nothing |
| `ScoreHistogram.RecordMeans` | shellgate/src/shellgate.c:923-931 | the same with the bucket written out: for a finite score that is not negative its bucket and the count grow by one, otherwise nothing does |
| `ScoreHistogram.ShareInside` | shellgate/src/shellgate.c:933-946 | the smoothed share is strictly between 0 and 1, so its log odds are finite |
| `ScoreHistogram.ShareIs` | shellgate/src/shellgate.c:933-946 | the share times one more than all samples is the samples below, half of those in the bucket, and one half |
| `ScoreHistogram.ShareOrdered` | shellgate/src/shellgate.c:933-946 | the share is monotone in the score |
| `ScoreHistogram.LogOdds` | shellgate/src/shellgate.c:933-952 | the loop computes the log odds of that share |
| `ScoreHistogram.OddsAre` | shellgate/src/shellgate.c:933-952 | without samples, or for an infinite or negative score, the odds are 0; otherwise they are those of the share |
| `Calibration.CombinedOrdered` | shellgate/src/shellgate.c:969-992 | under either regime larger component scores never give a smaller combined score |
| `Calibration.WeightedMeans` | shellgate/src/shellgate.c:954-992 | in weighted mode, and before both histograms hold as many samples as the window (128 without one), each component is weighed with its own weight; an infinite one decides unless its weight is zero |
| `Calibration.BayesianMeans` | shellgate/src/shellgate.c:954-992 | in Bayesian mode with enough samples the combined score is the sum of the two log odds |
| `Calibration.ThresholdMeans` | shellgate/src/shellgate.c:833-851 | the threshold is that of the last scores as soon as the window is full, and the fixed one before |
| `Calibration.Gate.Enable` | shellgate/src/shellgate.c:716-760 | models and weights are new, the window, histograms and threshold start over; failure changes nothing |
| `Calibration.Gate.Disable` | shellgate/src/shellgate.c:762-777 | models, window and histograms go; the fixed threshold and the adaptive setting stay |
| `Calibration.Gate.SetUpdateMode` | shellgate/src/shellgate.c:779-783 | changes the update mode only; the regime stays |
| `Calibration.Gate.SetSkipOnDetected` | shellgate/src/shellgate.c:785-788 | changes the skip setting only; the regime stays |
| `Calibration.Gate.SetWeights` | shellgate/src/shellgate.c:790-806 | the window survives exactly if the effective regime does; bad weights change nothing |
| `Calibration.Gate.SetAdaptive` | shellgate/src/shellgate.c:853-878 | the window starts over at the new size, unarmed with the fixed threshold |
| `Calibration.Gate.SetKFactor` | shellgate/src/shellgate.c:880-888 | an armed threshold is recomputed with the new factor, an unarmed one stays |
| `Calibration.Gate.SetCombineMode` | shellgate/src/shellgate.c:1037-1061 | the window survives exactly if the effective regime does |
| `Calibration.Gate.Load` | shellgate/src/shellgate.c:1219-1352 | new models forget window and histograms |
| `Calibration.Gate.ScoreSequence` | shellgate/src/shellgate.c:994-1035 | the combined score under the regime in force, detected exactly if finite and above the threshold in force; too short sequences score zero |
| `Calibration.Gate.RecordScore` | shellgate/src/shellgate.c:833-851 | the window holds the last scores; it is armed exactly when full, and then the threshold is that of the window |
| `Calibration.Gate.Calibrate` | shellgate/src/shellgate.c:4843-4858 | a sample enters the histograms; if that changes the regime the window starts over without it, otherwise it enters the window |
| `Calibration.Gate.FinishEvaluation` | shellgate/src/shellgate.c:4795-4859 | only samples that are long, normal, resolved and not refused by the models calibrate; afterwards every score in the window was measured under the regime in force |
| `AnomalyDetection.Detector.Enable` | shellgate/src/shellgate.c:716-760 | two empty models with the given alpha and a gate without observations, or nothing changed |
| `AnomalyDetection.Detector.Score` | shellgate/src/shellgate.c:994-1035 | refuses exactly sequences that are not well framed or differ in length; otherwise both models score all windows and the scores are combined under the regime in force |
| `AnomalyDetection.Detector.Finish` | shellgate/src/shellgate.c:4795-4859 | a scored pair is never refused as malformed; both models learn or neither does, and a refused sample leaves the calibration as it was |
| `AnomalyDetection.Detector.Load` | shellgate/src/shellgate.c:1219-1349 | both models are replaced by what acceptable files mean and the window starts over, or nothing changes |
| `GateVerdict.Writer.Copy` | shellgate/src/shellgate.c:121-142 | never writes past the buffer; everything written is complete unless the overflow mark is set |
| `GateVerdict.Writer.AddSuggestions` | shellgate/src/shellgate.c:205-228 | at most two suggestions; each failure has its cause |
| `GateVerdict.EvaluateOne` | shellgate/src/shellgate.c:4514-4644 | the result of a command follows the policies' answers, deny first; an error is never lost |
| `GateVerdict.WalkOn` | shellgate/src/shellgate.c:4646-4663 | one more result continues the walk or ends it exactly as the stop mode says, and the first denied command is remembered |
| `GateVerdict.WalkCommands` | shellgate/src/shellgate.c:4497-4664 | the results are those of the first token-bearing commands in order, up to the first that stops or the 64th |
| `GateVerdict.MarkResults` | shellgate/src/shellgate.c:4676-4707 | every result is marked with the routes that reach its command, itself or through a group around it, and an allowance reached by a shell-word route becomes conditional |
| `GateVerdict.CountCommands` | shellgate/src/shellgate.c:4346-4362 | counts the token-bearing commands and finds out whether some argv-less command is not neutral |
| `GateVerdict.ComposeVerdict` | shellgate/src/shellgate.c:4750-4784 | reject before deny before undetermined before conditional before allow |
| `GateVerdict.EvaluatePolicy` | shellgate/src/shellgate.c:4276-4793 | on every graph: every return is a composed verdict without truncation or an undetermined one with an error that has a cause of its kind; truncation never carries a verdict, and every return tells which routes exist |
| `GateVerdict.AllowIsSound` | shellgate/src/shellgate.c:4709-4793 | an ALLOW that is not short-circuited means every token-bearing command matched allow and not deny, every argv-less command is neutral with no group around it that hides I/O, and no arithmetic is unresolved |
| `GateVerdict.AllowWithRoute` | shellgate/src/shellgate.c:4729-4782 | ALLOW together with a request for substitution inspection is given exactly if there is no token-bearing command, nothing else speaks against ALLOW and some shell-word route exists |
| `GateVerdict.AllowDespiteRoute` | shellgate/src/shellgate.c:4729-4744 | that happens: a conditional whose operand is the content of a file is such a graph |
| `GateVerdict.FlagsAgree` | shellgate/src/shellgate.c:4676-4782 | flags of commands imply those of the whole result, ALLOW_CONDITIONAL implies the request for inspection, and a command is conditional exactly if it is allowed and a shell-word route reaches it |
| `GateVerdict.DenyIsJustified` | shellgate/src/shellgate.c:4750-4784 | DENY is given exactly if an evaluated command matched the deny policy, and the first such command is named |
| `GateVerdict.AllowIsComplete` | shellgate/src/shellgate.c:4709-4793 | if every command is allowed and nothing fails or stops, the verdict is ALLOW |
| `VerdictMeaning.ResultsAre` | shellgate/src/shellgate.c:4497-4664 | at most 64 results: the token-bearing commands in node order without gaps, all of them unless the evaluation stopped early |
| `VerdictMeaning.AnswersAre` | shellgate/src/shellgate.c:4536-4620 | every policy that was asked has answered, with the memory for requested suggestions; results repeat the answers, deny first |
| `VerdictMeaning.VerdictIs` | shellgate/src/shellgate.c:4746-4784 | the verdict from the answers: DENY if some evaluated command is refused, else UNDETERMINED exactly if some is not granted, an argv-less command is not neutral or arithmetic is unresolved, else ALLOW, conditional exactly with results and a shell-word route; never REJECT |
| `VerdictMeaning.StopsWhere` | shellgate/src/shellgate.c:4646-4663 | each stop mode in terms of the answers: only the last evaluated command can be of the kind that stops, and is if the evaluation ended early |
| `VerdictMeaning.AttentionIs` | shellgate/src/shellgate.c:4636-4642 | the first refused command is pointed at, and nothing else |
| `VerdictMeaning.ReachedMeans` | shellgate/src/shellgate.c:4676-4707 | a result is marked exactly if its command or a group around it consumes a route, for inspection exactly if that is a shell-word route |
| `VerdictMeaning.AllowHidesNothing` | shellgate/src/shellgate.c:3050-3062 | never ALLOW, conditional or not, while a command without arguments lies below a group touched by I/O that no command below it could authorize |
| `DigitArrays.Integer.Multiply` | shellgate/tools/anomaly_calibrate.c:610-628 | the value is multiplied exactly for every factor up to 10000, and four more digits always hold the product |
| `DigitArrays.Integer.AppendCarry` | shellgate/tools/anomaly_calibrate.c:620-624 | a carry below ten to the room left is appended within that room |
| `DigitArrays.Integer.AddDigit` | shellgate/tools/anomaly_calibrate.c:630-644 | a decimal or hexadecimal digit is added exactly, with at most one more digit |
| `ExactDecimal.Rescale` | shellgate/tools/anomaly_calibrate.c:849-865 | scaling a coefficient up by ten to the n and lowering its exponent by n denotes the same number |
| `ExactDecimal.DenotesByDigits` | shellgate/tools/anomaly_calibrate.c:549-564 | what a number denotes, digit by digit: the first digit is the lowest, every further one and every step of the exponent counts tenfold |
| `ExactDecimal.ShiftedValue` | shellgate/tools/anomaly_calibrate.c:842-847 | the shifted digits spell the coefficient at the common exponent |
| `ExactDecimal.Normalize` | shellgate/tools/anomaly_calibrate.c:661-685 | the same number with one spelling: no zero at either end, zero unsigned; it fails exactly if no normal number denotes the value |
| `ExactDecimal.CanonicalUnique` | shellgate/tools/anomaly_calibrate.c:661-685 | two normalized numbers that denote the same are the same |
| `ExactDecimal.LongerIsLarger` | shellgate/tools/anomaly_calibrate.c:880-884 | for normalized numbers a longer aligned coefficient is larger |
| `ExactDecimal.TopDecides` | shellgate/tools/anomaly_calibrate.c:885-893 | the first difference from the top decides the order |
| `ExactDecimal.Compare` | shellgate/tools/anomaly_calibrate.c:898-910 | the exact order of every pair of normalized numbers; it fails exactly if alignment exceeds the machine size |
| `ExactDecimal.AddLoop` | shellgate/tools/anomaly_calibrate.c:934-944 | aligned digits are added with carry |
| `ExactDecimal.SubtractLoop` | shellgate/tools/anomaly_calibrate.c:945-961 | aligned digits are subtracted with borrow and no borrow is left |
| `ExactDecimal.Add` | shellgate/tools/anomaly_calibrate.c:912-963 | the exact sum for every pair of signs and exponents, normalized; given memory it fails exactly if nonzero operands cannot be aligned or no normal number denotes the sum |
| `ExactDecimal.Multiple` | shellgate/tools/anomaly_calibrate.c:965-972 | the exact multiple, normalized; given memory it fails exactly if no normal number denotes it |
| `ExactLiteral.ParseExponent` | shellgate/tools/anomaly_calibrate.c:687-714 | the exponent, or overflow exactly if it exceeds 63 bits |
| `ExactLiteral.FivesAreHalves` | shellgate/tools/anomaly_calibrate.c:812-826 | five to the n at ten to the minus n is two to the minus n |
| `ExactLiteral.HexCoefficient` | shellgate/tools/anomaly_calibrate.c:768-772 | hexadecimal digits are converted to the decimal coefficient of the same value |
| `ExactLiteral.Parse` | shellgate/tools/anomaly_calibrate.c:726-840 | the number denotes the literal exactly, as written out: times ten (sixteen) per fraction digit, and times ten (two) to a negative exponent, it is the signed reading of the digits, times ten (two) to an exponent that is not negative; given memory it fails exactly without digits, or for a nonzero coefficient if an exponent leaves its range or no normal number denotes the literal |
| `ExactLiteral.LiteralExamples` | shellgate/tools/anomaly_calibrate.c:697-712 | 1e-2, 12.5, 0x1p-2 and -0xa.8p3 spell 0.01, 12.5, 0.25 and -84 |
| `ThresholdGrid.RangeOf` | shellgate/tools/anomaly_calibrate.c:1028-1040 | the exact range, refused exactly for a step that is not positive or an end before the start; an arithmetic failure exactly if comparison or difference is blocked |
| `ThresholdGrid.EmitPoints` | shellgate/tools/anomaly_calibrate.c:1042-1062 | all points within the range, rounded once, strictly increasing; an arithmetic failure only at a blocked point, and none is blocked in a finished grid |
| `ThresholdGrid.BuildGrid` | shellgate/tools/anomaly_calibrate.c:1006-1072 | the grid is the roundings of exactly start + i * step for all i with i * step within the range, at most 1000 and strictly increasing; each refusal has its cause, for literals of any size |
| `ThresholdGrid.GridMeans` | shellgate/tools/anomaly_calibrate.c:1043-1062 | in plain arithmetic: value i is the rounding of start + i * step, values increase, and the last point but not the next lies within the range |
| `ThresholdGrid.OpenOrBlocked` | shellgate/tools/anomaly_calibrate.c:1036-1062 | a grid whose points can all be computed is not one where a point is blocked |
| `ThresholdGrid.PointCount` | shellgate/tools/anomaly_calibrate.c:1043-1062 | the number of points is the floor of range over step, plus one |
| `EmpiricalAuc.GroupAdds` | shellgate/tools/anomaly_calibrate.c:1166-1181 | a group of ties adds its wins over all lower normal scores and half its own pairs, and loses nothing |
| `EmpiricalAuc.PairsReordered` | shellgate/tools/anomaly_calibrate.c:1162-1162 | the all-pairs count does not depend on the order of the scores |
| `EmpiricalAuc.Sweep` | shellgate/tools/anomaly_calibrate.c:1164-1181 | sweeping the groups of a sorted list counts all pairs |
| `EmpiricalAuc.Auc` | shellgate/tools/anomaly_calibrate.c:1138-1185 | for all scores without NaN, infinities included, the result is the all-pairs share with half credit for ties; any NaN or an empty side gives none |
| `EmpiricalAuc.OnePair` | shellgate/tools/anomaly_calibrate.c:1166-1181 | one pair: a win counts two halves, a tie one, a loss none; infinities are the extremes |
| `EmpiricalAuc.PairsOfParts` | shellgate/tools/anomaly_calibrate.c:1166-1181 | the pairs of two lists are the pairs of their parts |

## Left out

- Parsing of shell text and construction of the dependency graph: a finished graph is the input (unique containment parent, acyclic control edges, endpoints in range, as documented at `shellsplit/include/shell_depgraph.h:1399-1438`); node and edge counts are arbitrary instead of 128 and 256.
- Path normalization, word decoding and operand expansion: normalization is a function parameter that keeps texts nonempty; decoded spellings are given.
- Policy matching and the text of suggestions: a policy gives an answer or an error per command, a suggestion has a length or an error.
- Hash table internals, hashing and in-place entry storage: tables are finite maps whose inserts fail without effect.
- Bit sets are sets of node numbers; a word-by-word union is set union.
- Transition tables, node tables and the tables of the containment scan are sequences replaced as a whole; the pool, the queues, the edge lists, the digit buffers and the ring are arrays changed in place.
- The six comparison candidates of a list are a set of indices instead of a bit mask.
- Per-rule violation heuristics other than write-then-read, default lists, diagnostics texts, the type cache, perturbations and command lines.
- Files, locales, the version line, the 256-byte limit of a header line, bundle checksum, atomic replacement and error numbers; saved doubles are reals, so the decimal spelling of alpha and discount is not part of the model.
- Floating-point rounding: probabilities, scores, thresholds and shares are exact reals; logarithms, square root and rounding are parameters.
- The distinction between a limit and a format error for a netstring length that overflows: both are refused as badly framed.
- Size checks on transaction counts that a netstring in memory cannot exceed (`shellgate/src/sg_anomaly.c:726-728`).
- Fault injection points used only by test builds.
- Scores of higher order as distributions over stages: unobserved n-grams take the lower value unscaled, so they do not sum to one.
- Delimiting and character classes of literals (`shellgate/tools/anomaly_calibrate.c:1008-1024`, `:730-745`): a literal is given by its digits; the separate strtod pass and the 1024-byte limit are not modelled.
- Ownership and reuse of coefficient buffers between numbers: operands are values, so the shallow copy at `shellgate/tools/anomaly_calibrate.c:1036-1037` has no aliasing to observe.
- The library sort of the tool: an insertion sort stands in for it; any order of equal scores is covered by the proof.
- ModelUpdate.UpdateNetseq: which allocations fail is an oracle, one answer per step.
- ExactLiteral.Parse: which allocations fail is an oracle, so memory running out is a possible cause of any failure.
- Guards against digit buffers of the machine's full size (`shellgate/tools/anomaly_calibrate.c:612`, `:632`): such a buffer is a failed allocation.
- ThresholdGrid.BuildGrid: reports why there is no grid, where the program only reports failure; a point that does not round to a finite number counts as not increasing.
- GateVerdict.EvaluatePolicy: says that every error has a cause of its kind (for a truncation a full buffer, an incomplete input or too many commands; otherwise a command that fails with that error), not which of several causes is reported.
- GateVerdict.MarkResults: marks all nodes first and reads the marks of the results afterwards, where the program updates each result as it meets a route.
- Calibration.Gate.Load: reading the bundle is one yes-or-no parameter; `AnomalyDetection.Detector.Load` loads both models, without the bundle's header, sizes and checksum.
- Calibration.Gate.ScoreSequence: takes the two component scores and the stage count; `AnomalyDetection.Detector.Score` computes them.
- Persistence.Save: the version line and the decimal spelling of alpha and discount are not part of a saved model here; both are reals.
- AnomalyDetection.Detector.Enable: the alpha of a missing configuration is a parameter like any other.
