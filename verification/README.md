# Verified models of girt

girt is a Git library. This project models its hardest self-contained algorithms in Dafny and
proves what they promise, for all inputs. `dafny verify dfyconfig.toml` checks everything.

**Content comparison.** `EditGraph` defines the edit distance of two line sequences; `Myers` fills
frontier rows and traces them back; `Compaction` rotates changed groups, by the scores of
`Indentation` where nothing else decides; `LineTable` is the chunked line table; `ContentDiff` puts
them together. The result rebuilds the new payload byte for byte and changes as few lines as any
correct result could, starting from the one shortest edit list that the inputs determine.

**History.** `Reachability` defines closures and marks them. `Range` is the two-colour walk over a
commit-graph that stops early; `Describe` and `TagNames` are the pruned nearest-name search, in the
order that `VisitOrder` states without a queue. Both are proved to give the answers of the
exhaustive computations. `Ancestry` is the cycle search that decides whether an indexed history may
be used, and the generation orders that `Range` relies on.

**Object graphs.** `Edges` is the typed edge relation. `Fsck` computes reachable, unreachable and
dangling objects and the findings of a connectivity scan. `BundleClosure` collects a bundle's
objects in two phases under budgets.

**Codecs.** `CommitRecords`, `CommitCodec` and `Identity` read and write commits; `BundleHeader` and
`BundleFile` read and write bundles, with the names that `RefNames` allows; `MailHeader` encodes and
folds mail headers; `QuotePath` quotes paths. Each writer is paired with a reader and a round-trip
theorem.

**Indexes.** `Bitmaps`, `Ewah` and `BitmapIndex` are compressed reachability bitmaps and their XOR
chains, over the machine words of `Words`; `EwahWriter` is the inverse of expanding them.
`CommitGraph` is lookup through layered commit-graphs.

**Arithmetic for display.** `Calendar` converts days to dates; `Diffstat` scales bars; `RenamePath`
shortens renames, and `PrintedRename` says what the short form determines.

`Bytes`, `ByteStrings`, `Options`, `Objects`, `Sets` and `Arithmetic` hold what the others share.
Loops and in-place updates of the source are methods over arrays, fields and local variables; pure
code is functions. Integers are unbounded except where a width matters: machine words, 64-bit
counts and times, and the 16-, 32- and 64-bit ranges of dates are written out.

Three results go further than the code's comments, or against a reader's expectation:

- `MailHeader.Encoded` writes an empty first encoded word exactly when the text is empty or its
  first character does not fit after the prefix. RFC 2047 section 2 asks for at least one
  character; `MailHeader.EmptyFirstWordExample` is such an input.
- The printed form of a rename does not always determine the two paths. `PrintedRename` names every
  cause: "=>" in a name (`ArrowIsAmbiguous`, `TouchingArrowIsAmbiguous`), a brace in a name
  (`BracesAreAmbiguous`), and "//" in a path (`SlashIsAmbiguous`). `PrintedFormIsFaithful` shows that
  without them it does, and `PrintAlikeExactly` says for one old path which new paths print alike.
- `CommitRecords.ReadersAgree` shows that once the fixed-width reader has refused a commit, the line
  reader never returns a graph either. The second reader only chooses the error.

## Model

| member | source | states |
|---|---|---|
| `EditGraph.DistanceStep` | src/content_diff/myers.rs:20-56 | moving one line along either input changes the edit distance by at most one, in both directions |
| `EditGraph.DistanceDiagonal` | src/content_diff/myers.rs:20-56 | distances never shrink along a diagonal, and equal lines keep them unchanged |
| `EditGraph.DistanceAlong` | src/content_diff/myers.rs:20-56 | the same over any number of diagonal steps |
| `EditGraph.DistanceParity` | src/content_diff/myers.rs:25-54 | a distance has the parity of its diagonal, which is why a row has one slot for every other diagonal |
| `EditGraph.DistanceIsLeast` | src/content_diff/myers.rs:5-58 | no choice of deleted and inserted lines that leaves the same lines on both sides is smaller than the edit distance |
| `EditGraph.AppliedIsNew` | src/content_diff.rs:188-233 | replacing the old span of every edit by its new span turns the old sequence into the new one, for every chain of edits |
| `Myers.StopIsFurthest` | src/content_diff/myers.rs:28-49 | where the matches after the chosen predecessor stop is the furthest point of the diagonal within the distance, neither short nor beyond |
| `Myers.FurthestIsUnique` | src/content_diff/myers.rs:28-49 | a diagonal has one furthest point per distance, so a row is determined by the inputs |
| `Myers.DestinationInRow` | src/content_diff/myers.rs:26-55 | a completed row without the destination proves that the distance of the whole inputs is larger |
| `Myers.FillSlot` | src/content_diff/myers.rs:28-49 | the computed slot is the furthest point of its diagonal within the row's distance |
| `Myers.FillRow` | src/content_diff/myers.rs:24-55 | rows are exact; the search stops at the destination exactly when its distance is reached |
| `Myers.ShortestEdits` | src/content_diff/myers.rs:5-58 | for all inputs the edits lead from the old lines to the new ones, are separated by kept lines, cost exactly the edit distance, and are of all such lists the one that the furthest points of neighbouring diagonals select |
| `Myers.DeletionIsRemoval` | src/content_diff/myers.rs:60-63 | the rule on a retained row is a deletion exactly when there is no diagonal to insert from, or the one to delete from is passed at least as far within one edit less |
| `Myers.UnwindsOnce` | src/content_diff/myers.rs:74-99 | unwinding by that rule gives one edit list only |
| `Myers.CanonicalIsUnique` | src/content_diff/myers.rs:5-58 | the two inputs alone determine the edit list |
| `Myers.UnwindStep` | src/content_diff/myers.rs:74-99 | one step back along the retained rows keeps a chain of edits from the current point to the end that costs one edit per row unwound |
| `Myers.Backtrack` | src/content_diff/myers.rs:65-103 | following the retained rows backwards gives a chain of edits of exactly the last row's distance, each edit the one that the furthest points of the row before it select |
| `Compaction.RotationKeeps` | src/content_diff/compact.rs:151-156 | rotating a changed group over an equal line keeps the unchanged lines as contents and the number of changed lines |
| `Compaction.RotationDownKeeps` | src/content_diff/compact.rs:101-108 | so does sliding it down |
| `Compaction.GroupEnd` | src/content_diff/compact.rs:139-149 | the end of the run of changed lines |
| `Compaction.SlideUp` | src/content_diff/compact.rs:86-93 | sliding up over equal lines as far as possible, absorbing groups it meets, keeps the kept lines, the number of changes, the rank, and the settled groups above |
| `Compaction.SlideDown` | src/content_diff/compact.rs:94-109 | sliding down as far as possible does too, remembers only positions it can return to, and notes exactly the last one at which the other side changes |
| `Compaction.Retreats` | src/content_diff/compact.rs:116-133 | rotating back to a remembered position is always possible and keeps the same lines |
| `Compaction.Explore` | src/content_diff/compact.rs:84-115 | exploring ends with a group that no longer grows and stands at the bottom of its range, whose top and last aligned position are known |
| `Compaction.RotateDown` | src/content_diff/compact.rs:104-108 | one step down keeps the kept lines and absorbs a group it meets |
| `Compaction.RotateUp` | src/content_diff/compact.rs:87-92 | one step up does so at the other end |
| `Compaction.PlacedSettles` | src/content_diff/compact.rs:116-133 | the chosen destination is the last aligned position of the range the group can reach, up or down; when none is aligned it is the one indentation chooses, or the last |
| `Compaction.Destination` | src/content_diff/compact.rs:116-127 | the destination is the noted aligned position, else the choice of the indentation scores, else the bottom |
| `Compaction.SlidesReach` | src/content_diff/compact.rs:86-109 | the explored range is exactly the set of positions a group can reach over equal lines |
| `Compaction.RestIsAligned` | src/content_diff/compact.rs:98-127 | a resting group is aligned if and only if some position it can reach is, and no later one it can reach is |
| `Compaction.RestIsChosen` | src/content_diff/compact.rs:116-127 | an unaligned resting group is where the indentation scores put it within its range, or at the bottom without them |
| `Compaction.RestedIsAligned` | src/content_diff/compact.rs:66-137 | for every group that compaction leaves: it is beside a change of the other side if and only if some position it can reach is, and then at the last such position; nowhere above it does it reach another group |
| `Compaction.PlaceGroup` | src/content_diff/compact.rs:82-134 | placing a group settles it and leaves all groups above it settled |
| `Compaction.ChangedBoundaries` | src/content_diff/compact.rs:53-64 | a boundary is marked exactly where the other side changes, indexed by the number of kept lines before it |
| `Compaction.Compact` | src/content_diff/compact.rs:66-137 | a side keeps the same lines and changes equally many, and every group ends at the last position it can reach, up or down, where the other side changes too; if there is none, where the indentation scores put it, or without them as far down as it goes |
| `Compaction.ChainKeeps` | src/content_diff/compact.rs:30-49 | the marks of both sides of a chain leave the same lines and count its cost |
| `Compaction.ChangedLines` | src/content_diff/compact.rs:30-49 | exactly the lines inside the edits are marked |
| `Compaction.Collect` | src/content_diff/compact.rs:158-188 | marks that leave the same lines on both sides become edits between those lines, separated by kept lines, of the same cost and covering exactly the marked lines |
| `Compaction.CompactEdits` | src/content_diff/compact.rs:7-28 | compaction returns edits between the same inputs, with the same cost, so a shortest list stays shortest, and every group of both sides rests exactly where alignment, then indentation or the bottom of its range, puts it |
| `LineTable.SplitIsLossless` | src/content_diff.rs:258-301 | a one-pass split after every LF concatenates back to the input; no line is empty or has an LF before its last byte, and only the last may lack one |
| `LineTable.SplitIsUnique` | src/content_diff.rs:258-301 | there is no other way to cut an input into such lines |
| `LineTable.Lines.LineIsNext` | src/content_diff.rs:291-298 | line i of the table is the first line of what remains at its offset |
| `LineTable.Lines.LastOffset` | src/content_diff.rs:291-294 | the last end is the input length |
| `LineTable.Lines.ViewIsSplit` | src/content_diff.rs:264-301 | the table's lines are exactly those of the one-pass split, concatenate to the input, and each ends at its LF or is the last |
| `LineTable.Lines.OffsetIsLength` | src/content_diff.rs:291-294 | a line's offset is the total length of the lines before it |
| `LineTable.Lines.RangeIsFlatten` | src/content_diff.rs:299-301 | the bytes of a range of lines are the concatenation of those lines |
| `LineTable.NewLines` | src/content_diff.rs:265-285 | the chunked scan succeeds exactly when the lines fit the budget, and then the budget drops by exactly the line count |
| `Indentation.IndentOf` | src/content_diff/indent.rs:110-122 | the column of the first byte that is not white space, with tab stops every eight columns; none for a blank line |
| `Indentation.NeighbourOf` | src/content_diff/indent.rs:79-108 | as many adjacent blank lines as are counted, and the indent of the line behind them unless there is none or twenty were blank |
| `Indentation.GroupOf` | src/content_diff/indent.rs:45-75 | the score of a group is the sum of those of its two ends, in indent and in penalty |
| `Indentation.IndentIsColumn` | src/content_diff/indent.rs:110-122 | white space alone has no indent, and any other line has the column of its first other byte |
| `Indentation.ColumnSteps` | src/content_diff/indent.rs:114-117 | a space moves one column on, a tab to the next multiple of eight, and line ends and form feeds not at all |
| `Indentation.SpacesCount` | src/content_diff/indent.rs:115 | so n spaces give column n |
| `Indentation.NearIsUnique` | src/content_diff/indent.rs:79-108 | what is near a split is determined by the lines |
| `Indentation.SplitScoreOfNear` | src/content_diff/indent.rs:59-75 | the indent of a split is that of the first line below that is not blank, or -1 |
| `Indentation.SplitBetweenLines` | src/content_diff/indent.rs:62-70 | between two lines that are not blank, what follows deeper costs 0, as deep 1 and less deep 3 |
| `Indentation.BlankAboveCounts` | src/content_diff/indent.rs:71-74 | everything else alike, each of the first nine blank lines above lowers the penalty by 3, and more change nothing |
| `Indentation.BlankBelowCounts` | src/content_diff/indent.rs:71-74 | everything else alike, the first blank line below lowers the penalty by 2, the second by 3, and more change nothing |
| `Indentation.PreferenceIs` | src/content_diff/indent.rs:39-43 | of scores as deep the smaller penalty is preferred, and a score that is less deep may cost 7 more |
| `Indentation.GroupScoreIsLocal` | src/content_diff/indent.rs:77-108 | the score reads only the lines within twenty of either end of the group |
| `Indentation.Choose` | src/content_diff/indent.rs:7-31 | the scan returns the winner of the window of candidates, each challenging the winner before it |
| `Indentation.WinnerStands` | src/content_diff/indent.rs:17-31 | no later candidate is preferred to the winner, and the winner was preferred to the one before it |
| `Indentation.ChosenStands` | src/content_diff/indent.rs:14-31 | the choice is the winner of the candidates from min(length + 1, 100) positions above the bottom, or the top, on, and no later position is preferred to it or scores the same |
| `Indentation.PreferenceIsNotTransitive` | src/content_diff/indent.rs:17-18 | the preference between scores is not transitive, so the order of the scan matters |
| `ContentDiff.ShortestIsLeast` | src/content_diff.rs:188-233 | the edit distance is the least number of lines any correct result could change |
| `ContentDiff.ChainToBytes` | src/content_diff.rs:299-301 | line edits with equal gaps are byte edits with equal gaps |
| `ContentDiff.Locate` | src/content_diff/myers.rs:105-117 | each line range gets the byte range it occupies, from the length of the lines before it to the length up to its end, and the byte ranges lead from one input to the other |
| `ContentDiff.Diff` | src/content_diff.rs:188-233 | over-limit, unchanged and binary results exactly when they apply; otherwise byte edits that rebuild the new payload, each the byte range of its line range, with the fewest possible changed lines: those of the determined edit list, with the groups of both sides resting where alignment and indentation put them |
| `Reachability.ReachIsClosed` | src/history/range.rs:168-176 | a closure holds its roots and follows its own edges |
| `Reachability.ReachIsLeast` | src/history/range.rs:168-176 | and is the least set that does |
| `Reachability.ReachOfUnion` | src/history/range.rs:168-176 | the closure of a union is the union of the closures |
| `Reachability.Mark` | src/history/range.rs:168-176 | marking adds exactly what the root reaches, given marks closed under parents |
| `Range.ClosureIsCovered` | src/history/range.rs:240-302 | anything a side reaches is popped with that side's colour or still lies below the queue |
| `Range.LinksAre` | src/history/range.rs:290-300 | the links followed are the recorded parents, except below shallow commits |
| `Range.ColorIsFinal` | src/history/range.rs:240-302 | the highest-generation queued commit already has every colour it will ever get |
| `Range.EnqueueStep` | src/history/range.rs:219-237 | painting a commit that lies above no popped one keeps colours sound and final |
| `Range.Paint.constructor` | src/history/range.rs:255-263 | nothing is painted or queued at first |
| `Range.Paint.Enqueue` | src/history/range.rs:219-237 | adds a colour, queues the commit when it had none, keeps the interesting count exact, and fails exactly at the commit limit |
| `Range.EnqueueRoots` | src/history/range.rs:264-269 | every root gets its side's colour, or the commit limit is smaller than both closures |
| `Range.EnqueueParents` | src/history/range.rs:293-299 | the popped commit's colours reach all its parents |
| `Range.NothingMissed` | src/history/range.rs:276-302 | once nothing queued is interesting, every wanted commit has been popped |
| `Range.EdgesCharged` | src/history/range.rs:293-296 | parent occurrences are charged once per popped commit and never exceed those of both closures |
| `Range.Walk` | src/history/range.rs:270-302 | the walk collects exactly the commits of one closure outside the other, each once, however early it stops |
| `Range.PaintRange` | src/history/range.rs:247-303 | included and excluded are the two set differences of the closures; a limit error means that limit is below what the closures need |
| `Range.AheadBehindCounts` | src/history/range.rs:140-166 | ahead and behind are the sizes of the two differences of the tips' closures; each limit error means that the two closures have more commits, or more parent links, than the limit |
| `Describe.NearestIsLeast` | src/describe.rs:327-339 | the choice is the first candidate of least distance |
| `Describe.WalkIsExhaustive` | src/describe.rs:461-527 | without pruning the walk pops exactly the ancestors of its start, each once |
| `VisitOrder.ParentsAre` | src/describe.rs:498-504 | a shallow commit has no parents; otherwise they are the recorded ones, or with first parents only the first recorded one |
| `VisitOrder.WalkIsNewestFirst` | src/describe.rs:475-481 | each commit popped has been named, and is dated after every other named commit still to come, or on the same date was named first |
| `VisitOrder.OrderIsUnique` | src/describe.rs:475-481 | no other sequence of the ancestors is in that order, so the history alone determines the walk |
| `VisitOrder.DatesNeverIncrease` | src/describe.rs:475-481 | where no parent is dated after its child, the dates of the walk never increase |
| `Describe.FirstParentWalk` | src/describe.rs:499-504 | with first parents only, each popped commit is the first recorded parent of the one before, which is not shallow, and one step farther; the walk ends where there is no such parent or it was popped already |
| `Describe.VisitsOnce` | src/describe.rs:475-525 | no commit is popped twice |
| `Describe.PopStep` | src/describe.rs:481-486 | popping keeps the uncovered count equal to the queued commits outside the covered set, and it never goes below zero |
| `Describe.FoundStep` | src/describe.rs:487-497 | recording a candidate keeps every covered commit an ancestor or self of a found one |
| `Describe.PushStep` | src/describe.rs:505-520 | each of the four branches for a parent keeps the count and the covered set exact |
| `Describe.Expand` | src/describe.rs:498-521 | queueing a commit's parents keeps all walk invariants, or fails on a missing commit or the commit limit |
| `Describe.ReachedIsFarther` | src/describe.rs:457-460 | a commit that a candidate reaches is at least as far as that candidate |
| `Describe.DominatedTail` | src/describe.rs:457-460 | candidates no nearer than one already counted never change the choice |
| `Describe.RestIsDominated` | src/describe.rs:522-524 | once the whole queue is covered, everything still to be visited is no nearer than a found candidate |
| `Describe.StoppingIsSound` | src/describe.rs:487-524 | stopping at that point, or dropping covered candidates while still counting them, leaves the choice unchanged |
| `Describe.NewestFirst` | src/describe.rs:461-527 | on every readable history the pruned search yields the nearest commit and distance of the exhaustive one; it fails only on an unreadable commit or on more ancestors than the limit |
| `TagNames.PreferenceIsAnOrder` | src/describe.rs:283-288 | rank, newest tagger date and name give a strict order, so the preferred reference does not depend on listing order up to ties |
| `TagNames.CandidateNames` | src/describe.rs:344-429 | each named commit keeps a reference that no other one for it is preferred over |
| `TagNames.PreferredMeans` | src/describe.rs:283-288 | the kept reference has the lowest rank, of those the newest tagger date, of those the first name at the first differing byte, and of equal ones it is listed first |
| `TagNames.RangeLength` | src/describe.rs:328-335 | the distance counted by marking both closures is the size of their difference |
| `TagNames.DescribeCommit` | src/describe.rs:302-341 | a name at the commit wins with distance zero; otherwise the description is that of the exhaustive search over the first allowed candidates |
| `Fsck.CheckLinks` | src/fsck.rs:474-500 | every edge is examined: wrong kinds, broken links and missing targets are reported exactly, once per missing object and in the order of the edges |
| `Fsck.FollowRoots` | src/fsck.rs:501-515 | reachable is the closure of the roots within the store, and absent objects met on the way are reported once |
| `Fsck.UnforgivenMembers` | src/fsck.rs:563-568 | what remains is exactly the findings that no promise forgives |
| `Fsck.ForgivePromised` | src/fsck.rs:539-570 | in a partial clone exactly the missing-object findings about promised objects are dropped and the others keep their order |
| `Fsck.DanglingGenerates` | src/fsck.rs:517-525 | in an acyclic store every unreachable object hangs below some dangling one |
| `Fsck.UnreferencedIsItsOwnSource` | src/fsck.rs:523-525 | a set that generates the unreachable objects must contain every dangling one |
| `Fsck.Scan` | src/fsck.rs:466-530 | reachable, unreachable and dangling are exact, and the report holds exactly the findings that belong in it: no object missing twice, and the link findings in the order of objects and edges, one per edge that calls for one |
| `Fsck.DanglingIsLeastGenerator` | src/fsck.rs:517-525 | the dangling objects are the least set from which all unreachable ones are reached |
| `BundleClosure.DrainVisit` | src/bundle.rs:438-466 | visiting one more object of the demanded kind keeps counters equal to the totals of what was visited |
| `BundleClosure.LimitFails` | src/bundle.rs:435-461 | refusing an object for a limit means the two closures together exceed that limit |
| `BundleClosure.ExplainedFails` | src/bundle.rs:425-462 | each reported failure rules the bundle out |
| `BundleClosure.Drain` | src/bundle.rs:421-469 | a phase ends with the closure of its roots visited and every demanded kind checked, or fails for a reason that rules out every order of visiting |
| `BundleClosure.Collect` | src/bundle.rs:409-473 | succeeds exactly when both closures are stored, readable, of the demanded kinds and within the three limits and something is left to pack; the result is closure(tips) minus closure(prerequisites), and a failure names something that is true of the closures |
| `BundleClosure.PackIsSelfContained` | src/bundle.rs:409-473 | every edge of a packed object lands in the pack or in the prerequisite closure, on an object of the demanded kind |
| `BundleClosure.HistoryIsPacked` | src/bundle.rs:409-473 | with a commit the bundle provides its tree and each of its parents, packed or among what the prerequisites reach |
| `BundleClosure.EntriesArePacked` | src/bundle.rs:409-473 | with a tree it provides what every entry but a gitlink names, at its kind |
| `Edges.CommitEdges` | src/edges.rs:19-26 | a commit has its tree as first edge and then its parents in order, as commits |
| `Edges.TreeEdges` | src/edges.rs:27-40 | a tree has one edge per entry that is no gitlink, in entry order, a tree exactly for tree entries and a blob otherwise |
| `Edges.TagEdges` | src/edges.rs:41-44 | a tag has its target at the recorded kind, and plain contents have no edge |
| `BundleHeader.StepKeepsGood` | src/bundle.rs:161-209 | each accepted header line keeps entry count, identities, names and their uniqueness valid |
| `BundleHeader.ReadIsGood` | src/bundle.rs:135-210 | reading the header never consumes more than its budget and leaves an exact suffix |
| `BundleHeader.ParsedIsGood` | src/bundle.rs:132-221 | an accepted bundle has references, unique valid names, non-null identities of its format, a header within its limits, and the rest of the input as its pack |
| `BundleHeader.ParseWith` | src/bundle.rs:132-221 | the line-by-line loop computes the specified parse, including every refusal |
| `BundleHeader.HeaderFits` | src/bundle.rs:391-408 | the size computed before creation is at least the real header length |
| `BundleHeader.OpeningIsRead` | src/bundle.rs:485-489 | the signature and the SHA-256 capability line select the writer's version and format |
| `BundleHeader.PrerequisitesAreRead` | src/bundle.rs:490-492 | written prerequisite lines are read back in order |
| `BundleHeader.ReferencesAreRead` | src/bundle.rs:493-501 | written reference lines with distinct valid names are read back in order |
| `BundleHeader.RoundTrip` | src/bundle.rs:485-504 | parsing a written header under the limits that creation respected returns version, format, prerequisites, references and the exact pack |
| `BundleHeader.TextIsRead` | src/bundle.rs:132-221 | whatever the capability lines select, the records and the pack behind them are read back |
| `BundleHeader.CapabilityIsRead` | src/bundle.rs:165-181 | a first object-format or filter capability sets the format or the filter and nothing else |
| `BundleHeader.OnlyCapabilities` | src/bundle.rs:165-181 | no other capability line is accepted: none in version 2, after a record, repeated or unknown |
| `BundleHeader.CapabilitiesSelect` | src/bundle.rs:165-181 | in whatever order they come, the capabilities select the named format and filter, and their defaults otherwise |
| `BundleHeader.CapableRoundTrip` | src/bundle.rs:132-221 | every version 3 header with distinct capabilities is read back with the format and filter they select |
| `BundleHeader.ParsedIsShaped` | src/bundle.rs:132-221 | every accepted input is a signature, distinct capabilities that select its format and filter and none in version 2, then lines naming the prerequisites, then lines naming the references, an empty line and the pack |
| `BundleHeader.KeywordsAreSpelled` | src/bundle.rs:147-176 | the signatures and capability names are spelled as the format has them |
| `RefNames.RefNamesAre` | src/refs/name.rs:55-73 | a name is HEAD, or under refs/ with no control byte, space or glob byte, no ".." or "@{", no component that is empty, starts with a dot or ends in ".lock", and no dot at its end |
| `BundleFile.SizeBound` | src/bundle.rs:391-405 | the accumulated bound is 128 plus the per-entry sizes |
| `BundleFile.WriteOpening` | src/bundle.rs:485-492 | the opening and prerequisite lines are written as specified |
| `BundleFile.WriteHeader` | src/bundle.rs:485-502 | the header is written exactly when names are distinct and identities have the bundle's format |
| `BundleFile.ListedAreStored` | src/bundle.rs:421-441 | every listed tip and prerequisite was read from the store, so it has the store's format |
| `BundleFile.Create` | src/bundle.rs:375-505 | creation succeeds exactly when its inputs allow it, each refusal states a true fault of the inputs, and the output parses under the same limits to the same header and the pack of the collected objects |
| `Identity.SignedPrefix` | src/commit/identity.rs:101-109 | an optional sign and at least one digit, split off without losing a byte |
| `Identity.DateRoundTrip` | src/commit/identity.rs:161-188 | every 64-bit time and every offset within a day either side of UTC is read back from its spelling |
| `Identity.SignatureRoundTrip` | src/commit/identity.rs:126-136 | a constructible identity is read back from its record, whatever bytes its names hold |
| `Identity.IdentityIsRead` | src/commit/identity.rs:126-136 | a name runs to the first "<" without the white space before it, an address to the first ">" after it, and the rest is the date |
| `Identity.IdentityNeedsBrackets` | src/commit/identity.rs:126-136 | a record is refused exactly when it lacks a "<" or a ">" after the first one |
| `Identity.DateIsRead` | src/commit/identity.rs:161-188 | seconds and a signed zone, each after any white space, are read whatever follows: hours and minutes become minutes, with refusal exactly outside 64, 32 and 16 bits |
| `Identity.DateHasParts` | src/commit/identity.rs:161-188 | every accepted date has those parts |
| `ByteStrings.SpacesAre` | src/commit/identity.rs:131-135 | white space is space, tab, line feed, form feed and carriage return |
| `Identity.ComponentsAre` | src/commit.rs:633-645 | a name or address is accepted exactly if it is not empty, has no white space at either end, and no NUL, line end or angle bracket |
| `CommitRecords.ParseId` | src/commit.rs:783-791 | an accepted identity has the selected format and full width |
| `CommitRecords.RecordsAreSpelled` | src/object.rs:291-295 | identities have 40 or 64 digits, behind the keys tree and parent |
| `ByteStrings.HexIsLower` | src/object.rs:404-411 | each byte is two lower-case digits, the high half first |
| `CommitRecords.RecordsAgree` | src/commit.rs:745-752 | one record reads the same by line and at its fixed width, and ends there |
| `CommitRecords.ParentsAgree` | src/commit.rs:278-288 | so do all parent records, including short trailing fragments |
| `CommitRecords.ReadersAgree` | src/commit.rs:736-760 | the fixed-width reader accepts a payload exactly when the line reader does, with the same tree and parents |
| `CommitRecords.GraphIsSpelled` | src/commit.rs:265-292 | a graph is returned exactly when its records lie at the fixed offsets, the run of parent records is maximal, and something follows |
| `CommitRecords.FixedWidthGraph` | src/commit.rs:740-760 | the fast loop computes the specified result |
| `CommitRecords.GeneralGraph` | src/commit.rs:273-291 | the line loop computes the specified result, with its error |
| `CommitRecords.ParseGraph` | src/commit.rs:265-292 | trying the fast reader first never changes the outcome |
| `CommitCodec.HeaderEnd` | src/commit.rs:768-781 | the offset of the first blank line, or the length if there is none |
| `CommitCodec.LayoutIs` | src/commit.rs:193-212 | the tree line comes first, then the parents in order, the author, the committer and the extra headers |
| `CommitCodec.HeadersAre` | src/commit.rs:793-801 | an extra header has a visible name other than the four keys, and no NUL or carriage return in its value |
| `CommitCodec.FirstBrokenRule` | src/commit.rs:531-545 | formats are compared first, then the author's names and offset, the committer's, and the extra headers |
| `CommitCodec.HeaderIsFramed` | src/commit.rs:193-212 | every constructed header line is nonempty and free of line feeds, folded values included |
| `CommitCodec.PayloadSplits` | src/commit.rs:340-347 | a constructed payload splits at its first blank line into exactly the header lines and the message |
| `CommitCodec.PeopleAreFound` | src/commit.rs:331-338 | each role selects exactly the bytes written for it, never the other role's or an extra header's |
| `CommitCodec.IndentedIsJoined` | src/commit.rs:399-405 | continuation lines restore the line feeds that folding took out |
| `CommitCodec.HeaderIsScanned` | src/commit.rs:394-418 | scanning the constructed headers returns the extra headers in order, repeated, multiline and empty ones included |
| `CommitCodec.ScanPassesOver` | src/commit.rs:407-411 | one of the four keys is passed over together with its continuation lines |
| `CommitCodec.ScanRefuses` | src/commit.rs:396-407 | only a line without any space is refused |
| `CommitCodec.GraphIsRead` | src/commit.rs:265-292 | parsing a constructed payload returns its tree and ordered parents |
| `CommitCodec.Parse` | src/commit.rs:250-262 | parsing keeps the payload, finds the header end and returns the graph or its error |
| `CommitCodec.AppendHeader` | src/commit.rs:201-211 | a value's line feeds become continuation lines |
| `CommitCodec.New` | src/commit.rs:193-220 | construction succeeds exactly on valid fields, reports the first broken rule otherwise, and its payload parses back to the same commit and fields |
| `CommitCodec.ToFields` | src/commit.rs:385-427 | the loop computes the specified conversion, errors included |
| `CommitCodec.RoundTrip` | src/commit.rs:193-220 | converting a constructed commit back gives the fields it was made from, for all fields that validation accepts |
| `CommitCodec.PayloadIsInjective` | src/commit.rs:193-220 | distinct valid fields never share a payload, even across object formats |
| `Words.BitOfAnd` | src/bitmap.rs:410-415 | the digit-wise operator acts on every bit separately |
| `Words.BitOfXor` | src/bitmap/ewah.rs:96-106 | so does exclusive or |
| `Words.ClearsLowest` | src/bitmap.rs:158-170 | masking a word with its predecessor clears its lowest set bit and no other |
| `Bitmaps.ContainsIsBit` | src/bitmap.rs:150-156 | masking with a shifted one reads exactly that bit |
| `Bitmaps.Positions` | src/bitmap.rs:158-170 | the iteration is strictly ascending, lists exactly the set bits, and has as many entries as the count; on a valid bitmap these are exactly the contained positions |
| `Bitmaps.TailMask` | src/bitmap.rs:461-467 | the mask covers exactly the bits of the last word that belong to objects |
| `Bitmaps.ValidateTypes` | src/bitmap.rs:407-427 | accepts exactly the bitmaps in which each position below the object count has one kind and no later bit is set |
| `Bitmaps.PartitionCounts` | src/bitmap.rs:407-427 | the counts of a partition add up to the number of objects |
| `Bitmaps.PartitionIsValid` | src/bitmap.rs:407-427 | each bitmap of a partition stays within the objects |
| `Ewah.Parse` | src/bitmap/ewah.rs:13-74 | accepts exactly the streams whose expansion has the declared length, whose trailer names the last header, and whose bits all lie below the declared length and the object count |
| `Ewah.LastWordDecides` | src/bitmap/ewah.rs:62-70 | the two masks on the last word decide the bits of the whole expansion |
| `Ewah.XorRun` | src/bitmap/ewah.rs:90-99 | a run of ones flips its words and a run of zeros changes nothing |
| `Ewah.XorLiterals` | src/bitmap/ewah.rs:101-108 | literal words are XORed in order |
| `Ewah.XorInto` | src/bitmap/ewah.rs:76-112 | decoding XORs the expansion into the buffer and charges exactly its length, or fails exactly when the budget is smaller |
| `EwahWriter.HeaderFields` | src/bitmap/ewah.rs:41-55 | a header is its lowest bit, which selects the fill, then 32 bits of run length and 31 bits of literal count |
| `EwahWriter.HeaderIsRead` | src/bitmap/ewah.rs:41-55 | every combination of the three fields has a header from which they are read back |
| `EwahWriter.PackedExpands` | src/bitmap/ewah.rs:76-112 | packed runs and literals expand to exactly their words |
| `EwahWriter.ExpandOfCompress` | src/bitmap/ewah.rs:76-112 | every word sequence is what its compressed form expands to |
| `EwahWriter.CompressedIsAccepted` | src/bitmap/ewah.rs:13-74 | the compressed form of a bitmap without stray bits is accepted |
| `BitmapIndex.CheckDistinct` | src/bitmap.rs:310-316 | comparing neighbours of the sorted order finds a repeated position exactly when there is one |
| `BitmapIndex.ParseEntries` | src/bitmap.rs:286-316 | accepts exactly the entries with positions and back-distances in range, known flags, acceptable streams and distinct positions |
| `BitmapIndex.ChainWithin` | src/bitmap.rs:386-403 | no position of a decoded chain lies past the objects |
| `BitmapIndex.Rank` | src/bitmap.rs:380-385 | binary search finds the selected entry or proves that there is none |
| `BitmapIndex.Decode` | src/bitmap.rs:386-403 | decoding terminates with the recursive XOR of the entry and its dependencies, exactly when their expansions fit the budget |
| `BitmapIndex.ReachableWith` | src/bitmap.rs:369-404 | absent exactly for unselected positions; otherwise the chain's set as a valid bitmap, exactly when bounds and budget allow |
| `BitmapIndex.OutOfBounds` | src/bitmap.rs:369-379 | an index is out of bounds exactly by its size, its objects, their 32-bit count or its entries |
| `BitmapIndex.ValidateLookup` | src/bitmap.rs:429-451 | accepts exactly the tables whose rows match the sorted entries and their dependencies |
| `BitmapIndex.TableFollowsChains` | src/bitmap.rs:429-451 | following parent rows of an accepted table visits the same entries as following back-distances |
| `Calendar.YearHoldsDay` | src/display.rs:162-166 | the year of an era computed by three corrections is the one that holds the day, for all 146097 days |
| `Calendar.CivilIsExact` | src/display.rs:160-176 | every integer converts to a real date whose reference day number is that integer |
| `Calendar.EveryDateIsReached` | src/display.rs:160-176 | every real date is the conversion of its day number, so the conversion is a bijection |
| `Calendar.EpochIsDayZero` | src/display.rs:159-176 | day zero is 1970-01-01 |
| `Calendar.CivilSteps` | src/display.rs:160-176 | the next integer is the next date on the calendar |
| `Calendar.TimeIsExact` | src/display.rs:123-129 | hour, minute, second, weekday and date are in range and determine the instant exactly |
| `MailHeader.WordsRoundTrip` | src/format_patch.rs:541-564 | encoded words decode to the text they hold, joined across folds |
| `MailHeader.EncodedByteIs` | src/format_patch.rs:549-555 | visible ASCII other than "=", "?" and "_" stands for itself, and every other byte is "=" and two upper-case digits |
| `MailHeader.FramingIsSpelled` | src/format_patch.rs:543-563 | the opening, the closing and the fold between encoded words |
| `MailHeader.WritingExtends` | src/format_patch.rs:560-562 | a character that fits is added whole to the current word |
| `MailHeader.WritingFolds` | src/format_patch.rs:555-562 | a character that does not fit starts a new word on the next line |
| `MailHeader.Encoded` | src/format_patch.rs:541-564 | the output decodes to the text, no character is split, lines after the first keep to 76 columns, a new line starts only when the next character would not fit, and the first word is empty exactly when the text is or its first character does not fit after the prefix |
| `MailHeader.EmptyFirstWordExample` | src/format_patch.rs:541-558 | after a 64-column prefix, every layout of a text of one two-byte character has an empty first word, which RFC 2047 section 2 does not allow |
| `MailHeader.UnfoldFolded` | src/format_patch.rs:525-539 | removing line feeds before white space restores the spaces that folds replaced |
| `MailHeader.Folded` | src/format_patch.rs:525-539 | folding replaces single spaces only, and only where the next word would not fit, unfolds to the text for line-feed-free input, and every line keeps to 78 columns or is one unbreakable word |
| `Diffstat.ScaledIsSmaller` | src/diffstat.rs:142-150 | scaling never makes a bar longer than its count |
| `Diffstat.GraphLength` | src/diffstat.rs:137-157 | the bar's length is the count when everything fits and otherwise a nearest rounding, at least one column and two when both kinds are present; the largest change fills the width |
| `Diffstat.GraphAdded` | src/diffstat.rs:361-374 | pluses appear exactly when lines were added and leave room exactly when lines were removed, nearest to their share |
| `Diffstat.Draw` | src/diffstat.rs:131-161 | pluses plus minuses stay within the width, each kind appears exactly when it occurred, fitting counts are exact, and a scaled bar is divided by nearest rounding without losing either kind, for all 64-bit counts including saturated sums |
| `Diffstat.Bars` | src/diffstat.rs:107-164 | every file's bar is scaled to the largest listed change, with at least six columns |
| `RenamePath.PrefixIsShared` | src/diffstat.rs:478-482 | the prefix is shared, ends in a slash or is empty, and is the longest such |
| `RenamePath.SuffixIsShared` | src/diffstat.rs:483-497 | the suffix is shared, starts with a slash or is empty, and is the longest that may follow the prefix |
| `RenamePath.NothingIsLost` | src/diffstat.rs:477-512 | prefix, middle and suffix rebuild each path, counting the one slash they may share once |
| `PrintedRename.PartsAreReadBack` | src/diffstat.rs:477-512 | when the old path has no brace and no "=>", a reader that cuts the printed text at the first arrow, the first brace before it and the last brace after it gets back prefix, both middles and suffix, whatever the new path is |
| `PrintedRename.PrintedFormIsFaithful` | src/diffstat.rs:477-512 | between paths without "//" and with old paths free of braces and "=>", equal printed forms come from equal pairs of paths |
| `PrintedRename.PrintAlikeExactly` | src/diffstat.rs:483-512 | for an old path free of braces and "=>", two different new paths print alike if and only if one joins the shared prefix and suffix with one slash and the other with two, and the second slash extends neither |
| `PrintedRename.TwinsPrintAlike` | src/diffstat.rs:483-512 | such a pair of new paths prints alike after every old path |
| `PrintedRename.PrintedFlat` | src/diffstat.rs:477-512 | with no slash in the old path the printed form is both paths around the arrow |
| `PrintedRename.ArrowIsAmbiguous` | src/diffstat.rs:503-508 | an arrow in a name can be taken for the one between the names: x to "y => z" prints like "x => y" to z |
| `PrintedRename.TouchingArrowIsAmbiguous` | src/diffstat.rs:503-508 | so can one that touches it: "x =>" to y prints like x to "=> y" |
| `PrintedRename.BracesAreAmbiguous` | src/diffstat.rs:499-512 | braces in names can be taken for the printed ones: "x/z" to "y/z" prints like "{x" to "y}/z" |
| `PrintedRename.SlashIsAmbiguous` | src/diffstat.rs:486-489 | an empty component can be taken for a shared slash: from "a/x/b", "a/b" and "a//b" print alike |
| `QuotePath.EscapedIsRead` | src/display.rs:62-78 | escaped bytes read back to the path and are printable |
| `QuotePath.EscapeIs` | src/display.rs:62-78 | printable bytes stand for themselves, nine others are a letter after a backslash, and the rest three octal digits |
| `QuotePath.Quote` | src/display.rs:53-79 | plain paths are unchanged and others are escaped and quoted; a reader recovers every byte path, all output is printable ASCII, and a leading quote appears exactly when escaping was needed |
| `CommitGraph.ValidateFanout` | src/commit_graph/layer.rs:353-371 | accepts exactly the layers whose identities ascend and whose fanout counts them |
| `CommitGraph.Find` | src/commit_graph/layer.rs:241-265 | searching one fanout bucket finds the identity or proves its absence from the layer |
| `CommitGraph.FlatHolds` | src/commit_graph.rs:297-302 | each layer's identities are the slice of the flat sequence at its start |
| `CommitGraph.LayerAt` | src/commit_graph.rs:311-318 | the found layer is the only one holding the position, empty layers included, and agrees with the flat sequence |
| `CommitGraph.Locate` | src/commit_graph.rs:304-308 | the located position holds that identity in the flat sequence; nothing is located exactly when no layer has it |
| `CommitGraph.CheckStructure` | src/commit_graph.rs:330-363 | accepts exactly the files that form a chain of valid layers without repeated identities within the commit limit |
| `CommitGraph.FlatIsDistinct` | src/commit_graph.rs:344-356 | identities are unique across an accepted chain |
| `CommitGraph.Commits` | src/commit_graph.rs:279-289 | the list is strictly ascending, as long as the chain, and holds exactly the identities that can be located |
| `Ancestry.RankedIsAcyclic` | src/commit_graph/history.rs:92-94 | a value that falls along every edge rules out cycles |
| `Ancestry.OpenAgain` | src/commit_graph/history.rs:176-178 | meeting an open commit again exhibits a cycle |
| `Ancestry.PopExit` | src/commit_graph/history.rs:169-172 | a finished commit ranks above all its parents |
| `Ancestry.Visit` | src/commit_graph/history.rs:179-184 | opening a commit keeps the search invariant |
| `Ancestry.SearchFrom` | src/commit_graph/history.rs:163-186 | one root's search terminates, finishes everything it can reach or finds a cycle, and never undoes earlier work |
| `Ancestry.CheckAncestry` | src/commit_graph/history.rs:159-188 | accepts exactly the histories in which no commit is its own ancestor |
| `Ancestry.FallsAlongEdges` | src/commit_graph/history.rs:78-90 | one pass decides whether values fall along every edge |
| `Ancestry.Prepare` | src/commit_graph/history.rs:53-108 | refuses exactly the cyclic histories; a reported order gives the index that generation-ordered walks require |

## Left out

- Object storage, hashing, compression, checksums and pack writing: a store is a map from identities to kinds, lengths and edges, and the pack writer is a function parameter of `BundleFile.Create`.
- Cancellation and per-object read limits, which only abort early.
- ContentDiff.Diff: the work and trace budgets, which only abort early, are not modelled; the byte and line limits are.
- Indentation.IndentOf: columns are unbounded; the source stops counting at the largest 64-bit value.
- Describe.NewestFirst: reading dates and parents from a commit-graph or from objects is one map of readable commits.
- TagNames.DescribeCommit: the limits of the separate range walks that measure distances are not modelled; a walk either completes or the whole call fails.
- TagNames.CandidateNames: listing, pattern matching and peeling of references happen before the model's input.
- Range.AheadBehindCounts: only the commit-graph path is modelled, not the fallback that reads a whole history graph.
- Fsck.Scan: object decoding, content checks and reference enumeration come before the scan; their findings enter as the set of already reported objects.
- BundleFile.Create: receiving, verifying and fetching from a bundle are left out; so is the overflow of sizes near the machine's word, which the source turns into the same limit error.
- Ewah.Parse: streams are sequences of 64-bit words; reading big-endian words and advancing the byte cursor are left out.
- BitmapIndex.ParseEntries: the file header, extension flags, name-hash cache and type bitmaps' decoding around the entries are left out; the library sort is an insertion sort.
- CommitGraph.CheckStructure: chunk tables, record decoding, Bloom filters and base checksums are left out; a layer is its fanout and its identities.
- Ancestry.Prepare: parents are already decoded, and the limit on the total number of parents is left out.
- Calendar.TimeIsExact: the printed text around the numbers, padding and weekday and month names are left out.
- MailHeader.Encoded: characters are their UTF-8 byte groups; UTF-8 validity itself is not modelled.
- Diffstat.Bars: file names, counts and the summary line around the bars are left out, and so is path truncation.
- Tag and tree payloads, textual patches, filters, attributes, configuration, transports, hooks, checkout and serving: input and output or easier members.
