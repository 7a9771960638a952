# KGLite: verified models of the Python around the engine

Dafny models of the parts of the KGLite repository whose correctness is a matter of algorithm rather
than of input and output, with proofs of what they promise. `dafny verify dfyconfig.toml` checks all of
it. Code that changes state in place is a class or a loop here, proved against a function; the lemmas
then say what that function means.

| part | modules | what it models |
|---|---|---|
| Bitemporal history | `Snapshots`, `SnapshotHistory`, `OrgChart` | successive full snapshots turned into images with a recording interval, and whole runs of them; one day's delivery to an org chart |
| Rust scanner | `Nesting`, `Counting`, `RustTokens`, `TestItems` | comments, literals, balanced groups, and the blanking of `cfg(test)` items |
| File freshness and outline | `FileSnapshot`, `Recency`, `Freshness`, `TextOrder`, `Outline`, `OutlineTree`, `OutlineReach` | the optimistic file snapshot against other processes, its cache, batches, stamp and check; the explicit-stack tree walk |
| Benchmark registry | `Qualification`, `QualificationRuns`, `Anchor` | the qualification manifest as a state machine, and the choice of the anchor capture |
| Versions and sections | `Versions`, `Requirements`, `Scope`, `SectionState`, `AnchorPaths` | requirement intervals and contradictions; the heading stack, in its two uses |
| Importers | `Consolidation`, `RecordByRecord`, `VaultPaths` | the knwler consolidation against the direct adapter; collision-free names in a vault |

`Prelude` and `Positions` hold what several modules share.

## How the code is read

- SHA digests are free constructors, hence injective. Dates are integers in day order. An image id is the
  pair of key and date; `ImageIdTextIsInjective` shows that the text form loses nothing.
- A Cypher statement is a direct update of a map or set, and a transaction takes effect as a whole or not
  at all. A writing statement reads every version of a record (docs/python/guides/valid-time.md, the
  `skipped:write` status), so its matches do not filter on validity.
- A label is in the schema once it has a record, so the first snapshot that holds a row is the bootstrap.
- The file system is an arbitrary trajectory of states with an arbitrary schedule of pauses and short
  reads. Each change of an inode gives it a signature it has never had, inode numbers are not reused
  while the snapshot runs, and file sizes have some bound, so that the read loop ends.
- Path resolution, the version a file name spells, and case folding are function parameters.
- In the registry files may change between any two operations, not inside one.
- A requirement arrives as clauses, a document as classified lines, a page as a sequence of elements.
- Missing or null fields, and empty strings where the code tests for truth, read as "" or None.

## Where the code and its intent differ

- `examples/bitemporal_snapshots.py`, two different tables for one date: a row whose content changed finds its
  id taken, so its key is closed and not added (`SecondTableOfADateIsLost`).
- The same file, empty snapshots before the first row: they leave no record, so (as the label is read above) the
  order check is still skipped, while docs/python/guides/bitemporal.md:350-351 wants an older snapshot refused
  (`EmptyFirstSnapshotLosesOrder`). `RightThroughoutIff` says exactly which runs are answered rightly: those
  in which neither happens.
- `examples/bitemporal_org_chart.py`: the OF and TO hops carry no recording period. `PastHopsAreKeptIff` says
  exactly when a query that follows them keeps its past answers, `ReusedIdChangesThePast` when it does not.
- `scripts/benchmark_qualification.py:151`: the comment says that the digest must match even for rejected
  captures. `status` returns early when the main registry rejects the file's present bytes, and then the
  local digest is not compared: `QualifyDecidesOnItsBytesIff` and `ReplacedFileEscapesTheDigestCheck`.
- `examples/knwler_import.py`: an endpoint that its own document leaves without a type may get one from another
  document after consolidating. `RelationsAgreeIff` is the exact condition on the documents,
  `ResolvedByAnotherDocument` a case.
- `scripts/check_version_consistency.py`: a partial `>` or `<=` is compared with the zero-padded base, a
  wildcard ignores its operator, `~=` is read as caret and `!=` constrains nothing. The clause meanings in
  `Requirements.Means` are those of the code; for the other operators they are those of the Cargo Book,
  "Specifying Dependencies".

## Model

| member | source | states |
|---|---|---|
| `SnapshotHistory.RunsAnswerWhatWasDelivered` | examples/bitemporal_snapshots.py:48-90 | For every run of deliveries, refused and empty ones included, that redelivers a date only with the same table and whose first snapshot to hold a row is not older than an empty one before it: asked as known at any date, the history gives back exactly one image per row of the latest table accepted by then, with that row's content; recording intervals are non-empty, disjoint per key, and change digest where they abut; the markers are the accepted dates |
| `SnapshotHistory.RightThroughoutIff` | examples/bitemporal_snapshots.py:48-90 | With no assumption on what is delivered: a run answers rightly after each of its attempts if and only if its first snapshot to hold a row is not older than an empty one before it and no accepted attempt has to add a row whose id is already taken; both can be checked before each attempt |
| `SnapshotHistory.NextIsRightIff` | examples/bitemporal_snapshots.py:58-90 | One accepted delivery that is no older than any before it keeps a right history right if and only if no row it adds finds its id taken |
| `SnapshotHistory.ConsistentNeverCollides` | examples/bitemporal_snapshots.py:72-89 | When a date is redelivered only with the same table, no id is ever taken and intervals stay strict |
| `SnapshotHistory.RunsAreKept` | examples/bitemporal_snapshots.py:48-90 | Every run, whatever is delivered, keeps ids, keys, digests and dates consistent, the images of a key one after the other, and the markers equal to the accepted dates |
| `SnapshotHistory.OrderIsKeptIff` | examples/bitemporal_snapshots.py:66-70 | The log of accepted deliveries is in date order if and only if the attempts up to the first that holds a row are: after the first image an older snapshot is refused |
| `SnapshotHistory.LateStartIsWrong` | examples/bitemporal_snapshots.py:50-58 | A first snapshot with rows that is older than an empty one before it always makes the history answer wrongly at that one's date |
| `SnapshotHistory.ApplyAll` | examples/bitemporal_snapshots.py:122-128 | Successive calls on one graph: what they leave is the run over the deliveries with distinct keys, so the theorems above are about the graph |
| `SnapshotHistory.AsKnownAt` | examples/bitemporal_snapshots.py:153-154 | The recording filter at one date, read out of the theorem above: from the first accepted date on there is a latest delivery, and it is the answer |
| `SnapshotHistory.AnswersItsOwnDate` | examples/bitemporal_snapshots.py:72-89 | A delivery can be asked for at its own date if and only if no row it must add already has an image under that same date |
| `SnapshotHistory.NoCollisionAnswers` | examples/bitemporal_snapshots.py:72-89 | Without such a row, what is known at the delivery date is the delivered table |
| `SnapshotHistory.CollisionLosesTheRow` | examples/bitemporal_snapshots.py:83-85 | With one, that key is known at the delivery date under no image at all |
| `SnapshotHistory.SecondTableOfADateIsLost` | examples/bitemporal_snapshots.py:72-89 | The witness: one date delivered twice with two contents for one key; both are accepted and the key is then known at no date at all |
| `SnapshotHistory.AddedRowIsAnswered` | examples/bitemporal_snapshots.py:76-89 | Every delivered row that does not collide is known at the delivery date |
| `SnapshotHistory.KnownRowIsDelivered` | examples/bitemporal_snapshots.py:74-89 | Whatever is known at the delivery date was delivered, with that content; an older image among it was open |
| `SnapshotHistory.RedeliveryChangesNothing` | examples/bitemporal_snapshots.py:72-90 | Delivering what is on record, at any later date, closes nothing, adds nothing and leaves every image as it was |
| `SnapshotHistory.AppliedTwiceIsAppliedOnce` | examples/bitemporal_snapshots.py:48-90 | Applying the same delivery twice equals applying it once, collisions included |
| `SnapshotHistory.KeepsThePast` | examples/bitemporal_snapshots.py:76-89 | No delivery changes which images are known before its date, nor anything of an image but its end |
| `SnapshotHistory.PastAnswersStand` | examples/bitemporal_snapshots.py:76-89 | So every answer to a question about an earlier date stands |
| `SnapshotHistory.FutureIsThePresent` | examples/bitemporal_snapshots.py:153-154 | What is known at the latest date is what is known at every later one |
| `SnapshotHistory.SoundStep` | examples/bitemporal_snapshots.py:62-89 | One delivery keeps ids, keys, digests and dates consistent, and the images of one key one after the other |
| `SnapshotHistory.StrictStep` | examples/bitemporal_snapshots.py:62-89 | A newer delivery keeps intervals non-empty and makes abutting images of a key differ in digest |
| `SnapshotHistory.IntervalsAreDisjoint` | examples/bitemporal_snapshots.py:62-66 | Two images of one key are never both known at one date |
| `SnapshotHistory.SoundMeansOneOpen` | examples/bitemporal_snapshots.py:62-72 | At most one image per key is open, so the index by key loses none |
| `SnapshotHistory.AddedIdsAreNew` | examples/bitemporal_snapshots.py:38-85 | Each added row creates an id that was not there |
| `SnapshotHistory.OpenIdsAfter` | examples/bitemporal_snapshots.py:76-89 | The open ids after a delivery are those before, less the closed, plus one fresh id per added key |
| `SnapshotHistory.OpenImagesAreConserved` | examples/bitemporal_snapshots.py:76-90 | Open after = open before + added - closed, as counts, every added id being fresh |
| `SnapshotHistory.EmptyFirstSnapshotLosesOrder` | examples/bitemporal_snapshots.py:50-70 | The witness: an empty snapshot, then an older one with a row; it is accepted and the newer date is answered wrongly |
| `Snapshots.Graph.ApplySnapshot` | examples/bitemporal_snapshots.py:48-90 | The delivery code: refuses exactly an older date (once an image exists) or, after it, repeated keys; a refusal changes nothing; otherwise the new state is one Step and the counts are those of the added and closed images |
| `Snapshots.Current` | examples/bitemporal_snapshots.py:62-72 | The index built by key holds exactly the open images |
| `Snapshots.ToClose` | examples/bitemporal_snapshots.py:75 | Exactly the open images whose key vanished or came with another digest |
| `Snapshots.ToAdd` | examples/bitemporal_snapshots.py:77 | One row, with its content, for exactly the keys that have no open image with their digest |
| `Snapshots.ChangedLists` | examples/bitemporal_snapshots.py:77 | The row filter lists each key to add once, with the table's content |
| `Snapshots.Close` | examples/bitemporal_snapshots.py:78-81 | Exactly the given images get the date as their end; nothing else of any image changes |
| `Snapshots.Merge` | examples/bitemporal_snapshots.py:83-89 | One fresh image per listed row whose id is free; an id already taken keeps its image |
| `Snapshots.TableSize` | examples/bitemporal_snapshots.py:73 | The dictionary of a delivery is as long as the delivery exactly when its keys are distinct |
| `Snapshots.ImageIdTextIsInjective` | examples/bitemporal_snapshots.py:38 | Two ids with the same text have the same key and date, whatever the keys contain |
| `OrgChart.Graph.ApplyDelivery` | examples/bitemporal_org_chart.py:91-138 | The delivery code: the statement loops equal Deliver, and a refused or failing delivery leaves the chart as it was |
| `OrgChart.DeliveredTwiceIsDeliveredOnce` | examples/bitemporal_org_chart.py:91-138 | An accepted delivery is accepted again and changes nothing |
| `OrgChart.DeliveryFailsIff` | examples/bitemporal_org_chart.py:95-138 | A delivery is rolled back if and only if the superseded ids repeat, or one is not an image that is current or closed this same date, or a row would create an inverted image |
| `OrgChart.CheckPassesIff` | examples/bitemporal_org_chart.py:95-105 | The count equals the length exactly when the ids are distinct and each is found |
| `OrgChart.CheckedIdsExist` | examples/bitemporal_org_chart.py:95-105 | After a passed check every superseded id is an image |
| `OrgChart.FailureNamesAnInvertedImage` | examples/bitemporal_org_chart.py:126-138 | A failure comes from a row that would be the first to create its image, inverted, and names it |
| `OrgChart.CreatedImages` | examples/bitemporal_org_chart.py:126-138 | New images are exactly those of the first row per new id whose employee and team exist, each as that row says, none inverted |
| `OrgChart.DeliveryTakesEffect` | examples/bitemporal_org_chart.py:91-138 | From the delivery date on: superseded images are not known, unnamed ones are untouched, and the created ones are known as their rows say |
| `OrgChart.DeliveryKeepsThePast` | examples/bitemporal_org_chart.py:91-138 | For every earlier date the assignments and department links known are exactly those known before the delivery |
| `OrgChart.PastHopsAreKeptIff` | examples/bitemporal_org_chart.py:134-135 | The OF and TO hops followed at an earlier date stay the same if and only if no row that will reach its employee and team puts a new hop on an assignment already known then; all of it read off the chart and the delivery beforehand |
| `OrgChart.ReusedIdChangesThePast` | examples/bitemporal_org_chart.py:130-135 | The witness: an accepted delivery that reuses a known assignment's id for another employee changes what is followed at an earlier date |
| `OrgChart.TeamsAfterLinks` | examples/bitemporal_org_chart.py:116-124 | The teams after the link statement are those before and those of link rows whose department exists |
| `OrgChart.LinksSettle` | examples/bitemporal_org_chart.py:116-124 | Every link row whose department exists is satisfied afterwards; new links come from rows and start at this date; existing teams, links and assignments stay |
| `OrgChart.LinksExactly` | examples/bitemporal_org_chart.py:116-124 | The links afterwards are those there were and an open one for each row whose department exists and that had none |
| `OrgChart.TeamNames` | examples/bitemporal_org_chart.py:120 | A new team has the name its first such row gives it, an old one keeps its name |
| `OrgChart.AssignmentsSettle` | examples/bitemporal_org_chart.py:126-138 | Every assignment row whose anchors exist has its image and both hops; existing images are not touched |
| `OrgChart.NewHopsComeFromRows` | examples/bitemporal_org_chart.py:134-135 | Every new hop is that of a row whose anchors exist |
| `OrgChart.DeliveryShape` | examples/bitemporal_org_chart.py:91-138 | Existing images change only by closing, new ones and new links start at the delivery date, hops only grow |
| `TestItems.BalancedEndMatches` | scripts/check_source_quality.py:94-108 | The position returned is just past the delimiter that matches in the well-nested grammar over whole tokens; with no match it is the end of the text |
| `TestItems.BalancedEnd` | scripts/check_source_quality.py:94-108 | The cursor loop computes that position, in bounds, for every text |
| `TestItems.BalancedEndIff` | scripts/check_source_quality.py:94-108 | The position returned is the one just past the visible closer with which, for the first time since the opening, more closers than openers have been seen outside comments and literals, or the end of the text when that never happens; and no other position is |
| `TestItems.GroupEndsAtFirstExcess` | scripts/check_source_quality.py:98-108 | The same for any group, counted from its inside |
| `TestItems.GroupScanStaysOnGrid` | scripts/check_source_quality.py:94-108 | The loop stops only just past a closing character that the token scan visits and that starts no token: delimiters inside comments, strings and character literals never count |
| `TestItems.RangesOnTokenBoundaries` | scripts/check_source_quality.py:149-177 | Every blanked range starts, turns from marker to item, and ends at a position that the scan of the whole file visits |
| `TestItems.NoLiteralIsCut` | scripts/check_source_quality.py:149-177 | Every comment or literal of the whole-file scan lies entirely inside a blanked range or entirely outside it |
| `TestItems.BlankTestItems` | scripts/check_source_quality.py:170-177 | The blanking loop over the mutable character list, as one statement about every position |
| `TestItems.BlankRange` | scripts/check_source_quality.py:175-177 | One range: its characters but CR and LF become spaces, and nothing outside it changes |
| `TestItems.BlankingIsExact` | scripts/check_source_quality.py:170-177 | A character becomes a space when it lies in the range of an attribute the whole-file scan sees and is no line break; otherwise it stays; every CR and LF survives, and none appears |
| `TestItems.MarkersAreTheVisibleAttributes` | scripts/check_source_quality.py:149-167 | The markers are exactly the line-level attributes outside every comment and literal |
| `TestItems.MarkerAtIff` | scripts/check_source_quality.py:158-164 | A marker is found exactly where the text spells the attribute, alone on its line but for blanks, and it runs from the start of that line past its line break |
| `TestItems.CfgTestMarkers` | scripts/check_source_quality.py:149-167 | The marker loop computes that list |
| `TestItems.LineStartOnGrid` | scripts/check_source_quality.py:158-160 | The start of an attribute's line is outside every comment and literal too |
| `TestItems.CfgTestItemEnd` | scripts/check_source_quality.py:111-146 | The item-end loops compute ItemEnd, for every text |
| `TestItems.FindItemStart` | scripts/check_source_quality.py:113-123 | The preamble loop computes ItemStart |
| `TestItems.ItemStartsAfterThePreamble` | scripts/check_source_quality.py:113-123 | An item starts after whitespace, comments and whole attributes, at the first character that begins none of them |
| `TestItems.ItemEndsAtFirstEnder` | scripts/check_source_quality.py:125-146 | An item ends just past its first visible semicolon outside parentheses and brackets, or past the group of its first such brace, whichever comes first; or at the end of the text when it has neither |
| `TestItems.ItemEndsAtFirstTopLevelEnder` | scripts/check_source_quality.py:125-146 | The same by counting: at top level means that from no place on have more opening than closing parentheses, or brackets, been seen; a brace ends with its group by the first excess of closers |
| `TestItems.DepthIsZeroIff` | scripts/check_source_quality.py:133-140 | The depth that never falls below zero is zero exactly there |
| `Nesting.ScanIsTheMatchingCloser` | scripts/check_source_quality.py:94-108 | The depth-counting loop, over any lexer, returns the end of the matching group in the inductive grammar, and the length when no group matches |
| `Counting.ScanIsFirstExcess` | scripts/check_source_quality.py:94-108 | The same loop by counting: it stops where the closers seen first outnumber the openers seen |
| `Counting.FirstExcessIsUnique` | scripts/check_source_quality.py:94-108 | There is one such position only |
| `Nesting.ScanCrossesGroup` | scripts/check_source_quality.py:98-107 | Crossing one derived group drops exactly one level |
| `Nesting.DeriveOrExhaust` | scripts/check_source_quality.py:98-108 | Either the grammar derives a group or the loop runs to the end at every depth |
| `RustTokens.SkipCommentOrLiteral` | scripts/check_source_quality.py:45-91 | The scanner loops compute TokenEnd for every text and position |
| `RustTokens.SkipBlock` | scripts/check_source_quality.py:50-62 | The nested block-comment loop |
| `RustTokens.SkipString` | scripts/check_source_quality.py:70-80 | The string loop, an escape at the very end of the text included |
| `RustTokens.BlockCommentNests` | scripts/check_source_quality.py:50-62 | A block comment ends just past the closer matching its opener in the nested grammar, or at the end of the text |
| `RustTokens.BlockCommentEndsAtFirstExcess` | scripts/check_source_quality.py:50-62 | By counting: a block comment ends where its closing marks first outnumber the opening marks inside it |
| `RustTokens.TokenStartsIff` | scripts/check_source_quality.py:45-91 | A token starts exactly at a comment mark, a raw-string opening, a quote bare or after b or c, or a character literal |
| `RustTokens.LineCommentEndsAtNewline` | scripts/check_source_quality.py:47-49 | A line comment runs up to the first newline, which is not part of it |
| `RustTokens.RawStringEndsAtTerminator` | scripts/check_source_quality.py:64-68 | A raw string ends just past the first quote followed by as many hashes as its opening carries, and no earlier |
| `RustTokens.RawOpeningIff` | scripts/check_source_quality.py:64 | A raw string opens if and only if the text is an optional b or c, an r, at most 255 hashes and a quote |
| `RustTokens.StringLiteralSpan` | scripts/check_source_quality.py:70-80 | A quote, bare or after b or c, opens a token that ends at its first unescaped quote |
| `RustTokens.StringEndsAtFirstUnescapedQuote` | scripts/check_source_quality.py:72-80 | The loop's end is just past the first quote preceded by an even number of backslashes, or the end of the text |
| `RustTokens.CharLiteralOrLifetime` | scripts/check_source_quality.py:82-91 | A single quote opens a token exactly when one character, or an escape, stands before a closing quote |
| `RustTokens.TokenShape` | scripts/check_source_quality.py:45-91 | No token starts with whitespace, and one that ends with whitespace inside the text is a comment without a newline |
| `RustTokens.FindIsFirst` | scripts/check_source_quality.py:48-67 | A search returns the first occurrence, and none exactly when there is none |
| `FileSnapshot.World.SnapshotFile` | kglite/__init__.py:480-525 | Whatever writes, renames and unlinks interleave: a snapshot returned is that of the file the path named at the moment of the last os.stat; None only if the path named nothing, or no regular file, meanwhile; it gives up only after three disturbed attempts; every descriptor opened is closed, in at most three attempts; undisturbed, one attempt gives the direct look |
| `FileSnapshot.World.Attempt` | kglite/__init__.py:490-523 | One attempt: the same, with its one descriptor closed on every exit; it asks for another only when something changed while it ran |
| `FileSnapshot.SameSignatureMeansUntouched` | kglite/__init__.py:459-468 | An inode with the same signature at two moments was not changed at any moment between, when each change gives a signature it never had |
| `FileSnapshot.World.ReadAll` | kglite/__init__.py:500-501 | Short reads included: with the file untouched, the chunks collected are its whole content |
| `Freshness.SnapshotCache.Lookup` | kglite/__init__.py:528-537 | Whatever changes meanwhile, a lookup is what the file was at some moment since the cache began, and on a miss since the call began; a hit reads nothing; an unstable file raises and leaves the cache alone; otherwise the cache holds exactly the newest 4096 distinct paths of the whole request history, oldest first |
| `Freshness.HitHolds` | kglite/__init__.py:530-532 | A hit only moves its path to the end |
| `Freshness.MissHolds` | kglite/__init__.py:533-536 | A miss adds its path and, past 4096, drops exactly the least recently used one |
| `Recency.ByLastUseIsSorted` | kglite/__init__.py:531-536 | The order the cache refines is that of each path's last request |
| `Recency.ByLastUseNoRepeats` | kglite/__init__.py:531-534 | Each path once |
| `Freshness.FreshnessChunks` | kglite/__init__.py:540-561 | The batches concatenate to the stamps of the rows in their order, each of what its file was at some moment of the call; none is empty or too long, and all but the last are full; it raises only when something changed |
| `Freshness.Graph.StampFileFreshness` | kglite/__init__.py:593-611 | A batch size that is not positive is refused, an unstable file rolls everything back; otherwise every row is stamped once, in one transaction, with what its file was at some moment of the call |
| `Freshness.Graph.CheckFileFreshness` | kglite/__init__.py:635-652 | The check compares each row with what its file was at some moment of the call and changes no node; it raises only when something changed; what it reports is said by ReportIsExact |
| `Freshness.ReportIsExact` | kglite/__init__.py:636-651 | The report lists, in row order, exactly the rows whose file was seen missing, as missing, and those whose stored value, the hash when hashing and the time otherwise, is absent or differs from the one seen, as changed |
| `Freshness.CheckAfterStampReportsTheMissing` | kglite/__init__.py:564-652 | Checking after stamping, by hash or by time, with nothing changed, reports exactly the rows whose file is missing, in order; the selected rows stay the same |
| `Freshness.UnreportedHasItsContent` | kglite/__init__.py:564-652 | Whatever changes in between: a row a hash check does not report had, at some moment of the check, the very content it had at some moment of the stamping |
| `Freshness.SightedInStill` | kglite/__init__.py:528-537 | While nothing changes, what is looked up equals the direct look |
| `Freshness.StampedNodes` | kglite/__init__.py:597-610 | After stamping each row's node holds the time seen, and with hashing the hash seen, both null for a missing file; nothing else of it changes, no other node changes, and the selected rows are the same |
| `Freshness.StampBatches` | kglite/__init__.py:601-611 | The update queries, batch after batch, stamp all of the rows and count them |
| `Outline.Walk` | kglite/__init__.py:413-433 | The dictionary, stack and rendered-set loop terminates on any rows and renders Rendered |
| `Outline.ChildrenByParent` | kglite/__init__.py:396-403 | The dictionary lists each parent's children in row order; the root is the last row without a parent |
| `Outline.OrderedIsTheSortedChildren` | kglite/__init__.py:427-432 | The reverse-sorted push lists every child once, by id, then type of the id, then token |
| `Outline.WalkRendersOnce` | kglite/__init__.py:415-433 | From any stack, on any rows, cycles included, no token is rendered twice |
| `Outline.AnyRowsRenderOnce` | kglite/__init__.py:413-433 | So whatever the rows, each token is rendered at most once and only tokens of rows are |
| `OutlineReach.RenderedIffReachable` | kglite/__init__.py:413-433 | On any rows a token is rendered exactly when it can be reached from the root, at the length of a way to it |
| `OutlineReach.WalkCloses` | kglite/__init__.py:415-433 | From any stack: what the walk leaves rendered holds the stack and is closed under children |
| `Outline.RootIsLastWithoutParent` | kglite/__init__.py:398-401 | The root is the last row without a parent |
| `OutlineTree.WalkIsPreorder` | kglite/__init__.py:413-433 | When the rows form a tree the walk renders the recursive preorder with children in key order, depths included |
| `OutlineTree.WalkIsStackPreorder` | kglite/__init__.py:415-433 | At any point the stack stands for the preorders of its entries, and the walk renders them |
| `OutlineTree.EachRowOnce` | kglite/__init__.py:413-433 | On a tree every row is rendered, and once |
| `OutlineTree.PreorderIsDistinct` | kglite/__init__.py:413-433 | A preorder renders only descendants, none twice |
| `OutlineTree.PreorderIsComplete` | kglite/__init__.py:413-433 | A preorder renders every descendant |
| `TextOrder.KeyIsTotal` | kglite/__init__.py:429 | The key order on string triples is a strict total order |
| `TextOrder.KeyIsTransitive` | kglite/__init__.py:429 | The key order is transitive |
| `TextOrder.BeforeIff` | kglite/__init__.py:429 | A text comes before another when it is a proper prefix of it, or smaller at their first difference |
| `QualificationRuns.RunsAreSound` | scripts/benchmark_qualification.py:56-78 | From an empty disk, over every run of record_capture and qualify with files changing in between: every reference names an accepted, versioned capture of its own platform, and every manifest is valid |
| `QualificationRuns.StepKeepsSound` | scripts/benchmark_qualification.py:140-195 | One operation keeps that, and the validation in _write never fails |
| `QualificationRuns.CapturedIsSound` | scripts/benchmark_qualification.py:149-165 | What record_capture is about to write is valid, the alias it may overwrite included |
| `QualificationRuns.QualifiedIsSound` | scripts/benchmark_qualification.py:175-191 | What qualify is about to write is valid, and no reference names a mutable alias |
| `QualificationRuns.RecordKeepsSound` | scripts/benchmark_qualification.py:140-165 | record_capture keeps the registry sound and, when it succeeds, leaves the capture recorded |
| `QualificationRuns.StepKeepsRecords` | scripts/benchmark_qualification.py:140-191 | A versioned record keeps its digest and platform through every step, and its decision too unless the step decides on that same digest |
| `QualificationRuns.RejectionsStand` | scripts/benchmark_qualification.py:140-191 | Over every run of a sound registry, files changing in between: a rejection under a versioned name stands unless a step is a non-rejecting qualify of a file that then has those bytes, or of a capture recorded with them whose file the main registry then rejects |
| `QualificationRuns.RecordsStand` | scripts/benchmark_qualification.py:140-191 | Over every run a versioned record keeps its digest and platform, and its rejection unless a step decides otherwise on the recorded digest |
| `QualificationRuns.DecidingOtherwiseRequalifies` | scripts/benchmark_qualification.py:168-191 | Any step that decides anything but a rejection on a digest is such a qualify, as its caller sees it |
| `QualificationRuns.RejectedRecordBlocksItsBytes` | scripts/benchmark_qualification.py:91-96 | While it stands, a file with those bytes is refused as a candidate and as a reference under every name |
| `QualificationRuns.RecordingDecidesNothing` | scripts/benchmark_qualification.py:140-165 | Recording leaves references and every other record alone, in this directory and in the others; the capture keeps its record or gets a pending one of its own bytes, platform and evidence; an alias takes that record over |
| `QualificationRuns.RefusedRecordingChangesNothing` | scripts/benchmark_qualification.py:140-165 | Refused, it changes nothing, but for the empty manifest a directory without one is given |
| `QualificationRuns.RefusedDecisionOnlyRecords` | scripts/benchmark_qualification.py:168-191 | A decision that is not written leaves what recording the capture left, and no other directory changes |
| `QualificationRuns.RecordingSucceedsIff` | scripts/benchmark_qualification.py:140-165 | record_capture succeeds if and only if the file names a platform, its recorded entry agrees with it, and the alias is one of the two in the same directory with the same bytes |
| `QualificationRuns.QualifySucceedsIff` | scripts/benchmark_qualification.py:168-191 | qualify succeeds if and only if there is evidence, the capture can be recorded, and only an accepted versioned capture is promoted |
| `QualificationRuns.QualifyTakesEffect` | scripts/benchmark_qualification.py:175-191 | The decision reaches every record of the decided bytes and no other; a promotion makes the capture its platform's reference; a refusal drops exactly the references to its bytes; every other reference stays |
| `QualificationRuns.QualifyDecidesOnItsBytesIff` | scripts/benchmark_qualification.py:80-97 | Which digest a decision is about: the file's own, except for a recorded capture whose bytes the main registry already rejects, where it is the recorded one |
| `QualificationRuns.ReplacedFileEscapesTheDigestCheck` | scripts/benchmark_qualification.py:149-151 | A concrete sound registry in which that exception lifts the rejection of bytes other than the file's |
| `QualificationRuns.ReferenceAnswers` | scripts/benchmark_qualification.py:105-120 | What reference returns: for a current alias its platform's reference, otherwise the path itself; inside the registry always accepted, with the recorded bytes |
| `Qualification.RejectedBytesAreNoCandidate` | scripts/benchmark_qualification.py:80-103 | Bytes that any record of the local or main registry rejects are refused under every name |
| `Qualification.RefusedCandidateIsRejected` | scripts/benchmark_qualification.py:99-103 | A candidate is refused as rejected only when some record rejects its bytes |
| `Qualification.CandidatePassesIff` | scripts/benchmark_qualification.py:80-103 | Where the registries do not contradict the file, a candidate passes if and only if no record rejects its bytes |
| `Qualification.ReferenceIsNeverRejected` | scripts/benchmark_qualification.py:105-120 | What reference returns is never bytes that any record rejects |
| `Qualification.AliasResolvesIff` | scripts/benchmark_qualification.py:105-117 | A current alias resolves to its platform's reference if and only if no record rejects the reference's bytes |
| `Qualification.OtherPathsStandIff` | scripts/benchmark_qualification.py:106-120 | Any other path is returned if and only if, in the registry's own directory, it is recorded there as accepted and no record rejects its bytes, and from outside, if and only if no record rejects its bytes |
| `Qualification.StatusIs` | scripts/benchmark_qualification.py:80-97 | The status of a file no record contradicts: rejected when any record rejects its bytes, else that of its own record, else none |
| `Qualification.StatusFailsIff` | scripts/benchmark_qualification.py:80-90 | Asking fails exactly for a missing file, an unusable main registry, or a record of the file that contradicts it and is reached |
| `Qualification.InvalidIff` | scripts/benchmark_qualification.py:56-78 | A manifest is refused exactly for an unfit record or a reference that does not name an accepted record of its own platform |
| `Qualification.Bench.RecordCapture` | scripts/benchmark_qualification.py:140-165 | The code: new disk and result are those of Recorded, a freshly created manifest staying behind on failure |
| `Qualification.Bench.Qualify` | scripts/benchmark_qualification.py:168-191 | The code: new disk and result are those of QualifiedDisk |
| `Qualification.Bench.Decide` | scripts/benchmark_qualification.py:177-180 | The loop over all records of the same bytes |
| `Qualification.Bench.Write` | scripts/benchmark_qualification.py:194-201 | Writes exactly a valid manifest; refuses any other and changes nothing |
| `Anchor.SelectCaptures` | scripts/check_perf_anchor.py:108-135 | The candidate is the one asked for or the newest release, refused by neither registry; counting back from the newest eligible release leaves one fewer than asked for after the starting point, or starts at the oldest; the anchor is the newest accepted release from there on down; no verdict is given only when there is no candidate, it is refused, nothing is eligible, or no such release exists |
| `Anchor.AnchorPrecedesTheCandidate` | scripts/check_perf_anchor.py:118-126 | An eligible release never holds the candidate's bytes, and is strictly older than every release that does and than the candidate's own name |
| `Anchor.AnchorIsNotRejected` | scripts/check_perf_anchor.py:131-133 | Its bytes are rejected by no registry |
| `Anchor.Search` | scripts/check_perf_anchor.py:129-135 | The backwards loop finds the newest accepted release at or before the target, and fails only if there is none |
| `Anchor.EligibleReleases` | scripts/check_perf_anchor.py:124-126 | Exactly the other releases older than everything the candidate answers to, oldest first |
| `Anchor.Cutoff` | scripts/check_perf_anchor.py:118-123 | The oldest version the candidate answers to, by its bytes or its name, if any |
| `Anchor.ReleaseBaselines` | scripts/check_perf_anchor.py:65-72 | Exactly the files whose name spells a version, ordered by version, then by name |
| `Requirements.EmptyMeansSomePairIsDisjoint` | scripts/check_version_consistency.py:1263-1273 | Of two or more requirements, the running intersection is empty if and only if no version satisfies them all, if and only if some two are disjoint |
| `Requirements.DisjointIff` | scripts/check_version_consistency.py:1536 | Two requirements are disjoint exactly when no version is in both |
| `Requirements.Contradiction` | scripts/check_version_consistency.py:1263-1288 | A unit is reported exactly when it has two or more requirements and no version satisfies them all, and the report is a disjoint pair, never the full list |
| `Requirements.MinimalConflict` | scripts/check_version_consistency.py:1532-1538 | The first disjoint pair in order, or none exactly when every two overlap |
| `Requirements.BoundsAreAttained` | scripts/check_version_consistency.py:1268-1270 | Both bounds of an intersection are bounds of single requirements |
| `Requirements.IntersectAllMeansAll` | scripts/check_version_consistency.py:298-299 | A version is in the running intersection exactly when every requirement holds it |
| `Requirements.RequirementIsEveryMeaning` | scripts/check_version_consistency.py:307-377 | A version is in a requirement's interval if and only if the meaning of every clause holds of it |
| `Requirements.ClauseIntervalIsItsMeaning` | scripts/check_version_consistency.py:253-282 | One clause: for caret, at least the base and equal to it through the leftmost non-zero component, or through the last named one when all are zero; likewise the other operators |
| `Requirements.OrderAndRepetitionDoNotMatter` | scripts/check_version_consistency.py:320-377 | Requirements with the same clauses have the same interval, whatever their order and repetition |
| `Requirements.FoldBounds` | scripts/check_version_consistency.py:320-377 | Each bound is the tightest of the clauses' bounds, or the default |
| `Requirements.ParseRequirement` | scripts/check_version_consistency.py:307-377 | The loop: no constraint exactly for a declined text, an unreadable clause, or no constraining clause; otherwise the fold of the clauses |
| `Versions.NonEmptyMeansInhabited` | scripts/check_version_consistency.py:292-296 | An interval is true exactly when some version is in it |
| `Versions.LessIff` | scripts/check_version_consistency.py:292-296 | A version is less than another when it is less at the first component in which they differ |
| `SectionState.DocSectionState` | scripts/check_version_consistency.py:1024-1063 | Each line gets the declared state: suppressed if it is in the scope of a marked heading, else citation if in the scope of a record older than another, else none |
| `SectionState.EnterHeading` | scripts/check_version_consistency.py:1053-1060 | Pop and push keep the stack equal to the special headings in scope, so its kinds are those of the heading line's sections |
| `SectionState.StackKindsAreSections` | scripts/check_version_consistency.py:1061 | The kinds on the stack are the kinds of the sections the line is in |
| `SectionState.StackAnswers` | scripts/check_version_consistency.py:1062 | What is appended for a line is its declared state |
| `SectionState.NewestRank` | scripts/check_version_consistency.py:1032-1045 | The first pass finds the greatest rank outside fences |
| `SectionState.RankBeforeIff` | scripts/check_version_consistency.py:1018-1021 | A record is older by its date, as text, and the same day by its version |
| `SectionState.KindAsWritten` | scripts/check_version_consistency.py:1057-1060 | The branches assign a heading its declared kind |
| `Scope.HeadingStep` | scripts/check_version_consistency.py:1054-1060 | Popping every entry as deep or deeper leaves exactly the headings still in scope |
| `AnchorPaths.PathsOf` | examples/html_to_vault.py:335-354 | Each id maps to the texts of the chain of headings over its first occurrence, outermost first; an id with no heading there is absent, and nothing else is present |
| `AnchorPaths.PushHeading` | examples/html_to_vault.py:349-351 | Pop and push keep the stack equal to the headings in scope, so its texts are the heading's own path |
| `AnchorPaths.StackTextsAreThePath` | examples/html_to_vault.py:347-353 | The texts on the stack are the heading path |
| `AnchorPaths.StackLevelsIncrease` | examples/html_to_vault.py:349-351 | Levels grow strictly along the stack |
| `Scope.StackIsTheChain` | examples/html_to_vault.py:349-353 | A stack of all headings is the chain of the scope rule, in order |
| `Scope.GoverningIsTheRule` | examples/html_to_vault.py:335-354 | The chain holds exactly the headings in scope, in order |
| `Scope.LevelsIncrease` | examples/html_to_vault.py:349-351 | Levels grow strictly along any such stack |
| `VaultPaths.AssignPaths` | examples/html_to_vault.py:632-654 | Each note gets its plain path, else its path with its route, else the first free numbered form |
| `VaultPaths.JoinShape` | examples/html_to_vault.py:641 | Directory and name are joined by exactly one slash, and both are kept; a name with no directory, or that starts with a slash, stands alone |
| `VaultPaths.PlainPathIs` | examples/html_to_vault.py:635-641 | A placed note has the path of its place, an unplaced one its title under the default directory |
| `VaultPaths.PathsAreDistinct` | examples/html_to_vault.py:624-654 | All notes get pairwise different paths, ignoring case, extension included |
| `VaultPaths.PlainPathKeptIff` | examples/html_to_vault.py:641-654 | A note keeps its plain path if and only if no earlier note has it, ignoring case |
| `VaultPaths.Disambiguate` | examples/html_to_vault.py:649-652 | The suffix loop terminates, by counting failed suffixes inside the finite set used, and returns the first free form |
| `VaultPaths.NumberedBelowCount` | examples/html_to_vault.py:649-652 | The failed suffixes are as many different names |
| `VaultPaths.NumberedDiffer` | examples/html_to_vault.py:652 | Different suffixes give different names, even ignoring case |
| `VaultPaths.DecimalReadsBack` | examples/html_to_vault.py:652 | The decimal text of a number determines it |
| `VaultPaths.DecimalIsPlain` | examples/html_to_vault.py:652 | And it has no leading zero |
| `VaultPaths.Body.NameBlocks` | examples/html_to_vault.py:830-846 | Each citable paragraph gets its slug, or the slug's first free numbered form, an id nothing else has, across calls; a paragraph without an id or inside a table gets none; the set of ids grows by exactly those |
| `VaultPaths.CanonicalIsPreferred` | examples/html_to_vault.py:657-669 | The page chosen is one of them and none is preferred to it: by depth, ten thousand when unplaced, then by path there, then by file |
| `VaultPaths.CanonicalIgnoresOrder` | examples/html_to_vault.py:657-669 | For the pages of distinct files, as the importer scans them, the choice never depends on the order of the scan |
| `Consolidation.ConsolidatingKeepsTheRecords` | examples/knwler_import.py:261-298 | Consolidating first gives the same Document, Chunk, Entity, CONTAINS and HAS_ENTITY records, in the same order |
| `Consolidation.RelationsAgreeIff` | examples/knwler_import.py:131-163 | The relation records are the direct ones with later repeats of a key dropped if and only if no endpoint is left without a type by its own document while the first entities of all documents give its name exactly one |
| `Consolidation.ResolvedByAnotherDocument` | examples/knwler_import.py:131-163 | The witness: a document relates an untyped name that only another document's entity has |
| `Consolidation.MergedTypes` | examples/knwler_import.py:131-137 | The types a name has after merging are those of the first entity of each key |
| `Consolidation.SettledMeansResolvedAtHome` | examples/knwler_import.py:154-163 | Typing again against the merged entities changes no kept relation exactly under that condition |
| `Consolidation.RelationsAgreeWhenResolved` | examples/knwler_import.py:154-163 | In particular when every endpoint has a type or its own document tells it one |
| `Consolidation.EqualRowsMeanSettled` | examples/knwler_import.py:179-189 | Equal relation records, type by type, mean that no relation was retyped |
| `Consolidation.FirstsCoverTheKeys` | examples/knwler_import.py:276-279 | The kept relations have distinct keys and cover every key |
| `RecordByRecord.FirstsInOrder` | examples/knwler_import.py:276-279 | The kept relations are, in order, the first of each source, source type, target, target type and type |
| `Consolidation.MergeIsIdempotent` | examples/knwler_import.py:170-178 | Merging the entities of a merged table gives that table again, in the same order |
| `Consolidation.MergedIsTidy` | examples/knwler_import.py:170-178 | Each key is listed once and is the key of its row |
| `Consolidation.MergedNamesTheFirst` | examples/knwler_import.py:173-176 | A row names and describes what the first entity of its key does |
| `Consolidation.MergedListsTheChunks` | examples/knwler_import.py:177-178 | A row lists a chunk exactly when some entity of its key does |
| `Consolidation.HasEntityExactly` | examples/knwler_import.py:220-225 | HAS_ENTITY joins a chunk and an entity exactly when the row lists the chunk and the chunk is present |
| `Consolidation.RelationRowsStep` | examples/knwler_import.py:179-189 | One relation appends one record to its own type and touches no other |
| `Consolidation.KnwlerToSpec` | examples/knwler_import.py:166-227 | The adapter loops compute SpecOf, whose records are said one by one by the five rows below |
| `RecordByRecord.RelationRecords` | examples/knwler_import.py:179-189 | The records of a relation type are, in order, one for each relation of that type, from source::source_type to target::target_type with its description, chunk ids and strength, 0.5 when absent |
| `RecordByRecord.ChunkRecords` | examples/knwler_import.py:190-211 | One Chunk and one CONTAINS record for each chunk, in order: its document, else its document id, else none; document first, then chunk |
| `RecordByRecord.SpecRecords` | examples/knwler_import.py:192-232 | The documents as they came; one Entity record, named name::type, for each first entity of a name and type, in order; one HAS_ENTITY record, chunk then entity, for each listed chunk that is there, entity by entity |
| `RecordByRecord.ChunkIdsAreAppended` | examples/knwler_import.py:177-178 | A further entity appends to its row the chunk ids the row did not list, in its order, and leaves the other rows alone |
| `RecordByRecord.TypedFieldByField` | examples/knwler_import.py:154-163 | Each endpoint gets its own type, else the only type of its own name, else none; nothing else of the relation changes |
| `Consolidation.Consolidate` | examples/knwler_import.py:261-298 | The consolidation loops compute ConsolidatedOf |
| `Consolidation.MergeDocument` | examples/knwler_import.py:269-275 | One document's entities, merged into the table of all before |
| `Consolidation.KeepFirsts` | examples/knwler_import.py:276-279 | One document's relations, each kept unless its key was seen |
| `Consolidation.MergeEntities` | examples/knwler_import.py:170-178 | The entity loop over the insertion-ordered dictionary |
| `Consolidation.PartsOfDocs` | examples/knwler_import.py:138-147 | The per-document parts, chunks placed and relations typed within their document |
| `RecordByRecord.DocumentsInOrder` | examples/knwler_import.py:140 | One document row for each document, in order |
| `RecordByRecord.ChunksInOrder` | examples/knwler_import.py:141 | The chunks, document by document, each with its own document filled in |
| `RecordByRecord.EntitiesInOrder` | examples/knwler_import.py:145 | The entities, document by document |
| `RecordByRecord.RelationsInOrder` | examples/knwler_import.py:146 | The relations, document by document, each typed by its own document's entities |
| `Consolidation.PartsOfConsolidated` | examples/knwler_import.py:131-137 | The consolidated parts, relations typed against all entities |
| `Consolidation.TypeRelations` | examples/knwler_import.py:154-163 | Each relation gets its own endpoint types, else the only type of the name, else none |
| `Consolidation.TypeIndex` | examples/knwler_import.py:142-144 | The index holds exactly the types of each name |

## Left out

- The Rust engine, Cypher parsing and execution, Bolt, MCP, the C ABI and the Java binding.
- Snapshots.Graph.ApplySnapshot: repeated keys in the bootstrap snapshot are excluded, because what `add_nodes` makes of them is the engine's.
- SnapshotHistory.AsKnownAt: the valid-time columns and the `valid_at` filter of the final query are not part of the model, only its recording filter.
- FileSnapshot.World.SnapshotFile: operating-system errors other than a missing file, and the text form of a nanosecond timestamp.
- Freshness.FreshnessChunks: the generator is a method that returns its batches in order; laziness is not modelled.
- Outline.Walk: the labels, body prose and indentation of the rendered lines, and the `CALL outline` query; each line is its token and depth.
- TestItems.BlankTestItems: the last statement of `_strip_test_items`, which splits the text into lines and drops those that start with `//`. Idempotence is not claimed: blanking can bring a second attribute to the start of a line.
- RustTokens.SkipCommentOrLiteral: it is the script's notion of a token that is modelled, not that of the Rust reference.
- Qualification.Bench.Write: the JSON text and the replacement of the file by way of a temporary one; `compatible`, `validate_measurements` and the command line.
- Anchor.SelectCaptures: the comparison of measurements and the dispersion warning; paths are ordered by name as on a case-sensitive file system.
- Requirements.ParseRequirement: the regular expressions that cut the text into clauses; versions whose major number reaches 2 to the 30th lie above the top bound.
- SectionState.DocSectionState: the patterns that classify a line as fence, heading, marked or record.
- AnchorPaths.PathsOf: HTML parsing, and which definition lists count as headings.
- Consolidation.KnwlerToSpec: clusters and BELONGS_TO, which only the consolidated form has; the alphabetical order of the connections by type, since relation records are kept as one sequence per type.
- VaultPaths.AssignPaths: the folding is character by character, so the context-sensitive final sigma is not covered; `sanitize` and the table-of-contents layout.
- `analyse` beyond its contradiction check, and the prose heuristics of `is_version_citation`.
- kglite/retry.py: it repeats a transaction after a commit conflict; when two commits conflict is decided in the engine.
- The release, packaging, licence and vocabulary scripts: each compares files with a fixed list or another file, once, and keeps no state.
