# Groundfloor Atlas: verified algorithm cores

This project models the parts of Groundfloor Atlas that decide something without input or
output of their own, once the file system and the graph store are taken as parameters, and
proves what they promise. `dafny verify dfyconfig.toml` checks it. The modules follow the
program:

- `Options`, `Strings`, `Sorting`, `OrderedMaps`, `Graphs`: values that may be absent, string
  operations as the runtime's string library defines them (`split`, `join`, `trim`, the
  lexicographic order), stable sorting by a comparison, maps that remember insertion order, and
  reachability in finite directed graphs.
- `Tarjan`, `CommunityEdges`, `StableIds`: the analysis of the community graph. The iterative
  Tarjan search is proved in full: its loop is specified by the index map, the low links, the
  stack and the open frames, and each component it emits is shown to be exactly one strongly
  connected component. On it rest the cycle flags of the architecture map. Public community
  ids are injective and survive renumbering. `StableIdMeaning` says what the slugs, the parts
  of an id, the rule for taken ids and the processing order are, on texts.
- `TomlScanner`, `TomlPieces`, `TomlBlock`, `TomlConnect`, `TomlRoundTrip`: the editor that
  puts the server entry into a Codex `config.toml` and takes it out again, on text. The
  scanner covers the subset of TOML v1.0.0 ("String", "Table") that the program covers.
  `TomlTokens` says what strings, brackets, comments and header lines are to the scanner,
  `TomlValues` reads the written block back with a reader of its own, and `TomlOutcome` gives
  the text each edit leaves, on the preamble and the regions of the text it was given.
- `GroupYaml`: the printer and the parser of the in-repository group declaration.
  `GroupYamlMeaning` gives the declaration any text is read as, by its sections and items.
- `Stores`, `BatchWriters`, `IndexCore`, `Checkpoints`, `ResumeSafety`: the two-pass index
  write, with per-item refusals, checkpoints, and resumed runs. `Stores.Store` is a store that
  keeps the per-item contract of `src/loreClient.ts:75-82`; its field `reliable` says that it
  refuses nothing but an edge without its endpoints. `ResumeSafety` is a state machine whose
  steps are edits, parses, stats, queued batches, flushes with arbitrary rows, saves and
  crashes. `BatchMeaning` and `IndexMeaning` say on the rows and the items which files land,
  which errors are recorded, and which nodes a run leaves.
- `MemorySync`: the co-load of a group of memory files.
- `Walker`, `BlastRadius`, `SchemaDrift`, `Coupling`, `TectonicMap`, `Ipv4`: the directory
  walk, tiered reachability, the SQL scanners, module coupling and its topology, and the
  canonical form of IPv4 hosts.

Methods carry the loops and the updates in place of the program and are proved against
functions or predicates; lemmas say what those mean. Where the program falls short of what a
comment promises, the code was followed, and a lemma says when the promise holds:

- Disconnecting "restores a pre-connect file byte-for-byte" (`src/cli/ideConnect.ts:414-417`)
  exactly for the texts of `TomlRoundTrip.Restorable`; texts of two or more newlines are not
  among them (`TomlRoundTrip.NewlinesLost`).
- A file that lost an edge "must not be checkpointed as landed"
  (`src/cli/batchWriter.ts:142-146`): only the first file of the batch that owns an endpoint is
  held back. `BatchWriters.LaterOwnerCanLand` is an input on which another one lands; whatever
  the store refuses, every owner is held back exactly when the owners of each queued edge have
  one path (`BatchWriters.HoldsOwnersExactlyWhen`), and every file that lost an outgoing edge
  exactly when each edge is blamed on all files it leads out of
  (`BatchWriters.HoldsSourcesExactlyWhen`).
- A file held back "is re-attempted" (the same comment): by the next resumed run exactly when
  the checkpoint did not already hold its fingerprint (`ResumeSafety.HeldBackIsRetried`). A full
  run over an unchanged file whose edge is refused leaves the former entry, and the next resumed
  run skips the file (`ResumeSafety.EdgeLostLaterIsSkipped`).
- Failures of auxiliary nodes "still surface in `errors`" (`src/cli/batchWriter.ts:97-105`): an
  auxiliary entry names no nodes, so none does. A refused node shows exactly when a file of the
  batch owns it (`BatchWriters.NodeErrorsExactlyWhen`), and `IndexCore.NodePass` leaves `errors`
  as it was whatever the store refuses.
- The fingerprint in the checkpoint is said to be that of the content parsed
  (`src/cli.ts:1208-1210`). The stat is taken after the parse, and the nodes are built after
  that, from the parse and from a second read of the file (`src/store/codeNodes.ts:426-427`).
  When at the stat, at the second read and at the mark of a file without a stat the file holds
  what was parsed, every run is safe (`ResumeSafety.EveryRunIsSafe`). A run of one file ends safe
  if and only if what it sends covers a version the file had at the recorded fingerprint
  (`ResumeSafety.EndsExactly`). For an edit before the stat, a failed stat, an edit before the
  second read, and a file gone by then, `EditBeforeStatExactly`, `GoneAtStatExactly`,
  `EditBeforeBuildExactly` and `GoneAtBuildExactly` say when.
- Sending the nodes again without embedding is said to be an upsert of "already-persisted"
  cards (`src/indexCore.ts:170-172`). What the first pass was answered is not looked at: a file
  whose embedding copies were refused lands and is recorded all the same
  (`ResumeSafety.EmbeddingsExactly`).
- The comment on collisions between group members (`src/cli/memorySync.ts:749-756`) says that
  the second copy of an id overwrites the first. The guard after it drops the second copy, and
  the lines it drops are counted nowhere (`MemorySync.DroppedAreUncounted`); the ids reported are
  exactly those of which it drops a line and those that a code graph shares with another file
  (`MemorySync.ReportedExactlyWhenDropped`). As it runs before the type filter, an id can be lost
  in one member order and kept in another (`MemorySync.LostInOneOrder`). Every order
  leaves the same ids exactly when the declarers of each id the store did not have agree whether
  it can be imported (`MemorySync.OrderFreeExactlyWhen`).

## Model

| member | source | states |
|---|---|---|
| Tarjan.StronglyConnectedCycles | src/communities/index.ts:526-570 | For every finite directed graph the groups are disjoint, have two or more distinct nodes, and hold two distinct reachable nodes together if and only if each reaches the other; every reachable node is indexed exactly once and every adjacency entry consumed exactly once; the loop ends |
| Tarjan.PopComponent | src/communities/index.ts:554-558 | Popping down to the root of a component yields exactly the stack nodes indexed at or after it, and takes them off the on-stack set |
| Tarjan.EmittedComponent | src/communities/index.ts:553-560 | What is popped when a node is its own low link is exactly its strongly connected component |
| Tarjan.VisitChild | src/communities/index.ts:545-548 | Opening a new node keeps the search invariant: stack, on-stack set, index order and low links agree |
| Tarjan.LowerEntry | src/communities/index.ts:549-551 | Lowering the low link at an entry that leads back into the stack keeps the invariant |
| Tarjan.SkipEntry | src/communities/index.ts:544-551 | An entry that leads to a node off the stack changes nothing that matters |
| Tarjan.CloseMerge | src/communities/index.ts:561-565 | A frame whose low link lies below it passes it to its parent, and the invariant holds with one open node fewer |
| Tarjan.CloseEmit | src/communities/index.ts:553-561 | Emitting a component leaves a state in which everything off the stack leads only off the stack |
| CommunityEdges.PairKeyInjective | src/communities/index.ts:496-498 | Ids without the separator have the same pair key exactly when they are the same pair in either order |
| CommunityEdges.DirKeyInjective | src/communities/index.ts:439 | The directed key determines source and target |
| CommunityEdges.AggregateEdges | src/communities/index.ts:431-440 | Each undirected counter is the number of mapped file edges between its two communities in either direction, they sum to the number of mapped cross-community edges, and a directed key exists exactly for each direct dependency |
| CommunityEdges.CountsExactly | src/communities/index.ts:431-440 | A counter is the number of file edges whose ends are mapped to its two communities, one way or the other; the total counts those with ends in two communities |
| CommunityEdges.PairsExactly | src/communities/index.ts:431-440 | The edges are made once for each pair of communities with a file edge between them, in the order in which the pairs are first met |
| CommunityEdges.ComputeCycles | src/communities/index.ts:584-605 | The dependency graph read back from the keys, its cycle groups, and the pair keys of the dependencies inside one |
| CommunityEdges.FlagMeansCycle | src/communities/index.ts:596-605 | A pair key is flagged exactly when a direct dependency between the two communities lies on a directed cycle |
| CommunityEdges.FlagMeansViolation | src/communities/index.ts:616-631 | A pair key is flagged exactly when a direct dependency between the two communities leads from a layer two or more deeper, infrastructure excepted |
| CommunityEdges.MapEdges | src/communities/index.ts:431-459 | The map has one edge for each pair with a dependency; it is cyclic if and only if some direct dependency between its ends lies on a directed cycle, and a violation if and only if one inverts the layers; the weights sum to the mapped cross-community file edges; edges come by falling weight, of equal weight by source, ties as their pairs were met |
| StableIds.SlugIsSlug | src/communities/index.ts:706-711 | A slug holds only lower-case letters, digits and single inner dashes, so never `~` or the key separator |
| StableIds.SlugIdempotent | src/communities/index.ts:706-711 | A slug is its own slug |
| StableIdMeaning.SlugOfWords | src/communities/index.ts:706-711 | The slug of words with any other characters between and around them is the words in small letters joined by dashes |
| StableIdMeaning.NoSlug | src/communities/index.ts:706-711 | A text without letters and digits has the empty slug |
| StableIdMeaning.AnchorExactly | src/communities/index.ts:715-719 | The anchor is the slug of the name of the smallest file without its last extension, or `unnamed` |
| StableIdMeaning.AnchorWhole | src/communities/index.ts:747-748 | A file name without extension is slugged whole; no file gives `unnamed` |
| StableIdMeaning.BaseExactly | src/communities/index.ts:743-746 | The base is the slug of the label; a label that only numbers a community, or has no word, gives `community` |
| StableIds.NumberedIdFresh | src/communities/index.ts:811-813 | An id with a dense id in it is no id of a group with another dense id |
| StableIds.PickId | src/communities/index.ts:807-814 | The collision loop runs at most once and ends with the id the rules give |
| StableIdMeaning.IdRule | src/communities/index.ts:804-817 | In processing order each group takes the first of its bare, hashed and numbered id that no group before it took, the hash being that of its sorted base names joined by bars |
| StableIdMeaning.SortProcesses | src/communities/index.ts:795-802 | The processing order is the same groups by smallest member path, then by dense id |
| StableIds.IdsDistinct | src/communities/index.ts:804-817 | No two groups share a public id |
| StableIds.IdsPlain | src/communities/index.ts:496-498 | Public ids are non-empty and free of the separator of the edge keys |
| StableIds.AssignStableIds | src/communities/index.ts:804-818 | The map gives each group the id its place in the processing order gives it |
| StableIds.DenseIdShowsOnTieOnly | src/communities/index.ts:807-814 | A dense id shows in the public id exactly when both the bare and the hashed id are taken |
| StableIds.RenumberingKeepsIds | src/communities/index.ts:753-818 | Renumbering and reordering the groups leaves every public id unchanged, when smallest member paths are distinct and no hash tie-break collides |
| StableIds.RenumberingExactlyWhen | src/communities/index.ts:753-818 | With distinct smallest member paths, the public ids survive every renumbering and reordering if and only if no group has both its bare and its hashed id taken |
| StableIds.BuildDenseIdToStableId | src/communities/index.ts:762-819 | Every group gets exactly one public id, injectively, in the deterministic order |
| TomlScanner.ScanTomlRegions | src/cli/ideConnect.ts:293-345 | The line loop returns the regions of the headers the scan specification reads, or nothing when it rejects the text |
| TomlScanner.ScanChars | src/cli/ideConnect.ts:315-337 | The character loop leaves the string and bracket state the specification gives, and rejects a stray closer |
| TomlTokens.BasicString | src/cli/ideConnect.ts:315-323 | A basic string is read over whatever it holds, escaped quotes included; unclosed it stays open |
| TomlTokens.LiteralString | src/cli/ideConnect.ts:325-330 | A literal string is read over whatever it holds, with no escapes |
| TomlTokens.MultiOpens | src/cli/ideConnect.ts:333 | Three quotes open a string that goes on over lines |
| TomlTokens.MultiGoesOn | src/cli/ideConnect.ts:315-323 | Inside, only three quotes close it, and an escaped character is read over |
| TomlTokens.LiteralMultiOpens | src/cli/ideConnect.ts:334 | So with three single quotes |
| TomlTokens.LiteralMultiGoesOn | src/cli/ideConnect.ts:325-330 | There only three single quotes close it, and nothing is escaped |
| TomlTokens.CommentEnds | src/cli/ideConnect.ts:332 | A comment ends the reading of its line |
| TomlTokens.BracketsNest | src/cli/ideConnect.ts:335-336 | Brackets and braces nest; one that closes nothing makes the line unreadable |
| TomlTokens.HeaderExactly | src/cli/ideConnect.ts:307-313 | A line is the header of a path if and only if it is a bracketed name, with white space around the name, blanks and a comment after it, and the name split at its dots is the path |
| TomlTokens.NoHeaderExactly | src/cli/ideConnect.ts:307-308 | A line is no header if and only if its first character that is no white space is no bracket |
| TomlTokens.LineExactly | src/cli/ideConnect.ts:302-341 | A line is read if and only if it closes no bracket that is not open, leaves no one-line string open and, where a table may start, is a proper header if it starts with a bracket; a carriage return at its end changes nothing |
| TomlScanner.ScanAppend | src/cli/ideConnect.ts:293-345 | Compositionality: scanning `a + b` where `a` ends a line and leaves the scanner clean is scanning `a`, then `b` further on |
| TomlScanner.ScanMoved | src/cli/ideConnect.ts:293-345 | Moving a text moves its headers and changes nothing else |
| TomlScanner.ScanCut | src/cli/ideConnect.ts:303-313 | A scan can be cut at any of its headers into two scans |
| TomlScanner.HeadersInOrder | src/cli/ideConnect.ts:303-313 | Headers are in order and inside the text |
| TomlPieces.DocHeaders | src/cli/ideConnect.ts:293-345 | A preamble and tables that scan on their own compose to a text with exactly their headers |
| TomlPieces.Decompose | src/cli/ideConnect.ts:293-345 | Every scannable text is such a composition |
| TomlBlock.JsonSkipped | src/cli/ideConnect.ts:355-372 | The scanner reads a rendered string over, whatever characters it holds |
| TomlBlock.HeadsName | src/cli/ideConnect.ts:369-376 | A rendered header line is read back as the header of the table it spells |
| TomlBlock.BlockPiecesOk | src/cli/ideConnect.ts:360-379 | Reading the rendered block back gives exactly its own one or two tables |
| TomlBlock.CodexRenderable | src/cli/ideConnect.ts:360-379 | The entry of `connect codex` meets what rendering asks for, whatever the url and the token are |
| TomlValues.BlockSays | src/cli/ideConnect.ts:360-379 | Read line by line by a reader of its own, the written block is the server table with the command and the arguments, then the environment table with each variable |
| TomlValues.CodexSays | src/cli/ideConnect.ts:152-157 | For Codex that is the bridge to the url with the header that names the token's variable, and the variable with the token |
| TomlConnect.SpliceToml | src/cli/ideConnect.ts:384-394 | The loop gives the text without the regions, with the block where the insertion point says |
| TomlConnect.SpliceKeeps | src/cli/ideConnect.ts:384-394 | Removing our regions leaves the other tables byte for byte, in order |
| TomlConnect.ApplyToml | src/cli/ideConnect.ts:398-452 | The method computes the outcome on text: failed if and only if it cannot be scanned, else skipped, disconnected or connected, with the text left and the former names found as the two next rows describe them on regions |
| TomlOutcome.DisconnectExactly | src/cli/ideConnect.ts:409-420 | For every scannable text with tables of ours, disconnecting leaves the preamble and the regions that are not ours, in order; when the last of ours ends the text, the blank tail from its first newline becomes one newline; without tables of ours it is skipped |
| TomlOutcome.ConnectExactly | src/cli/ideConnect.ts:427-445 | Connecting leaves the preamble and the other regions in order, with the block in the place of our first region, or after the text and one empty line; the former names reported are exactly those present |
| TomlRoundTrip.RegionsPartition | src/cli/ideConnect.ts:293-345 | Regions start lines, are contiguous, and with the preamble partition the text |
| TomlRoundTrip.ConnectIdempotent | src/cli/ideConnect.ts:427-445 | connect(connect(T)) = connect(T) for every scannable text and every entry |
| TomlRoundTrip.ConnectLeavesOnlyCurrent | src/cli/ideConnect.ts:430-437 | After connecting, our tables are the current server table and its environment table; none with a former name is left |
| TomlRoundTrip.ConnectKeepsOutside | src/cli/ideConnect.ts:381-394 | Connecting keeps every byte outside our regions, in order; a text without them only gains the separator |
| TomlRoundTrip.DisconnectUndoesConnect | src/cli/ideConnect.ts:409-445 | disconnect(connect(T)) = T byte for byte if and only if T is restorable, for every scannable T without our tables |
| TomlRoundTrip.RestorableTexts | src/cli/ideConnect.ts:413-419 | Texts that end in one newline after a line not made only of blanks are restorable; texts that end no line, or end in two newlines, are not |
| TomlRoundTrip.NewlinesLost | src/cli/ideConnect.ts:409-419 | A text of two or more newlines is scannable, has no table, and is not given back |
| TomlRoundTrip.DisconnectLeavesNone | src/cli/ideConnect.ts:409-419 | What disconnecting leaves is scannable and has none of our tables, so a second one is skipped |
| GroupYaml.StripComment | src/cli/groupYaml.ts:105-118 | The quote-aware loop keeps exactly what precedes the first unquoted comment sign |
| GroupYamlMeaning.CommentCut | src/cli/groupYaml.ts:105-118 | What stands before the first sign outside quotes is kept, and nothing after it |
| GroupYamlMeaning.QuotesKept | src/cli/groupYaml.ts:105-118 | A quoted stretch is kept whatever it holds, and an open quote keeps the rest of the line |
| GroupYamlMeaning.KeyAndValue | src/cli/groupYaml.ts:120-136 | A key and a value with white space around them, the value bare or in quotes of one kind, are read as that key and value |
| GroupYamlMeaning.NoKeyAndValue | src/cli/groupYaml.ts:129-135 | A line without a colon, or with nothing before it, has none |
| GroupYamlMeaning.BasenameIs | src/cli/groupYaml.ts:154 | The base name of a path is its last name, slashes at the end aside |
| GroupYaml.ParseGroupYaml | src/cli/groupYaml.ts:142-202 | The line loop computes `Parse`, the declaration that `GroupYamlMeaning.ParseExactly` gives for every text |
| GroupYamlMeaning.ParseExactly | src/cli/groupYaml.ts:142-202 | Every text is read as the last `name` at the margin and the items of its `members` sections, an item with its last name, remote and path, named after its remote or path if it has no name and left out if it has none of these |
| GroupYamlMeaning.ForeignIgnored | src/cli/groupYaml.ts:167-176 | Under any key at the margin but `members`, indented lines can be put in or left out without a change of the declaration |
| GroupYamlMeaning.ForeignAtStart | src/cli/groupYaml.ts:142-176 | So before the first key |
| GroupYaml.ScalarExactly | src/cli/groupYaml.ts:236-247 | A value is printed bare exactly when it has no colon, hash sign, white space at an end or quote at its start, or holds both kinds of quote; else between quotes it does not hold |
| GroupYaml.ScalarReadsBack | src/cli/groupYaml.ts:242-247 | A printed scalar is read back unchanged if and only if it does not both hold the two quote characters and fail to survive unquoted |
| GroupYaml.ParsePrinted | src/cli/groupYaml.ts:142-262 | Parsing a printed declaration of one-line texts gives each scalar as it is read back and each member as the parser settles it, named after its path where its name is read back as nothing |
| GroupYaml.ParseSerialize | src/cli/groupYaml.ts:236-262 | parse(print(d)) = d if and only if no text has a newline, the name and all options are carried by the format, no printed option is empty, and each member has a name that is carried or is restored from the base name of its path, for every declaration |
| GroupYaml.NameFromPath | src/cli/groupYaml.ts:149-158 | The second case is possible: a name that is cut to nothing, restored from its path |
| Stores.Store.BulkStoreNodes | src/loreClient.ts:75-82 | Per-item upsert with positional rows; a refused row names its node |
| Stores.Store.BulkStoreEdges | src/loreClient.ts:75-82 | Per-item write with positional rows; an accepted edge has both endpoints, and a reliable store accepts exactly those |
| BatchWriters.BatchWriter.constructor | src/cli/batchWriter.ts:75-79 | An empty writer whose batch size is at least one |
| BatchWriters.BatchWriter.Add | src/cli/batchWriter.ts:87-95 | Queues a file, and flushes exactly when the batch is full |
| BatchWriters.BatchWriter.AddAux | src/cli/batchWriter.ts:106-114 | Queues nodes and edges under an entry with no nodes of its own |
| BatchWriters.BatchWriter.Flush | src/cli/batchWriter.ts:122-210 | Sends everything pending in order in chunks of at most 1000, and gives the landed files, the errors and the totals that the rows mean |
| BatchWriters.LandsExactlyWhen | src/cli/batchWriter.ts:168-189 | A file lands exactly when it is not auxiliary, no rejected edge is blamed on it, and every row written for one of its nodes was accepted |
| BatchMeaning.LandedExactly | src/cli/batchWriter.ts:168-189 | The landed files are, in the order queued, those not auxiliary of which no refused row names a node and on which no refused edge is blamed |
| BatchMeaning.BlameExactly | src/cli/batchWriter.ts:222-230 | An edge is blamed on the first queued file that has one of its ends, or on none by name |
| BatchMeaning.EdgeErrorsExactly | src/cli/batchWriter.ts:147-166 | One error for each refused edge, in order, with the file it is blamed on and the reason of its row |
| BatchMeaning.FailedExactly | src/cli/batchWriter.ts:134-141 | The refused nodes are those that refused rows name, each with its last reason |
| BatchMeaning.NodeErrorsExactly | src/cli/batchWriter.ts:168-189 | One error for each file that lost a node, in order, with the first node it lost and its last reason |
| BatchWriters.RejectedEdgeHoldsItsFile | src/cli/batchWriter.ts:147-189 | For each rejected edge with an owned endpoint, the flush does not land the first file of the batch that owns one |
| BatchWriters.HoldsOwnersExactlyWhen | src/cli/batchWriter.ts:142-189 | Whatever rows the store answers with, no owner of an endpoint of a rejected edge lands if and only if the owners of each queued edge all have the path it is blamed on |
| BatchWriters.HoldsSourcesExactlyWhen | src/cli/batchWriter.ts:142-189 | Whatever rows the store answers with, no file that lost an outgoing edge lands if and only if each queued edge is blamed on every file it leads out of |
| BatchWriters.LaterOwnerCanLand | src/cli/batchWriter.ts:222-230 | A later owner of an endpoint of a rejected edge can land in the same flush |
| BatchWriters.NodeCountExact | src/cli/batchWriter.ts:134-141 | The node total counts the accepted rows exactly when no id was refused twice in the batch |
| BatchWriters.NodeErrorsExactlyWhen | src/cli/batchWriter.ts:168-189 | No node error is recorded if and only if no refused node is among those a file of the batch names |
| IndexCore.NodePass | src/indexCore.ts:145-164 | All nodes are sent in order before any edge; nothing lands and no error is recorded, whatever the store refuses |
| IndexCore.EdgePass | src/indexCore.ts:166-184 | Every file's nodes again without embedding and all edges are sent in order; with no dangling edge every file lands, once, in order |
| IndexCore.IndexRepoFiles | src/indexCore.ts:145-184 | With a reliable store the run ends with the stored nodes and all built ones, and the stored edges and all built ones whose endpoints are among those, whatever the batch size; with any store everything queued is sent in order in chunks of at most 1000 |
| IndexMeaning.FinalExactly | src/indexCore.ts:145-184 | An id built of a file ends as its last built node without embedding, an auxiliary id no file builds as its last auxiliary node, and every other id as it was |
| IndexMeaning.WrittenExactly | src/indexCore.ts:135-143 | The files written are those with the write flag, in their order |
| IndexCore.RewriteIsLast | src/indexCore.ts:166-180 | Sending the nodes again without embedding leaves what that writing alone would leave |
| IndexCore.OrderDoesNotMatter | src/indexCore.ts:145-184 | Any order of the files leaves the same ids and edges, and the same nodes when no two files disagree about one |
| Checkpoints.Checkpoint.Load | src/cli/checkpoint.ts:51-71 | A checkpoint stamped for another workspace, or malformed, offers no fingerprints |
| Checkpoints.Checkpoint.NeedsReindex | src/cli/checkpoint.ts:138-148 | A file is left alone exactly when its stat is the recorded fingerprint |
| Checkpoints.Checkpoint.MarkIndexed | src/cli/checkpoint.ts:156-178 | Records the known fingerprint, else a new stat, else nothing |
| Checkpoints.Checkpoint.Prune | src/cli/checkpoint.ts:87-96 | Keeps exactly the entries of live files and counts the rest |
| Checkpoints.Checkpoint.OnLanded | src/cli.ts:1278-1287 | The entries saved are those of live files: a landed one's is its fingerprint at the parse, else a new stat, and any other keeps its own |
| Checkpoints.MarkedAllAt | src/cli.ts:1278-1279 | After marking, a path has its own fingerprint if it landed and had one, else what it had |
| ResumeSafety.EveryRunIsSafe | src/cli.ts:1207-1287 | Over every run of edits, resumed runs, refused rows and crashes in which a file still holds what was parsed when its stat is taken, when its nodes are built and when it is marked without a stat, a checkpoint entry means the store accepted every node, as the edge pass sends it, of a version the file had at that fingerprint |
| ResumeSafety.StepKeeps | src/cli.ts:1207-1287 | Each single step keeps the invariant behind that |
| ResumeSafety.FlushExactly | src/cli/batchWriter.ts:134-189 | A flush acknowledges exactly the nodes whose rows were accepted, in the run's workspace, empties the queue and lands exactly the files that may land |
| ResumeSafety.SaveExactly | src/cli.ts:1278-1287 | A save writes the run's workspace and the entries of live files, the landed ones marked |
| ResumeSafety.StatExactly | src/cli.ts:1221-1231 | When a fingerprint tells contents apart, the one recorded at the stat is one the file had with the content parsed if and only if no edit came in between |
| ResumeSafety.EndsExactly | src/cli.ts:1207-1287 | A run that built its one file ends safe if and only if some version the file had at the recorded fingerprint has no node but those accepted before and those sent |
| ResumeSafety.EmbeddingsExactly | src/indexCore.ts:157-180 | Whatever the node pass is answered, the file is recorded, and each copy with an embedding was accepted if and only if its row in that pass says so |
| ResumeSafety.HeldBackIsRetried | src/cli/batchWriter.ts:142-146 | After a save, a live file that did not land is taken up by the next resumed run if and only if the entries did not already hold its fingerprint |
| ResumeSafety.EdgeLostLaterIsSkipped | src/cli/batchWriter.ts:142-146 | A file indexed once and then again, unchanged, with an edge refused is held back, and the next resumed run skips it |
| ResumeSafety.LandedWereAcked | src/cli/batchWriter.ts:134-189 | Every node built of a file that lands was acknowledged in that flush |
| ResumeSafety.SkippedIsCurrent | src/cli/checkpoint.ts:138-148 | When a fingerprint tells contents apart, of what a later run skips in a workspace every node of its content, as the edge pass sends it, was accepted there |
| ResumeSafety.EditBeforeStatExactly | src/cli.ts:1221-1231 | With an edit between parse and stat, a first run ends safe if and only if what is sent covers the new content, or the old one and the edit left the fingerprint as it was |
| ResumeSafety.GoneAtStatExactly | src/cli/checkpoint.ts:163-172 | The same with a file gone at the stat and back before its nodes are built |
| ResumeSafety.EditBeforeBuildExactly | src/indexCore.ts:135-143 | With an edit after the stat and before the second read, if and only if what is sent covers the content parsed, or the new one and the edit left the fingerprint as it was |
| ResumeSafety.GoneAtBuildExactly | src/store/codeNodes.ts:424-428 | With a file gone at the second read, if and only if no node of the content parsed needs the text of that read |
| MemorySync.DropForeign | src/cli/memorySync.ts:915-934 | The guard keeps a line exactly when its id has no owner or the owner is the line's own member, the owner being the first declarer in load order |
| MemorySync.Ingest | src/cli/memorySync.ts:1199-1330 | Every line is counted once as ingested, skipped or error with any store; with a reliable one every importable line is ingested and, when no two share an id, stored under its id, with or without vectors |
| MemorySync.CountsExactly | src/cli/memorySync.ts:1229-1249 | The lines ingested, skipped and faulty are those with an allowed type, with another type, and without id or type; each of the last is reported under its id |
| MemorySync.StoreBulk | src/cli/memorySync.ts:1284-1330 | The vector batch and its fallback count each line once with any store, and with a reliable one store every line when no two share an id |
| MemorySync.ImportEdgeLine | src/cli/memorySync.ts:1391-1436 | An edge line is persisted, deferred or an error, once; a reliable store persists it exactly when it is well-formed and both endpoints exist |
| MemorySync.ApplyEdges | src/cli/memorySync.ts:565-574 | The persisted, deferred and malformed lines, in order, of a list of edge lines |
| MemorySync.EdgesExactly | src/cli/memorySync.ts:1391-1436 | Persisted are the full lines between stored ids, deferred the other full ones; each other line is an error under its ends, a question mark for a missing one |
| MemorySync.LoadGroup | src/cli/memorySync.ts:885-963 | With a reliable store, distinct member files and one line per id inside each, every id ends with its first declarer's copy if that line is importable, field by field its id, type and text with the member's project, else with what was there, and the edges persisted are those whose endpoints are stored in the end; with any store each line of each member that the guard keeps is counted once and those of other types are skipped, with a reliable one every importable line is ingested; the collision report is exact |
| MemorySync.DetectCollisions | src/cli/memorySync.ts:891-904 | The report names each id that more than one file declares, as a knowledge or a code node, once, with exactly those files |
| MemorySync.ReportedExactlyWhenDropped | src/cli/memorySync.ts:891-926 | An id is reported if and only if the guard drops a line of it or a code graph shares it with another file |
| MemorySync.DroppedAreUncounted | src/cli/memorySync.ts:918-932 | A member's counts add up to its lines exactly when none of its ids belongs to another member |
| MemorySync.MemberOrderDoesNotMatter | src/cli/memorySync.ts:940-963 | Any member order leaves the same ids and persists the same edges, when the declarers of each id the store did not have agree whether it can be imported |
| MemorySync.OrderFreeExactlyWhen | src/cli/memorySync.ts:915-942 | Every order of any list of members leaves the same ids if and only if the declarers of each id the store did not have agree whether it can be imported |
| MemorySync.LostInOneOrder | src/cli/memorySync.ts:915-942 | Two members of which one order stores an id and the other does not |
| MemorySync.WellFormedAgree | src/cli/memorySync.ts:1240-1249 | Members whose lines all have allowed types agree |
| MemorySync.TwoOrders | src/cli/memorySync.ts:915-942 | So two members leave the same ids in both orders exactly when they agree |
| Walker.WalkRepo | src/cli/walker.ts:211-276 | The walk ends; it reads each real directory at most once, yields no path twice, at most the cap, and only wanted files, each on a path on which nothing is skipped or ignored; when the cap is hit, one more such path was not yielded; without it the root is read, and each directory read was met at such a path, every wanted file in it was yielded there, and every directory that an entry leads to is read unless it is skipped or ignored at that path; with no ignore rule that is exactly the closure of the root |
| Walker.ReadEntries | src/cli/walker.ts:232-274 | The entry loop computes the fold of the single-entry rules and stops at the cap |
| Walker.StepKeeps | src/cli/walker.ts:232-274 | One entry keeps the invariant of stack, visited directories and yielded paths |
| BlastRadius.BuildAdjacency | src/analytics/blastRadius.ts:39-56 | The adjacency has an edge exactly for each relation of a chosen kind, from target to source upstream and from source to target downstream |
| BlastRadius.Tiers | src/analytics/blastRadius.ts:70-85 | The three tiers are exactly the nodes at shortest distance 1, 2 and 3, without duplicates |
| BlastRadius.Compute | src/analytics/blastRadius.ts:62-101 | The reported tiers are those, looked up in the symbol table; with a table by id, tier k holds exactly the symbols at distance k |
| BlastRadius.WithinStep | src/analytics/blastRadius.ts:74-85 | One round of the search reaches exactly one step further |
| BlastRadius.UpstreamIsDownstream | src/analytics/blastRadius.ts:46-53 | For symbols of the table, `t` is in tier k upstream of `s` if and only if `s` is in tier k downstream of `t` |
| SchemaDrift.SplitTopLevelCommas | src/analytics/schemaDrift.ts:97-113 | The loop gives the pieces between top-level commas, less a trailing blank one |
| SchemaDrift.DepthExactly | src/analytics/schemaDrift.ts:101-106 | The depth is the number of parentheses opened less that of those closed |
| SchemaDrift.BlankExactly | src/analytics/schemaDrift.ts:111 | A blank part is one of white space alone |
| SchemaDrift.PiecesAreTheParts | src/analytics/schemaDrift.ts:97-113 | The pieces of any text are its one decomposition into parts without top-level commas, balanced in count but for the last |
| SchemaDrift.SplitRebuilds | src/analytics/schemaDrift.ts:97-113 | Joined by commas the parts rebuild any text up to a trailing blank part |
| SchemaDrift.SplitJoins | src/analytics/schemaDrift.ts:97-113 | Splitting a joined list gives it back if and only if its parts are separable and the last is not blank |
| SchemaDrift.ExtractParenBody | src/analytics/schemaDrift.ts:139-151 | The body up to the first place where as many parentheses closed as opened, or nothing when there is none |
| SchemaDrift.ClosesWhenBalanced | src/analytics/schemaDrift.ts:139-151 | A parenthesised text is closed where it ends if and only if it is balanced |
| SchemaDrift.DefinitionsRoundTrip | src/analytics/schemaDrift.ts:97-151 | Column definitions joined in parentheses are found and split into exactly the same list |
| SchemaDrift.BodyParts | src/analytics/schemaDrift.ts:97-178 | Reading the body of a declaration and splitting it gives exactly its definitions, wherever the declaration stands and whatever follows it |
| Coupling.Compute | src/analytics/coupling.ts:45-91 | One entry per module with symbols, with the cross-module edges into and out of it, its instability e / (a + e) where there are any, those with the most edges first and ties in the order the modules are met |
| Coupling.CouplingConserved | src/analytics/coupling.ts:53-89 | Total efferent = total afferent = number of cross-module edges |
| Coupling.SymbolModuleExactly | src/analytics/coupling.ts:54-60 | A symbol is in the module of its last entry in the table |
| Coupling.CountsExactly | src/analytics/coupling.ts:62-75 | The two counts of a module are the numbers of relations that lead out of it and into it |
| Coupling.ModulesExactly | src/analytics/coupling.ts:55-60 | The modules are those of the symbols, in the order first met |
| TectonicMap.AggregateEdges | src/analytics/tectonicMap.ts:84-105 | One entry per key, whose weight counts the relations of that key and equals the sum of its per-kind counts |
| TectonicMap.WeightExactly | src/analytics/tectonicMap.ts:84-105 | The weight of a key is the number of relations that yield the names of two modules with the arrow between, and each count by kind that of those of the kind |
| TectonicMap.KeysExactly | src/analytics/tectonicMap.ts:84-105 | The edges are made once for each key, in the order in which the keys are first met |
| TectonicMap.WeightsExactly | src/analytics/tectonicMap.ts:84-105 | Every weight is the number of relations between its two modules if and only if no two pairs of modules share a key |
| TectonicMap.SharedKeyMiscounts | src/analytics/tectonicMap.ts:84-105 | On two relations between modules with the arrow in their names, every aggregation gives some edge a weight that is not its number of relations |
| TectonicMap.ArrowFreeSharesNone | src/analytics/tectonicMap.ts:91 | Module names without the arrow share no key |
| TectonicMap.CouplingIsWeight | src/analytics/tectonicMap.ts:84-105 | When no two pairs share a key, a module's efferent and afferent coupling equal the summed weights of the edges that leave and enter it |
| TectonicMap.CyclicModules | src/analytics/tectonicMap.ts:107-121 | The flagged modules are the ends of the edges whose reverse key is an edge |
| TectonicMap.TwoCyclesExactly | src/analytics/tectonicMap.ts:107-121 | With arrow-free names those are the modules with edges to and from one other module |
| TectonicMap.Compute | src/analytics/tectonicMap.ts:51-126 | Nodes, edges and flags of the whole map: each node with its symbols, the cross-module edges into and out of it and its instability, in the order of coupling; the edges by falling weight, ties as they were met; the coupling of each node equal to its edge weights when no two pairs share a key |
| Ipv4.ParseIpv4ish | src/httpTransport.ts:64-91 | On every text of the accepted spellings (lower-case hexadecimal, octal, decimal parts) the dotted form of the address that POSIX `inet_addr` (IEEE Std 1003.1) gives it, and nothing on all others |
| Ipv4.NumberExactly | src/httpTransport.ts:68-75 | A part is read as n if and only if it writes n in hexadecimal after `0x`, in octal after `0`, or in decimal, with any leading zeros the base allows |
| Ipv4.InetText | src/httpTransport.ts:64-91 | A text of numbers written so, in any mixture of bases, is answered with the four bytes they stand for, or refused when one is too large |
| Ipv4.InetTextOnly | src/httpTransport.ts:64-91 | No other text is answered |
| Ipv4.Combine | src/httpTransport.ts:78-90 | The value of one to four parts; with two or more, the last bound check never refuses |
| Ipv4.OctetsRecompose | src/httpTransport.ts:90 | The octets are bytes and recompose to the value |
| Ipv4.FourBytesAreCanonical | src/httpTransport.ts:64-91 | Four decimal bytes are read as their address, and the output is the text itself |
| Ipv4.ParsedDotted | src/httpTransport.ts:64-91 | Re-parsing the output gives the same address |
| Ipv4.CanonicalForm | src/httpTransport.ts:64-91 | Output is a fixed point, and two texts share it exactly when they stand for one address |
| Ipv4.ClassifiedByRange | src/httpTransport.ts:95-106 | The class of a host in any spelling is that of its address by the listed ranges |

## Left out

- A string is a sequence of Unicode scalar values here and of code units in the program: `Strings.Less` orders a text with characters beyond the basic plane by their code points, the program by their surrogates. `StableIds.Slug` lowers ASCII letters only; a character that is not ASCII and whose lower case holds an ASCII letter (the Kelvin sign, the capital I with a dot) becomes a dash in the model.
- `localeCompare` is an order given as a parameter, strict and total in `StableIds`, with ties in `CommunityEdges.MapEdges`; two distinct paths that a locale compares as equal are outside `StableIds.RenumberingKeepsIds` and `StableIds.RenumberingExactlyWhen`.
- `hash8`, `labelCommunity`, Louvain, PageRank and the symbol buckets: the hash is any function into texts without the separators, the label any text; god clusters, hub flags and the printed list of layer inversions would only add filters. The layer of a community is given, not inferred from its folder.
- TectonicMap.Compute: without the fields for bytes and lines of a node, which the program sets to zero.
- OMP extension lists, the JSON merge of editor configurations, backups, permissions and all writing of files.
- Reading and resolving `group.yaml` against the registry of repositories.
- The tree-sitter parser, the resolver and the builders of folder, import and file batches: `IndexCore` takes what they build as given, per file, with the write flag.
- IndexCore.IndexRepoFiles: ends with the edge pass; the purge of stale nodes after a full index is a call into the store.
- Context modes that change between runs, progress lines, and timestamps in the metadata of nodes: a node is its id and its body.
- Stores that throw instead of answering per item, and answers that are not positional.
- Checkpoint keys are the relative paths themselves; `indexedAt` and the atomic rename are not modelled, so a save is one step.
- ResumeSafety.EveryRunIsSafe: speaks of nodes as the edge pass sends them, without embedding; the other copies are the subject of `ResumeSafety.EmbeddingsExactly`, and the edges a later owner lost are the subject of `BatchWriters.HoldsOwnersExactlyWhen`.
- The reset of a checkpoint when an embedded workspace turns out empty, and deletions in the store from outside: acknowledged means accepted once.
- In `MemorySync`: the parsing of JSON lines, tags and metadata, superseded nodes, the loading of code graphs with their slug guard, and the bridge edges between repositories. A comment says the vector batch turns embedding off; the code sends the input unchanged, and the model has no such flag.
- MemorySync.LoadGroup: the writer is one that cannot mark nodes as superseded, so that pass does nothing; code graphs are given as the node lines that the collision report scans, and are not loaded.
- Results of group ingestion are values passed on, not records updated in place, so aliasing between results is not captured.
- Walker.WalkRepo: the order of the yielded paths, and at which of its paths a directory is met, are not stated; both follow from the order in which the file system lists entries.
- BlastRadius.Compute: the order of the symbols within a tier.
- IndexCore.NodePass: after how many files it flushes (50 unless a batch size is given) bounds memory and is not stated; what is sent, in which order and in chunks of which size is.
- Glob and gitignore compilation: any predicate on paths.
- Column names, Prisma and GraphQL schemas, and the comparison of merged schemas.
- Numbers of IPv4 parts are unbounded in the model; the program's doubles round only far above every bound it checks, so no verdict differs.
- Lower-casing a host before `Ipv4.ParseIpv4ish` reads it, so upper-case hexadecimal is refused here; IPv6 literals, host name suffixes and everything that resolves or connects.
