# ged2dot, modelled in Dafny

ged2dot turns a GEDCOM family tree into a Graphviz drawing. It reads the
file line by line into a graph of individuals and families. It links each
node to the nodes its cross-references name. Then it walks the graph
breadth first from a root family, down to a configured family depth, and
draws one edge per spouse or child link of every family it reached.

This project models that core and proves properties of it:

- `wrappers.dfy` holds `Option`, `Result` and the `Error` kinds the
  program can raise. `IsGed2DotException` marks the ones that are a
  `Ged2DotException` in the program.
- `text.dfy` holds Python's `bytes.split` and `str.split`, `strip`,
  slicing with negative indices, and `int()` on a token.
- `graph.dfy` holds the node record, `graph_find`, `resolve`,
  `get_neighbours` and `get_color`.
- `gedcom.dfy` holds the `GedcomImport` tokenizer. The input is a
  sequence of units; a unit is either a decoded character or a byte that
  is not valid UTF-8.
- `traversal.dfy` holds `bfs`. It is an imperative method checked
  against a functional reference walk. The walk is characterised as
  "exactly the nodes within the depth budget, reached at their shortest
  distance".
- `export.dfy` holds the edge collection of `DotExport` and the
  root-family lookup of `convert`. It also proves that every drawn edge
  has both ends inside the walked subgraph when every link joins an
  individual to a family and the root is a family.
- `prototype.dfy` holds the earlier single-file implementation in
  `core/core.py`:
  - its line loop;
  - its strict `graph_find`, which raises on a missing id;
  - its direction-less neighbours;
  - its `bfs` with the fixed `> 9` cutoff.

  Each of these is related to the main implementation by an agreement
  lemma.

Nodes refer to each other through indices into the graph sequence, so
the graph is a `seq<Node>` and a link is a `nat`. The program keeps
mutable depth fields on its nodes. The model instead returns the graph
with the new depths, which is `WithDepths` in `traversal.dfy`.

Two behaviours of the program are modelled as written:

- At the end of the input, the record still being read is not added to
  the graph. Only a later level-0 line appends it. In a real GEDCOM file
  that line is the trailer `0 TRLR`.
- A byte-order mark is dropped from the level token of every line, not
  only from the first line.

## Model

| member | source | states |
|---|---|---|
| Text.JoinSplit | ged2dot.py:491-499 | Joining the pieces of a split with the separator gives the text back, so `" ".join(tokens[1:])` is exactly the text after the first space |
| Text.SplitPiecesSepFree | ged2dot.py:484-486 | No piece of a split contains the separator |
| Text.SplitAtFirst | ged2dot.py:491 | Splitting `t + c + u`, where `t` has no `c`, gives `t` followed by the pieces of `u` |
| Text.SplitFirstIsPrefix | ged2dot.py:426 | The first token of a line is a prefix of the line |
| Text.Strip | ged2dot.py:488 | The stripped text is no longer than the input, and it neither starts nor ends with whitespace |
| Text.StripSlice | ged2dot.py:488 | Stripping removes only whitespace, only at the two ends, and keeps one contiguous slice of the input |
| Text.StripIdempotent | ged2dot.py:488 | Stripping a stripped line changes nothing |
| Text.StripEmpty | ged2dot.py:488-490 | A line strips to nothing exactly when it is all whitespace, which is when the loop skips it |
| Text.SliceMiddle | ged2dot.py:419-421 | The slice `[len(pre):-len(post)]` of `pre + x + post` is `x`, which is how the record header yields the cross-reference |
| Text.ParseInt | ged2dot.py:542-547 | `int()` accepts a text exactly when, with surrounding whitespace stripped, it is an optional sign and a run of digits with single underscores between digits, of at most 4300 digits; a `-` sign gives a value of at most 0, and otherwise the value is at least 0 |
| Text.ParseIntPadded | ged2dot.py:542-547 | Whitespace around a literal does not change what `int()` reads, so `int("1\t")` is 1 |
| Text.UnderscoreDropped | ged2dot.py:542-547 | An underscore between two runs of digits is accepted and ignored |
| Text.DigitLimit | ged2dot.py:542-547 | A run of digits reads as its decimal value, leading zeros included, exactly when it has at most 4300 digits; a longer one is the `ValueError` |
| Text.ParseIntToString | ged2dot.py:542-547 | Reading back the decimal text of any integer of at most 4300 digits gives that integer |
| Text.NegativeLiteral | ged2dot.py:542-547 | A minus sign before a run of at most 4300 digits reads as the negated value of the digits |
| Graph.Matches | ged2dot.py:117-122 | The positions of the nodes that carry an id, in increasing order, and no others |
| Graph.GraphFind | ged2dot.py:112-122 | An empty id or an id no node carries gives None. A unique match gives that node. Two nodes with the id raise the ambiguity error, and nothing else does |
| Graph.MatchesOfGraph | ged2dot.py:112-122 | Two or more matches means the id is duplicated; no match means no node carries it; one match is the only such node |
| Graph.GraphFindOnlyReadsIds | ged2dot.py:112-122 | A lookup depends only on the identifiers of the nodes, not on their depths or links |
| Graph.FindAll | ged2dot.py:203-206 | Resolving a list of ids gives, in order, a node that carries each id. It fails exactly when some id has no node or is ambiguous |
| Graph.Resolve | ged2dot.py:201-206 | An individual gets its parent family and its own families linked, and a family (`Family.resolve`, lines 335-341) its wife, husband and children. Every other field stays, and list links are appended after any already there. It fails exactly when an optional id is duplicated or a listed id does not resolve |
| Graph.ResolveTwiceDuplicates | ged2dot.py:201-206 | Resolving a node a second time succeeds again and appends the same list links a second time, so resolve is not idempotent |
| Graph.ResolveFreshTwice | ged2dot.py:335-341 | For a freshly read node, a second resolve doubles the list of family or child links |
| Graph.ResolveGraph | ged2dot.py:467-472 | The load loop succeeds exactly when every node resolves against the tokenized graph. The result holds each node's resolved form and keeps all identifiers. A failure is the error of the first node that fails |
| Graph.ResolveOnlyReadsIds | ged2dot.py:469-471 | Resolving against the partly resolved graph equals resolving against the tokenized one, so in-place resolution is order independent |
| Graph.FindAllOnlyReadsIds | ged2dot.py:203-206 | Resolving an id list depends only on the identifiers of the graph |
| Graph.NeighboursDirection | ged2dot.py:208-213 | The direction only hides an individual's parent family, and only for "child"; a family's neighbours ignore it |
| Graph.NeighboursWithinBoth | ged2dot.py:208-213 | Every neighbour in any direction is a neighbour in direction "both" |
| Graph.FamilyWithoutWife | ged2dot.py:343-350 | A family with only a husband has the husband, then the children, as neighbours |
| Graph.NeighboursIgnoreDepth | ged2dot.py:208-213 | Setting a node's depth does not change its neighbours |
| Graph.ResolvedLinksInRange | ged2dot.py:201-206 | Every link that resolve sets points into the graph |
| Graph.GetColor | ged2dot.py:303-310 | M or m is blue, F or f is pink, and empty, U or u is black. Any other sex is an error naming it |
| Gedcom.LinesPartitionBuffer | ged2dot.py:484-486 | A buffer containing a CR splits at CRLF, otherwise it splits at LF. Joined back with the separator the lines give the buffer, and no line holds a separator |
| Gedcom.Decode | ged2dot.py:550-555 | Decoding succeeds exactly when no byte is malformed, and encoding the result gives the input back |
| Gedcom.DecodeEncode | ged2dot.py:550-555 | Decoding the encoding of any text gives the text |
| Gedcom.EncodeInjective | ged2dot.py:550-555 | Two texts with the same encoding are equal |
| Gedcom.LexLine | ged2dot.py:491-498 | A line fails exactly when `int()` refuses its level token without a byte-order mark; the error names the token |
| Gedcom.WhitespaceAfterLevel | ged2dot.py:491-499 | Tabs and other non-space whitespace right after the level stay in the level token and do not change the level or the rest |
| Gedcom.TabAfterLevel | ged2dot.py:491-499 | The line `1\t SEX M` has level 1 and rest `SEX M` |
| Gedcom.Lex | ged2dot.py:488-499 | Reading one raw line fails only with an undecodable line or a bad level |
| Gedcom.LexOutcome | ged2dot.py:488-490 | A line is undecodable exactly when a malformed byte survives the strip. It is skipped exactly when it is all ASCII whitespace |
| Gedcom.RestAfterFirstSpace | ged2dot.py:491-499 | For `"<n> <rest>"` the level is `n` and the rest is everything after the first space, inner spaces included |
| Gedcom.RestOfBareLevel | ged2dot.py:491-499 | A line holding only a level has an empty rest |
| Gedcom.BomIgnored | ged2dot.py:493-496 | A byte-order mark before the level does not change how the line reads |
| Gedcom.ResetFlags | ged2dot.py:400-406 | Only the three event flags change. When at most one is raised, all three end lowered |
| Gedcom.ResetFlagsLowersOnlyOne | ged2dot.py:400-406 | With both the birth and the death flag raised, the reset leaves the death flag raised |
| Gedcom.HandleLevel0 | ged2dot.py:408-421 | The pending individual and family are appended to the graph. `@X@ INDI` opens an individual and `@X@ FAM` opens a family, with the id cut from the header. Any other line opens nothing |
| Gedcom.RecordStart | ged2dot.py:416-421 | The headers `@X@ INDI` and `@X@ FAM` are recognised and yield the id `X` |
| Gedcom.TagAndPointer | ged2dot.py:438-450 | For `TAG @X@` with a four-letter tag, the first token is the tag and the pointer is `X` |
| Gedcom.HandleIndividualConfig | ged2dot.py:456-465 | BIRT raises the birth flag and DEAT the death flag, whatever record is open; NOTE on an open individual stores everything from index 5 on as the note and changes nothing else; any other line, and NOTE with no open individual, leaves the state as it was |
| Gedcom.UpdateIndividual | ged2dot.py:428-444 | FAMS appends a pointer, and FAMC sets the parent family only when none is set yet. The id, depth, configuration and links stay |
| Gedcom.UpdateFamily | ged2dot.py:445-450 | CHIL appends a child pointer, and HUSB and WIFE overwrite theirs. The id, depth, marriage date and links stay |
| Gedcom.DispatchTag | ged2dot.py:426-454 | A level-1 line raises the birth flag on BIRT and the death flag on DEAT. It raises the marriage flag on MARR only inside a family. It keeps the graph and the open records with their ids |
| Gedcom.HandleLevel1 | ged2dot.py:423-454 | When at most one flag was raised, after the line the birth flag is raised exactly on BIRT, the death flag on DEAT and the marriage flag on MARR inside a family. The graph, the open records and their ids stay, and the importer invariant is kept |
| Gedcom.StepIndividual | ged2dot.py:438-444 | Inside an individual, a FAMS line appends its pointer, a first FAMC line sets the parent family, and other lines leave both alone |
| Gedcom.StepFamily | ged2dot.py:445-450 | Inside a family, CHIL appends, HUSB and WIFE overwrite, and other lines leave the references alone |
| Gedcom.SexLine | ged2dot.py:428-431 | `SEX v` sets the sex to `v`; a bare `SEX` leaves it unchanged |
| Gedcom.NoteLine | ged2dot.py:464-465 | `NOTE v` on an open individual makes `v` its note, even when `v` spans several lines, and leaves its other fields alone |
| Gedcom.NameLine | ged2dot.py:432-437 | `NAME f/s/...` sets the stripped forename `f` and surname `s` |
| Gedcom.NameWithoutSurname | ged2dot.py:432-437 | A name without a slash sets the forename and keeps the surname |
| Gedcom.LastTokenIsLastWord | ged2dot.py:506 | The date value kept is the last space-separated word of the DATE line |
| Gedcom.HandleLevel2 | ged2dot.py:504-513 | Only a DATE line changes anything. Its last space-separated word becomes the birth date of an open individual under BIRT, otherwise its death date under DEAT, or the marriage date of an open family under MARR. Flags, graph and the other fields stay |
| Gedcom.DateRouting | ged2dot.py:504-513 | For any line `<p> <y>` whose `p` starts with DATE (so both `DATE 1970` and `DATE ABT 1970`), the year `y` goes to the birth date under BIRT, to the death date under DEAT, and to the marriage date under a family's MARR |
| Gedcom.DateWithoutEvent | ged2dot.py:504-513 | A date line with no raised event flag changes nothing |
| Gedcom.TokenizeFromStream | ged2dot.py:481-514 | Tokenizing fails only with a `Ged2DotException` |
| Gedcom.TokenizeFailure | ged2dot.py:481-514 | Tokenizing succeeds exactly when every line reads. It fails with the error of the first line that does not. On success it is the fold of the per-line steps over the read lines |
| Gedcom.LexAllSuccess | ged2dot.py:487-499 | Reading all lines succeeds exactly when each line reads |
| Gedcom.LexAllFirstFailure | ged2dot.py:487-499 | A failed read carries the error of the first line that fails |
| Gedcom.RunIsLexThenSteps | ged2dot.py:487-513 | The line loop equals reading every line first and then folding the steps over the entries |
| Gedcom.StepsAppend | ged2dot.py:487-513 | Processing two runs of lines equals processing the first and then the second |
| Gedcom.StepsKeepInvariant | ged2dot.py:400-513 | At most one record stays open, at most one event flag stays raised, and every node stays freshly read: unlinked, at depth 0 |
| Gedcom.OtherLevelsIgnored | ged2dot.py:500-513 | Lines with levels other than 0, 1 and 2 have no effect |
| Gedcom.RecordBodyKeepsGraph | ged2dot.py:408-414 | Between two level-0 lines the graph and the open record's id do not change |
| Gedcom.StepKeepsRecord | ged2dot.py:500-513 | A line above level 0 keeps the graph and the open records with their ids |
| Gedcom.IndividualReferences | ged2dot.py:438-444 | Over an individual's record, FAMS pointers accumulate in input order and the first non-empty FAMC wins |
| Gedcom.FamilyReferences | ged2dot.py:445-450 | Over a family's record, CHIL pointers accumulate in order and the last HUSB and WIFE win |
| Gedcom.IndividualRecord | ged2dot.py:408-421 | An `@X@ INDI` record closed by the next level-0 line adds one individual `X` after the earlier nodes, carrying the record's family references |
| Gedcom.Load | ged2dot.py:467-472 | Loading fails with the tokenizer's error, or succeeds exactly when every node resolves; otherwise the error is that of the first node that does not resolve. A loaded graph is closed under its links, and every depth is 0 |
| Traversal.Pigeonhole | ged2dot.py:517-539 | A duplicate-free list of nodes is no longer than the graph, which bounds the queue |
| Traversal.Discover | ged2dot.py:533-537 | Discovering neighbours only appends to the visited list, and it keeps it duplicate-free and inside the graph |
| Traversal.DiscoverDiscovered | ged2dot.py:533-537 | Each unvisited neighbour is appended once, in order, with depth one more than the current node. Visited nodes keep their depth |
| Traversal.VisitNeighbours | ged2dot.py:533-537 | The imperative neighbour loop computes exactly the reference discovery |
| Traversal.RunQueue | ged2dot.py:526-539 | The queue loop returns exactly the reference walk |
| Traversal.WalkStop | ged2dot.py:530-531 | The walk stops at the first dequeued node deeper than the cutoff and returns the nodes taken so far |
| Traversal.ExitCharacterization | ged2dot.py:526-539 | When the loop stops, the nodes taken are exactly those within the depth budget of the root, each at its shortest distance |
| Traversal.WalkFromRoot | ged2dot.py:517-539 | The reference walk from the root returns exactly the nodes within the budget. They come in non-decreasing depth order, without duplicates, at shortest distance, each with a parent taken earlier |
| Traversal.Search | ged2dot.py:517-539 | The imperative search equals the reference walk and meets its characterisation |
| Traversal.Bfs | ged2dot.py:517-539 | The result is empty exactly when the root is deeper than `familydepth * 2 + 1`, and otherwise starts at the root. It has no duplicates and holds exactly the nodes within the budget. Depths are shortest distances, in non-decreasing order, and only discovered nodes get new depths |
| Traversal.SearchWithin | ged2dot.py:526-539 | Membership in the walk is reachability within the cutoff minus the root's depth |
| Traversal.BfsDistances | ged2dot.py:535 | Each set depth is the root's depth plus the shortest distance from the root |
| Traversal.BfsDepths | ged2dot.py:533-537 | The root keeps its depth, depths do not decrease along the result, and a node's depth changes only when it is a neighbour of a taken node |
| Export.FamilyEdges | ged2dot.py:605-616 | A family draws one edge from each of wife and husband and one to each child, and no other |
| Export.FamilyEdgesIgnoreDepth | ged2dot.py:604-616 | The edges of a family do not depend on its depth |
| Export.StoreEdgesDrawn | ged2dot.py:604-616 | The stored edges are exactly the edges some family of the subgraph draws |
| Export.StoreEdgesIgnoreDepths | ged2dot.py:604-616 | The depths set by the walk do not change which edges are stored |
| Export.StoreEdgesAppend | ged2dot.py:604-616 | Storing the edges of two subgraph runs equals storing each and concatenating |
| Export.WellTypedAlternates | ged2dot.py:528 | In a graph whose links join individuals to families, every neighbour of a family is an individual and vice versa |
| Export.ReachParity | ged2dot.py:528 | Starting from a family, a family lies at an even distance and an individual at an odd one |
| Export.FamilyNeighboursWithin | ged2dot.py:528 | With an odd budget, every neighbour of a family inside the budget is also inside it |
| Export.DrawnEdgeEnds | ged2dot.py:605-616 | A family's edge has the family at one end and one of its neighbours at the other |
| Export.EdgesWithin | ged2dot.py:604-616 | When links alternate between families and individuals and the subgraph is exactly the nodes within an odd budget from a root family, every stored edge has both ends in the subgraph |
| Export.EdgesStayInSubgraph | ged2dot.py:643-661 | In a graph where every link joins an individual to a family, the walk from a root family at even depth draws only edges joining two nodes of the walked subgraph |
| Export.FirstFamilyId | ged2dot.py:648-653 | The suggested family, when one is given, is the id of a family in the graph |
| Export.FirstFamilyIdIsFirst | ged2dot.py:648-653 | The suggestion is the first family in graph order, or empty when there is none |
| Export.NotFoundReason | ged2dot.py:654-657 | The message opens with the sentence naming the missing root; it is longer than that sentence exactly when a first valid family exists, and then it ends by quoting that family |
| Export.RootLookup | ged2dot.py:645-658 | The root is found when its id is present and unique. It is not found, with the message above, when the id is empty or absent. A duplicated id is the ambiguity error |
| Export.RootLookupOnlyReadsShape | ged2dot.py:645-658 | The root lookup depends only on the identifiers and kinds of the nodes, so resolving the graph does not change its answer |
| Export.Convert | ged2dot.py:643-661 | A tokenizer error or the first resolve error is returned as it is. Once every node resolves, the conversion succeeds exactly when the root lookup on the tokenized graph succeeds, and otherwise fails with that lookup's error. On success the graph is the resolved tokenized graph, closed, the root is the found node, the subgraph is the reference walk, and the edges are those stored for it. When every link joins an individual to a family and the root is a family, every edge stays inside the subgraph |
| Prototype.LineEnd | core/core.py:196 | The first line ends just after the first LF, or at the end of the input |
| Prototype.ReadLinesPartition | core/core.py:196 | `readlines` keeps each LF on its line: the lines concatenate to the input, and only the last line may lack the LF |
| Prototype.LexRaw | core/core.py:197-206 | Reading a prototype line fails only with an undecodable line or a bad level |
| Prototype.LexRawAgrees | core/core.py:197-206 | A line reads as in the main tokenizer. A blank line is not skipped: `int("")` fails on it |
| Prototype.PrefixTag | core/core.py:227-251 | The tag a line matches is the unique listed tag that the rest starts with, or none |
| Prototype.LowerFlag | core/core.py:222-225 | The reset lowers the one raised flag and changes nothing else |
| Prototype.IndividualTag | core/core.py:227-241 | A SEX line with no value raises the missing-value error. Otherwise FAMS appends, FAMC sets the parent family only once, and the rest of the individual stays |
| Prototype.TagTests | core/core.py:227-251 | The level-1 tests change the graph, records and flags only as their tag says, keyed by a prefix of the rest. They fail only with a bare SEX line in an individual |
| Prototype.Level1 | core/core.py:221-251 | After the reset, the birth flag is raised exactly when the rest starts with BIRT, and likewise for death |
| Prototype.TagTestsAgree | core/core.py:227-251 | For a listed tag followed by a value, the prefix tests do what the main implementation's first-token dispatch does |
| Prototype.Level1Agrees | core/core.py:221-251 | Outside a marriage, for every listed tag followed by a value, the prototype level-1 step equals the main one |
| Prototype.PrefixTagDiffers | core/core.py:242-243 | A `BIRTH` line raises the birth flag in the prototype but not in the main implementation |
| Prototype.SexWithoutValue | core/core.py:227-228 | A bare `SEX` line fails in the prototype, while the main implementation keeps the sex unchanged |
| Prototype.Level2 | core/core.py:252-258 | Only a DATE line under a raised birth or death flag changes the individual's configuration |
| Prototype.Level2Agrees | core/core.py:252-258 | Outside a marriage, the prototype level-2 step equals the main one |
| Prototype.Step | core/core.py:207-258 | A prototype step fails only with the missing-value error, and it keeps the graph freshly read |
| Prototype.Feed | core/core.py:196-258 | The line loop keeps the graph freshly read, and it fails only with an undecodable line, a bad level or a bare SEX line |
| Prototype.ImportGedcom | core/core.py:188-259 | Importing fails only in those three ways, and it returns unlinked nodes at depth 0 |
| Prototype.BlankLineAborts | core/core.py:197-205 | A blank line makes the prototype import fail with a bad level |
| Prototype.FindStrict | core/core.py:47-54 | An empty id gives None. A unique match gives that node. A missing id raises the dangling error, and a duplicated id raises the ambiguity error |
| Prototype.FindStrictAgrees | core/core.py:47-54 | The strict lookup agrees with the main one except on a missing non-empty id, which it reports as dangling |
| Prototype.FindAllStrictAgrees | core/core.py:73-78 | List references resolve exactly as in the main implementation |
| Prototype.ResolveStrict | core/core.py:73-78 | Resolving keeps the node's identifier and depth |
| Prototype.ResolveStrictAgrees | core/core.py:73-78 | A strict resolve that succeeds equals the main one. Where the main one succeeds, an individual resolves strictly exactly when its parent family id is empty or present, and a family (lines 161-167) exactly when its wife and husband ids are |
| Prototype.ResolveStrictOnlyReadsIds | core/core.py:346-347 | A strict resolve depends only on the identifiers of the graph |
| Prototype.ResolveAllStrict | core/core.py:346-347 | Resolving succeeds exactly when every node resolves strictly, keeping the ids; otherwise the error is that of the first node that does not. Freshly read nodes end closed under their links |
| Prototype.PrototypeNeighbours | core/core.py:80-85 | The prototype neighbours of an individual, and of a family (lines 169-176), are the main neighbours in direction "both" |
| Prototype.SearchIsMainWalk | core/core.py:262-281 | The walk with cutoff 9 is the main walk with family depth 4 in direction "both" |
| Prototype.PrototypeBfs | core/core.py:262-281 | The prototype bfs returns what the main bfs returns for family depth 4 in direction "both": no duplicates, the root first, and exactly the nodes within the budget |
| Prototype.Pipeline | core/core.py:345-352 | The prototype main imports, resolves strictly, finds `F24` and walks from it. An import error or the first strict resolve error is returned as it is. Once every node resolves strictly, the run succeeds exactly when exactly one node carries `F24`, and otherwise fails with the ambiguity or dangling-reference error of that lookup. A success walks from the node carrying that id in a closed graph |

## Left out

- File and stream I/O, the command line, the configuration file, the
  image and label output (`get_label`, `DotExport.__store_nodes`), the
  GUI front end and the LibreOffice integration are not modelled. The
  model takes the input as a sequence of units and returns values.
- Real UTF-8 decoding is not modelled. A byte that is not valid UTF-8 is
  a single `BadByte` unit, so the model cannot tell one broken sequence
  from several.
- `Text.ParseInt` accepts only ASCII digits, while Python's `int()` also
  reads the decimal digits of other scripts, such as Arabic-Indic digits.
  A level token written in those digits is an error in the model. The
  digit limit is Python's default of 4300. A different limit set through
  `sys.set_int_max_str_digits` is not modelled, nor are Python versions
  older than 3.11, which have no limit.
- `Graph.GetColor` upper-cases ASCII letters only, which suffices for the
  values the program maps.
- The `export_dot` writer of `core/core.py` is not modelled. Per family
  it draws the wife, husband and child edges of `Export.FamilyEdges`, but
  it selects families by the `F` prefix of their identifier, not by kind.
  A family whose identifier does not start with `F` draws no edge there,
  and an individual whose identifier does makes the writer fail.
- `Prototype.Pipeline` does not model the prototype's file name, which is
  fixed as `test.ged`. The buffer is a parameter.
- `Prototype.ImportGedcom` does not model the marriage flag, which the
  prototype does not have. The shared importer state keeps it lowered.
- `Prototype.ResolveStrict` states only that the identifier and depth
  stay. Its relation to the main resolve is in
  `Prototype.ResolveStrictAgrees`.
- `Gedcom.TokenizeFromStream` states only the error kind. The full
  characterisation is in `Gedcom.TokenizeFailure`.
