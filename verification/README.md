# logseq-cardbox in Dafny

A model of the card box plugin for Logseq. The plugin shows one card for each page of the current graph. A card holds the page's title, an excerpt of its first blocks, and the first image it embeds. The cards live in a browser database table keyed by graph and page name, and they are ordered by the modification time of the page's file. The model covers the plugin's logic:

- `codec.dfy` (module `NameCodec`): the page-name codec between page titles and the file names Logseq writes. `Encode` and `Decode` are chains of replace-all calls. The codec is proved to be a per-character substitution, to produce no character that Windows forbids, and to round-trip on titles without `%` and `_`. A counterexample shows that the round trip fails once `_` is allowed.
- `pagefiles.dfy` (module `PageFiles`) holds two pieces:
  - the file-time lookup, which tries the preferred extension and then the other one;
  - the `pages/(.*)\.(md|org)` path pattern, modelled with JavaScript's leftmost-then-greedy match semantics.
- `summary.dfy` (module `Summary`): `getSummary`, the two stack-based walks over a page's block tree. They are written as methods with loops over an explicit stack of (sibling list, cursor) frames. Each walk is proved equal to a pure specification: pre-order flattening, per-line formatting, and a cut once the 100-character budget is reached, plus the first image match.
- `classifier.dfy` (module `ChangeClassifier`): `parseOperation`, the two early-exit scans that classify a change batch. They are proved equal to a priority specification.
- `store.dfy` (module `CardStore`): the `box` table, with its record and compound key, as a finite map. It also defines the table operations the plugin uses and the database object (`CardBoxDb`) that performs them in place.
- `sync.dfy` (module `CardBoxSync`) covers four operations. Each is a function stating its effect on the table, plus a method on the database object proved to have that effect:
  - the file-change handler;
  - the fill of all cards (`fetchData`);
  - the rebuild;
  - the fill on opening a graph.
- `selection.dfy` (module `Selection`): the arrow-key updates of the selected card index.

The host's answers are inputs to the model:
- the page list;
- block trees, where a rejected call is `None`;
- `getPage`;
- the `pages` directory, as a map from file name to `lastModified`;
- the image pattern, as a match function.

Strings are sequences of UTF-16 code units, as JavaScript's `length` and `substring` count them, restricted to units that are not halves of a surrogate pair.

## Model

| member | source | states |
|---|---|---|
| NameCodec.EncodeIsSubstitution | src/App.tsx:30-43 | the replace chain equals replacing each character independently by its table code |
| NameCodec.EncodeAvoidsTargets | src/App.tsx:30-43 | no encoded name holds any of the nine characters Windows forbids in file names; the encoding is empty exactly when the name is |
| NameCodec.DecodeEncode | src/App.tsx:30-57 | decoding the encoding gives back every title holding no `%` and no `_` |
| NameCodec.EncodeNotInjective | src/App.tsx:30-57 | `"_/"` and `"/_"` both encode to `"____"`, and decoding that gives `"/_"`: no round trip once titles hold `_` |
| PageFiles.LastUpdatedTimeLookup | src/App.tsx:59-85 | 0 for a name holding `/`, which `getFileHandle` rejects; otherwise the time of the preferred file if it exists, else of the other one, else 0 |
| PageFiles.FormatMattersOnlyForBoth | src/App.tsx:59-85 | the preferred format changes the time only when both the `.md` and the `.org` file exist |
| PageFiles.RunEnd | src/App.tsx:307 | the greedy `(.*)` run stops at the first line terminator |
| PageFiles.LastExt | src/App.tsx:307 | the greedy capture ends at the last `.md`/`.org` within the run |
| PageFiles.FindMatchIsLeftmostLongest | src/App.tsx:307 | the match found starts leftmost and then captures the longest name; none is found exactly when none exists |
| PageFiles.PagePathMatchSpec | src/App.tsx:307-309 | the captured file name is preceded by `pages/` and followed by an extension, with no line terminator, leftmost then longest; no capture exactly when the path has no match |
| Summary.Truncate | src/App.tsx:112 | the cut content is a prefix of the content, of length min(length, 100) |
| Summary.TakeBudgetIsPrefix | src/App.tsx:100-126 | the excerpt is a prefix of the pre-order lines: nothing reordered or skipped |
| Summary.TakeBudgetUnderBudget | src/App.tsx:100-118 | every line but the last is emitted while the running total is below 100 |
| Summary.TakeBudgetStopsAtBudget | src/App.tsx:100-107 | the excerpt stops before the end of the tree only once the total has reached 100 |
| Summary.FormatLineLength | src/App.tsx:112-115 | a line is exactly the content cut to 100, after two spaces per level and `* ` when nested: its length is the cut length plus 2 * depth + 2 when nested; at depth 0 it is a prefix of the content |
| Summary.PreOrderAppend | src/App.tsx:100-126 | the visits of two sibling lists in a row are those of the first, then those of the second |
| Summary.RefSkipped | src/App.tsx:109-111 | a reference tuple anywhere among its siblings is neither emitted nor descended: dropping it leaves the visits unchanged |
| Summary.RefsOnlyVisitNothing | src/App.tsx:109-111 | a list of reference tuples only yields no visit |
| Summary.FirstImageIsFirstMatch | src/App.tsx:144-152 | the image is the capture of the first block in pre-order that the pattern matches |
| Summary.FirstImageNoMatch | src/App.tsx:91 | the image is `""` when no block matches |
| Summary.GetSummary | src/App.tsx:87-165 | returns the budget cut of the pre-order lines and the first image match; an empty block list gives `([], "")` |
| Summary.SummaryWalk | src/App.tsx:94-126 | the stack walk emits exactly the budget cut of the pre-order lines |
| Summary.ImageWalk | src/App.tsx:128-162 | the second stack walk finds exactly the first image match in pre-order |
| Summary.PopExhausted | src/App.tsx:101-107 | popping exhausted frames leaves the blocks still to visit unchanged |
| Summary.LineOf | src/App.tsx:112-115 | the line of a block at a depth |
| Summary.EntityStep | src/App.tsx:109-124 | one step over an entity block emits its line, adds its length to the total and keeps the walk's invariant |
| Summary.RefStep | src/App.tsx:109-111 | one step over a reference tuple emits nothing and keeps the walk's invariant |
| Summary.AdvanceStep | src/App.tsx:109-124 | moving the cursor and pushing the children visits exactly the next block of the pre-order and shrinks what is left |
| ChangeClassifier.FirstPathBlock | src/App.tsx:170-171 | index of the first changed block that has a path, or none when no block has one |
| ChangeClassifier.FirstPathDatom | src/App.tsx:182-183 | index of the first five-element datom with attribute `path`, or none |
| ChangeClassifier.ParseOperation | src/App.tsx:167-196 | the two early-exit scans return the priority classification |
| ChangeClassifier.ModifiedTakesPrecedence | src/App.tsx:170-181 | a first datom on `lastModifiedAt` plus a block with a path give a modification of the first such block's path, whatever else the batch holds |
| ChangeClassifier.ModifiedExactly | src/App.tsx:170-181 | a modification is reported if and only if those two conditions hold |
| ChangeClassifier.CreateOrDeleteFromFirstPathDatom | src/App.tsx:181-194 | otherwise the first path datom decides: a deletion iff its element 4 is `false`, else a creation, with element 2 as the path |
| ChangeClassifier.NoOperationOtherwise | src/App.tsx:168-169 | a batch matching neither scan gives no operation and the empty path |
| CardStore.WithPut | src/db.ts:18 | a put stores the record under its `[graph+name]` key, replacing any record there, and leaves the other records |
| CardStore.Apply | src/App.tsx:274-277 | a partial update changes only time (when given), summary and image |
| CardStore.WithUpdate | src/db.ts:18 | an update patches the record under the key, leaves a missing key missing, and changes no other record |
| CardStore.WithDelete | src/db.ts:18 | a delete removes exactly the record under the key |
| CardStore.WithoutGraph | src/db.ts:18 | deleting by the `graph` index removes exactly that graph's records |
| CardStore.PutKeepsValid | src/db.ts:3-19 | a put keeps every record under its own `[graph+name]` key |
| CardStore.UpdateKeepsValid | src/db.ts:3-19 | an update keeps every record under its own key |
| CardStore.DeleteKeepsValid | src/db.ts:3-19 | deletes keep every record under its own key |
| CardStore.PutReplaces | src/db.ts:18 | at most one record per key: a second put under the same key replaces the first entirely |
| CardStore.SameNameOtherGraph | src/db.ts:18 | records with the same name in different graphs are distinct entries |
| CardStore.DeleteUndoesPut | src/db.ts:18 | deleting the key just put undoes the put |
| CardStore.UpdateKeepsIdentity | src/db.ts:18 | an update never changes a record's graph, name or uuid, or the key set |
| CardStore.DeleteGraphCounts | src/db.ts:18 | after deleting a graph, its count is 0 and every other graph's records and count are unchanged |
| CardStore.GraphCountZero | src/db.ts:18 | a graph counts 0 exactly when it has no record |
| CardStore.DeleteGraphAbsorbs | src/db.ts:18 | deleting a graph is idempotent and erases any put or update within that graph |
| CardStore.CardBoxDb.constructor | src/db.ts:12-23 | opening the database gives the table earlier sessions stored (empty on a first install) |
| CardStore.CardBoxDb.Put | src/db.ts:18 | the table after the put |
| CardStore.CardBoxDb.Update | src/db.ts:18 | the table after the update |
| CardStore.CardBoxDb.Delete | src/db.ts:18 | the table after the delete |
| CardStore.CardBoxDb.DeleteGraph | src/db.ts:18 | the table after deleting a graph |
| CardStore.CardBoxDb.Get | src/db.ts:18 | the record under the key, if any, which sits under its own key |
| CardStore.CardBoxDb.Count | src/db.ts:18 | the number of records of a graph, 0 exactly when it has none |
| CardBoxSync.LastEligible | src/App.tsx:250-278 | position of the last page that gets a card of a given name |
| CardBoxSync.FetchPageStoresCard | src/App.tsx:251-277 | for a page that gets a card, the put followed by the update stores the page's card; any other page leaves the table unchanged |
| CardBoxSync.FetchPageOtherKey | src/App.tsx:253-278 | one page's task touches no other key |
| CardBoxSync.FetchAllOtherGraphs | src/App.tsx:241-284 | fetching leaves other graphs' records unchanged |
| CardBoxSync.FetchAllCard | src/App.tsx:241-284 | after fetching, a name has a card iff it had one or some page supplies one; the last such page's card wins |
| CardBoxSync.FetchAllKeepsValid | src/App.tsx:241-284 | fetching keeps every record under its own key |
| CardBoxSync.RebuildSpec | src/App.tsx:494-497 | a rebuild leaves other graphs unchanged. The current graph ends with a card for exactly the names of non-journal pages with a non-zero file time, each the card of the last such page |
| CardBoxSync.RebuildIdempotent | src/App.tsx:494-497 | rebuilding twice from the same answers is rebuilding once |
| CardBoxSync.LoadOnOpenSpec | src/App.tsx:286-298 | opening a graph with no card fills it as a rebuild does; with cards, or with no directory, nothing changes |
| CardBoxSync.IgnoredChanges | src/App.tsx:305-308 | creations, no-operations, a missing directory, and a path that is not a string or does not match all leave the table unchanged |
| CardBoxSync.DeleteRemovesCard | src/App.tsx:350-352 | a deletion removes exactly the card of the decoded file name |
| CardBoxSync.ModifyExisting | src/App.tsx:317-334 | modifying a file with a card changes only that card's time and excerpt; the new time is the file's, non-zero |
| CardBoxSync.ModifyUpdatesCard | src/App.tsx:317-334 | with a card, a non-zero file time and the blocks at hand, the card gets the file's time and the blocks' excerpt and image, and nothing else changes |
| CardBoxSync.ModifyInsertsCard | src/App.tsx:317-348 | with no card, a non-zero file time, the blocks at hand and a page `getPage` finds, a card with that page's uuid, the file's time and the excerpt is put |
| CardBoxSync.ModifyWithoutFileOrBlocks | src/App.tsx:317-328 | a file time of 0 (no such file, or a captured name holding `/`) or a rejected block fetch leaves the table unchanged |
| CardBoxSync.InsertNeedsPage | src/App.tsx:335-348 | a card appears only through a modification whose page `getPage` finds, with that page's uuid |
| CardBoxSync.HandleChangeFrame | src/App.tsx:301-358 | at most one card changes: the current graph's card of the decoded file name |
| CardBoxSync.ModifyKeepsValid | src/App.tsx:317-348 | a modification keeps every record under its own key |
| CardBoxSync.HandleChangeKeepsValid | src/App.tsx:301-358 | the handler keeps every record under its own key |
| CardBoxSync.ModifyTimeIgnoresFormat | src/App.tsx:310-318 | the format taken from the capture matters only when both the `.md` and the `.org` file exist |
| CardBoxSync.FetchPageInto | src/App.tsx:253-278 | one page's task has the effect stated by FetchPage |
| CardBoxSync.FetchDataInto | src/App.tsx:241-284 | fetchData has the effect of the pages' tasks in order |
| CardBoxSync.RebuildInto | src/App.tsx:494-497 | rebuildData has the effect stated by Rebuild |
| CardBoxSync.LoadOnOpenInto | src/App.tsx:286-298 | the fill on opening a graph has the effect stated by LoadOnOpen |
| CardBoxSync.OnFileChanged | src/App.tsx:301-358 | the handler has the effect stated by HandleChange |
| Selection.StepsMoveOrStay | src/App.tsx:387-444 | each arrow moves by exactly a row or a card in its direction, or stays; it moves exactly when the target is a card |
| Selection.StepsStayInRange | src/App.tsx:387-444 | for a non-negative row width, a selection among the cards stays among them |
| Selection.StepsUndo | src/App.tsx:387-444 | down then up, up then down, right then left and left then right return to the same card whenever the first step moved |
| Selection.UpWithNegativeCols | src/App.tsx:384-393 | with a negative row width, ArrowUp moves from the only card to index 1, outside the cards |

## Left out

- The React component: state hooks, rendering, loading counters and the dialog. The live query that lists the current graph's cards by descending time (src/App.tsx:212-218) is a read, not a table change, and is not modelled.
- Concurrency. fetchData starts one task per page and awaits them together. The model runs the tasks one after another in page order. When two pages share a name, the last one's card is kept; a real interleaving may keep either.
- Interleaving between operations. Each handler call (`OnFileChanged`) and each page task (`FetchPageInto`) is one atomic step in the model. In the plugin the handler awaits between `db.box.get` and the `update` or `put` (src/App.tsx:318-346), so a second change event, a running fill (src/App.tsx:253-278) or a rebuild (src/App.tsx:494-497) can act on the table in between. Such interleavings, and the outcomes only they produce, are not modelled.
- Errors thrown inside a task or the handler. A rejected `getPageBlocksTree` in fetchData leaves the card with an empty excerpt. In the handler, a rejected tree or a non-string path aborts with no change. With no directory chosen, the lookup on the missing handle throws, so no card is written. Logging and `console` output are not modelled.
- The image pattern (src/App.tsx:147) is a match function given as input; its JavaScript semantics are not modelled. The path pattern is modelled concretely.
- Scrolling and `getBoxStyle`: DOM measurement. The row width `cols` is an input, and the range lemma requires it to be non-negative. `Selection.UpWithNegativeCols` shows what a negative width does.
- The Enter key and page navigation: host calls.
- Date formatting, the directory picker and `dirHandles`, and the graph-change listener: host plumbing.
- The code does not delete a card when its page becomes empty, does not skip a meta page, does not batch the fill, and deletes nothing in fetchData beyond what a rebuild drops; the model does none of these either.
- The handler chooses the markdown format only when the captured file name itself is `md` (src/App.tsx:310). This is modelled as written. Because of the retry in the lookup, it changes the time only when both files exist.
- Subdirectories of the `pages` folder. `getFileHandle` rejects a name holding `/`, and `PageFiles.LastUpdatedTime` models that rejection, so a captured name such as `sub/x` gets time 0. Other names the File System Access API rejects on some platforms (such as a `\` on Windows) are not modelled.
- Text outside the Basic Multilingual Plane. A Dafny `char` is a Unicode scalar value, so a model string cannot hold half of a surrogate pair. A character such as an emoji counts 2 toward JavaScript's `length`, and `substring(0, 100)` (src/App.tsx:112) can split it; the model writes it as one `char` of length 1. For such text the cut of a line and the running total (src/App.tsx:116) are not reproduced.
- CardStore.CardBoxDb.constructor: IndexedDB itself is not modelled. Opening the database is given the table that earlier sessions stored.
- Integers are unbounded. JavaScript numbers are doubles, but times and indices here stay far below 2^53.
