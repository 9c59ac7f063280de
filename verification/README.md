# Aster Bridge core: a verified model

This project models, in Dafny, the parts of the Aster Bridge core whose correctness is hardest to
see from the code, and proves what they promise. Aster Bridge serves an encrypted mailbox to
ordinary mail programs over IMAP, SMTP, POP3, JMAP and CardDAV.

| area | modules | main results |
|---|---|---|
| folder tree and directory | `ParentGraph`, `FolderTable`, `FolderRepair`, `FolderTree`, `FolderTreeFacts`, `FolderPaths`, `ShownNames`, `FolderShown`, `Directory` | cycle breaking is exact on every table; the explicit-stack loop is the recursive preorder; which name, parent and place each row is shown with; every path resolves back under any casing |
| folder operations | `FolderOps`, `FolderWrites`, `FolderRuns`, `FolderRaces`, `FolderRefusals`, `FolderStorage` | over every interleaving of creates, updates, deletes and synchronisation, exactly when the table stays a forest, keeps sibling names apart and leaves no parent dangling; runs without overlap always keep the forest |
| message rendering | `LineEndings`, `Base64Lines`, `MessageDoc`, `MessageWriter`, `MessageRender`, `MessageSections`, `MessageAgreement`, `MessageQueries`, `MessageContent`, `MessageReading`, `MessageGaps` | every attachment is in the message once, in its place; the message splits back at its boundary; the cheap renderings agree with the full one and end exactly at the first missing byte |
| address lists | `Address`, `AddressForms` | formatting and parsing undo each other, with the exact condition; every well-formed list splits at exactly its delimiters |
| shutdown | `Shutdown` | nothing runs after `close_and_wait` returns, in every interleaving; it can always return |
| ports | `PortRepair`, `PortPicker` | the repair is valid, conservative and minimal; ten rounds suffice and are tight |
| connection clocks | `Clocks` | the idle watch is neither early nor late; the guard cuts exactly the sessions that are neither ready nor signed in when its timer fires; a wait is cut exactly at its limit |
| outbox | `Outbox`, `OutboxRuns`, `OutboxResults`, `OutboxStore` | at most seven automatic attempts per message, and when each is due; what the last attempt makes of a row; when a message can go out more than once |

`Text` holds shared vocabulary. Code that the source writes as loops or in-place updates is a
method or a class here, proved against a specification function; the properties are lemmas about
those functions. Protocols (shutdown, outbox, folder operations that overlap) are state machines over single atomic
steps, and the methods of the classes are proved to take those steps. `dafny verify dfyconfig.toml` checks
everything.

## What the proofs found

- **Folder operations that overlap** (`FolderRaces.EveryCreateCanBeDoubled`, `OpposedMovesCloseACycle`,
  `CreateBelowDeletedDangles`, `RunKeepsForestIff`, `RunKeepsNamesApartIff`, `RunKeepsParentsIff`). An operation checks
  the table it reads (`folder_ops.rs:180`, `225`, `279`), waits for the server (`199-203`, `259-263`, `286-289`) and
  writes whatever table there is by then (`204`, `264`, `290`), with no lock such as labels have (`tag_ops.rs:314`,
  `507`). Its callers run once for each connection or request (`imap/server.rs:3376`, `3442`, `3517`;
  `jmap/methods/mailbox.rs:246`, `291`, `330`). Unless the server refuses one of them, two creates of one name leave
  two siblings of that name, two opposed moves leave a cycle, and a create below a folder that is being deleted leaves a
  parent that is not there. What each check would have to say at the write is proved exactly, and so is
  what must have been written meanwhile for it to fail: a cycle needs another move (`CycleNeedsAnotherMove`), a clash a
  newcomer under the name or a lost parent (`ClashNeedsANewcomer`). The display breaks such cycles (`FolderRepair`).
- **Untrimmed folder names** (`FolderRuns.UntrimmedNameSlipsThrough`, `UpdateKeepsNamesIff`, `RunKeepsNamesIff`).
  The sibling check trims the stored names of the siblings but not the stored name of the row being moved
  (`folder_ops.rs:130-145`, `227-253`). Names that arrive by synchronisation are not trimmed
  (`sync/poller.rs:2411-2437`), so such a row can be moved next to a sibling of the same visible name. A run
  whose operations do not overlap keeps names apart if and only if each update that keeps a stored name passes the
  check for the trimmed name; blanks in the names of other rows do no harm.
- **Size without the body** (`MessageQueries.SizeIsExactIffOverheadAgrees`, `SizeIsExactIff`,
  `SizeWithFlagIsExactIff`). When neither the HTML flag nor the body is at hand, the kind of text is guessed from an
  empty body (`message_render.rs:436-447`). Unless an attachment is shown inline and that guess is wrong, the announced size
  is right exactly when the header and notes of the text part are as long as they would be without the body. Without
  the flag, inline attachments and earlier notes it is wrong exactly when the body looks like HTML; with the flag,
  exactly when an earlier note in the body suppresses a status note.
- **Messages that go out twice** (`OutboxRuns.GoesOutOnce`, `TimedOutSendRepeats`, `InterruptedSendRepeats`,
  `QueuedAlthoughSent`). A request that times out after the server accepted it counts as a transient failure
  (`smtp/server.rs:35-48`) and is sent again: the direct send before a message is queued (`smtp/server.rs:400-418`) as
  well as each attempt from the outbox, and so is one whose result was lost. Every repeat from the outbox means that the
  look for the sent copy missed (`RepeatsComeFromMisses`).
- **Names the parser does not return** (`Address.MailboxRoundTripIff`). A name that starts or ends with a
  quote, or equals the address ignoring case, does not survive the round trip; every other name does.
- **The last backoff entry** (`OutboxRuns.LastBackoffIsNeverUsed`). A row never counts seven failures, since the
  seventh marks it failed without counting (`outbox.rs:308-317`), so the 3600-second wait is never taken.
- **Automatic attempts** (`OutboxRuns.AutomaticAttemptsAreBounded`). Apart from attempts whose
  result is never recorded, the bound of seven holds however often the user retries; retries do not add to it.
- **Ten rounds** (`PortPicker.TenAvoidedPortsAreTooMany`). The round limit is exactly one more than the nine
  ports the alternate pair avoids; a caller avoiding ten consecutive ports can be refused with every port free.

## Model

| member | source | states |
|---|---|---|
| ParentGraph.CycleWithin | src-tauri/crates/aster_bridge_core/src/folders.rs:155-173 | a cycle through a token closes within as many steps as there are parent links, so a walk bounded by the number of rows cannot miss one |
| ParentGraph.ReachWithin | src-tauri/crates/aster_bridge_core/src/folders.rs:351-371 | whatever an ancestor walk can reach, it reaches within as many steps as there are parent links |
| ParentGraph.AcyclicWalkEnds | src-tauri/crates/aster_bridge_core/src/folders.rs:155-173 | without cycles every walk to the root ends within as many steps as there are links |
| FolderRepair.WalkFindsCycle | src-tauri/crates/aster_bridge_core/src/folders.rs:158-173 | the bounded walk from one row reports a cycle exactly when that row lies on one; a cycle it merely leads into, and the step bound, never give a wrong answer |
| FolderRepair.EffectiveParents | src-tauri/crates/aster_bridge_core/src/folders.rs:146-177 | for every table of distinct tokens, however corrupt: a row loses its parent exactly when it lies on a cycle of declared parents, and no other parent changes |
| FolderRepair.RepairedIsAcyclic | src-tauri/crates/aster_bridge_core/src/folders.rs:146-177 | after the repair no row is its own ancestor |
| FolderRepair.RepairedReachesRoot | src-tauri/crates/aster_bridge_core/src/folders.rs:146-177 | following repaired parents from any row reaches a root in fewer steps than there are rows |
| FolderRepair.RepairedIsForest | src-tauri/crates/aster_bridge_core/src/folders.rs:146-177 | the whole repair result in one statement: acyclic, inside the table, depth below the number of rows |
| FolderTable.SiblingOrderIsStrictAndTotal | src-tauri/crates/aster_bridge_core/src/folders.rs:134-144 | rows with different tokens are strictly and totally ordered: equal only to themselves, antisymmetric, transitive |
| FolderTable.OrderedListUnique | src-tauri/crates/aster_bridge_core/src/folders.rs:206-208 | two sorted lists of the same rows are equal, so the sort's result does not depend on the input order |
| FolderTable.SortOrders | src-tauri/crates/aster_bridge_core/src/folders.rs:206-208 | sorting siblings yields an ordered rearrangement of them |
| FolderTable.DisplaySegmentIsSegment | src-tauri/crates/aster_bridge_core/src/folders.rs:79-91 | whatever a folder is called, its display segment is not empty, holds no separator and has no blank ends |
| FolderTable.CandidatesDiffer | src-tauri/crates/aster_bridge_core/src/folders.rs:179-188 | the names tried for one sibling are pairwise different ignoring case, so the search ends |
| ShownNames.UnnamedIsUntitled | src-tauri/crates/aster_bridge_core/src/folders.rs:79-91 | a name of control characters and blanks alone is shown as Untitled |
| ShownNames.ShownCharacters | src-tauri/crates/aster_bridge_core/src/folders.rs:79-91 | any other name is shown by its characters from the first visible one to the last, in order, without control characters and with the substitute for each separator, so as Untitled only if it cleans to that very text |
| ShownNames.CleanNameIsShown | src-tauri/crates/aster_bridge_core/src/folders.rs:79-91 | a name without separators, control characters and blank ends is shown as it is |
| ShownNames.SpacesAre | src-tauri/crates/aster_bridge_core/src/folders.rs:85 | blanks are the 25 white-space code points of Unicode |
| ShownNames.LowerIs | src-tauri/crates/aster_bridge_core/src/folders.rs:71-75 | names are compared with the 26 capital letters taken for the small ones and every other character as it is |
| ShownNames.DecimalReads | src-tauri/crates/aster_bridge_core/src/folders.rs:183 | the numerals used for suffixes and section numbers read as their number, without a leading zero |
| FolderTable.UniqueSegment | src-tauri/crates/aster_bridge_core/src/folders.rs:179-188 | the loop returns the first candidate whose lower-case form is free and records exactly that form |
| FolderTable.SegmentIsFree | src-tauri/crates/aster_bridge_core/src/folders.rs:228-255 | each sibling's segment is well formed and differs from every reserved name ignoring case |
| FolderTable.SegmentsDiffer | src-tauri/crates/aster_bridge_core/src/folders.rs:240-249 | two siblings never get the same segment, ignoring case |
| FolderTree.GroupByParent | src-tauri/crates/aster_bridge_core/src/folders.rs:199-208 | the dictionary of children holds under each parent exactly its rows, in sibling order |
| FolderTree.PushChildren | src-tauri/crates/aster_bridge_core/src/folders.rs:228-255 | pushes the named, disambiguated children in reverse, reserving the system names at the top level only |
| FolderTree.PendingStep | src-tauri/crates/aster_bridge_core/src/folders.rs:212-225 | popping one entry and pushing its children shows exactly that entry and leaves the rest of the preorder pending |
| FolderTree.BuildTree | src-tauri/crates/aster_bridge_core/src/folders.rs:190-226 | the explicit-stack loop returns, for every table, the recursive preorder of the repaired forest, with path, parent, child flag and position of each node |
| FolderTree.DedupKeepsFirst | src-tauri/crates/aster_bridge_core/src/folders.rs:191-197 | the first row of each non-empty token survives the removal of repeats |
| FolderTreeFacts.EveryFolderIsShown | src-tauri/crates/aster_bridge_core/src/folders.rs:190-226 | every non-empty token of the table appears in the list |
| FolderTreeFacts.ShownOnce | src-tauri/crates/aster_bridge_core/src/folders.rs:190-226 | no token appears twice, every node is a row of the table, and `position` is the index |
| FolderTreeFacts.SubtreesAreContiguous | src-tauri/crates/aster_bridge_core/src/folders.rs:190-226 | a node and all its descendants occupy one contiguous block of the list that starts with the node |
| FolderTreeFacts.ParentsComeFirst | src-tauri/crates/aster_bridge_core/src/folders.rs:190-226 | the parent a node names stands earlier in the list |
| FolderTreeFacts.FlagsAgree | src-tauri/crates/aster_bridge_core/src/folders.rs:212-223 | `has_children` is true exactly when some node of the list names this one as parent |
| FolderTreeFacts.TreeIgnoresTableOrder | src-tauri/crates/aster_bridge_core/src/folders.rs:134-226 | tables of distinct tokens with the same rows in any order give the same list |
| FolderShown.NodeShowsRow | src-tauri/crates/aster_bridge_core/src/folders.rs:212-224 | each node carries the token, server identifier and name of the first row with its token |
| FolderShown.ShownRowsIff | src-tauri/crates/aster_bridge_core/src/folders.rs:191-197 | the rows shown are exactly the first ones of each token that is not empty |
| FolderShown.ParentIsKeptIff | src-tauri/crates/aster_bridge_core/src/folders.rs:146-177 | a node has the parent its row names exactly when that is a row and no chain of named parents leads back to the row itself; otherwise it stands at the top |
| FolderShown.SiblingsInOrder | src-tauri/crates/aster_bridge_core/src/folders.rs:134-144 | siblings are listed by sort order, then earlier creation time with missing ones last, then token in dictionary order, read off positions and characters |
| FolderShown.NameIsFirstFree | src-tauri/crates/aster_bridge_core/src/folders.rs:228-255 | each node's path is its parent's path and its display name, or the first numbered form of it that no earlier sibling and, at the top, no system mailbox has ignoring case |
| FolderShown.CleanNameIsKeptIff | src-tauri/crates/aster_bridge_core/src/folders.rs:79-255 | a row with a clean name is shown under exactly that name if and only if no earlier sibling and no system mailbox has it, and otherwise under it with a number |
| FolderPaths.PathsDiffer | src-tauri/crates/aster_bridge_core/src/folders.rs:228-255 | two folders whose full paths agree ignoring case are the same folder |
| FolderPaths.PathIsClean | src-tauri/crates/aster_bridge_core/src/folders.rs:240-249 | a full path is not empty and has neither blanks nor separators at its ends |
| FolderPaths.TreePaths | src-tauri/crates/aster_bridge_core/src/folders.rs:211-255 | the path stored in each node is the segments from its root down |
| Directory.BuildDirectory | src-tauri/crates/aster_bridge_core/src/folders.rs:293-314 | the directory is the six system mailboxes followed by one entry per node of the tree |
| Directory.EntryPathsDiffer | src-tauri/crates/aster_bridge_core/src/folders.rs:288-314 | entries are told apart by their paths ignoring case: no folder shadows a system mailbox or another folder |
| Directory.ResolveIff | src-tauri/crates/aster_bridge_core/src/folders.rs:316-337 | a name resolves to an entry exactly when the entry's path equals the trimmed name ignoring case; hence two matches, the exit at 333-335, never occur |
| Directory.EveryCasingResolves | src-tauri/crates/aster_bridge_core/src/folders.rs:316-337 | the path of every entry, in any casing, resolves back to that entry |
| Directory.DirectoryLists | src-tauri/crates/aster_bridge_core/src/folders.rs:293-314 | the six system mailboxes with their labels and special uses, then for each node its path, its label, its child flag and itself, in order |
| Directory.TypedNameResolvesIff | src-tauri/crates/aster_bridge_core/src/folders.rs:316-337 | what resolves to an entry is exactly its path in any casing, with any blanks around it and any separators behind it |
| Directory.IsDescendant | src-tauri/crates/aster_bridge_core/src/folders.rs:351-371 | the bounded walk answers true exactly when the ancestor is reached by following parents from the candidate, on any list of entries |
| Directory.DirectoryParents | src-tauri/crates/aster_bridge_core/src/folders.rs:293-371 | in a built directory those parents are the repaired ones, so the walk decides reflexive-transitive parenthood of the tree |
| FolderOps.CreatesCycle | src-tauri/crates/aster_bridge_core/src/folder_ops.rs:147-163 | the walk with its set of seen tokens answers true exactly when the moved folder is reachable from the new parent, on every table including cyclic ones |
| FolderRefusals.CreateRefusedIff | src-tauri/crates/aster_bridge_core/src/folder_ops.rs:123-193 | exactly when create is refused and with which error, by the name's characters, the rows' tokens, and the names of the rows at that place |
| FolderRefusals.UpdateRefusedIff | src-tauri/crates/aster_bridge_core/src/folder_ops.rs:225-253 | exactly when update is refused and with which error, or finds nothing to do; the cycle check by chains of rows that name each other as parents |
| FolderRefusals.UnknownIsRefused | src-tauri/crates/aster_bridge_core/src/folder_ops.rs:225-228 | update answers that the folder is unknown exactly when no row has the token |
| FolderRefusals.DeleteRefusedIff | src-tauri/crates/aster_bridge_core/src/folder_ops.rs:279-285 | exactly when delete is refused: no such row, or another row names it as parent |
| FolderOps.EdgeKeepsAcyclic | src-tauri/crates/aster_bridge_core/src/folder_ops.rs:235-242 | hanging a row below one that is not below it closes no cycle |
| FolderOps.UpsertRows | src-tauri/crates/aster_bridge_core/src/db/mod.rs:2874-2896 | writing a row replaces the row with its token, or appends it, and leaves all other rows as they were |
| FolderWrites.MemberAfterRemove | src-tauri/crates/aster_bridge_core/src/db/mod.rs:2898-2909 | deleting removes the rows of that token, clears the parent of the rows that named it, and leaves all others as they were |
| FolderStorage.FolderStore.Create | src-tauri/crates/aster_bridge_core/src/folder_ops.rs:171-214 | the check on the table as read, the write on the table as it is after the wait: a success adds exactly the row with the given token, server identifier, trimmed name and parent, order 0 and no creation time, all other rows staying; forest, names and parents are kept exactly when the write is safe on that later table, and always if nothing else has written and the token is fresh |
| FolderStorage.FolderStore.Update | src-tauri/crates/aster_bridge_core/src/folder_ops.rs:216-271 | the same for update: the row keeps its token, server identifier, order and creation time and has the name and parent asked for, all other rows stay; undisturbed, the table stays a forest, and stays well named if and only if nothing is written or the trimmed check passes |
| FolderStorage.FolderStore.Delete | src-tauri/crates/aster_bridge_core/src/folder_ops.rs:273-299 | the same for delete: a success leaves no row of that token and none that names it as parent, and every other row otherwise as it was, whatever was written meanwhile |
| FolderRuns.WriteKeepsStructure | src-tauri/crates/aster_bridge_core/src/folder_ops.rs:194-268 | a row that passed the parent checks leaves the table acyclic, with distinct tokens and no dangling parent |
| FolderRuns.WriteKeepsNamesIff | src-tauri/crates/aster_bridge_core/src/folder_ops.rs:130-145 | a write keeps sibling names distinct and system names free if and only if the sibling check refuses nothing under the trimmed name |
| FolderRuns.CreateKeepsTable | src-tauri/crates/aster_bridge_core/src/folder_ops.rs:171-214 | creating keeps the forest and, on a well-named table, the names, whatever blanks other stored names have |
| FolderRuns.UpdateKeepsStructure | src-tauri/crates/aster_bridge_core/src/folder_ops.rs:216-271 | undisturbed, renaming and moving keep every forest a forest, whatever its names and dangling parents |
| FolderRuns.UpdateKeepsNamesIff | src-tauri/crates/aster_bridge_core/src/folder_ops.rs:227-253 | an update leaves a well-named table well named if and only if it writes nothing, gives a new name, or keeps a name that passes the sibling check when trimmed |
| FolderRuns.TrimmedNameIsSafe | src-tauri/crates/aster_bridge_core/src/folder_ops.rs:227-253 | the check the code makes is that check whenever the kept name is stored without blank ends |
| FolderRuns.DeleteKeepsTable | src-tauri/crates/aster_bridge_core/src/folder_ops.rs:273-299 | deleting keeps the forest and the names, and no row is left that names the deleted one |
| FolderRuns.RunKeepsStructure | src-tauri/crates/aster_bridge_core/src/folder_ops.rs:171-299 | runs whose operations do not overlap: each keeps the table a forest and leaves no parent dangling that was not before, whatever is refused and whatever the names |
| FolderRuns.RunKeepsNamesIff | src-tauri/crates/aster_bridge_core/src/folder_ops.rs:171-299 | runs whose operations do not overlap: sibling names stay distinct and system names free throughout if and only if each update that keeps a stored name passes the trimmed check |
| FolderRuns.RunKeepsNames | src-tauri/crates/aster_bridge_core/src/folder_ops.rs:171-299 | so they do whenever the names that updates keep are stored without blank ends; other rows may be called anything |
| FolderRuns.ParentsCoincide | src-tauri/crates/aster_bridge_core/src/folder_ops.rs:116-121 | on an acyclic table without empty tokens the guards and the display see the same parents |
| FolderRuns.DeleteRefusedIffShownWithChildren | src-tauri/crates/aster_bridge_core/src/folder_ops.rs:165-169 | deletion is refused for exactly the folders the list shows with children |
| FolderRuns.UntrimmedNameSlipsThrough | src-tauri/crates/aster_bridge_core/src/folder_ops.rs:227-253 | a counterexample: a row stored with a blank before its name can be moved next to a sibling of the same name, and both remain |
| FolderWrites.WriteKeepsForestIff | src-tauri/crates/aster_bridge_core/src/folder_ops.rs:204-290 | on any forest a write, with whatever was checked before, leaves a forest if and only if the new parent is not below the row in the table at the write; a removal always does |
| FolderWrites.GuardIsForestSafe | src-tauri/crates/aster_bridge_core/src/folder_ops.rs:147-163 | for a row in the table or new to it, that is the cycle guard, made at the write |
| FolderWrites.WriteKeepsNamesApartIff | src-tauri/crates/aster_bridge_core/src/folder_ops.rs:204-290 | a write keeps sibling names distinct and system names free if and only if its name is free where the row, or the folders a removal lifts to the top, come to stand by then |
| FolderWrites.ClashIsTheCheckAtTheWrite | src-tauri/crates/aster_bridge_core/src/folder_ops.rs:130-145 | for a row in the table or new to it, that is the sibling check of the trimmed name, made at the write |
| FolderWrites.WriteKeepsParentsIff | src-tauri/crates/aster_bridge_core/src/folder_ops.rs:204-290 | a write leaves no dangling parent if and only if the parent it names is a row by then |
| FolderRaces.RunKeepsForestIff | src-tauri/crates/aster_bridge_core/src/folder_ops.rs:171-299 | over every interleaving of reads, answers and synchronisation the table stays a forest throughout if and only if each write is safe on the table it changes and each table brought in is a forest |
| FolderRaces.RunKeepsNamesApartIff | src-tauri/crates/aster_bridge_core/src/folder_ops.rs:171-299 | over every interleaving the names stay apart throughout if and only if no write meets its name at the place it lands |
| FolderRaces.RunKeepsParentsIff | src-tauri/crates/aster_bridge_core/src/folder_ops.rs:171-299 | over every interleaving no parent is ever left dangling if and only if each row is written below one that is there by then |
| FolderRaces.CycleNeedsAnotherMove | src-tauri/crates/aster_bridge_core/src/folder_ops.rs:235-264 | a write that closes a cycle has been overtaken: another folder that the checked table told of has been given another parent since |
| FolderRaces.MovesApartKeepTheForest | src-tauri/crates/aster_bridge_core/src/folder_ops.rs:171-299 | runs in which no write is overtaken like that keep the forest, however creates, renames and deletes overlap |
| FolderRaces.ClashNeedsANewcomer | src-tauri/crates/aster_bridge_core/src/folder_ops.rs:188-290 | a write that passed the trimmed check clashes only if its parent is gone or another folder has come to that place under that name since; a removal only if the folder has children by then |
| FolderRaces.UntouchedRunIsSerial | src-tauri/crates/aster_bridge_core/src/folder_ops.rs:171-299 | interleavings in which each accepted operation finds the table it read do what the operations do one after the other, at every moment, so the results on runs without overlap hold of them |
| FolderRaces.EveryCreateCanBeDoubled | src-tauri/crates/aster_bridge_core/src/folder_ops.rs:180-204 | any create that passes its check, overlapped by a second of the same name, leaves two siblings of that name if the server accepts both |
| FolderRaces.OpposedMovesCloseACycle | src-tauri/crates/aster_bridge_core/src/folder_ops.rs:225-264 | any two folders that may each be moved below the other end up on a cycle if the moves overlap and the server accepts both |
| FolderRaces.CreateBelowDeletedDangles | src-tauri/crates/aster_bridge_core/src/folder_ops.rs:180-290 | any create below a folder whose delete is written first leaves its parent dangling |
| FolderRaces.OverlapsBreakASoundTable | src-tauri/crates/aster_bridge_core/src/folder_ops.rs:171-299 | the three on one concrete table of two folders that is sound in every respect |
| LineEndings.NormalizedLen | src-tauri/crates/aster_bridge_core/src/message_render.rs:138-149 | the count equals the length of the converted text |
| LineEndings.Convert | src-tauri/crates/aster_bridge_core/src/message_render.rs:151-170 | the loop with its borrow shortcut returns the converted text, for every text |
| LineEndings.ShortcutIsExact | src-tauri/crates/aster_bridge_core/src/message_render.rs:152-154 | the shortcut is taken exactly when conversion is the identity, which is when every CR and LF stands in a CRLF pair |
| LineEndings.ConvertedIsClean | src-tauri/crates/aster_bridge_core/src/message_render.rs:151-170 | the result has no bare CR and no bare LF |
| LineEndings.ConversionKeepsLines | src-tauri/crates/aster_bridge_core/src/message_render.rs:151-170 | conversion changes line ends only: the text has the same lines before and after |
| LineEndings.ConversionIsIdempotent | src-tauri/crates/aster_bridge_core/src/message_render.rs:151-170 | converting twice is converting once |
| Base64Lines.BodyLength | src-tauri/crates/aster_bridge_core/src/message_render.rs:109-136 | for every number of bytes the wrapped encoding has exactly the announced length (section 6.8 of RFC 2045) |
| Base64Lines.BodyDecodes | src-tauri/crates/aster_bridge_core/src/message_render.rs:113-123 | removing the line breaks and decoding gives the attachment's bytes back |
| Base64Lines.AlphabetIs | src-tauri/crates/aster_bridge_core/src/message_render.rs:113-114 | the digits are those of section 4 of RFC 4648, in their order |
| Base64Lines.EncodedDigits | src-tauri/crates/aster_bridge_core/src/message_render.rs:113-114 | each three bytes become the four base-64 digits of their number, with = for missing bytes |
| Base64Lines.WrappedAt | src-tauri/crates/aster_bridge_core/src/message_render.rs:115-123 | each character of the encoding stands behind as many line ends as there are full lines of 76 before it |
| Base64Lines.LinesEnd | src-tauri/crates/aster_bridge_core/src/message_render.rs:115-123 | every line of the body ends with CRLF, the last one too |
| Base64Lines.WriteLines | src-tauri/crates/aster_bridge_core/src/message_render.rs:113-123 | the 76-column loop writes the wrapped text and adds its length to the counter |
| MessageWriter.Out.Push | src-tauri/crates/aster_bridge_core/src/message_render.rs:102-107 | kept before the first gap and only counted after it, so the buffer stays in step with the counter |
| MessageWriter.Out.PushBase64 | src-tauri/crates/aster_bridge_core/src/message_render.rs:109-127 | the attachment's bytes are written, or their announced length counted and the first gap recorded, by mode |
| MessageWriter.Out.WriteText | src-tauri/crates/aster_bridge_core/src/message_render.rs:531-539 | the text part and its suffix in all modes, with or without a body |
| MessageWriter.Ctx.WriteTextPart | src-tauri/crates/aster_bridge_core/src/message_render.rs:620-638 | writes the part, records its ranges and describes it; the slice at 634 is in bounds because no gap can come before a text part |
| MessageWriter.Ctx.WriteAttachment | src-tauri/crates/aster_bridge_core/src/message_render.rs:640-654 | writes the attachment, records its ranges and describes it with the counted size |
| MessageWriter.Ctx.WriteChild | src-tauri/crates/aster_bridge_core/src/message_render.rs:675-692 | one child, recursing into a nested multipart: its document, its sections and its structure |
| MessageWriter.Ctx.WriteMultipart | src-tauri/crates/aster_bridge_core/src/message_render.rs:656-711 | the recursive loop writes the document of the tree, records its sections in order and joins their structures |
| MessageWriter.BufferEndsAtTheGap | src-tauri/crates/aster_bridge_core/src/message_render.rs:92-128 | in a writing mode the buffer holds the document up to its first counted-only bytes, and the gap is recorded where they stand |
| MessageWriter.EmitIsSound | src-tauri/crates/aster_bridge_core/src/message_render.rs:92-128 | the counter is the length of everything, the buffer as long as what precedes the gap |
| MessageRender.Render | src-tauri/crates/aster_bridge_core/src/message_render.rs:732-845 | the entry point yields the document, sections and structure of the arranged message, in every mode |
| MessageContent.DetectHtmlIff | src-tauri/crates/aster_bridge_core/src/message_render.rs:437-447 | the text is HTML by the stored flag, or without one if the body contains one of six pieces of markup |
| MessageContent.AttachmentIsThere | src-tauri/crates/aster_bridge_core/src/message_render.rs:640-654 | for every message and every attachment: under the section number of its place the full rendering has that attachment's header, its disposition and a body that decodes to its bytes |
| MessageContent.AttachmentsInOrder | src-tauri/crates/aster_bridge_core/src/message_render.rs:780-827 | attachments keep their order, inline ones before the others, with different section numbers and separate ranges |
| MessageContent.NothingElse | src-tauri/crates/aster_bridge_core/src/message_render.rs:780-827 | there is one section for each attachment, one for the text, and one more exactly when inline and other attachments occur together |
| MessageReading.TextIsThere | src-tauri/crates/aster_bridge_core/src/message_render.rs:620-638 | the first section has the text with its type lines: the body with CRLF line ends, the trust notes in order, then the status note if one is due |
| MessageReading.EscapeIsByCharacter | src-tauri/crates/aster_bridge_core/src/message_render.rs:274-279 | the four replacements in a row amount to escaping each character on its own |
| MessageReading.MessageReads | src-tauri/crates/aster_bridge_core/src/message_render.rs:765-834 | the whole text of the full rendering, from the top header to the closing boundary |
| MessageReading.StructureReads | src-tauri/crates/aster_bridge_core/src/message_render.rs:553-711 | the described structure: the text with its kind, size and number of lines, each attachment in its place with the size of its encoded bytes, grouped as the parts are |
| MessageReading.BoundaryReadsBack | src-tauri/crates/aster_bridge_core/src/message_render.rs:668-698 | a multipart has only one reading in parts that do not contain its boundary (section 5.1 of RFC 2046) |
| MessageReading.MessageSplitsBack | src-tauri/crates/aster_bridge_core/src/message_render.rs:656-711 | so whoever splits a full multipart rendering at its boundary gets back the text and the attachments |
| MessageGaps.GapIsFirstMissing | src-tauri/crates/aster_bridge_core/src/message_render.rs:109-112 | when data is left out, the text ends exactly where the bytes of the first attachment without data would begin |
| MessageGaps.CompleteIff | src-tauri/crates/aster_bridge_core/src/message_render.rs:74-76 | the text is whole exactly when no attachment lacks its data: none is left out by request, and none of an on-demand message is empty |
| MessageRender.Divide | src-tauri/crates/aster_bridge_core/src/message_render.rs:788-801 | inline and regular attachments are split as the arrangement needs, keeping their order |
| MessageSections.ChildrenNest | src-tauri/crates/aster_bridge_core/src/message_render.rs:668-703 | of two recorded sections one lies in the other's body exactly when its number says so, and otherwise their ranges are disjoint |
| MessageSections.SectionsAreUnique | src-tauri/crates/aster_bridge_core/src/message_render.rs:668-703 | no section number is recorded twice (section 6.4.5 of RFC 3501) |
| MessageSections.SectionHoldsChild | src-tauri/crates/aster_bridge_core/src/message_render.rs:656-711 | at any depth, the range recorded for a number slices out exactly that child's header and body |
| MessageAgreement.FullRenderingPrints | src-tauri/crates/aster_bridge_core/src/message_render.rs:732-845 | the full text is the recursively printed multipart tree (section 5.1.1 of RFC 2046), its size is its length and its header is the message header |
| MessageAgreement.MessageShape | src-tauri/crates/aster_bridge_core/src/message_render.rs:732-845 | the cheap modes produce the same document up to bytes that are only counted, and the same sections; in the modes that write, also the same structure |
| MessageAgreement.LayoutAgrees | src-tauri/crates/aster_bridge_core/src/message_render.rs:728-845 | a rendering that leaves out attachment data agrees with the full one on size, header, sections and structure, and its text is the prefix up to the first missing byte |
| MessageAgreement.SizeAloneIsExact | src-tauri/crates/aster_bridge_core/src/message_render.rs:847-853 | the size counted without writing is the length of the full text |
| MessageQueries.SectionLookup | src-tauri/crates/aster_bridge_core/src/message_render.rs:61-73 | asking the full rendering for a section number returns that child's header and body |
| MessageQueries.SinglePartLookup | src-tauri/crates/aster_bridge_core/src/message_render.rs:769-786 | without attachments section 1 is the whole message |
| MessageQueries.PresentSectionsAreExact | src-tauri/crates/aster_bridge_core/src/message_render.rs:65-89 | a partial rendering claims to have a section exactly when the lookup returns it, and then it is the full rendering's |
| MessageQueries.LayoutRendering | src-tauri/crates/aster_bridge_core/src/message_render.rs:728-730 | the layout of a message needs only the advertised attachment sizes |
| MessageQueries.BeforeAndAfterDownload | src-tauri/crates/aster_bridge_core/src/message_render.rs:109-112 | an on-demand message keeps size, ranges and structure when its attachments arrive |
| MessageQueries.SizeFromMetadata | src-tauri/crates/aster_bridge_core/src/message_render.rs:851-853 | the size from stored metadata alone is exact when the HTML flag is stored and no earlier note is in the body |
| MessageQueries.SizeWithFlagIsExactIff | src-tauri/crates/aster_bridge_core/src/message_render.rs:327-338 | with the HTML flag, for every message: exact if and only if no earlier note in the body suppresses a status note |
| MessageQueries.SizeIsExactIffOverheadAgrees | src-tauri/crates/aster_bridge_core/src/message_render.rs:436-455 | unless an attachment is shown inline and the kind is guessed wrong, with or without flag, whatever notes there are: the size computed without the body is exact if and only if header and notes of the text part are as long as without the body |
| MessageQueries.SizeIsExactIff | src-tauri/crates/aster_bridge_core/src/message_render.rs:436-455 | with no attachment shown inline, and unless an earlier note in the body suppresses a status note: exact if and only if the HTML flag is stored or the body does not look like HTML |
| MessageQueries.SizeNeedsTheHtmlFlag | src-tauri/crates/aster_bridge_core/src/message_render.rs:436-447 | a message for which the size without the body is wrong |
| Address.SplitAddressList | src-tauri/crates/aster_bridge_core/src/address.rs:50-94 | the scanner's loop computes the fold of its transition function |
| Address.UnquoteName | src-tauri/crates/aster_bridge_core/src/address.rs:96-116 | the unescaping loop computes the recursive unescaping of the inner text, trimmed |
| Address.MailboxRoundTripIff | src-tauri/crates/aster_bridge_core/src/address.rs:33-127 | for a clean name and plain address, formatting then parsing returns both if and only if the name is empty, or differs from the address ignoring case and has no quote at either end |
| Address.QuoteAtTheEndIsLost | src-tauri/crates/aster_bridge_core/src/address.rs:96-116 | a name that ends with a quote does not come back |
| Address.AddressAsNameIsLost | src-tauri/crates/aster_bridge_core/src/address.rs:39-41 | a name that is the address in another casing does not come back |
| Address.AnyMailboxRoundTripIff | src-tauri/crates/aster_bridge_core/src/address.rs:25-127 | the same for any name and address as they arrive: what comes back is their cleaned form |
| AddressForms.FormattedReads | src-tauri/crates/aster_bridge_core/src/address.rs:33-48 | the four forms of a formatted mailbox, with quotes exactly when the name has a special character |
| AddressForms.CleanTextIff | src-tauri/crates/aster_bridge_core/src/address.rs:25-31 | text that goes into a header unchanged is text without line breaks, NUL and blank ends |
| AddressForms.WellFormedListSplits | src-tauri/crates/aster_bridge_core/src/address.rs:50-94 | any list of entries made of plain characters, quoted texts and bracketed texts splits exactly at its commas and semicolons, which do not count inside quotes and brackets |
| AddressForms.NamedMailboxReads | src-tauri/crates/aster_bridge_core/src/address.rs:96-127 | a name before a bracketed address is unquoted, and what follows the address is dropped |
| AddressForms.BareMailboxReads | src-tauri/crates/aster_bridge_core/src/address.rs:118-127 | an address with or without brackets and without a name comes back with an empty name |
| Address.FormattedStaysOnOneLine | src-tauri/crates/aster_bridge_core/src/address.rs:25-48 | no name or address puts a CR, LF or NUL into a formatted mailbox |
| Address.SplitJoin | src-tauri/crates/aster_bridge_core/src/address.rs:50-94 | splitting a joined list gives back each mailbox, whatever quotes, commas, semicolons, angle brackets and backslashes the names hold (section 3.4 of RFC 5322) |
| Address.ListRoundTripIff | src-tauri/crates/aster_bridge_core/src/address.rs:33-127 | a whole list survives formatting, joining, splitting and parsing if and only if each of its names is recoverable |
| Address.StoredAddressesReachJmap | src-tauri/crates/aster_bridge_core/src/address.rs:129-218 | stored mailboxes reach a JMAP client unchanged through the header text |
| Address.NormalisedTextIsStable | src-tauri/crates/aster_bridge_core/src/address.rs:129-165 | header text the formatter wrote is not changed by reading and formatting it again |
| AddressForms.AddressTextIff | src-tauri/crates/aster_bridge_core/src/address.rs:129-165 | a stored value has an address text exactly when some address in it is not blank, and that text is never empty |
| AddressForms.JmapEntriesAre | src-tauri/crates/aster_bridge_core/src/address.rs:198-212 | the JMAP entries are exactly the parsed parts with an address, and the name is null when it is empty |
| AddressForms.JmapListIff | src-tauri/crates/aster_bridge_core/src/address.rs:198-219 | the JMAP list is null exactly when no part has an address, and never an empty array |
| Shutdown.NextKeepsInv | src-tauri/crates/aster_bridge_core/src/shutdown.rs:40-77 | every atomic step keeps: readers are exactly the permit holders, a writer excludes readers, a closer has set the flag, and past the lock there is no guard |
| Shutdown.QuietAfterReturn | src-tauri/crates/aster_bridge_core/src/shutdown.rs:40-77 | in every interleaving: after a `close_and_wait` has returned no guard is live, none is handed out and no guarded code runs |
| Shutdown.StoppedStays | src-tauri/crates/aster_bridge_core/src/shutdown.rs:102-147 | asynchronous work suspended when the flag is set, and work without a guard, never executes again; blocking work with its guard may, even from the queue |
| Shutdown.WorkOutlivesTheFlagOnlyIfUnderway | src-tauri/crates/aster_bridge_core/src/shutdown.rs:102-147 | an action after the flag is set belongs to work that was executing, or waiting for a thread with its guard, ever since |
| Shutdown.CloseCanReturn | src-tauri/crates/aster_bridge_core/src/shutdown.rs:45-48 | from every state with a pending `close_and_wait` it can return, with no further action of any work |
| Shutdown.OpenWorkRuns | src-tauri/crates/aster_bridge_core/src/shutdown.rs:61-77 | while nothing closes, work of either kind gets its guard, runs and gives its permit back |
| Shutdown.Channel.TryReadOwned | src-tauri/crates/aster_bridge_core/src/shutdown.rs:61-64 | a step that keeps the invariant; success means that no `close_and_wait` is past the lock at that moment |
| Shutdown.Channel.TestFlag | src-tauri/crates/aster_bridge_core/src/shutdown.rs:61-64 | a step that keeps the invariant; a guard results only while no `close_and_wait` has begun |
| Shutdown.Channel.Hold | src-tauri/crates/aster_bridge_core/src/shutdown.rs:61-64 | undisturbed, `hold` hands out a guard exactly when the lock is free and the flag not set, and otherwise gives the permit back |
| Shutdown.Channel.PollWork | src-tauri/crates/aster_bridge_core/src/shutdown.rs:141-147 | a step that keeps the invariant; the future is polled only while no `close_and_wait` has begun |
| Shutdown.Channel.CloseConnections | src-tauri/crates/aster_bridge_core/src/shutdown.rs:41-43 | a step that keeps the invariant; from then on no work that is not under way ever acts, in any run |
| Shutdown.Channel.WriteAndReturn | src-tauri/crates/aster_bridge_core/src/shutdown.rs:45-48 | two steps that keep the invariant; when the call returns no guard is live |
| Shutdown.Channel.IsIdle | src-tauri/crates/aster_bridge_core/src/shutdown.rs:50-52 | true exactly when no permit is out and no writer is in |
| PortRepair.SharedPort | src-tauri/crates/aster_bridge_core/src/config.rs:212-219 | returns the smallest port held by two slots, and none exactly when all are distinct |
| PortRepair.ValidatePorts | src-tauri/crates/aster_bridge_core/src/config.rs:221-240 | accepts exactly the configurations with distinct ports of at least 1024, and otherwise names the first low slot or the smallest shared port |
| PortRepair.SearchSucceeds | src-tauri/crates/aster_bridge_core/src/config.rs:275-278 | the wraparound search reaches an unused port within as many steps as ports are in use |
| PortRepair.NextFree | src-tauri/crates/aster_bridge_core/src/config.rs:274-278 | the loop terminates at the first unused port after the default, going round from 65535 to 1024 |
| PortRepair.RepairPorts | src-tauri/crates/aster_bridge_core/src/config.rs:242-284 | rewrites the slots in place to the repaired configuration and names exactly the changed slots, in order |
| PortRepair.RepairedIsValid | src-tauri/crates/aster_bridge_core/src/config.rs:242-284 | for every eight values the repaired configuration is valid |
| PortRepair.ValidConfigurationIsKept | src-tauri/crates/aster_bridge_core/src/config.rs:242-284 | the repair leaves a configuration as it is if and only if it is valid |
| PortRepair.ChangedIffNotKept | src-tauri/crates/aster_bridge_core/src/config.rs:254-268 | a slot changes exactly when it is low or another slot owns its port |
| PortRepair.NoAcceptablePortIsLost | src-tauri/crates/aster_bridge_core/src/config.rs:254-268 | every port of at least 1024 in the file is still used after the repair |
| PortRepair.OwnDefaultIsKept | src-tauri/crates/aster_bridge_core/src/config.rs:259-266 | a slot that holds its own default is not the one moved |
| PortRepair.RepairIsMinimal | src-tauri/crates/aster_bridge_core/src/config.rs:242-284 | no valid configuration agrees with the given one in more slots |
| PortRepair.RepairedSlotIs | src-tauri/crates/aster_bridge_core/src/config.rs:242-284 | slot by slot: a slot keeps its port exactly if that is not privileged and it is the one with this default or the first of those that share it; otherwise it gets the first port from its default on, going round, that is neither kept nor given to an earlier slot |
| PortRepair.ChangedAre | src-tauri/crates/aster_bridge_core/src/config.rs:268-281 | the slots named as changed are exactly those whose port differs, each once, in order |
| PortRepair.LoadPorts | src-tauri/crates/aster_bridge_core/src/config.rs:185-194 | the second validation, line 192, never fails |
| PortPicker.PickAvailablePort | src-tauri/crates/aster_bridge_core/src/port_picker.rs:105-146 | the loop over 21 offsets, with overflow, low ports and all three answers, computes the search function |
| PortPicker.SearchFinds | src-tauri/crates/aster_bridge_core/src/port_picker.rs:105-146 | a port found is at most 20 above the preferred one, at least 1024, and was free when asked about |
| PortPicker.FirstNotInUseDecides | src-tauri/crates/aster_bridge_core/src/port_picker.rs:105-146 | the first of the 21 ports that is not in use decides: taken if free, an error otherwise; only if all are in use or privileged is there none |
| PortPicker.OnlyLoopbackIsProbed | src-tauri/crates/aster_bridge_core/src/port_picker.rs:106-111 | a host that is no loopback address is refused without a single bind |
| PortPicker.FoundIsFirst | src-tauri/crates/aster_bridge_core/src/port_picker.rs:152-164 | while ports stay as they are, the port found is the first from the start on that is free and not to be avoided |
| PortPicker.NearPortIsFound | src-tauri/crates/aster_bridge_core/src/port_picker.rs:152-164 | and it is found whenever there is one within twenty of the start and the rounds outnumber the avoided ports |
| PortPicker.PickFreePortAvoiding | src-tauri/crates/aster_bridge_core/src/port_picker.rs:152-164 | the ten-round loop computes the rounds function |
| PortPicker.RoundsSuffice | src-tauri/crates/aster_bridge_core/src/port_picker.rs:152-164 | more rounds than avoided ports at or above the start never run out, for every behaviour of bind |
| PortPicker.NineAvoidedPortsAreFew | src-tauri/crates/aster_bridge_core/src/port_picker.rs:152-164 | with up to nine avoided ports neither the exhaustion nor the overflow error can occur from a start this low |
| PortPicker.TenAvoidedPortsAreTooMany | src-tauri/crates/aster_bridge_core/src/port_picker.rs:152-164 | ten consecutive avoided ports exhaust the rounds although every port is free: the bound is tight |
| PortPicker.PickAlternatePorts | src-tauri/crates/aster_bridge_core/src/port_picker.rs:166-184 | the pair is distinct, outside the eight configured ports, near 2143 and 2025; the errors at 159-163 never come out |
| PortPicker.UseAlternatePorts | src-tauri/src/main.rs:297-305 | the check before saving passes exactly when the six other ports are valid, so it never refuses a valid configuration; a refusal leaves everything as it was |
| Clocks.Activity.NoteRead | src-tauri/crates/aster_bridge_core/src/http_listener.rs:228-239 | a read never brings the deadline forward, gives a full timeout only if it brought data, and cannot pass a running stall |
| Clocks.Activity.NoteWrite | src-tauri/crates/aster_bridge_core/src/http_listener.rs:280-288 | a write that gets through gives a full timeout; any other leaves the deadline where it is, and a blocked one pins it |
| Clocks.Activity.NoteFlush | src-tauri/crates/aster_bridge_core/src/http_listener.rs:267-273 | a flush never moves the deadline; a pending one pins it |
| Clocks.DeadlineNeverMovesBack | src-tauri/crates/aster_bridge_core/src/http_listener.rs:195-219 | over every trace the idle deadline never decreases |
| Clocks.StallIsFirstUnresolved | src-tauri/crates/aster_bridge_core/src/http_listener.rs:204-212 | the stored stall is the time of the first blocked write since anything got through |
| Clocks.ExpiredIff | src-tauri/crates/aster_bridge_core/src/http_listener.rs:214-219 | the deadline has passed exactly when nothing was transferred for 60 seconds or a write has been stuck for 60 seconds |
| Clocks.DeadlineIsPastIff | src-tauri/crates/aster_bridge_core/src/http_listener.rs:195-219 | in the terms of the trace and in numbers: the deadline is past exactly when no data has moved for 60 seconds, or a write was refused 60 seconds ago and no part of a write has got through since |
| Clocks.ReadsDoNotExcuseAStuckWrite | src-tauri/crates/aster_bridge_core/src/http_listener.rs:195-219 | while a write is stuck for 60 seconds the deadline is past, whatever is read meanwhile |
| Clocks.IdleWatch | src-tauri/crates/aster_bridge_core/src/http_listener.rs:163-174 | the re-reading loop answers neither before the deadline nor later than its timers allow after it, and stays silent only because of a sign-in in time |
| Clocks.ChainEndsByDeadline | src-tauri/crates/aster_bridge_core/src/conn_limit.rs:59-76 | any chain of waits before the sign-in ends by 300 seconds plus the server's own pauses |
| Clocks.WaitBeforeSignIn | src-tauri/crates/aster_bridge_core/src/conn_limit.rs:59-64 | an unauthenticated wait has its result if and only if that takes at most 60 seconds and comes by 300 seconds, or at once; it is cut exactly at the earlier limit, and at once past the deadline |
| Clocks.WaitAfterSignIn | src-tauri/crates/aster_bridge_core/src/conn_limit.rs:66-76 | after the sign-in a wait is never cut |
| Clocks.ChainStopsAtTheFirstCut | src-tauri/crates/aster_bridge_core/src/conn_limit.rs:59-76 | a chain of waits ends when its first cut wait ends, and with all results after the sum of its pauses and waits |
| Clocks.PromptClientIsServed | src-tauri/crates/aster_bridge_core/src/conn_limit.rs:59-76 | a client that never takes longer than 60 seconds and is done by 300 seconds gets every result |
| Clocks.Guard | src-tauri/crates/aster_bridge_core/src/conn_limit.rs:41-53 | the guard over its wake-ups, session first and a timer that may be late: it cuts if and only if, when the timer fires, the session is not ready and no sign-in is recorded |
| Clocks.ServeConnection | src-tauri/crates/aster_bridge_core/src/http_listener.rs:104-128 | watch and guard together: an unsigned connection is over by 310 seconds plus the lateness of its timers, and a cut one had neither signed in nor finished |
| Clocks.BoundedSessionEndsItself | src-tauri/crates/aster_bridge_core/src/conn_limit.rs:41-76 | under the guard alone, as the mail listeners run: a session of bounded waits that never signs in finishes by its own end, no later than the deadline plus its pauses, and is not cut, if its pauses fit into the grace |
| Clocks.StuckClientIsCut | src-tauri/crates/aster_bridge_core/src/http_listener.rs:121-128 | a client that stops taking data is gone 60 seconds after its first blocked write |
| Clocks.SignedInConnectionIsLeftAlone | src-tauri/crates/aster_bridge_core/src/conn_limit.rs:41-53 | a client that signs in before its deadline is never cut by either clock |
| Clocks.CutsAreJustified | src-tauri/crates/aster_bridge_core/src/http_listener.rs:121-128 | a connection ended by a clock was not signed in and was silent, stuck or past 310 seconds |
| Outbox.NextKeepsInv | src-tauri/crates/aster_bridge_core/src/outbox.rs:265-373 | every step keeps each row in agreement with the history of its attempts, for every answer including errors to requests the server had accepted |
| OutboxResults.TryDoes | src-tauri/crates/aster_bridge_core/src/outbox.rs:265-319 | what each answer does to the row, and that nothing else changes: status, count and time, with six counted failures as the limit |
| OutboxResults.SecondClaimFails | src-tauri/crates/aster_bridge_core/src/db/mod.rs:3318-3331 | a second attempt on a row that is being sent changes nothing |
| OutboxResults.InsertDoes | src-tauri/crates/aster_bridge_core/src/db/mod.rs:3234-3253 | a queued message starts pending, with no attempts, and touches no other row |
| OutboxResults.ResetDoes | src-tauri/crates/aster_bridge_core/src/db/mod.rs:3333-3347 | a reset returns to pending exactly the rows that have been in sending for that long |
| OutboxResults.FailuresAreCounted | src-tauri/crates/aster_bridge_core/src/outbox.rs:302-317 | over every run a row counts its recorded transient errors, up to six |
| OutboxResults.LastAttemptDecides | src-tauri/crates/aster_bridge_core/src/outbox.rs:265-319 | over every run the last attempt decides the status: sent, failed after a permanent error or a seventh transient one, pending after an earlier transient one |
| OutboxResults.DueExactly | src-tauri/crates/aster_bridge_core/src/outbox.rs:44-56 | over every run a row that has not failed is due exactly from 30, 60, 120, 300, 900 or 1800 seconds after its last attempt on, by the number of its transient errors |
| OutboxResults.TransientIsRetried | src-tauri/crates/aster_bridge_core/src/outbox.rs:302-317 | over every run a recorded transient error below the seventh leaves the row pending with one more failure, due again exactly after the wait for that number |
| OutboxResults.SevenAttemptsAreReached | src-tauri/crates/aster_bridge_core/src/outbox.rs:54-56 | a run with seven automatic attempts and none lost: the bound is attained, and the row is never due again |
| OutboxRuns.AutomaticAttemptsAreBounded | src-tauri/crates/aster_bridge_core/src/outbox.rs:54-56 | over every run at most seven automatic attempts per message besides those whose result was lost, however often the user retries |
| OutboxRuns.GoesOutOnce | src-tauri/crates/aster_bridge_core/src/outbox.rs:265-319 | over every run a message goes out, directly or from the outbox, at most once besides the times the row did not learn of it: a direct send that failed although accepted, an error answer to an accepted request, or a lost result |
| OutboxRuns.RepeatsComeFromMisses | src-tauri/crates/aster_bridge_core/src/outbox.rs:265-319 | when a message goes out again, each earlier time was unacknowledged and the look for the sent copy missed it |
| OutboxRuns.ReliableCheckSettles | src-tauri/crates/aster_bridge_core/src/outbox.rs:283-300 | if the sent copy is found whenever the message is out, the first recorded attempt after that marks the row sent, no attempt follows, and at the end of every run the message has gone out exactly once |
| OutboxRuns.TimedOutSendRepeats | src-tauri/crates/aster_bridge_core/src/outbox.rs:302-317 | a run in which a timed-out request makes the message go out twice with every result recorded |
| OutboxRuns.SentIffSettled | src-tauri/crates/aster_bridge_core/src/outbox.rs:271-300 | a row is marked sent exactly when one attempt that won its claim found or made it delivered |
| OutboxRuns.SentStays | src-tauri/crates/aster_bridge_core/src/outbox.rs:356-361 | a sent row is never touched again |
| OutboxRuns.RetriesWait | src-tauri/crates/aster_bridge_core/src/outbox.rs:44-52 | every automatic retry is checked at least its backoff entry after the time of the attempt before it |
| OutboxRuns.LastBackoffIsNeverUsed | src-tauri/crates/aster_bridge_core/src/outbox.rs:32-52 | no row ever counts seven failures, so the 3600-second entry is never used |
| OutboxRuns.ResetsFindNothing | src-tauri/crates/aster_bridge_core/src/outbox.rs:335-341 | unless a result was lost, reclaiming stale rows changes nothing |
| OutboxRuns.InterruptedSendRepeats | src-tauri/crates/aster_bridge_core/src/outbox.rs:292-300 | a run in which an interruption after sending makes the message go out twice |
| OutboxRuns.QueuedAlthoughSent | src-tauri/crates/aster_bridge_core/src/smtp/server.rs:400-418 | a run in which a direct send that failed although the server accepted it makes the message go out twice, with no later error and no lost result |
| OutboxStore.Store.InsertRow | src-tauri/crates/aster_bridge_core/src/db/mod.rs:3234-3253 | queueing a message is one step of the history, whether or not the failed direct send before it had delivered it |
| OutboxStore.Store.MarkSending | src-tauri/crates/aster_bridge_core/src/db/mod.rs:3318-3331 | the claim succeeds only for a pending or failed row, and then no second claim can succeed |
| OutboxStore.Store.ResetStaleSending | src-tauri/crates/aster_bridge_core/src/db/mod.rs:3333-3347 | no stale claim is left and every row that was not one is as before |
| OutboxStore.Store.ProcessOne | src-tauri/crates/aster_bridge_core/src/outbox.rs:265-319 | one attempt, with every write, is one step of the history; and in its own terms: a copy found or an accepted request marks the row sent, a permanent error fails it, a transient one leaves it pending with one more failure until six are counted, and the message goes out exactly when no copy is found and the server accepts it |
| OutboxStore.DueRowsAreTried | src-tauri/crates/aster_bridge_core/src/outbox.rs:342-352 | the attempts of a tick are exactly those on the listed rows that are due at their turn, in order, each with the clock readings of its turn |
| OutboxStore.Store.Tick | src-tauri/crates/aster_bridge_core/src/outbox.rs:335-352 | a tick reclaims stale rows and then tries exactly the listed rows that are due when their turn comes, in order |
| OutboxStore.Store.RetryNow | src-tauri/crates/aster_bridge_core/src/outbox.rs:353-370 | a requested retry skips the wait and takes failed rows, but never sent or missing ones |

## Left out

Folders
- Case folding is ASCII; the code folds segment and sibling names by Unicode. System mailbox names are compared in ASCII by the code too.
- The counter in `unique_segment` is unbounded; its 32-bit overflow is not modelled.
- Encryption and the server's answer in create, update and delete are one input, `serverAccepts`; the busy and server errors are one error. Failures of the local store, the relocation of a deleted folder's messages and its change records are not part of this model.
- `list_custom_folders` returns rows in token order; the model takes any order, which `FolderTreeFacts.TreeIgnoresTableOrder` justifies.
- `jmap_rows`, labels other than their use as entry tags, `split_path` and `segment_to_name`: easy members only.
- FolderRepair.EffectiveParents: assumes distinct tokens, which `build_tree` establishes before it calls the function.
- FolderRuns.RunKeepsNamesIff: speaks of runs whose operations do not overlap; `FolderRaces` has the others. Generated tokens are new and named by no row as parent, as random tokens are.
- FolderRaces.MovesApartKeepTheForest: takes each generated token to be new when its operation reads the table, as random tokens are.
- The server's answer is arbitrary in `FolderRaces`; whether the server itself refuses one of two overlapping operations is not part of this model.
- Synchronisation (`sync/poller.rs:2469-2488`, `db/mod.rs:2852-2872`) is the step that puts an arbitrary table in place; which table the server lists, and the change records, are not modelled.

Messages
- Texts are sequences of bytes; the fallible UTF-8 slicing of `str::get` is a plain range check. Part ranges never split a character because parts are concatenated whole.
- Header values, quoted names, boundaries and the texts of notes are opaque strings, the same in every mode; how a note is wrapped and escaped is modelled.
- MessageQueries.SizeIsExactIffOverheadAgrees: leaves open messages that have an attachment shown inline and whose kind is guessed wrong; there the arrangement itself depends on the guess, and opaque boundaries and headers enter the length.
- `strip_legacy_note`, date and identifier headers are not part of this model.

Addresses
- The address must be free of quotes, commas, semicolons and angle brackets; the name is arbitrary. Header lookup (`raw_header_value` and the `envelope_` functions) and JSON are reduced to the shapes values can have.

Shutdown
- Scheduling fairness and the runtime's own correctness. A read attempt may fail while a writer waits, as the lock allows; which waiting writer is served first is left open.
- The class holds the state of all tasks, and each method is one atomic action; that the compiled code executes those actions atomically is taken from the runtime's contract.

Ports
- Whether a port can be bound is an arbitrary oracle. Occupant probing, `pick_startup_port`, retries of `bind_loopback_listener` and the port plan of the runtime are not part of this model.
- The other settings of the configuration file and the writing of the file are not modelled.

Clocks
- Time is whole milliseconds; `Activity.now` saturates only after 584 million years. The two loads of `idle_deadline` are one read; a torn read yields a value between the old and the new deadline.
- The runtime is the list of times at which it polls a session, with timers and wake-ups late by at most a given slack.
- Clocks.IdleWatch: is stated for finite traces of events, so that the loop's termination can be proved; a connection that stays active for ever keeps the watch waiting.
- The sign-in flag is the time at which it is set. Semaphores and the farewell window are not modelled.

Outbox
- `sent_copy_exists`, the reply of the server, whether it accepted the message all the same, and whether each result could be written are arbitrary inputs. Whether the server drops a repeated request by its idempotency key (`smtp/server.rs:52-74`) is not part of this model. A failing row listing is left out: that tick does nothing.
- The text of errors and failure notices, and the raw message, are not stored in the model's rows.
- OutboxStore.Store.Tick: takes the listing as an input with the properties its query promises, since ties in the queueing time are ordered arbitrarily.
- The system clock may jump: backoff is stated on the clock's readings, as the code computes it.
