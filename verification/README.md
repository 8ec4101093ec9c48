# A verified model of the messaging core and its bundled libraries

The repository is a reliable publish/subscribe library. A publisher numbers its messages, keeps them in an embedded
LMDB store and sends them as JSON over a lossy channel; a subscriber notices gaps in the numbers and asks for what it
missed. This project models the three bodies of code that carry the guarantees and proves them in Dafny:

1. **The storage engine** (`core/src/lmdb`). `IdSort`, `IdList`, `PageRuns`, `DirtyList` and `FreelistSave` are the
   page-number lists with their in-place loops. `SlottedPage` is one page as bytes. `SplitPoint`, `BTree`, `BTreePut`,
   `BTreeDelete` and `BTreeCursor` are the copy-on-write B+tree of a plain database, with exact page sizes; `BTreeRuns`
   is about runs of calls, `BTreeRefusals` has the calls that fail, `Rebalancing` says which pages a delete merges or
   fills up, `PageSizes` what takes how many bytes, and `LeafPages` and `BranchPages` tie a page of bytes to its page of
   the tree. `PageTree` and `PageTreeDelete` add the page numbers: copies before writing, splits, merges; `OwnPages` is
   about pages that were copied already.
   `Transactions` is the machine of readers, writer, allocator, commit and crash, one visible access per step;
   `TransactionSafety` proves snapshot isolation, crash atomicity and page conservation over all its runs, and
   `TransactionProgress` that scans, commits and readers get where they should. `FreelistRecords` proves that saving the
   free lists does what the machine's save step asks for, and `TreePages` that puts and deletes are steps of the machine,
   after which its pages are those the tree reaches.
2. **The JSON library** (`core/src/tools/cJSON.c`). `JsonString` and `JsonText` define what a text means (RFC 8259,
   sections 2 to 7; RFC 2781, section 2.2; RFC 3629, section 3). `JsonParser` and `JsonPrinter` are the two programs
   that move through a buffer, each proved against that meaning, and `JsonRoundTrip` proves that they are inverse to
   each other. `JsonNotation` ties that meaning to the characters of RFC 8259; `JsonGrammar` has the texts as syntax trees
   and proves that each is read as its value, `JsonLanguage` that nothing else is read. `ChildList` is the doubly linked
   list of children on the heap.
3. **The protocol** (`core/src/*.cpp`). `Messages` is the wire format, `Delivery` the subscriber, the storage and the
   publisher as objects, `DeliveryRuns` the network between them and the delivery guarantee, `LosingRuns` the runs that
   miss it.

Code that updates in place is a class or a method over arrays here, proved against a function of its inputs; what is
promised is then proved about that function, or about every run of the machine.

Where the code departs from what one would expect, the model follows the code:

* `mdb_page_split` halves a page of 32 or more nodes by count when the new node is small, and a half can then exceed
  the page. `SplitPoint.CountedSplitExact` and `SplitPoint.CountedBranchExact` give the exact conditions; put and delete
  fail exactly then (`BTreePut.PutRefinesMap`, `BTreeDelete.DeleteRefinesMap`), as in `BTreeRefusals.RefusedRun` and
  `BTreeRefusals.RefusedDelete`, and never with short keys and entries (`BTreeRuns.SafeRunSucceeds`).
* The comment on `mdb_midl_search` speaks of a greater id; the lists descend, and the position returned is that of the
  first id not above the key.
* A reader copies its meta page after registering, so its snapshot may be newer than its registered id. This is safe
  (`TransactionSafety.CopiedOK`).
* A literal with a digit that is not hex among its first four reads as code point 0 instead of failing
  (`JsonString.BadDigitsReadAsZero`).
* The parser accepts more than RFC 8259: any control character as whitespace or inside a string, numbers with leading
  zeros, with no digit behind the point or, after a minus sign, in front of it (`JsonLanguage.ParsedExactly`).
* Printing into a given buffer needs one byte more than the text and its zero byte.
* A recovery reply is read key by key. With the writer running in between it can have gaps
  (`DeliveryRuns.KeyByKeyExact`), and a skipped message is lost (`DeliveryRuns.PassedOverIsLost`), as in
  `LosingRuns.LosingRun`; whenever such a request can be made, `LosingRuns.LosesFrom` loses a message. Delivery without
  gaps holds in the runs whose replies meet the exact condition.
* A subscriber that starts with messages asks for nothing and blocks its own recovery until the timer runs out
  (`DeliveryRuns.StartupAsksNothing`).

To verify the whole project: `dafny verify dfyconfig.toml`.

## Model

| member | source | states |
|---|---|---|
| `Keys.CompareKeys` | core/src/lmdb/mdb.c:5908-5924 | The byte loop with its length tie-break answers the key order that every other property here relies on: negative exactly when the first key is less, zero exactly when they are equal |
| `Keys.LessIs` | core/src/lmdb/mdb.c:5908-5924 | In that order a key precedes another exactly when it is a proper beginning of it, or has the smaller byte where the two first differ |
| `SplitPoint.FindSplit` | core/src/lmdb/mdb.c:9748-9821 | The loop over node sizes, forwards or backwards, returns the split point the lemmas below speak of, rounding included |
| `SplitPoint.SplitPointIs` | core/src/lmdb/mdb.c:9760-9821 | The point itself: half of all nodes, the new one included, when there are 32 or more old ones and the new one is at most a sixteenth of the page and not last; otherwise the last point up to which the nodes fit the page, counted from the front for a new node in the first half or at the end, and from the back for any other |
| `SplitPoint.ScannedHalvesFit` | core/src/lmdb/mdb.c:9769-9821 | Whenever the split point is searched for, it is at least 1 and both halves, new node included, fit the page, for leaves of at least two old entries and for branch pages |
| `SplitPoint.BranchHalvesHaveTwo` | core/src/lmdb/mdb.c:9748-9821 | With keys within the key limit, both halves of a split branch page keep two nodes at least |
| `SplitPoint.CountedHalvesFit` | core/src/lmdb/mdb.c:9760-9791 | Halving by count (32 keys or more, small new node) leaves both halves in the page when the new node takes at most 12 bytes for each old node on the other side |
| `SplitPoint.CountedHalvesOverfull` | core/src/lmdb/mdb.c:9760-9791 | Otherwise a full page exists, built here, whose halving by count puts more on one side than the page holds |
| `SplitPoint.CountedSplitExact` | core/src/lmdb/mdb.c:9760-9791 | Halving a leaf by count is safe for every full leaf exactly when the new node takes at most 12 bytes for each old node on the other side |
| `SplitPoint.SplitFailsExactly` | core/src/lmdb/mdb.c:9748-9821 | A page about to split cannot be split exactly when the point is taken by count (32 old nodes or more, new node small and not last) and a half is over the page, for leaves and branch pages |
| `SplitPoint.CountedBranchFits` | core/src/lmdb/mdb.c:9760-9791 | Halving a branch page by count leaves both halves in the page when the new node is the one whose key moves up, or small enough for what the other half holds at least, or the nodes beside it cannot be large enough |
| `SplitPoint.CountedBranchOverfull` | core/src/lmdb/mdb.c:9760-9791 | Otherwise a full branch page exists, built here, of which a half is over the page |
| `SplitPoint.CountedBranchExact` | core/src/lmdb/mdb.c:9760-9791 | So halving by count is safe for every full branch page of its kind exactly under that condition |
| `BTreePut.PutOK` | core/src/lmdb/mdb.c:7559-7991 | Put on any page and what is below it: the result fits one page or is split into two under a separator, keys stay ordered and in range, depth stays uniform, and the entries are the old ones with exactly this key set. It is refused exactly when the leaf, or a branch page on the way to it that a split reaches, is cut by count with a half over the page |
| `BTreePut.SplitLeafOK` | core/src/lmdb/mdb.c:9627-9978 | A full leaf becomes two leaves that fit, with the first key of the right one between them; it fails exactly when it is cut by count and a half is over the page |
| `BTreePut.SplitBranchOK` | core/src/lmdb/mdb.c:9627-9978 | A full branch page becomes two with two children each; the middle key moves up and its child keeps the whole range; it fails exactly when it is cut by count and a half is over the page |
| `BTreePut.AfterChildOK` | core/src/lmdb/mdb.c:9835-9877 | A split below is carried into the parent, which may split in turn, without losing or reordering anything to the left or right of that child; it fails exactly when the parent has no room and its split fails |
| `BTreePut.PutRefinesMap` | core/src/lmdb/mdb.c:7559-7991 | A put that succeeds leaves a well-formed tree (ordered, uniform depth, two children at least per branch page) that holds exactly the old map with the key set; it reports a bad size exactly for a bad key, and a full page exactly when a page on the way is cut by count with a half over the page |
| `BTreePut.GetFinds` | core/src/lmdb/mdb.c:6465-6543 | Descending by separators finds a value exactly when the map has the key, and it is the value the map holds |
| `PageSizes.RunLeast` | core/src/lmdb/mdb.c:1043-1044 | An overflow run has the fewest pages that hold one page header of 16 bytes and the data |
| `PageSizes.NodeMaxLargest` | core/src/lmdb/mdb.c:4994-4995 | The node limit is the largest even size of which two nodes with their slots share a page |
| `PageSizes.EntryPlaced` | core/src/lmdb/mdb.c:8328-8352 | Data stays in its node exactly when two nodes of that size, slots included, share a page; otherwise the node holds the number of a run that is as short as can be |
| `PageSizes.LeafSplitsWhenFull` | core/src/lmdb/mdb.c:7960-7972 | A leaf takes a new entry without a split exactly when all its entries then fit the page |
| `PageSizes.BranchSplitsWhenFull` | core/src/lmdb/mdb.c:9835-9845 | So does a branch page a new child, although the size of its node is not rounded up in the test |
| `PageSizes.OverwrittenInPlace` | core/src/lmdb/mdb.c:7870-7953 | Data of the same length is written over the old data in its node, and data that an overflow run of the transaction has room for over that run; the page keeps its layout and the put is not refused |
| `BTreeDelete.FailsFill` | core/src/lmdb/mdb.c:9268-9293 | A leaf that fails the fill test uses less than a quarter of its page; a branch page that fails it uses less than 33 bytes |
| `BTreeDelete.CannotGive` | core/src/lmdb/mdb.c:9423-9446 | A neighbour that must not give a node away uses at most half a page (leaf) or 532 bytes (branch) |
| `BTreeDelete.MergeFits` | core/src/lmdb/mdb.c:9100-9236 | Two neighbours within those bounds always fit one page, and the merged page holds the two runs of entries in order |
| `BTreeDelete.MoveOK` | core/src/lmdb/mdb.c:8871-9090 | Moving one node across, in either direction, leaves both pages well-formed, keeps their joint entries, and yields a separator that is valid between them |
| `BTreeDelete.UpdateKeyOK` | core/src/lmdb/mdb.c:8781-8850 | Putting another separator in a branch page, or deleting and re-adding it by a split when it does not fit, keeps all entries, the order and the depth; it fails exactly when that split is taken by count with a half over the page |
| `BTreeDelete.RebalanceOK` | core/src/lmdb/mdb.c:9267-9448 | Whatever rebalancing does with a shrunken child (leave it, move a node, merge), the entries below the parent are kept exactly, and the parent is well-formed or itself a candidate for rebalancing; it fails exactly when a node is moved and the parent refuses its separator. Which of the three it does is stated in `Rebalancing.RebalanceDoes` |
| `Rebalancing.EnoughIsFilled` | core/src/lmdb/mdb.c:1023-1030 | In bytes: a leaf is full enough exactly when it has an entry and a quarter of its page is in use, a branch page exactly when it has two children (its nodes then use a thousandth of the page) |
| `Rebalancing.RebalanceDoes` | core/src/lmdb/mdb.c:9267-9448 | A child that is full enough in bytes is left alone, and nothing else changes. Otherwise it takes exactly one node from its neighbour (the first of the right one for the first child, the last of the left one for any other) when that one has nodes to spare and is full enough itself, or else the two become one page and the parent has a child fewer |
| `Rebalancing.LeafLoses` | core/src/lmdb/mdb.c:9451-9494 | On a leaf exactly the node of the key goes, and its parent must look at what is left |
| `Rebalancing.DeleteRebalances` | core/src/lmdb/mdb.c:9267-9494 | In every well-formed tree, every branch page above a child that shrank does one of these three things with it |
| `BTreeDelete.DeleteOK` | core/src/lmdb/mdb.c:9451-9494 | Delete on any page and what is below it removes exactly this key; it is refused exactly when a branch page above the leaf refuses a separator |
| `BTreeDelete.RootAfterOK` | core/src/lmdb/mdb.c:9295-9376 | An empty root leaf goes, a root with one child gives way to it, and the contents stay |
| `BTreeDelete.DeleteRefinesMap` | core/src/lmdb/mdb.c:9451-9494 | A delete that succeeds leaves a well-formed tree holding exactly the old map without the key; not found means the key was not there; a refusal means exactly that the key is there and a branch page above its leaf refuses the separator that rebalancing needs |
| `BTreeRuns.RunIsMap` | core/src/lmdb/mdb.c:7559-9494 | Over every run of puts and deletes from the empty database that is not refused, the tree stays well-formed and holds exactly what the same calls leave in a map |
| `BTreeRuns.SafeRunSucceeds` | core/src/lmdb/mdb.c:9760-9821 | No call of a run is ever refused when each key and entry put takes at most 192 bytes on its page, or more than a sixteenth of it |
| `BTreeRuns.ShortIsSafe` | core/src/lmdb/mdb.c:9760-9791 | Keys of up to 182 bytes in entries of up to 190 bytes, header included, are of such sizes, on every page size |
| `BTreeRuns.PutNotRefused` | core/src/lmdb/mdb.c:9760-9821 | A put of a safe key and entry into a tree of safe keys is not refused on any page |
| `BTreeRuns.DeleteNotRefused` | core/src/lmdb/mdb.c:9760-9821 | A delete from a tree of safe keys is not refused on any page |
| `BTreeRuns.PutSafe` | core/src/lmdb/mdb.c:9627-9978 | Put makes separators of keys and separators that were there or of the new key only |
| `BTreeRuns.DeleteSafe` | core/src/lmdb/mdb.c:8871-9448 | Delete makes separators of keys and separators that were there only |
| `BTreeRefusals.RefusedPut` | core/src/lmdb/mdb.c:9791-9791 | A leaf of 32 entries on a 4096-byte page, in order, that refuses a new entry of 206 bytes |
| `BTreeRefusals.RefusedRun` | core/src/lmdb/mdb.c:9791-9791 | A run from the empty database, of 32 puts in ascending order that succeed, after which one more put of a smaller key is refused |
| `BTreeRefusals.RefusedDelete` | core/src/lmdb/mdb.c:9791-9791 | A tree of height 1 with 33 leaves on 4096-byte pages, in order, that refuses to delete a key: its leaf has to borrow an entry whose successor has a key of 208 bytes |
| `BTreeCursor.NodeSearch` | core/src/lmdb/mdb.c:5958-6047 | The binary search returns the first node whose key is not below the searched one, and says whether it is equal; slot 0 of a branch page is never compared |
| `BTreeCursor.FollowedChild` | core/src/lmdb/mdb.c:6503-6518 | Stepping back one slot unless the match is exact leads to the one child whose range holds the key |
| `BTreeCursor.ChildIndex` | core/src/lmdb/mdb.c:6503-6518 | The loop that picks a child agrees with the child put, get and delete descend to |
| `BTreeCursor.Cursor.PushChild` | core/src/lmdb/mdb.c:6084-6097 | Pushing a child keeps the stack a path from the root and accounts for exactly the entries left of it |
| `BTreeCursor.Cursor.Sibling` | core/src/lmdb/mdb.c:6817-6873 | Stepping sideways reaches the page of the same height whose entries start right behind (or end right before) the present one, and fails only at that end of the tree |
| `BTreeCursor.Cursor.Descend` | core/src/lmdb/mdb.c:6465-6543 | Walking down first or last children ends on the leaf at that end of the tree |
| `BTreeCursor.Cursor.Current` | core/src/lmdb/mdb.c:6933-6960 | The entry under the cursor is the one the database has at the cursor's position |
| `BTreeCursor.Cursor.First` | core/src/lmdb/mdb.c:7246-7291 | The first entry of the database, or not found exactly when it is empty |
| `BTreeCursor.Cursor.Last` | core/src/lmdb/mdb.c:7293-7335 | The last entry of the database, or not found exactly when it is empty |
| `BTreeCursor.Cursor.Next` | core/src/lmdb/mdb.c:6875-6960 | From any state the entry at the next position; the end is reported exactly when there is none, and then the position is kept |
| `BTreeCursor.Enumerate` | core/src/lmdb/mdb.c:6875-6960 | Calling next until it fails yields exactly the contents of the database, every entry once and in ascending order |
| `BTreeCursor.Cursor.Prev` | core/src/lmdb/mdb.c:6963-7040 | The entry before the cursor's position, from the end of the database when the cursor has no position yet |
| `BTreeCursor.Cursor.SearchLeaf` | core/src/lmdb/mdb.c:6465-6543 | The leaf reached from the root is the one between whose neighbours the key belongs |
| `BTreeCursor.Cursor.TryThisPage` | core/src/lmdb/mdb.c:7067-7157 | What may be concluded from the page the cursor is on: a hit, the right page, past every key, or before every key, is each justified for the whole database |
| `BTreeCursor.Cursor.FindOnLeaf` | core/src/lmdb/mdb.c:7166-7193 | Searching that leaf, and the next one when all its keys are smaller, puts the cursor on the key or the first key behind it |
| `BTreeCursor.Cursor.Seek` | core/src/lmdb/mdb.c:7048-7243 | Exact and range search return the entry at the key, or at the first key from it on, exactly when there is one, whatever shortcut the cursor's page allowed |
| `SlottedPage.Page.constructor` | core/src/lmdb/mdb.c:8197-8221 | A new page has no node and all room behind its header |
| `SlottedPage.Page.AddNode` | core/src/lmdb/mdb.c:8290-8410 | The page is full exactly when node and slot exceed the free space, and then nothing changes; otherwise one node is added at the index, all others are as before, free space shrinks by node and slot, and the images still tile the page |
| `SlottedPage.Compose` | core/src/lmdb/mdb.c:8328-8401 | The node written reads back as what was asked for: its key, its data length split over two 16-bit words, and its data, the overflow page or the 48-bit child page |
| `PageSizes.LeafNodeBytes` | core/src/lmdb/mdb.c:1065-1090 | The bytes of a leaf node: 32 bits of data length, 16 bits of flags, 16 bits of key length, low byte first; then the key, and the data or the 8 bytes that name an overflow page |
| `PageSizes.BranchNodeBytes` | core/src/lmdb/mdb.c:1065-1096 | The bytes of a branch node: 48 bits of child page number, 16 bits of key length, low byte first, and the key |
| `SlottedPage.Page.Insert` | core/src/lmdb/mdb.c:8358-8380 | Shifting the slots, taking the space under the upper bound and writing the image there changes no other node |
| `SlottedPage.Page.OpenSlot` | core/src/lmdb/mdb.c:8359-8361 | The slot array with the new offset in place, later slots one place higher |
| `SlottedPage.Page.DelNode` | core/src/lmdb/mdb.c:8417-8467 | Exactly the addressed node goes, its bytes and slot become free space, and the images still tile the page |
| `SlottedPage.Page.CloseSlot` | core/src/lmdb/mdb.c:8452-8460 | The compacting loop drops one slot and raises exactly the offsets below the dropped node's |
| `SlottedPage.Page.UpdateKey` | core/src/lmdb/mdb.c:8781-8850 | A new branch key is written in place exactly when its growth fits the free space; then only this node's key changes, and otherwise nothing does |
| `SlottedPage.Page.ShiftNodes` | core/src/lmdb/mdb.c:8815-8838 | Sliding the node header and everything stored below it by the change in key length |
| `SlottedPage.Page.LowerSlots` | core/src/lmdb/mdb.c:8827-8831 | The loop lowers exactly the offsets up to the node's own |
| `SlottedPage.Page.MoveBytes` | core/src/lmdb/mdb.c:8462-8463 | memmove with overlapping ranges: every destination byte is the source byte as it was before |
| `SlottedPage.Page.AddThenDelete` | core/src/lmdb/mdb.c:8290-8467 | Deleting a node that was just added restores the nodes and the free space |
| `SlottedPage.MovedImage` | core/src/lmdb/mdb.c:8462-8463 | A node image means the same node wherever in the page it is moved to |
| `SlottedPage.TilesCover` | core/src/lmdb/mdb.c:954-958 | On a tiled page every byte from the upper bound to the end belongs to a node, and to one only |
| `SlottedPage.AddedTiles` | core/src/lmdb/mdb.c:8358-8368 | Tiling survives an added node |
| `SlottedPage.RemovedTiles` | core/src/lmdb/mdb.c:8450-8466 | Tiling survives a removed node: the nodes slid up meet the ones that stayed |
| `SlottedPage.RekeyedTiles` | core/src/lmdb/mdb.c:8826-8838 | Tiling survives a node growing or shrinking in the middle |
| `LeafPages.RoomIsCounted` | core/src/lmdb/mdb.c:8235-8247 | A page that holds a leaf's entries has exactly the free bytes the tree counts for the leaf, whatever is on overflow pages |
| `LeafPages.AddEntry` | core/src/lmdb/mdb.c:8290-8410 | Adding an entry reports a full page exactly when the tree splits the leaf, and otherwise leaves a page that holds the leaf the tree then has |
| `LeafPages.DeleteEntry` | core/src/lmdb/mdb.c:8417-8467 | Deleting an entry leaves a page that holds the leaf without it, with the room the tree counts |
| `BranchPages.RoomIsCounted` | core/src/lmdb/mdb.c:8235-8247 | A page that holds a branch page's children has exactly the free bytes the tree counts for it, and an even number of them |
| `BranchPages.AddKid` | core/src/lmdb/mdb.c:8290-8410 | Adding a child reports a full page exactly when the tree splits the branch page, and otherwise leaves a page that holds the children the tree then has, with their page numbers |
| `BranchPages.ChangeSep` | core/src/lmdb/mdb.c:8781-8850 | Changing a separator in place fits exactly when the tree does not split, and the page then holds what the tree has |
| `BranchPages.RemoveKid` | core/src/lmdb/mdb.c:8417-8467 | Removing a child leaves a page that holds the others, with the room the tree counts |
| `TransactionSafety.Unheld` | core/src/lmdb/mdb.c:2537-2545 | A page that is neither used by the base snapshot nor in a record the writer has left alone belongs to no snapshot a reader or a meta page still refers to |
| `TransactionSafety.ConsumedBelow` | core/src/lmdb/mdb.c:2519-2545 | The largest record id a writer has consumed never passes the transaction id of any snapshot in use |
| `TransactionSafety.CopiedOK` | core/src/lmdb/mdb.c:3058-3077 | The meta page copied after the re-check is never older than the id the reader registered |
| `TransactionSafety.SavedOK` | core/src/lmdb/mdb.c:3437-3655 | Records that list the leftover pages once each make a snapshot that lists each page in exactly one record or has it in use: nothing is lost or listed twice |
| `TransactionSafety.SavedKeeps` | core/src/lmdb/mdb.c:3437-3655 | What is saved back under old ids never frees a page of a snapshot still in use |
| `TransactionSafety.StepInv` | core/src/lmdb/mdb.c:2375-4407 | Every step of readers, writer, allocator, commit, abort and crash keeps the invariant |
| `TransactionSafety.RunInv` | core/src/lmdb/mdb.c:2375-4407 | The invariant holds at every point of every run |
| `TransactionSafety.SnapshotIsolation` | core/src/lmdb/mdb.c:3058-3130 | In every run and every interleaving, an active reader's snapshot is on file exactly as it was committed, and no page of it is dirty, on a free list of the writer, loose, or about to be flushed |
| `TransactionSafety.OldestNeverAhead` | core/src/lmdb/mdb.c:2375-2391 | The cached oldest id never passes an active reader, a record is consumed only below every active reader's id, and leftover pages are saved back only under such ids; how far it does go is stated in `TransactionProgress.ScanExact` |
| `TransactionProgress.ScanFinds` | core/src/lmdb/mdb.c:2375-2391 | Over every run, with readers coming and going during the scan, the id it ends with is the least of the last committed id and the slot values it met: not above any of them, and one of them |
| `TransactionProgress.ScanExact` | core/src/lmdb/mdb.c:2375-2391 | With no reader step during the scan it is the least of the last committed id and the ids of all registered readers, and the last committed id when there is none |
| `TransactionProgress.ConsumesOne` | core/src/lmdb/mdb.c:2519-2545 | The record with the lowest id can then be consumed whenever that id is below the oldest one |
| `TransactionProgress.ConsumesAll` | core/src/lmdb/mdb.c:2519-2545 | So every record below the oldest id can be consumed, one after the other, and their pages are then on the head list, every one of them |
| `TransactionProgress.CommitPublishes` | core/src/lmdb/mdb.c:4260-4407 | With the leftover pages listed, a commit goes through, and the snapshot it publishes under the next id has exactly the transaction's pages, the clean ones as they were and the dirty ones as they are in memory, and lists the pages freed under its own id |
| `TransactionProgress.WriteLasts` | core/src/lmdb/mdb.c:2717-2813 | In every run a page that stays dirty keeps what was last written to it, for the commit to publish |
| `TransactionProgress.ReaderReads` | core/src/lmdb/mdb.c:3023-3065 | A reader that is not disturbed registers the last committed id and gets to read the snapshot of that id |
| `TransactionProgress.ReaderPasses` | core/src/lmdb/mdb.c:3313-3340 | When it ends, its slot is free again, and everything is as it was before it began |
| `TransactionSafety.CrashAtomicity` | core/src/lmdb/mdb.c:4260-4407 | After a crash at any point, with any content for unsynced pages and any number of processes opening the file again, the meta page picked is that of the last committed transaction or of the one whose meta page was just written, and both meta pages lead to whole, unaltered snapshots |
| `TransactionSafety.PageConservation` | core/src/lmdb/mdb.c:969-970 | At every step the pages up to the next new one are a disjoint union of tree pages, free records, the head list, the freed list and the loose list; and a committed snapshot reaches or lists each page exactly once |
| `PageTree.PutPagesBare` | core/src/lmdb/mdb.c:7559-7991 | Put on numbered pages, touching every page from the root to the leaf and taking a new one for each split, is put on the tree when the numbers are left away |
| `PageTree.PutAccounted` | core/src/lmdb/mdb.c:2717-2813 | A put accounts for every page of the subtree (kept, given back, or newly taken, once each), and every page that is not dirty holds what it held |
| `PageTree.PutCopies` | core/src/lmdb/mdb.c:7559-7991 | The same for the whole database: a first leaf and a new root over a split are new pages; old pages are copied before they are written |
| `OwnPages.PutInPlace` | core/src/lmdb/mdb.c:2717-2740 | A put into pages that are all dirty gives none back, and the page it starts from keeps its number |
| `OwnPages.DeleteInPlace` | core/src/lmdb/mdb.c:2132-2175 | A delete from pages that are all dirty frees none |
| `OwnPages.MergeInPlace` | core/src/lmdb/mdb.c:9100-9236 | A merge of two dirty pages keeps the left one and leaves exactly the right one loose |
| `PageTreeDelete.DeletePagesBare` | core/src/lmdb/mdb.c:9267-9494 | Delete on numbered pages, with both pages touched when a node moves and the right page given up in a merge, is delete on the tree |
| `PageTreeDelete.JoinedAccounted` | core/src/lmdb/mdb.c:9100-9236 | A merge writes the left page only, hangs the children of both below it, and gives the right page back: loose when it is dirty, freed when it is not |
| `PageTreeDelete.DeleteAccounted` | core/src/lmdb/mdb.c:9267-9494 | A delete accounts for every page of the subtree, and every page that is not dirty holds what it held |
| `PageTreeDelete.DeleteCopies` | core/src/lmdb/mdb.c:9295-9376 | The same for the whole database, with the root page freed when the tree is empty or gives way to its only child |
| `TreePages.EveryPageOnce` | core/src/lmdb/mdb.c:2717-2813 | When the allocator hands out pages the tree does not have, none twice, no page occurs twice in the new tree, and none that was given back is still in it |
| `TreePages.AllocatedIn` | core/src/lmdb/mdb.c:2433-2624 | Each way of allocating a page adds pages that belong to neither the tree nor the other trees of the transaction |
| `TreePages.CallFollows` | core/src/lmdb/mdb.c:2132-2175 | The pages a call gives back are given back by steps of the transaction machine, and afterwards clean and dirty pages are exactly those the new tree reaches and those of the other trees, each once |
| `TreePages.PutFollows` | core/src/lmdb/mdb.c:7559-7991 | So for every put: the machine reaches a state in which the pages are those of the new tree, and those still clean hold what the old tree had on them |
| `TreePages.DeleteFollows` | core/src/lmdb/mdb.c:9267-9494 | So for every delete |
| `FreelistRecords.RecordsPartition` | core/src/lmdb/mdb.c:3627-3655 | Records that together hold a list without repetition are disjoint and list exactly its pages |
| `FreelistRecords.SaveFreelist` | core/src/lmdb/mdb.c:3437-3655 | Reserving round by round, returning the loose pages and filling the records leaves records, under ids from 1 up to the last one consumed, that list each leftover page of the transaction exactly once |
| `FreelistRecords.SavedIsStep` | core/src/lmdb/mdb.c:3437-3655 | Such records are what the save step of the machine asks for, and with them every page of the saved snapshot is used or listed exactly once |
| `FreelistRecords.NothingConsumed` | core/src/lmdb/mdb.c:3453-3502 | A transaction that consumed no record needs none |
| `TransactionSafety.CrashStep` | core/src/lmdb/mdb.c:4401-4407 | Recovery from a crash continues from a state that satisfies the invariant |
| `IdSort.Sort` | core/src/lmdb/midl.c:220-279 | For every length, the list becomes a descending permutation of itself, nothing outside it is touched, and no index leaves the array or the stack |
| `IdSort.MedianOfThree` | core/src/lmdb/midl.c:245-255 | The three exchanges put the middle one of three ids in place with a larger-or-equal one before and a smaller-or-equal one at the end: the two sentinels of the scans |
| `IdSort.CrossScan` | core/src/lmdb/midl.c:256-264 | The two inner scans stop inside the segment without a bounds test, and cross with nothing below the median on the left and nothing above it on the right |
| `IdSort.Partition` | core/src/lmdb/midl.c:245-266 | A segment is split around its median within the segment |
| `IdSort.InsertionSort` | core/src/lmdb/midl.c:232-240 | Insertion that may run down to the front of the list instead of the segment still sorts the segment only, because everything left of it is at least as large |
| `IdSort.Insert` | core/src/lmdb/midl.c:234-238 | One insertion step |
| `IdSort.AfterPartition` | core/src/lmdb/midl.c:267-276 | Pushing the larger part and continuing with the smaller one keeps every pending place inside a segment that is at most 1/2^k of the list at stack depth k |
| `IdSort.AfterInsertion` | core/src/lmdb/midl.c:241-243 | A sorted small segment is in its final place |
| `IdSort.StackDepth` | core/src/lmdb/midl.c:220-279 | The stack never holds more than 28 segments, 56 of its 64 words |
| `IdList.Search` | core/src/lmdb/midl.c:34-64 | The binary search over a descending list returns the first position whose id is not above the key |
| `IdList.XMerge` | core/src/lmdb/midl.c:201-213 | The in-place merge leaves exactly the merge of the two lists in the front of the buffer, also when the second list is parked in the tail of the same buffer, with slot 0 as its only guard |
| `IdList.MoveBelow` | core/src/lmdb/midl.c:208-209 | The inner loop moves ids up to the sentinel and no further |
| `IdList.MergedContents` | core/src/lmdb/midl.c:201-213 | A merge holds exactly the ids of both lists, with multiplicity |
| `IdList.MergedOrder` | core/src/lmdb/midl.c:201-213 | Merging descending lists gives a descending list |
| `IdList.MergedStrict` | core/src/lmdb/midl.c:201-213 | Lists without a common id merge into a strictly descending one |
| `IdList.Need` | core/src/lmdb/midl.c:143-155 | The list keeps its ids and has room for as many more as asked, in blocks of 256 words |
| `IdList.AppendRange` | core/src/lmdb/midl.c:185-199 | A range of pages is appended highest first, behind what was listed |
| `IdList.FillRun` | core/src/lmdb/midl.c:194-197 | The countdown loop writes exactly the range and leaves the rest of the buffer |
| `IdList.ReturnLoose` | core/src/lmdb/mdb.c:3608-3625 | Loose pages parked in the tail of the free-page buffer, sorted there and merged into its front, end up in it exactly once each; a strictly descending list stays so |
| `IdList.Park` | core/src/lmdb/mdb.c:3612-3619 | Parking in the tail does not touch the list in front |
| `PageRuns.RunTest` | core/src/lmdb/mdb.c:2484-2494 | On a strictly descending list the test on the two ends of a stretch holds exactly when all its pages are consecutive |
| `PageRuns.FindRun` | core/src/lmdb/mdb.c:2484-2494 | The scan finds a run of the asked length whenever the list contains one |
| `PageRuns.TakeRun` | core/src/lmdb/mdb.c:2607-2614 | Removal takes exactly the places of the run and closes the gap |
| `PageRuns.WithoutDescends` | core/src/lmdb/mdb.c:2607-2614 | What is left is strictly descending |
| `PageRuns.ReturnRun` | core/src/lmdb/mdb.c:6726-6732 | Freeing an overflow run inserts its pages behind all larger ones |
| `PageRuns.WithDescends` | core/src/lmdb/mdb.c:6726-6732 | The list stays strictly descending when none of the pages was listed |
| `PageRuns.TakenAndReturned` | core/src/lmdb/mdb.c:6726-6732 | Taking a run and returning it restores the list exactly |
| `DirtyList.Search` | core/src/lmdb/midl.c:281-314 | The binary search over an ascending list returns the first position whose page is not below the key |
| `DirtyList.Insert` | core/src/lmdb/midl.c:316-345 | Insertion in order; a page already listed is refused, a full list refuses any other, and a refusal changes nothing |
| `DirtyList.UnionMids` | core/src/lmdb/mdb.c:4001-4031 | The union of two dirty lists has the pages of either |
| `DirtyList.UnionAscends` | core/src/lmdb/mdb.c:4001-4031 | It ascends strictly |
| `DirtyList.ChildWins` | core/src/lmdb/mdb.c:4001-4031 | Where both lists have a page the child's copy is in the union, otherwise the one there is |
| `DirtyList.UnionLength` | core/src/lmdb/mdb.c:4001-4018 | Its length is the number of distinct pages |
| `DirtyList.MergeDirty` | core/src/lmdb/mdb.c:4019-4029 | The tail merge into the parent's own buffer overwrites no entry it has not read and ends with exactly the union |
| `DirtyList.UnionSize` | core/src/lmdb/mdb.c:4001-4015 | The counting loop over both lists yields the length of the union and restores the buffer |
| `DirtyList.RoomIsUnion` | core/src/lmdb/mdb.c:2395-2414 | Over every run of page allocations and copies in a nested transaction, the remaining dirty room counts the distinct pages of parent and child |
| `DirtyList.RoomIsLength` | core/src/lmdb/mdb.c:4016-4018 | So the length taken from the dirty room, with a single ancestor, is that of the union |
| `FreelistSave.Reserve` | core/src/lmdb/mdb.c:3520-3606 | When the rounds settle, the reserved records have room for every page, whatever the saving itself allocated or freed in between; there are never more records than usable ids; and the rounds do settle once the last consumed record and the page count stay the same for as many rounds as the id of that record and three more |
| `FreelistSave.HeadRoomIs` | core/src/lmdb/mdb.c:3579-3585 | The room of a record, when more is missing than one page lists, is an even share of what is missing, rounded up so that with its own length it fills whole pages; as many such records as there are ids hold all that is missing |
| `FreelistSave.Fill` | core/src/lmdb/mdb.c:3627-3655 | The records are filled within their sizes, each strictly descending, and together they hold exactly the saved list in order |
| `JsonString.Utf8Shortest` | core/src/tools/cJSON.c:715-764 | The bytes written for a code point decode to it, and no shorter byte string does |
| `JsonString.LiteralIsUtf16` | core/src/tools/cJSON.c:652-713 | A literal whose first four digits are hex is accepted exactly when the units written there are the UTF-16 form of some scalar value, and it then stands for that value and has its length |
| `JsonString.BadDigitsReadAsZero` | core/src/tools/cJSON.c:615-712 | When one of the first four digits is not hex, the literal always reads as the zero code point |
| `JsonString.EscapedLength` | core/src/tools/cJSON.c:929-955 | The escaped text is exactly as long as the counting pass says |
| `JsonString.EscapeRoundTrip` | core/src/tools/cJSON.c:773-1021 | Reading an escaped string gives back the string, and finds its closing quote, for every string without a zero byte |
| `JsonNotation.LetterRead` | core/src/tools/cJSON.c:835-868 | The letters that may follow a backslash are those of the table in section 7 of RFC 8259 and no others, and each stands for its character |
| `JsonNotation.ByteWritten` | core/src/tools/cJSON.c:973-1015 | Quote, backslash and the five control characters with a letter are written by it, other control characters by four hex digits, and all other bytes as they are |
| `JsonNotation.HexDigitRead` | core/src/tools/cJSON.c:615-649 | Hex digits are 0 to 9 and a to f in either case, with their values, and nothing else |
| `JsonNotation.NamedText` | core/src/tools/cJSON.c:773-1021 | A literal of a backslash and a letter parses to the text of its character, and that text is printed so (the slash as itself) |
| `JsonNotation.Tokens` | core/src/tools/cJSON.c:1312-1437 | Brackets, braces, comma, colon, quote and the three words are the characters of RFC 8259 |
| `JsonString.CStringWhole` | core/src/tools/cJSON.c:188-207 | A string without a zero byte is a C string whole |
| `JsonRoundTrip.DecimalRead` | core/src/tools/cJSON.c:304-378 | The decimal text of an integer below 10^15 reads back as that integer |
| `JsonRoundTrip.ValueRoundTrip` | core/src/tools/cJSON.c:1312-1825 | A printed value, found anywhere in a text at any depth that leaves room for its nesting, reads back as itself and ends where it ended |
| `JsonRoundTrip.ItemsRoundTrip` | core/src/tools/cJSON.c:1441-1598 | Printed array items read back in order |
| `JsonRoundTrip.MembersRoundTrip` | core/src/tools/cJSON.c:1601-1825 | Printed object members read back in order, formatted or not |
| `JsonRoundTrip.ParsePrinted` | core/src/tools/cJSON.c:1095-1250 | Parsing the formatted or unformatted text of a value gives back the same value |
| `JsonRoundTrip.ReadWithinLimit` | core/src/tools/cJSON.c:1441-1448 | Nothing nested deeper than 1000 levels is ever read, on any input |
| `JsonRoundTrip.RoundTripExact` | core/src/tools/cJSON.c:1095-1250 | A value comes back from its text exactly when it is nested at most 1000 deep |
| `JsonNotation.DecimalPrinted` | core/src/tools/cJSON.c:545-612 | An integer is printed as its decimal digits without a leading zero, behind a minus sign when it is negative |
| `JsonNotation.ArrayPrinted` | core/src/tools/cJSON.c:1539-1598 | An array is its items between brackets, with a comma, and a blank when formatted, between them |
| `JsonNotation.ObjectPrinted` | core/src/tools/cJSON.c:1714-1825 | An object is its members between braces with commas between them; formatted, each on a line of its own behind as many tabs as it is deep, with a tab behind the colon |
| `JsonNotation.IntegerHeld` | core/src/tools/cJSON.c:361-373 | The integer beside a number is the number without what is behind its point, held within 32 bits |
| `JsonGrammar.PiecesMean` | core/src/tools/cJSON.c:773-899 | Any mix of plain bytes, escapes with a letter and code points in hex digits of either case, as surrogate pairs above U+FFFF, stands for those characters in UTF-8 |
| `JsonGrammar.NumRead` | core/src/tools/cJSON.c:304-378 | Every number text, with its sign, digits, fraction and exponent, converts to digits times powers of ten, and to its end |
| `JsonGrammar.DocRead` | core/src/tools/cJSON.c:1312-1711 | The text of any value, with whitespace around every token, is read as that value wherever it stands, at any depth that leaves room for its nesting |
| `JsonGrammar.TextRead` | core/src/tools/cJSON.c:1038-1150 | So is every whole text, with blanks around the value and behind a byte order mark or none, exactly when it is nested at most 1000 deep |
| `JsonLanguage.NumIs` | core/src/tools/cJSON.c:304-378 | Whatever converts is such a number text |
| `JsonLanguage.ValueIs` | core/src/tools/cJSON.c:1312-1711 | Whatever is read as a value, anywhere in any text, is the text of a value of the grammar, and is read as that value |
| `JsonLanguage.ParsedExactly` | core/src/tools/cJSON.c:1095-1150 | Parsing a text to its end succeeds with a value exactly when the text is one of the grammar that stands for this value, nested at most 1000 deep: nothing else is accepted and nothing of it refused |
| `JsonParser.WriteUtf8` | core/src/tools/cJSON.c:747-764 | The loop that writes the bytes from the last to the first produces the encoding |
| `JsonParser.ParseHex4` | core/src/tools/cJSON.c:615-649 | The digit loop computes the value of four hex digits, 0 when one of them is none |
| `JsonParser.ParseBuffer.SkipWhitespace` | core/src/tools/cJSON.c:1038-1061 | Stops at the first byte above the blank |
| `JsonParser.ParseBuffer.MeasureString` | core/src/tools/cJSON.c:786-811 | The first pass finds the closing quote and an estimate that counts every byte but those its escapes save |
| `JsonParser.Fits` | core/src/tools/cJSON.c:810-877 | No escape, literal or plain byte adds more to the output than the estimate still has left for it |
| `JsonParser.ParseBuffer.UnescapeInto` | core/src/tools/cJSON.c:819-877 | The second pass writes exactly the unescaped bytes and never past the estimated allocation, on any input |
| `JsonParser.ParseBuffer.ParseString` | core/src/tools/cJSON.c:773-899 | String parsing succeeds exactly on well-formed literals and yields their value; which those are is stated by `JsonNotation.LetterRead`, `JsonString.LiteralIsUtf16` and `JsonGrammar.PiecesMean` |
| `JsonParser.ParseBuffer.ParseNumber` | core/src/tools/cJSON.c:304-378 | The number at the offset, with at most 63 bytes of it converted |
| `JsonParser.ParseBuffer.ParseValue` | core/src/tools/cJSON.c:1312-1364 | The recursive parser with its moving offset and depth accepts and yields exactly what the grammar of the model reads |
| `JsonParser.ParseBuffer.ParseArray` | core/src/tools/cJSON.c:1441-1536 | The same for arrays |
| `JsonParser.ParseBuffer.ParseMember` | core/src/tools/cJSON.c:1657-1682 | One round of the loop reads one name and value |
| `JsonParser.ParseBuffer.ParseObject` | core/src/tools/cJSON.c:1601-1711 | The same for objects |
| `JsonParser.Parse` | core/src/tools/cJSON.c:1079-1172 | Parsing a C string, with an optional byte order mark and an optional demand that nothing follows the value |
| `JsonPrinter.CountExtra` | core/src/tools/cJSON.c:929-953 | The counting pass over a string |
| `JsonPrinter.PrintBuffer.Ensure` | core/src/tools/cJSON.c:438-522 | Room for the asked bytes and a zero byte, with the text so far kept, exactly when the total fits the buffer limit (an int, or the given size) |
| `JsonPrinter.PrintBuffer.UpdateOffset` | core/src/tools/cJSON.c:525-535 | The offset moves to the zero byte that ends the text, because no printed text contains one |
| `JsonPrinter.PrintBuffer.PrintString` | core/src/tools/cJSON.c:902-1021 | A string is appended between quotes with its escapes, which are those of `JsonNotation.ByteWritten`, exactly when it fits |
| `JsonPrinter.PrintBuffer.PrintNumber` | core/src/tools/cJSON.c:545-612 | An integer is written in decimal |
| `JsonPrinter.PrintBuffer.PrintValue` | core/src/tools/cJSON.c:1367-1438 | The recursive printer appends exactly the text of the value, and fails exactly when it does not fit |
| `JsonPrinter.PrintBuffer.PrintArray` | core/src/tools/cJSON.c:1539-1598 | The same for arrays |
| `JsonPrinter.PrintBuffer.PrintObject` | core/src/tools/cJSON.c:1714-1825 | The same for objects |
| `JsonPrinter.PrintedNoZero` | core/src/tools/cJSON.c:525-535 | No printed text contains a zero byte |
| `JsonPrinter.Print` | core/src/tools/cJSON.c:1187-1260 | Printing to new memory yields exactly the text of the value, or nothing when it would not fit an int |
| `JsonPrinter.PrintPreallocated` | core/src/tools/cJSON.c:1292-1310 | Printing into a given buffer succeeds exactly when there is room for the text, its zero byte and one byte more |
| `ChildList.Node.Add` | core/src/tools/cJSON.c:1956-1987 | Appends to the child list, with next and prev mutually inverse and the first item's prev naming the last one; the list itself is refused |
| `ChildList.Node.Get` | core/src/tools/cJSON.c:1851-1868 | Following next yields the item at the index, null past the end |
| `ChildList.Node.Insert` | core/src/tools/cJSON.c:2263-2289 | Inserts before the index or appends when there is none such; all other items keep their order and links agree again |
| `ChildList.Node.Detach` | core/src/tools/cJSON.c:2187-2221 | Removes exactly this item, first, middle or last, and clears its links |
| `ChildList.Node.Replace` | core/src/tools/cJSON.c:2292-2339 | Puts another item in its place and clears the replaced one's links; replacing an item by itself changes nothing |
| `Messages.EnvelopeRoundTrip` | core/src/datatypes.cpp:74-158 | An envelope comes back from its text with its strings as C strings and its integers clamped to the nearest int bound; it comes back unchanged exactly when its strings have no zero byte and its integers are in int range |
| `Messages.ClampedInt` | core/src/tools/cJSON.c:361-373 | The int beside a parsed number saturates at the int bounds |
| `Messages.SerializeEnvelope` | core/src/datatypes.cpp:74-105 | The text is the formatted print of the envelope's tree, and parsing it gives an object whose seven items uuid, topic, sequenceNumber, timestamp, success, error and body, by these names, are the envelope's fields |
| `Messages.DeserializeEnvelope` | core/src/datatypes.cpp:141-158 | Reading takes each field from the item of its name, in any case of letters, of whatever object the text parses to, and fails exactly when one is missing or a string is none |
| `Messages.RequestRoundTrip` | core/src/datatypes.cpp:238-266 | A recovery request comes back with both bounds clamped |
| `Messages.RequestSpelled` | core/src/datatypes.cpp:238-252 | A request is an object of two items, startSequenceNumber and endSequenceNumber, with the two bounds |
| `Messages.RequestReadOut` | core/src/datatypes.cpp:254-266 | The bounds are read from the items of these names, and a request is refused exactly when one is missing |
| `Messages.FirstItem` | core/src/tools/cJSON.c:1880-1910 | Looking up an item gives the first member of that name, or none exactly when no member has it |
| `Messages.NamesAlike` | core/src/tools/cJSON.c:133-154 | Names are the same when they are equal, or, where case does not matter, when they differ in the case of ASCII letters only |
| `Messages.ResponseRoundTrip` | core/src/datatypes.cpp:296-310 | The text of a recovery response parses to the tree it was printed from, whose list is found again |
| `Messages.ResponseDelivers` | core/src/datatypes.cpp:296-335 | A recovery response of any length delivers its envelopes in order, each as it would be received alone |
| `Messages.RecoveryResponse.Serialize` | core/src/datatypes.cpp:296-310 | The loop builds the array of envelopes in order; parsing the text gives an object with nothing but recoveryList, the objects of which have the envelopes' fields under their names |
| `Messages.ListReadOut` | core/src/datatypes.cpp:312-335 | What is read as the list is the item named recoveryList |
| `Messages.RecoveryResponse.Deserialize` | core/src/datatypes.cpp:312-335 | The loop over the printed items appends what each of them reads as to the list |
| `Delivery.Subscriber.constructor` | core/src/subscriber.cpp:3-25 | A subscriber starts behind the last number of its storage, with an empty queue; its startup recovery is a call of its own |
| `Delivery.Subscriber.Receive` | core/src/subscriber.cpp:237-260 | One received message: the next number is queued, an old one dropped, a later one starts a recovery of what is missing |
| `Delivery.Subscriber.BeginRecovery` | core/src/subscriber.cpp:106-145 | A recovery is refused while one is under way, and an empty range sends no request but leaves the mark set |
| `Delivery.Subscriber.Startup` | core/src/subscriber.cpp:79-89 | A starting subscriber begins a recovery from its last number on, with the end left open |
| `Delivery.Subscriber.EndRecovery` | core/src/subscriber.cpp:147-187 | The reply loop takes exactly the envelopes newer than anything seen, in order; a failed wait only clears the mark |
| `Delivery.Subscriber.TimeOut` | core/src/subscriber.cpp:190-205 | The timer only clears the mark |
| `Delivery.Subscriber.Poll` | core/src/subscriber.cpp:60-77 | Hands out the oldest envelope not yet polled, exactly once, and stores a copy of it under the next number of the subscriber's own storage |
| `Delivery.TakenSnoc` | core/src/subscriber.cpp:162-169 | Taking a reply message by message agrees with taking it whole |
| `Delivery.Storage.StoreMessage` | core/src/persistent_storage.cpp:190-196 | The message gets the number after the last one and is queued behind all unwritten ones |
| `Delivery.Storage.WriteOne` | core/src/persistent_storage.cpp:315-342 | The writing thread writes the oldest queued message under its number: written messages are always a prefix of the log |
| `Delivery.Storage.ReadKey` | core/src/persistent_storage.cpp:161-177 | A key gives the message of that number as it is received, exactly when it is written already |
| `Delivery.Storage.GetMessages` | core/src/persistent_storage.cpp:141-188 | The key-by-key loop, with no write in between, returns every written message from the start (or 1) up to the end, for an end of 0 up to the last one written: their number, and each one as received |
| `Delivery.Publisher.PublishNext` | core/src/publisher.cpp:153-190 | The oldest message is numbered, stored and sent under the same number |
| `Delivery.Publisher.Answer` | core/src/publisher.cpp:239-263 | The reply is every message the storage has of the asked range, to the last one written when the end is 0 |
| `Delivery.Publisher.Reply` | core/src/publisher.cpp:239-263 | The text sent is that of the answer's envelopes in order |
| `DeliveryRuns.StepInv` | core/src/subscriber.cpp:106-270 | Publishing, losing, duplicating, reordering, polling, reading a reply key by key while the writer goes on, late and stale replies, time-outs: every step keeps the invariant |
| `DeliveryRuns.RunInv` | core/src/subscriber.cpp:106-270 | The invariant holds at every point of every run |
| `DeliveryRuns.AscendingInEveryRun` | core/src/subscriber.cpp:106-270 | In every run, whatever is written while replies are read, the numbers a subscriber queues ascend strictly, and each envelope is the publisher's of that number as received: none twice, none out of order, none invented |
| `DeliveryRuns.PassedOverIsLost` | core/src/subscriber.cpp:162-169 | In every run a message that was passed over once is never queued later |
| `DeliveryRuns.EndNoGaps` | core/src/persistent_storage.cpp:159-171 | An answer whose keys were one number, or at most one of them beyond what was written when it began, or with at most one message written meanwhile, is a stretch of the log without a gap |
| `DeliveryRuns.ExactlyOnceInOrder` | core/src/subscriber.cpp:106-270 | In every run whose answers each meet that condition, what a subscriber has queued since it started is exactly the published log from its start to the last number it knows: no gap, no duplicate, no exchange, also when a stale reply is taken for a newer request |
| `DeliveryRuns.OwnCopies` | core/src/subscriber.cpp:60-77 | In such a run the subscriber's own storage, started with the first s0 messages, holds after k polls exactly the publisher's first s0 + k as received, under the same numbers |
| `DeliveryRuns.ReplyCatchesUp` | core/src/subscriber.cpp:147-187 | A reply to the request at hand brings the subscriber up to everything written by then |
| `DeliveryRuns.AnswerHolds` | core/src/persistent_storage.cpp:159-171 | An answer read key by key holds every requested message that was written when it began |
| `DeliveryRuns.AnswerReaches` | core/src/subscriber.cpp:147-187 | In every run, once such an answer is received, however late, the subscriber has reached every requested message that was written when it began |
| `DeliveryRuns.RequestAnswered` | core/src/persistent_storage.cpp:141-188 | In every run the answer to a request, read key by key while messages are being written, holds every message of its range that was written when it began, an end of 0 meaning no upper bound, and none outside its range |
| `DeliveryRuns.RequestReaches` | core/src/subscriber.cpp:147-187 | Once that answer is received, however late, the subscriber has reached everything of its range that was written when it began |
| `DeliveryRuns.StartupReaches` | core/src/subscriber.cpp:79-187 | So a subscriber that starts with nothing and sends its request reaches everything written by the time the answer began |
| `DeliveryRuns.Arrived` | core/src/subscriber.cpp:237-260 | What a message on arrival does, by its number: the next one is queued, an older one changes nothing, and a later one asks for everything from the first missing number up to it |
| `DeliveryRuns.RecoveryEnds` | core/src/subscriber.cpp:147-205 | After a reply, a failed wait or the timer, no recovery is under way |
| `DeliveryRuns.StartupAsksNothing` | core/src/subscriber.cpp:79-128 | In every run, from a start with a nonzero number until the timer next runs out, no request is sent, the mark stays set, and a message that comes too early changes nothing |
| `DeliveryRuns.StartupAsks` | core/src/subscriber.cpp:79-128 | Starting up sends a request exactly when no recovery is under way and the subscriber has no message yet |
| `DeliveryRuns.KeyByKeyAscends` | core/src/persistent_storage.cpp:159-171 | Even when the writer runs between the key reads of one reply, the numbers in it ascend strictly |
| `DeliveryRuns.KeyByKeyExact` | core/src/persistent_storage.cpp:159-171 | Such a reply is free of gaps for every interleaving exactly when it asks for one number, or for at most one beyond what was written at its start, or at most one was still to be written |
| `LosingRuns.KeysSkip` | core/src/persistent_storage.cpp:159-171 | When writing catches up after the first key that was not written, the reply holds every number of the range but that one |
| `LosingRuns.LosesFrom` | core/src/persistent_storage.cpp:159-171 | From every state of every run in which the subscriber is idle and a message past the next one is published while one before it is not written yet, the run goes on so that exactly one message, the first one not written, is lost |
| `LosingRuns.LosingRun` | core/src/persistent_storage.cpp:159-171 | A run from the empty log, with two published messages, after which the subscriber has queued the second one only and its own storage has it under number 1 |

## Left out

Weaker than the code's own promise:

- BTreePut.PutRefinesMap: whether the overflow pages of an overwritten entry are dirty is an input.
- DeliveryRuns.ExactlyOnceInOrder: for one publisher run and numbers within int range.
- PageTree.PutCopies: overflow runs carry no page numbers; they are among the other pages in `TreePages`.
- PageTreeDelete.DeleteCopies: the same.
- JsonRoundTrip.RoundTripExact: numbers are integers below 10^15 in size; other doubles go through the C library's formatting.
- JsonParser.ParseBuffer.ParseNumber: numbers are exact reals, without the rounding and the overflow to infinity of doubles.
- JsonLanguage.ParsedExactly: the same exact reals.
- JsonGrammar.NumRead: the same exact reals; numbers of more than 63 bytes are not read as a whole, as in the code.
- JsonParser.Parse: texts that end in a zero byte only; no error position.
- Messages.RecoveryResponse.Deserialize: list items that read as null, where the code would follow a null pointer, are excluded.
- Messages.DeserializeEnvelope: `None` stands for the cases where the code would follow a null pointer.
- FreelistSave.Reserve: what each round finds after the freeDB's own tree changed is an input, so that it is not proved that they stop changing.
- FreelistRecords.SaveFreelist: promises nothing for rounds that do not settle.
- SlottedPage.Page.UpdateKey: ends where the key does not fit; the split that follows is in `BTreeDelete.UpdateKeyOK`.
- SlottedPage.Page.AddNode: the overflow page number is an input, reserved data (MDB_RESERVE) is not written, and slots and nodes, one buffer in the code, are two arrays.
- DirtyList.MergeDirty: no spilled pages.
- BTreeCursor.Cursor.Last: without the shortcut for a cursor that already stands on the last page.
- BTreeCursor.Cursor.Descend: without the same shortcut.
- BTreeCursor.Cursor.Next: a cursor through which an entry was just deleted, which next does not step over, is not modelled.
- Messages.EnvelopeRoundTrip: integers of 10^15 and more, which are printed with an exponent.
- Messages.RequestRoundTrip: the same integers.
- Messages.SerializeEnvelope: the same integers.
- Delivery.Storage.StoreMessage: messages whose number leaves the int range.
- IdList.Need: ids are unbounded numbers below a sentinel; a 32-bit count does not wrap.
- ChildList.Node.Detach: items are not freed, and reference items are not modelled.

Not modelled:

- The tree's pages as buffers shared by several cursors, cursor fix-ups after a split or merge, and append mode: the tree layer works on values.
- The put flags (no overwrite, reserve, current) and writing through a cursor that is already placed.
- Duplicate keys (sub-pages, fixed-size leaves, nested cursors), named databases and page spilling.
- Nested transactions beyond the merge of their dirty lists.
- Meta-page writes and copies in parts, the repair after a failed meta write, writable maps and the relaxed sync modes.
- The reader table across processes, stale reader checks, mutexes and their repair, map growth and the map-full error.
- The freeDB as a tree: its records travel with the snapshot. The allocator's retry limit is not modelled.
- Allocation failures, allocation hooks, raw items, comparison and minification in the JSON library.
- Sockets, binding and connecting threads, sleeps, and the locking between threads.
- A publisher without storage, loading the first sequence number, and numbers beyond int range on the wire.
- The Java binding, the PostgreSQL storage and the in-memory stand-in storages.
