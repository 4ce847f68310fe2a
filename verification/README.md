# Verified models of alilua-coevent-module

A Dafny 4.11 model of the parts of this repository whose correctness is hardest to see, with proofs.
`dafny verify dfyconfig.toml` checks all of it.

- **LMDB's multi-version pages** (`lua-libs/lightningmdb/mdb.c`). `Mvcc` is a transition system: readers
  that only publish a transaction id, a writer that copies pages, free records, flushing, the two meta
  pages, crashes. `Versions` says what a transaction commits and which version a reader sees. `FreeList`, `FreeSave` and `MidlSort` are the code under it on arrays and records: page
  allocation, the give-back of overflow pages, `mdb_freelist_save`, the quicksort. `FreeRefine` runs the
  allocation beside the transition system, and with `FreeSave.SaveRefines` it shows that this code takes steps of it.
- **LMDB's B+tree** (same file). `SlottedPage` is a page of bytes and slots edited in place. `BTree`,
  `Cursor`, `PageSplit` and `BTreeInsert` are search, cursors with their page stack, the choice of a
  split point and insertion with splits up to a new root, each stated on the sorted entries of the tree.
  `TreeStep` puts such a tree on numbered pages and shows that copying a page and inserting are steps of the
  transition system; `TreeRun` runs a whole insertion beside it, with the pages coming from the allocator, and
  `TreeCommit` follows a tree from one published version to the next. `Store` puts insertion, lookup and pages together.
- **Big integers and decimal digits** (`dtoa.c`). `BigVal` and `BigInt` are the word-array arithmetic with
  the cache of powers of five, `Digits` the digit loop and its rounding, `Scale` the preparation of both
  numbers and the whole fixed-digit conversion.
- **MessagePack** (`lua_cmsgpack.c`): `MsgPack` says what bytes and values mean and proves the round
  trip, `MsgPackWire` is the format itself, written down on its own, with proofs that exactly it is written and read,
  `MsgPackIO` is the buffer, the encoder, the cursor, the decoder and streamed unpacking.
- **JSON** (`lua_cjson.c`): `Json`, `JsonGrammar`, `JsonIO` and `JsonParse`, in the same way, over `Strbuf`, the string
  buffer of `strbuf.c` with sizes that are ints.
- **The event module** (`src/`): `Uthread`, the wait barrier with re-entrant resumes; `RecvBuffer`, the chunked
  receive buffer; `ConnPool`, the two-generation keepalive pool, and `ConnChain`, its doubly linked chains.
- `Octets` holds bytes and big-endian numbers, `Common` what several modules need.

Code that updates things in place is modelled by classes, arrays and loops and proved against a
specification on values; `Mvcc` and `Uthread` are transition systems because other processes or arbitrary
Lua code act between their steps.

## Where the code falls short of what is said about it

- *A string is given room for its worst case, and no append after that needs a check* (the comments at
  `lua_cjson.c:481-484` and `1291-1294`) fails at the width of an int. The request `6n + 2` for a string of n bytes is
  handed over as an int and the buffer doubles within an int. `JsonIO.EveryString`: every string of n bytes can be
  written behind L bytes exactly when `L + 6n + 2` is below 1023 * 2^21. `JsonIO.RequestWraps` is the string of
  357,913,941 plain bytes whose request has become negative, so that no room is made. `JsonIO.AppendData` and
  `JsonIO.Encode` give the condition for whole values, by `Peak`. On the reading side the length of the text is
  handed over as an int: every token of every text of n bytes fits exactly when n is below 2^31 - 1
  (`JsonParse.EveryText`), `JsonParse.DecodeText` says for every single text whether it is decoded, and
  `JsonParse.LengthWraps` decodes one that is not.
- *A waiter is resumed only when all have finished* needs two rules. Nobody else resumes a coroutine blocked in
  `wait`, and no answered wait has more than 65,536 registrations, because the counter has 16 bits. It holds exactly in
  the runs that keep both: `Uthread.BarrierExact`, with `Uthread.EarlyWake` and `Uthread.LapRun` as runs that break one.
  `Uthread.TooEarly` says when a resume from elsewhere comes before the targets have ended.
- *unpack_one returns the offset of the next value* holds exactly as long as that place is an int
  (`MsgPackIO.FollowOffsets`); `MsgPackIO.OffsetWraps` is a pack whose second offset is refused.
- *The split point is checked whenever it decides over success* (the comment at `mdb.c:7682-7696`) is false:
  with twenty or more keys and a small new node the page is cut in the middle without looking at sizes.
  `BTreeInsert.MiddleCutOverflows` is such a page and entry; `BTreeInsert.Put` fails exactly when some page on the way
  up is cut so and a part does not fit, which is never while no page has twenty keys (`BTreeInsert.FewKeysFit`).
- *Branch sizes are rounded up* (the comment at `mdb.c:6374-6382`) is not what the code does.
  `SlottedPage.BranchTest` says exactly when the unrounded test is enough; even free space, which every page
  has, is.
- *multadd computes b*m+a* fails for a number of no words and a nonzero `a`; `BigInt.MultAdd` is exact
  otherwise, and says so as an equivalence.
- *unpack(pack(v)) == v* needs strings below 2^32 bytes and tables nested at most 16 deep, exactly
  (`MsgPack.RoundTrip`).
- *pool_size* admits one connection more than its value (`ConnPool.Pool.Add`).
- *A negative count is refused* (`coevent.c:858-863`) never happens, because the count is a `size_t`:
  `RecvBuffer.NegativeCount` says what each negative number does instead.
- *A line is returned without its CR and LF*: for an empty line the byte compared with CR lies before the copy
  (`RecvBuffer.CrInside`, `RecvBuffer.EmptyLine`), and the search for the LF counts in ints. `RecvBuffer.Buffer.Read`
  is defined exactly when neither matters.

## Model

| member | source | states |
|---|---|---|
| Mvcc.StepInv | lua-libs/lightningmdb/mdb.c:1733-1886 | every step of the protocol keeps the invariant: a page in free record T is in no live snapshot that is T or newer, the writer's pages are divided exactly, live snapshots are intact on disk and in the map |
| Mvcc.RunInv | lua-libs/lightningmdb/mdb.c:2243-2340 | the invariant holds in every state of every run of readers, writer, operating system and crashes |
| Mvcc.FetchedIsFresh | lua-libs/lightningmdb/mdb.c:1783-1811 | a free record older than the oldest reader holds only pages in no live snapshot |
| Mvcc.TouchTree | lua-libs/lightningmdb/mdb.c:1978-2010 | copying a page and re-pointing its parent keeps the tree: nothing dangling, nothing unreachable |
| Mvcc.SaveRecSafe | lua-libs/lightningmdb/mdb.c:2679-2689 | re-keying leftover pages downward stays safe for every live snapshot |
| Mvcc.WalkIntact | lua-libs/lightningmdb/mdb.c:2302-2316 | following pointers from a live snapshot's roots never leaves it nor sees another version |
| Mvcc.LivePagesKept | lua-libs/lightningmdb/mdb.c:1681-1695 | no step short of a crash changes a page of a live snapshot |
| Mvcc.WriterAvoidsLive | lua-libs/lightningmdb/mdb.c:1783-1811 | write transaction N holds, dirties or reuses no page of a live snapshot, in particular none of N-1 and N-2 |
| Mvcc.HistoryKept | lua-libs/lightningmdb/mdb.c:2891-3090 | committed versions are never rewritten and transaction ids never go back |
| Mvcc.Durability | lua-libs/lightningmdb/mdb.c:3075-3077 | over any stretch of any run, crashes included, a published transaction stays |
| Mvcc.SnapshotIsolation | lua-libs/lightningmdb/mdb.c:2302-2316 | while a reader slot is in use, at any two moments of a run every pointer path it follows sees the same version |
| Mvcc.CrashStep | lua-libs/lightningmdb/mdb.c:3348-3351 | the meta page picked after a crash names a whole snapshot and the invariant is back |
| Mvcc.CrashAtomicity | lua-libs/lightningmdb/mdb.c:3225-3345 | stop a run anywhere with any subset of its writes durable: the newer meta page names the whole old or the whole new snapshot, all its pages intact |
| Mvcc.FreeCountIsPages | lua-libs/lightningmdb/mdb.c:1344-1388 | the page numbers counted over disjoint free records are as many as the pages they hold |
| Mvcc.PageConservation | lua-libs/lightningmdb/mdb.c:1344-1388 | in every state of every run, tree pages and free-record pages of the published version add up to the pages in use, none twice |
| Versions.CommitIsReplay | lua-libs/lightningmdb/mdb.c:2316-2340 | in every run, what a write transaction publishes is the version published before it, changed by its copies and edits in order and by nothing else |
| Versions.TouchRenames | lua-libs/lightningmdb/mdb.c:1978-2010 | copying a page renames it, in the roots and in every page that points to it, and changes nothing else the writer sees |
| Versions.CommitOfNothing | lua-libs/lightningmdb/mdb.c:2316-2340 | a transaction that copies and edits nothing publishes the version it found |
| Versions.SharedPages | lua-libs/lightningmdb/mdb.c:1978-2010 | copy on write: a version and the one before it agree on every page number they share |
| Versions.ReadsLatest | lua-libs/lightningmdb/mdb.c:2296-2312 | a reader sees, as long as it lasts, the version published last when it began |
| Versions.SlotInUse | lua-libs/lightningmdb/mdb.c:2243-2312 | in every run a reader slot is in use exactly from the begin of its reader to its end or a crash |
| FreeList.FindOldest | lua-libs/lightningmdb/mdb.c:1681-1695 | the least id among the used reader slots and txnid-1 |
| FreeList.Merge | lua-libs/lightningmdb/mdb.c:1836-1847 | the backward merge in place gives the descending union of list and record |
| FreeList.FindRun | lua-libs/lightningmdb/mdb.c:1772-1778 | finds a run of num consecutive pages exactly when the list has one, and the lowest |
| FreeList.RemoveRun | lua-libs/lightningmdb/mdb.c:1868-1875 | removes exactly those entries and keeps the rest in order |
| FreeList.RunPosition | lua-libs/lightningmdb/mdb.c:1772-1778 | in a descending list the pages of a run stand next to each other, so the two-ended comparison of the scan is enough |
| FreeList.GiveBack | lua-libs/lightningmdb/mdb.c:4986-4997 | freed overflow pages are inserted in place; the list stays descending and gains exactly them |
| FreeList.Need | lua-libs/lightningmdb/midl.c:144-156 | same list, room for the extra entries |
| FreeList.PageSource.Fetch | lua-libs/lightningmdb/mdb.c:1815-1847 | the next record is merged and me_pglast moves to it |
| FreeList.PageSource.Search | lua-libs/lightningmdb/mdb.c:1764-1848 | records older than the oldest reader are fetched in order, each only because what was there before held no run, and all of them if none is found; me_pglast is the last one fetched |
| FreeList.PageSource.Alloc | lua-libs/lightningmdb/mdb.c:1733-1886 | pages come from the list exactly when list and eligible records hold a run, then the lowest of what had to be fetched, else from the end of the file; fails exactly when neither is possible or the dirty list is full; me_pglast is the last record fetched |
| FreeRefine.FetchRefines | lua-libs/lightningmdb/mdb.c:1800-1847 | fetching a record is the protocol's step for it |
| FreeRefine.AllocRefines | lua-libs/lightningmdb/mdb.c:1733-1886 | all that an allocation does is a run of protocol steps, the last one taking the page returned, to the state it leaves |
| FreeRefine.AllocInStep | lua-libs/lightningmdb/mdb.c:1733-1886 | finding the oldest reader and allocating, run beside the protocol: from a state that shows the lists and the readers, steps that look for pages and one that takes the pages returned lead to one that shows the lists left; none returned only if the dirty list is full, or no run is free, the records left are too recent and the map ends |
| FreeSave.Saver.DeleteConsumed | lua-libs/lightningmdb/mdb.c:2629-2650 | every record up to me_pglast is deleted, whatever further allocations consume meanwhile |
| FreeSave.Saver.SaveOwn | lua-libs/lightningmdb/mdb.c:2653-2676 | one record with every page the transaction freed, rewritten until the list stops growing |
| FreeSave.Saver.Reserve | lua-libs/lightningmdb/mdb.c:2629-2714 | on success, enough reserved room for the whole list, no other record of this transaction touched |
| FreeSave.Saver.Fill | lua-libs/lightningmdb/mdb.c:2718-2741 | the list is cut over the reserved records, nothing lost, order kept |
| FreeSave.Saver.Save | lua-libs/lightningmdb/mdb.c:2594-2745 | after a successful save the records up to me_pglast join up to the list, later records are untouched, the own record holds the freed pages; the lists saved are what the B+tree operations left of them, and it fails only if one of those fails |
| FreeSave.LeftoverPages | lua-libs/lightningmdb/mdb.c:2718-2741 | the leftover records are disjoint and hold exactly the pages of the list |
| FreeSave.SaveRefines | lua-libs/lightningmdb/mdb.c:2594-2745 | what the save leaves is the protocol's save step |
| MidlSort.InsertOne | lua-libs/lightningmdb/midl.c:221-228 | one turn of the insertion sort: the prefix stays sorted, the rest is a rearrangement |
| MidlSort.Scan | lua-libs/lightningmdb/midl.c:247-250 | the unguarded scans stop inside the segment |
| MidlSort.Partition | lua-libs/lightningmdb/midl.c:233-253 | both parts are bounded by the pivot, the segment is rearranged |
| MidlSort.HalvedInt | lua-libs/lightningmdb/midl.c:211-213 | a segment of an int-sized list is halved fewer than 28 times before insertion sort takes it, so the fixed stack is deep enough |
| MidlSort.Sort | lua-libs/lightningmdb/midl.c:208-265 | terminates with a descending permutation of the list, stack and scans in bounds |
| SlottedPage.StoredOnce | lua-libs/lightningmdb/mdb.c:703-780 | the bytes at an offset are those of at most one entry |
| SlottedPage.Tiling | lua-libs/lightningmdb/mdb.c:6481-6489 | every byte from upper to the end of the page belongs to exactly one node |
| SlottedPage.AddHeld | lua-libs/lightningmdb/mdb.c:6481-6520 | adding a node keeps bytes, slots and entries in agreement and the node area exactly filled |
| SlottedPage.DelHeld | lua-libs/lightningmdb/mdb.c:6568-6592 | so does closing the gap of a deleted node |
| SlottedPage.UpdHeld | lua-libs/lightningmdb/mdb.c:6891-6925 | so does the shift for a longer or shorter key |
| SlottedPage.LeafTest | lua-libs/lightningmdb/mdb.c:6360-6372 | the caller's leaf test passes exactly when node_add finds room |
| SlottedPage.BranchTest | lua-libs/lightningmdb/mdb.c:6384-6397 | the unrounded branch test is enough exactly when free space is even or not used to the last byte |
| SlottedPage.Page.constructor | lua-libs/lightningmdb/mdb.c:6322-6335 | an empty page |
| SlottedPage.Page.FreeSpace | lua-libs/lightningmdb/mdb.c:676-680 | free space is what slots and nodes leave, and is even |
| SlottedPage.Page.Add | lua-libs/lightningmdb/mdb.c:6415-6524 | page full exactly when node and slot do not fit; otherwise the entries with the new one at the index; untouched on failure |
| SlottedPage.Page.PutTested | lua-libs/lightningmdb/mdb.c:6134-6145 | after either size test page full cannot come back |
| SlottedPage.Page.SizeAt | lua-libs/lightningmdb/mdb.c:6556-6566 | the size read from the header bytes is the node's |
| SlottedPage.Page.Delete | lua-libs/lightningmdb/mdb.c:6544-6592 | the entries without the deleted one |
| SlottedPage.Page.UpdateKey | lua-libs/lightningmdb/mdb.c:6862-6925 | the entry gets the key in its place, or is deleted for a split exactly when the growth exceeds free space |
| SlottedPage.ItemRead | lua-libs/lightningmdb/mdb.c:757-772 | from the bytes of a stored node the macros read the key, data size, flags, data and page number that were put in |
| BTree.NodeSearch | lua-libs/lightningmdb/mdb.c:4556-4643 | the first key not below the one sought, and whether it is equal |
| BTree.ChildIndex | lua-libs/lightningmdb/mdb.c:4766-4800 | the child whose separators enclose the key |
| BTree.EntersBetween | lua-libs/lightningmdb/mdb.c:4766-4808 | everything before that child is below the key, everything after it above |
| BTree.KeysIncrease | lua-libs/lightningmdb/mdb.c:4573-4600 | separators increase in every well-formed page |
| Cursor.Located | lua-libs/lightningmdb/mdb.c:4679-4694 | the page on top of any stack is a stretch of all entries, from its start |
| Cursor.Cursor.Sibling | lua-libs/lightningmdb/mdb.c:5070-5115 | the neighbour begins where this page ends, or ends where it begins; without one the stack is as it was and this page is the outermost |
| Cursor.Cursor.Search | lua-libs/lightningmdb/mdb.c:4760-4822 | the leaf for a key, the first or the last leaf; stack overflow exactly for trees too high |
| Cursor.Cursor.First | lua-libs/lightningmdb/mdb.c:5464-5504 | position 0, not found exactly for the empty tree |
| Cursor.Cursor.Last | lua-libs/lightningmdb/mdb.c:5508-5530 | the last position |
| Cursor.Cursor.Next | lua-libs/lightningmdb/mdb.c:5120-5166 | one position on; at the end not found and nothing moved |
| Cursor.Cursor.Prev | lua-libs/lightningmdb/mdb.c:5201-5244 | one position back; at the start not found and nothing moved |
| Cursor.Cursor.Shortcut | lua-libs/lightningmdb/mdb.c:5292-5384 | every answer given without leaving the page is that of the sorted map |
| Cursor.Cursor.Set | lua-libs/lightningmdb/mdb.c:5277-5402 | from any state of the cursor, found or not and the entry are those of the sorted map, for exact and range searches |
| Cursor.WalkForward | lua-libs/lightningmdb/mdb.c:5154-5166 | first and then next until not found gives every entry once, in order |
| Cursor.WalkBackward | lua-libs/lightningmdb/mdb.c:5232-5241 | last and then prev gives the exact reverse |
| PageSplit.SplitPoint | lua-libs/lightningmdb/mdb.c:7697-7729 | the place of the cut; both parts are never empty; when sizes are looked at both fit a page; for nodes of at most a quarter page both have two nodes |
| BTreeInsert.MiddleCutOverflows | lua-libs/lightningmdb/mdb.c:7682-7697 | a leaf within its page and an entry for which the unchecked cut leaves too much in the left half, so that Put fails |
| BTreeInsert.CutLeaf | lua-libs/lightningmdb/mdb.c:7728-7836 | two leaves with the old entries and the new one, separated by the first key on the right; fails exactly when the sizes are not looked at and a half does not fit |
| BTreeInsert.CutChain | lua-libs/lightningmdb/mdb.c:7788-7844 | a branch page cut in two, its right part without its first key, keeps all separators; that key separates the parts |
| BTreeInsert.TwoChain | lua-libs/lightningmdb/mdb.c:7743-7775 | hanging the new right page after the left one keeps the separators of the parent |
| BTreeInsert.Hang | lua-libs/lightningmdb/mdb.c:7738-7775 | the parent takes the separator or is cut in turn; contents, separators, heights and page limits as they must be; fails exactly when it is too full, the sizes are not looked at and a middle part does not fit |
| BTreeInsert.InsertedInside | lua-libs/lightningmdb/mdb.c:7571-7595 | inserting into the subtree entered is inserting into the whole |
| BTreeInsert.Insert | lua-libs/lightningmdb/mdb.c:7541-7850 | below any page: the old entries with the new one in its place, in one page or two of the same height; what goes up, or that it fails, is what the sizes on the descent say |
| BTreeInsert.Put | lua-libs/lightningmdb/mdb.c:6134-6143 | whenever it succeeds the tree is well-formed, within its pages, equally deep everywhere, at most one level higher, and its entries, in order, are the old ones and the new one; it fails exactly when a page that gets a node on the way up is cut unchecked and a part does not fit; it says how many pages it adds |
| BTreeInsert.CutLevels | lua-libs/lightningmdb/mdb.c:7567-7595 | the pages cut are one at each of the lowest levels, all levels exactly when the root is cut |
| BTreeInsert.FewKeysFit | lua-libs/lightningmdb/mdb.c:7697 | with fewer than twenty keys in every page that never happens |
| TreeStep.PutForgets | lua-libs/lightningmdb/mdb.c:7541-7850 | the insertion on numbered pages, where a cut page keeps its number and the right part gets a new one, is the insertion into the tree |
| TreeStep.Placing | lua-libs/lightningmdb/mdb.c:7541-7850 | the pages written leave trees on pages: no number twice, all old ones kept, every new one written, pages off the descent untouched |
| TreeStep.TreeHeld | lua-libs/lightningmdb/mdb.c:1344-1388 | pages that hold a tree, beside those of other trees, have nothing dangling and nothing unreachable |
| TreeStep.HeldOnce | lua-libs/lightningmdb/mdb.c:1344-1388 | pages and a root determine the tree they hold, the order of children included |
| TreeStep.PutIsEdit | lua-libs/lightningmdb/mdb.c:6134-6143 | with the pages of the descent dirty and a spare page for each part cut off and for a new root, an insertion is one edit of the protocol; the writer's pages then hold the new tree, whose numbers are the old ones and exactly the spare ones |
| TreeStep.TouchShown | lua-libs/lightningmdb/mdb.c:1978-2010 | copying the first clean page of a descent is the protocol's touch: only its dirty parent points to it, and the pages hold the same tree with that page moved |
| TreeRun.AllocGains | lua-libs/lightningmdb/mdb.c:1783-1886 | a page that the protocol allocates is none of the writer's pages, linked or spare |
| TreeRun.CopyDescent | lua-libs/lightningmdb/mdb.c:5735-5741 | touching from the root down, each copy on a page from the allocator, makes the whole descent dirty by protocol steps; the tree is unchanged and no page is left over |
| TreeRun.PutInSteps | lua-libs/lightningmdb/mdb.c:5880-6143 | a whole insertion run beside the protocol and the allocator: whatever comes of it, the protocol's invariant holds and its state shows the allocator's lists and holds the tree, with the entry and every page taken linked if it is done, else unchanged; it is refused as full only if a cut page does not fit, and fails for want of pages only if the dirty list is full, or nothing is free, the records left are too recent and the map ends |
| TreeRun.FirstInSteps | lua-libs/lightningmdb/mdb.c:5864-5878 | the first key of a tree, likewise: a page is allocated and becomes its root |
| TreeCommit.StartsWithTree | lua-libs/lightningmdb/mdb.c:2316-2340 | a write transaction finds on its pages the tree of the published version |
| TreeCommit.TreeIsPublished | lua-libs/lightningmdb/mdb.c:2891-3090 | the tree on the writer's pages after its last edit is the tree of the version it publishes |
| Store.Find | lua-libs/lightningmdb/mdb.c:5277-5402 | a lookup gives the entry of the key, or none exactly if there is none |
| Store.PutThenFind | lua-libs/lightningmdb/mdb.c:5749-6143 | after an insertion the new entry is found under its key, and under every other key what was there before |
| Store.FillPage | lua-libs/lightningmdb/mdb.c:6415-6540 | items go into a new page one after the other exactly when node and slot sizes together are within it |
| Store.RoomsAreSpaces | lua-libs/lightningmdb/mdb.c:6361-6396 | what the tree counts for its leaf and branch pages is what the pages take |
| BigInt.MultAdd | lua-libs/lua-cjson-2.1.0/dtoa.c:613-667 | the value times m plus a, exactly unless the number has no words and a is not zero |
| BigInt.Mult | lua-libs/lua-cjson-2.1.0/dtoa.c:806-913 | the product of the values, normal |
| BigInt.Cmp | lua-libs/lua-cjson-2.1.0/dtoa.c:1035-1066 | the sign of the comparison of the values |
| BigInt.SubMul | lua-libs/lua-cjson-2.1.0/dtoa.c:2160-2197 | b minus q times S, without a borrow left |
| BigInt.Estimate | lua-libs/lua-cjson-2.1.0/dtoa.c:2138-2149 | the estimated quotient is exact or one too small |
| BigInt.Quorem | lua-libs/lua-cjson-2.1.0/dtoa.c:2120-2240 | exact quotient and remainder after at most one correction |
| BigInt.FivesIsPower | lua-libs/lua-cjson-2.1.0/dtoa.c:915-950 | entry i of the cache of powers is 5^(4*2^i) |
| BigInt.Pow5Cache.Entry | lua-libs/lua-cjson-2.1.0/dtoa.c:936-968 | the cache grows by squaring and every entry keeps holding its power |
| BigInt.Pow5Mult | lua-libs/lua-cjson-2.1.0/dtoa.c:918-972 | b times 5^k for every k, the cache valid, the result not in it |
| BigInt.Lshift | lua-libs/lua-cjson-2.1.0/dtoa.c:975-1032 | b times 2^k, normal, in a block large enough |
| Digits.NearestIsUnique | lua-libs/lua-cjson-2.1.0/dtoa.c:4300-4313 | there is one nearest integer with ties to even |
| Digits.RoundUp | lua-libs/lua-cjson-2.1.0/dtoa.c:4314-4322 | one more in the last place; trailing nines go, all nines become 1 one place up |
| Digits.TrimZeros | lua-libs/lua-cjson-2.1.0/dtoa.c:4324-4329 | same value without zeros at the end |
| Digits.PutDigit | lua-libs/lua-cjson-2.1.0/dtoa.c:4286-4287 | the digit is the exact quotient, below ten |
| Digits.Generate | lua-libs/lua-cjson-2.1.0/dtoa.c:4285-4297 | the digits written and the remainder make up the number scaled by the power of ten; stops early exactly when nothing is left |
| Digits.Digits | lua-libs/lua-cjson-2.1.0/dtoa.c:4285-4329 | the nearest n-digit decimal of b/S, ties to even, no leading or trailing zero |
| Scale.LeadingZeros | lua-libs/lua-cjson-2.1.0/dtoa.c:708-739 | the number of leading zero bits |
| Scale.Dshift | lua-libs/lua-cjson-2.1.0/dtoa.c:2106-2117 | the shift that brings the top bit to bit 27, modulo 32 |
| Scale.TopBit27 | lua-libs/lua-cjson-2.1.0/dtoa.c:2106-2117 | a value between 2^27 and 2^28 times a power of the base has exactly four leading zero bits |
| Scale.Align | lua-libs/lua-cjson-2.1.0/dtoa.c:4145-4159 | S is shifted to four leading zero bits, which the division requires |
| Scale.FixedDigits | lua-libs/lua-cjson-2.1.0/dtoa.c:4111-4329 | from powers of two and five to text: the exponent estimate is corrected exactly when it was too large and the text is the correctly rounded ratio; the cache stays valid |
| MsgPack.IntOpens | lua-libs/lua-cmsgpack/lua_cmsgpack.c:219-289 | every 64-bit integer is read back from each of its ten forms |
| MsgPack.HeaderOpens | lua-libs/lua-cmsgpack/lua_cmsgpack.c:291-335 | lengths below 2^32 are read back from their headers |
| MsgPack.Decodes | lua-libs/lua-cmsgpack/lua_cmsgpack.c:479-503 | any value with fitting lengths, followed by anything, is read back with tables at the nesting limit replaced by nil, and exactly its bytes are used |
| MsgPack.DecodedFits | lua-libs/lua-cmsgpack/lua_cmsgpack.c:571-774 | whatever the input, no decoded length reaches 2^32 |
| MsgPack.CutSame | lua-libs/lua-cmsgpack/lua_cmsgpack.c:479-485 | the nesting limit leaves a value alone exactly when no table sits at it |
| MsgPack.RoundTrip | lua-libs/lua-cmsgpack/lua_cmsgpack.c:479-503 | the value comes back and leaves exactly the rest, if and only if its lengths fit and its nesting is within the limit |
| MsgPack.ShortestInt | lua-libs/lua-cmsgpack/lua_cmsgpack.c:219-289 | no form the decoder accepts for an integer is shorter than the one written |
| MsgPackWire.FormRead | lua-libs/lua-cmsgpack/lua_cmsgpack.c:571-774 | every form of the format, nil to map 32, with whatever follows it, is read as what the format says |
| MsgPackWire.ReadIsForm | lua-libs/lua-cmsgpack/lua_cmsgpack.c:571-774 | what is read is a form of the format; else the first byte is an unassigned one, exactly, or the form is not all there, exactly |
| MsgPackWire.IntWritten | lua-libs/lua-cmsgpack/lua_cmsgpack.c:219-289 | an integer is written in a form of the format that stands for it, and none is shorter |
| MsgPackWire.HeaderWritten | lua-libs/lua-cmsgpack/lua_cmsgpack.c:176-337 | the same for the lengths of strings, arrays and maps |
| MsgPackWire.PackedIsWire | lua-libs/lua-cmsgpack/lua_cmsgpack.c:378-503 | what is packed is the value in the format, part by part, tables beyond sixteen levels as nil |
| MsgPackWire.WireUnpacked | lua-libs/lua-cmsgpack/lua_cmsgpack.c:544-774 | any bytes in the format, whichever forms they use, are unpacked to the value they stand for |
| MsgPackWire.UnpackedIsWire | lua-libs/lua-cmsgpack/lua_cmsgpack.c:544-774 | whatever can be unpacked is in the format and stands for the value given |
| MsgPackWire.CutShort | lua-libs/lua-cmsgpack/lua_cmsgpack.c:544-774 | the bytes of a value short of their end are reported as the end of input |
| MsgPackWire.LaterWins | lua-libs/lua-cmsgpack/lua_cmsgpack.c:557-569 | an unpacked table has for every key the value that came last, and no nil |
| MsgPackIO.Buf.Append | lua-libs/lua-cmsgpack/lua_cmsgpack.c:120-130 | the bytes are appended; what is counted as free is there |
| MsgPackIO.Buf.Flush | lua-libs/lua-cmsgpack/lua_cmsgpack.c:523-531 | the contents are handed out and the space is free again |
| MsgPackIO.EncodeValue | lua-libs/lua-cmsgpack/lua_cmsgpack.c:339-503 | appends the encoding of the value, the form of a table chosen by the test on its keys |
| MsgPackIO.TableIsArray | lua-libs/lua-cmsgpack/lua_cmsgpack.c:421-459 | true exactly when the keys are 1 to n, each once |
| MsgPackIO.Pack | lua-libs/lua-cmsgpack/lua_cmsgpack.c:509-538 | the encodings one after the other; an error exactly without arguments |
| MsgPackIO.Cur.DecodeValue | lua-libs/lua-cmsgpack/lua_cmsgpack.c:571-774 | value, position and error of the decoding function |
| MsgPackIO.Cur.DecodeArray | lua-libs/lua-cmsgpack/lua_cmsgpack.c:544-555 | that many values in order, or the first error |
| MsgPackIO.Cur.DecodeHash | lua-libs/lua-cmsgpack/lua_cmsgpack.c:557-567 | that many pairs stored into a table, later keys over earlier ones |
| MsgPackIO.TableView | lua-libs/lua-cmsgpack/lua_cmsgpack.c:464-469 | the test tells the tables that are arrays from the others |
| MsgPackIO.UnpackFull | lua-libs/lua-cmsgpack/lua_cmsgpack.c:776-827 | the values from an offset up to a limit and the next offset as an int, -1 at the end; all error cases |
| MsgPackIO.UnpackOne | lua-libs/lua-cmsgpack/lua_cmsgpack.c:833-838 | one value and the next offset, the offset given narrowed to an int |
| MsgPackIO.FollowOffsets | lua-libs/lua-cmsgpack/lua_cmsgpack.c:799-838 | following the offsets of unpack_one over a pack of several values leads to the places where they begin, returns them in order and ends, exactly when the last of these places is an int |
| MsgPackIO.OffsetWraps | lua-libs/lua-cmsgpack/lua_cmsgpack.c:809-815 | a string of 2^31 bytes and a number: the offset handed out is negative and refused |
| Json.CharOfEscape | lua-libs/lua-cjson-2.1.0/lua_cjson.c:836-960 | every byte is read back from its escape |
| Json.StrBack | lua-libs/lua-cjson-2.1.0/lua_cjson.c:902-957 | every byte string is read back and reading stops behind its closing quote |
| Json.TokNumber | lua-libs/lua-cjson-2.1.0/lua_cjson.c:1013-1025 | every integer of at most 14 digits is read back |
| Json.Reads | lua-libs/lua-cjson-2.1.0/lua_cjson.c:1241-1268 | a value followed by anything is read back with exactly its text used, or refused exactly when it is too deep |
| Json.RoundTrip | lua-libs/lua-cjson-2.1.0/lua_cjson.c:1270-1315 | decoding the text of any value, under any order of keys, gives the value and uses all text, exactly when its depth is within the decoder's limit |
| JsonGrammar.Utf8Exact | lua-libs/lua-cjson-2.1.0/lua_cjson.c:792-834 | the bytes made for a code point are its UTF-8 encoding by section 3 of RFC 3629, and it has no other |
| JsonGrammar.CodePointRead | lua-libs/lua-cjson-2.1.0/lua_cjson.c:836-900 | the escape of any code point, or its pair of escapes, becomes that encoding |
| JsonGrammar.LetterRead | lua-libs/lua-cjson-2.1.0/lua_cjson.c:902-957 | every character of a string, plain, escaped or a surrogate pair, is read as what section 7 of RFC 8259 says |
| JsonGrammar.DecodeExact | lua-libs/lua-cjson-2.1.0/lua_cjson.c:1270-1315 | a text is decoded exactly when it is a JSON text of a value nested no deeper than allowed, white space and escapes as one likes, and to that value; control characters in strings, leading zeros and text behind a zero byte are let through |
| JsonGrammar.EncodedIsText | lua-libs/lua-cjson-2.1.0/lua_cjson.c:568-748 | what is encoded is a JSON text of the value without control characters |
| JsonGrammar.LaterWins | lua-libs/lua-cjson-2.1.0/lua_cjson.c:1152-1200 | a decoded object has for every key the value that came last |
| Strbuf.DoublingExact | lua-libs/lua-cjson-2.1.0/strbuf.c:148-152 | from a doubling of the default size every request up to 1023 * 2^21 is met by a doubling that is an int, and none above |
| Strbuf.NewSize | lua-libs/lua-cjson-2.1.0/strbuf.c:134-160 | the new size, or that an int overflows on the way to it |
| Strbuf.EnsuredExact | lua-libs/lua-cjson-2.1.0/strbuf.h:95-99 | room is made exactly when length and request stay below the largest size |
| Strbuf.CheckedExact | lua-libs/lua-cjson-2.1.0/strbuf.c:182-198 | the checked append goes through exactly so, and leaves a buffer alone that is large enough |
| Strbuf.StrBuf.Resize | lua-libs/lua-cjson-2.1.0/strbuf.c:164-180 | same contents, the new size, or an overflow |
| Strbuf.StrBuf.EnsureEmpty | lua-libs/lua-cjson-2.1.0/strbuf.h:95-99 | nothing for a request that fits or is negative, else room, or an overflow |
| Strbuf.StrBuf.AppendCharUnsafe | lua-libs/lua-cjson-2.1.0/strbuf.h:122-125 | appends, inside the buffer exactly when the length is below the size |
| Strbuf.StrBuf.AppendMemUnsafe | lua-libs/lua-cjson-2.1.0/strbuf.h:134-138 | the same for several bytes |
| Strbuf.StrBuf.AppendMem | lua-libs/lua-cjson-2.1.0/strbuf.h:127-132 | room and bytes |
| Strbuf.StrBuf.AppendString | lua-libs/lua-cjson-2.1.0/strbuf.c:182-198 | appends byte by byte, growing as it must |
| JsonIO.QuotedLength | lua-libs/lua-cjson-2.1.0/lua_cjson.c:472-496 | a string that goes in has all its escapes and both quotes in the buffer |
| JsonIO.QuotedExact | lua-libs/lua-cjson-2.1.0/lua_cjson.c:485-495 | up to 357,913,940 bytes a string goes in exactly when its worst case does |
| JsonIO.EveryString | lua-libs/lua-cjson-2.1.0/lua_cjson.c:481-495 | for which lengths every string goes in, for any length: exactly when the worst case does |
| JsonIO.RequestWraps | lua-libs/lua-cjson-2.1.0/lua_cjson.c:485 | one byte more: the request is negative, no room is made, plain bytes run past a new buffer |
| JsonIO.AppendQuoted | lua-libs/lua-cjson-2.1.0/lua_cjson.c:472-496 | the buffer goes the way of the sizes, and whenever it holds, the contents are the quoted string |
| JsonIO.AppendData | lua-libs/lua-cjson-2.1.0/lua_cjson.c:677-718 | appends the text of the value, or an error exactly when its depth exceeds the limit, whenever its peak stays below the largest size; with strings of ints' requests, only then |
| JsonIO.Encode | lua-libs/lua-cjson-2.1.0/lua_cjson.c:720-748 | the text of the value, under the same condition |
| JsonParse.EveryText | lua-libs/lua-cjson-2.1.0/lua_cjson.c:1291-1294 | for which lengths every token of every text fits the buffer: exactly those below 2^31 - 1 |
| JsonParse.Parser.NextString | lua-libs/lua-cjson-2.1.0/lua_cjson.c:902-957 | the string of the token function, exactly when the buffer can hold what is written and its terminator |
| JsonParse.Parser.NextToken | lua-libs/lua-cjson-2.1.0/lua_cjson.c:1031-1106 | the token of the token function and the text after it, exactly when its string fits |
| JsonParse.Parser.ProcessValue | lua-libs/lua-cjson-2.1.0/lua_cjson.c:1241-1268 | value, rest and error of the parsing function, exactly when every string it reads fits the buffer; the depth counter is back where it was |
| JsonParse.Parser.ParseElements | lua-libs/lua-cjson-2.1.0/lua_cjson.c:1203-1238 | the elements of an array up to its end, exactly when the strings read fit |
| JsonParse.Parser.ParseMembers | lua-libs/lua-cjson-2.1.0/lua_cjson.c:1152-1200 | the members of an object up to its end, later keys over earlier ones, exactly when the strings read fit |
| JsonParse.DecodeText | lua-libs/lua-cjson-2.1.0/lua_cjson.c:1270-1315 | decodes a whole text, wide encodings and trailing text refused, exactly when every string read until its end or its first error fits the buffer made for its length; always below 2^31 - 1 bytes |
| JsonParse.LengthWraps | lua-libs/lua-cjson-2.1.0/lua_cjson.c:1291-1294 | a text of 2^31 bytes, one plain string, whose buffer has the default size |
| JsonParse.WriteAndRead | lua-libs/lua-cjson-2.1.0/lua_cjson.c:720-748 | what could be written comes back exactly when the decoder's depth limit allows it |
| Uthread.WaitLoop | src/lua-uthread.c:81-134 | the registrations of a wait: yielded coroutines with a free slot, in order |
| Uthread.RegistersAll | src/lua-uthread.c:81-134 | what they add to slots and 16-bit counter, and nothing else |
| Uthread.WaitedFor | src/lua-uthread.c:81-134 | whom a wait registers on: every yielded argument as often as it is named and has one of its six slots free |
| Uthread.WaitsForNobody | src/lua-uthread.c:81-148 | a wait goes on at once exactly when it names nobody who is yielded and has a free slot |
| Uthread.StepKeeps | src/lua-uthread.c:201-247 | every step that answers no wait of more than 65,536 registrations keeps: unprocessed registrations and open waits are the same, counters count them up to their width, finished coroutines have no waiters left |
| Uthread.Barrier | src/lua-uthread.c:150-247 | in every run that answers no such wait, nested resumes included, each wake-up answers exactly one wait, after all it registered on have ended: with true for several targets, with the results of a single one, or with how it ended if it left none |
| Uthread.BarrierExact | src/lua-uthread.c:97-300 | in every run of any program with fewer than 10,923 loops nested, all wake-ups were good if and only if no blocked coroutine was resumed from elsewhere and every answered wait had at most 65,536 registrations |
| Uthread.NoLostWakeup | src/lua-uthread.c:213-244 | outside the loops a coroutine is blocked only while something it registered on has not ended |
| Uthread.TooEarly | src/lua-uthread.c:249-300 | a blocked waiter resumed from elsewhere finds all its targets ended if and only if what it registered on and is unprocessed is in the loops; outside the loops never |
| Uthread.EarlyWake | src/lua-uthread.c:249-300 | a run in which that happens |
| Uthread.LapRun | src/lua-uthread.c:97-128 | a run within the rule in which a waiter for 65,537 coroutines is resumed by the first of them |
| RecvBuffer.Buffer.BeRead | src/coevent.c:702-748 | whatever sizes recv returns, the bytes received are appended in order, and every call gets some |
| RecvBuffer.Buffer.Close | src/coevent.c:763-776 | what is buffered stays |
| RecvBuffer.Buffer.FindLine | src/coevent.c:598-628 | the first LF over all chunks, or that there is none, exactly when the int counters do not overflow |
| RecvBuffer.Buffer.Take | src/coevent.c:649-694 | the first n bytes, in order, used-up chunks dropped |
| RecvBuffer.ChompIs | src/coevent.c:670-676 | a line is handed out without its line feed and without a carriage return before it, and with all else |
| RecvBuffer.CrInside | src/coevent.c:669-677 | the byte compared with CR lies inside the line exactly when something stands before the LF, and then it decides |
| RecvBuffer.EmptyLine | src/coevent.c:669-677 | for a line of LF alone it is the byte before the copy |
| RecvBuffer.NegativeCount | src/coevent.c:853-870 | the test for a negative count never holds: a number is a count exactly when it is not negative, -1 reads a line, -2 everything, any other waits until the connection closes |
| RecvBuffer.Buffer.LuaRead | src/coevent.c:852-872 | a read with its argument as Lua gives it |
| RecvBuffer.Buffer.Read | src/coevent.c:585-699 | the line up to the first LF without its CR and LF, everything, or a number of bytes; what is taken is exactly what leaves the buffer; when nothing is there yet, that; the two cases the code does not define are named |
| ConnPool.OtherMinute | src/connection-pool.c:191-236 | a connection marked once and found in the other generation has been idle for more than a minute |
| ConnPool.Pool.Clear | src/connection-pool.c:197-236 | each bucket of the other generation is emptied, what was not moved before to the front of its counterpart in reverse order, the rest aged out; lists and exits are exactly that |
| ConnPool.Pool.Get | src/connection-pool.c:188-301 | the other generation is swept, then the first connection of the key in its bucket is given out, and nothing only if none in the pool has the key; all lists and exits afterwards are stated, so that nothing else leaves |
| ConnPool.Pool.Add | src/connection-pool.c:304-392 | refused exactly when the bucket has connections of the key and more than size of them; else the connection, with its key and time, is the last of its bucket, or closed at once if it cannot be watched; nothing else changes |
| ConnPool.Pool.BeClose | src/connection-pool.c:8-53 | the closed connection leaves its list, once, and the others keep their order |
| ConnPool.ExitWasAdded | src/connection-pool.c:188-301 | whatever left the pool had been put in, with the key it was given to and the time it was put in; aged out only after more than a minute |
| ConnPool.LeavesOnce | src/connection-pool.c:8-53 | unless an id is put in twice, a connection leaves once and is then in no list |
| ConnPool.ThreeSweeps | src/connection-pool.c:197-236 | nothing stays unasked for: after three sweeps in minutes of alternating kind none of the connections there before is left |
| ConnPool.TwoGets | src/connection-pool.c:188-301 | two calls never give out the same connection |
| ConnPool.AddThenGet | src/connection-pool.c:304-392 | a connection put into a new pool comes out for its own key, at any later time, and for no other |
| ConnPool.Lifetime | src/connection-pool.c:188-392 | any calls on a new pool: every connection given out was put in by an earlier call under that key, none is given out twice, none aged out within a minute |
| ConnChain.Unlink | src/connection-pool.c:255-273 | relinking around an entry leaves a well-formed doubly linked chain that shows the list without it |
| ConnChain.BeClose | src/connection-pool.c:16-36 | of the two chains of the bucket the one with the entry loses it and the other is untouched, whichever of the three branches is taken |
| ConnChain.Push | src/connection-pool.c:212-224 | an entry in front of a chain |
| ConnChain.Append | src/connection-pool.c:330-395 | refused exactly when the chain has more than size entries with the key and one at all, else hung behind the last |
| ConnChain.MoveOver | src/connection-pool.c:202-235 | relinking a whole chain entry by entry leaves one chain that shows what was moved, last first, before what was there |

## Left out

- Writable maps, no-lock and no-sync modes, nested transactions, spilling, stale-reader checks, lock-file setup: other modes of the same protocol.
- A failed meta write, and reader registration in several steps: meta write and reader begin are single steps of `Mvcc`.
- Mvcc.StepInv: a B+tree operation enters as any edit that leaves trees on the pages the writer owns; `TreeStep` and `TreeRun` show that insertions are such edits, deletions and overflow pages are not tied to it.
- Mvcc.PageConservation: rests on the same edits.
- FreeSave.Saver.Save: what allocations and deletions inside the free DB do to the lists is any sequence of effects; termination is proved for finitely many of them.
- Duplicate-key sub-databases, fixed-size key pages, reserved (unwritten) data, page rebalancing, merging and key replacement: they add cases, not another kind of property.
- SlottedPage.Page.Add: the slot array is a separate array of offsets, not the bytes after the header; the contents of overflow pages are not modelled.
- BTreeInsert.Insert: pages are values, and the fix-up of the inserting and other cursors is not modelled; the key is new; append mode is left out.
- TreeRun.PutInSteps: the pages for the cuts are allocated once all cuts are known, in the order of the code; when a cut is refused as full, the code has allocated those below it by then. The dirty list is a set of numbers.
- Cursor.Cursor.Set: keys are places in a total order, whatever the comparison function; a cursor on a page emptied by a delete is not modelled.
- mdb_midl_search, mdb_mid2l_search, mdb_mid2l_insert, mdb_midl_append_range: short searches and inserts.
- Machine widths of page numbers, page-list lengths, transaction ids and table sizes: unbounded, except where a bound is stated. What C leaves undefined is an outcome of its own; nothing is said about what follows.
- diff, the shortest-digits modes, floating-point fast paths, strtod and bigcomp of dtoa.c: they need a model of floating point.
- MsgPack.RoundTrip: a decoded list or hash is kept as such, so that nil elements and a hash keyed 1 to n are not turned into the table Lua would show; tables as keys, NaN keys, values Lua cannot pack (they become nil) and integers of 2^63 and above are outside; floats are bytes, so the choice between single and double is the caller's.
- Json.RoundTrip: default settings; numbers other than integers of at most 14 digits, sparse arrays, numeric keys and arrays with holes are outside; number tokens other than integer literals are reported as not modelled.
- JsonGrammar.DecodeExact: numbers are integers of at most 15 digits; which error a wrong text gives is stated by the parsing functions only.
- Uthread.Barrier: the stack of nested resumes is unbounded; a finished coroutine is not resumed again; coroutine creation and references are not modelled.
- RecvBuffer.Buffer.LuaRead: a number is an integer; the conversion of a double that size_t cannot hold is the usual wrap.
- RecvBuffer.Buffer.BeRead: errors of recv, SSL, timeouts and the coroutine that waits for data are left out.
- ConnPool.Pool.Get: lists are sequences, tied to the linked chains operation by operation in `ConnChain`; waiting requests, pool counters and SSL state are left out; the clock does not go back.
- Database clients in Lua, eio, logging, hashes, base64, escaping, the resolver and the sleep wheel: thin wrappers or code whose other side is absent.
