# A verified model of rsdis

rsdis is a server that speaks the Redis protocol.  This project models its
index structures, its protocols and its bookkeeping in Dafny and proves what
they are there for.  The model keeps the form of the code: arenas of indexed
nodes, byte buffers spliced in place, resumable state machines, loops with
remembered positions.  Each class has a ghost abstract value and a `Valid()`
predicate; each method is proved against that value.

| part | files | main result |
|---|---|---|
| skiplist | `SkiplistKeys`, `SkiplistArena`, `Skiplist` | span-carrying links stay exact ranks through every insert, delete and rescore; ranks, ranges and bulk deletes are those of the sorted sequence |
| radix tree | `RaxArena`, `RaxFolds`, `Rax`, `RaxCursor` | a map from byte strings to values through splits, pruning and merging, and a removal leaves nothing to fold on the way to its key; the cursor seeks and iterates in both directions |
| listpack | `ListpackCodec`, `ListpackText`, `ListpackLayout`, `Listpack` | forward walk, backward walk and seek agree; edits are sequence operations; validation is exact |
| quicklist | `QuicklistNodes`, `Quicklist` | one sequence in bounded, never empty nodes |
| intset | `LittleEndian`, `Intset` | a finite set of i64 in an ascending blob |
| SCAN and glob | `Glob`, `ScanCursor`, `Scan` | full coverage under concurrent change, at most 16 visits a shard, exactly once if and only if no visit goes back over a rank; backtracking to the last star is enough |
| locking | `Locking`, `LockSets` | no deadlock, every run ends, serializability in the order of last acquisitions |
| protocol | `Decimal`, `Inline`, `RespFrames`, `RespParser`, `RespStream` | the resumable parser refines parsing from scratch, and chunks do not matter exactly for steady streams; pipelines round-trip |
| DUMP | `Crc64`, `Dump` | round trip, and every burst of eight bytes is detected |
| propagation log | `Entries`, `Commands`, `Keyspace`, `Dispatch`, `Background` | replaying the log reproduces the shard, entry for entry; active expiry takes exactly what is overdue in its samples; whoever watches a key that changes can tell |
| output | `OutputQueue` | nothing is lost, repeated or reordered under partial writes, and a flush fails only if a write did |

`Arithmetic`, `ByteStrings` and `Words` hold what several parts share.

## Where the code does not do what it is meant to

- `Listpack::clear` calls `sync_header(0)`, which keeps the old element count
  (`src/encoding/listpack.rs:655-677`).  `Listpack.Listpack.Clear` says exactly
  when the result is still a listpack: if the count was zero or unknown.
- `Listpack::find` compares stored forms (`src/encoding/listpack.rs:833-870`), so
  in a buffer that keeps number text as a string, which validation accepts, it
  misses an equal entry.  `ListpackText.FindIsText` is the exact condition;
  `Listpack.FindMisses` gives an input.
- `Quicklist::set` overwrites an entry without checking the size of its node
  (`src/encoding/quicklist.rs:475-499`), against the size classes of lines 10-16.
  `Quicklist.Quicklist.Set` says exactly when the limit is kept;
  `Quicklist.SetOutgrows` gives an input.
- `ShardSet::all` and `insert` cast through `u16` (`src/shard/mod.rs:443-460`).
  `LockSets.AllShardsCovers`: all shards are covered exactly below 65536 of them.
- SCAN may return a key twice when COUNT grows or the slice shrinks while the
  iteration is inside a shard (`src/command/generic.rs:1056-1099` promises at
  least once).  `Scan.ExactlyOnceIff` and `Scan.ExactlyOnceAnyHash` say exactly
  when a key comes once; `Scan.ShrinkingDuplicates` gives a run where it does not.
- A header line longer than 64 KB is accepted or refused depending on where the
  reads fall (`src/resp/parser.rs:221-297`).  `RespStream.PrefixesAgreeIffShort`
  and `RespStream.ChunksAgreeIffSteady` are the exact conditions for a frame and
  for a stream; `RespStream.PaddedCount` gives commands that fail them.
- EXPIRE with XX and GT (or LT) is treated as XX alone: the comparison is
  dropped (`src/command/generic.rs:563-572`).  `Commands.FlagsHonoured` and
  `Commands.ExpireHonoursFlags` say that this is the only combination misread;
  `Commands.XxMisread` shows what it does to a deadline, `Commands.XxGtShortens`
  gives an input.
- Inserting into the radix tree a key that ends inside a label, two bytes before
  its end or more, leaves two single-child nodes in a row that could be one
  (`src/encoding/rax.rs:366-397`); the module comment (lines 11-16) promises that
  such runs collapse.  `Rax.Rax.Insert` says that exactly then such pairs become
  more, by one; `RaxFolds.PrefixLoosens` gives an input.  `Rax.Rax.Remove` never
  loosens the tree.

## Model

| member | source | states |
|---|---|---|
| `Skiplist.Skiplist.constructor` | src/encoding/skiplist.rs:264-278 | an empty list: header only, level 1, the full invariant, no elements |
| `Skiplist.Skiplist.Insert` | src/encoding/skiplist.rs:373-452 | for every tower height 1..32 the key lands at its rank in (score, member) order and nothing else moves; the invariant (levels sorted and nested, every span the exact rank distance, back links inverse, arena partitioned into live and free) is kept; the only demands are an absent member and room in the arena |
| `Skiplist.Skiplist.FindWithUpdate` | src/encoding/skiplist.rs:456-482 | finds the slot exactly if the key is stored, and records the true predecessor of its rank on every level |
| `Skiplist.Skiplist.Unlink` | src/encoding/skiplist.rs:485-509 | takes exactly the key of that rank out of all levels and gives up empty top levels |
| `Skiplist.Skiplist.Delete` | src/encoding/skiplist.rs:512-520 | true exactly if the key was stored; then it alone is gone, else nothing changed |
| `Skiplist.Skiplist.DeleteSlot` | src/encoding/skiplist.rs:512-520 | unlinking plus releasing keeps the invariant, and the slot is appended to the free list |
| `Skiplist.Skiplist.UpdateScore` | src/encoding/skiplist.rs:527-553 | rescoring, in place or by re-insertion, always equals removing the old key and inserting the new one at its rank; for an absent key it changes nothing |
| `Skiplist.Skiplist.Clear` | src/encoding/skiplist.rs:556-566 | empties the list and re-establishes the invariant |
| `Skiplist.Skiplist.Alloc` | src/encoding/skiplist.rs:339-357 | reuses the top of the free list before growing the arena and touches no other slot |
| `Skiplist.Skiplist.Release` | src/encoding/skiplist.rs:359-366 | blanks the slot and pushes it on the free list |
| `Skiplist.Skiplist.RaiseTo` | src/encoding/skiplist.rs:394-413 | bringing unused levels into use, with header spans over the whole list, keeps the invariant, the order and the recorded predecessors |
| `Skiplist.Skiplist.LinkIn` | src/encoding/skiplist.rs:415-452 | linking an allocated slot in after its rank and setting both back links gives the invariant for the grown list |
| `Skiplist.Skiplist.Trim` | src/encoding/skiplist.rs:505-507 | after it the top level is in use or the level is 1 |
| `Skiplist.Skiplist.RankOf` | src/encoding/skiplist.rs:572-593 | the 0-based rank of a stored key and None for any other: the span sum of the walk is the number of smaller keys |
| `Skiplist.Skiplist.ByRank` | src/encoding/skiplist.rs:596-600 | the key of that rank exactly for ranks below the length, so it inverts RankOf |
| `Skiplist.Skiplist.NodeByRank` | src/encoding/skiplist.rs:602-625 | the span-skipping walk reaches exactly the slot of the given rank |
| `Skiplist.Skiplist.IsInRange` | src/encoding/skiplist.rs:630-640 | for any list and any range: true exactly if the range is not empty, the last key reaches its lower end and the first key its upper end |
| `Skiplist.Skiplist.FirstNodeInRange` | src/encoding/skiplist.rs:654-675 | the slot of the first stored key inside the range, None when none is (also for empty ranges) |
| `Skiplist.Skiplist.LastNodeInRange` | src/encoding/skiplist.rs:677-697 | the slot of the last stored key inside the range, None when none is |
| `Skiplist.Skiplist.FirstInRange` | src/encoding/skiplist.rs:643-646 | its rank is that of the first element a filter of the sorted keys would keep |
| `Skiplist.Skiplist.LastInRange` | src/encoding/skiplist.rs:649-652 | its rank is that of the last element the filter would keep |
| `Skiplist.Skiplist.KeysInRange` | src/encoding/skiplist.rs:944-984 | range iteration yields exactly the filtered sorted sequence (score bounds; member bounds when scores agree) |
| `Skiplist.Skiplist.DeleteRange` | src/encoding/skiplist.rs:839-864 | the bulk delete reports each selected key once, in order, and leaves exactly the others |
| `Skiplist.Skiplist.DeleteRangeByRank` | src/encoding/skiplist.rs:809-837 | removes and reports exactly the clamped rank interval, in order |
| `SkiplistArena.DescendLevel` | src/encoding/skiplist.rs:381-390 | one level of the walk stops at the last tower whose key is below the target, with the spans it crossed adding up to its rank |
| `SkiplistArena.Descend` | src/encoding/skiplist.rs:378-393 | the whole walk cuts the keys at the target and leaves the predecessor and its rank for every level |
| `SkiplistArena.LinkAfterInsert` | src/encoding/skiplist.rs:415-441 | what every link and span must be once a tower stands at its rank; the u32 subtraction of the splice cannot underflow |
| `SkiplistArena.LinkTower` | src/encoding/skiplist.rs:415-441 | the level-by-level splice makes every level right for the grown order |
| `SkiplistArena.UnlinkTower` | src/encoding/skiplist.rs:486-497 | the level-by-level unsplice makes every level right for the shrunk order |
| `SkiplistArena.RaiseKeepsCore` | src/encoding/skiplist.rs:394-413 | giving the header empty links of span `length` on new levels keeps every level exact |
| `SkiplistArena.FinishInsert` | src/encoding/skiplist.rs:443-451 | after the splice, setting the back links (or the tail) completes the invariant and puts the key at its rank |
| `SkiplistArena.FinishDelete` | src/encoding/skiplist.rs:498-508 | after the unsplice, repairing one back link (or the tail) completes the invariant without that key |
| `SkiplistArena.TrimStep` | src/encoding/skiplist.rs:505-507 | the top level is unused exactly if the header link there is NIL, and dropping it keeps the invariant |
| `SkiplistArena.FinishInsertPartition` | src/encoding/skiplist.rs:339-357 | after an allocation live slots and free list still partition the arena |
| `SkiplistArena.DeletedPartition` | src/encoding/skiplist.rs:359-366 | after a release they still do |
| `SkiplistArena.Neighbours` | src/encoding/skiplist.rs:533-546 | the back link and the level-0 link of a slot lead to the keys of the ranks next to it |
| `SkiplistArena.Rescore` | src/encoding/skiplist.rs:527-553 | a score change that stays between the neighbours keeps the whole invariant |
| `SkiplistArena.SlotKey` | src/encoding/skiplist.rs:596-600 | the slot of rank i holds key i, and that key has rank i: rank_of and by_rank are mutual inverses |
| `SkiplistKeys.InsertKeys` | src/encoding/skiplist.rs:373-452 | inserting an absent member at its cut keeps the keys strictly sorted with distinct members |
| `SkiplistKeys.KeyOrder` | src/encoding/skiplist.rs:333-337 | keys are ordered by score; with equal scores the first byte that differs decides, and a proper prefix comes first |
| `SkiplistKeys.ScoreRangeLaw` | src/encoding/skiplist.rs:119-151 | keys strictly between the bounds are in, keys beyond them out, keys at a bound in exactly if it is inclusive |
| `SkiplistKeys.LexRangeLaw` | src/encoding/skiplist.rs:193-230 | a member range tests each bound for itself, in memcmp order, an inclusive bound contains its own member, and a range is reported empty exactly if it ends before all members, starts behind all, or has its ends crossed or equal and not both inclusive |
| `ByteStrings.FirstDifference` | src/encoding/skiplist.rs:12-16 | the byte order is that of memcmp: the first byte that differs decides, and a proper prefix comes first |
| `SkiplistKeys.FoundAtRank` | src/encoding/skiplist.rs:456-482 | in a sorted list a key can only stand at its own rank |
| `SkiplistKeys.RescoredKeys` | src/encoding/skiplist.rs:533-546 | replacing a key between its neighbours is the same as removing and inserting it |
| `SkiplistKeys.EmptyMeans` | src/encoding/skiplist.rs:122-204 | a range reported empty contains no key, for score and member ranges |
| `SkiplistKeys.NotInRange` | src/encoding/skiplist.rs:630-712 | when the overlap test fails no stored key is in range |
| `SkiplistKeys.RangeIsSlice` | src/encoding/skiplist.rs:944-1009 | the keys in a range are contiguous: from the first in range to the last in range |
| `SkiplistKeys.SelectedWithout` | src/encoding/skiplist.rs:839-864 | removing the first selected key removes it from the selection and nothing from the rest |
| `Rax.Rax.constructor` | src/encoding/rax.rs:117-123 | an empty tree denotes the empty map |
| `Rax.Rax.Find` | src/encoding/rax.rs:262-268 | lookup in the map the tree denotes, for every key |
| `Rax.Rax.Insert` | src/encoding/rax.rs:287-359 | the map is updated at exactly that key and the replaced value is returned; tree shape, sorted edges, label lengths, leaves with values and the free list stay right through every label split; of any tree, the number of nodes that could fold grows by at most one, and it grows exactly if the key ends inside a label with two bytes or more to spare |
| `Rax.Rax.Remove` | src/encoding/rax.rs:402-437 | the map loses exactly that key and its value is returned; pruning and re-merging keep the tree well-formed, make no node foldable that was not, and leave none foldable on the way to the removed key |
| `Rax.Rax.SplitCompressed` | src/encoding/rax.rs:366-397 | splitting a label in front of any of its bytes changes no stored key, leaves a branching node at the split, and says of every node whether it folds now |
| `Rax.Rax.InsertPoint` | src/encoding/rax.rs:288-323 | the descent, with its split, ends where the rest of the key can be attached; away from that place no more nodes fold than before, unless the key ends inside a label: then one more |
| `Rax.Rax.AttachLeaf` | src/encoding/rax.rs:333-355 | hanging a leaf below a node adds exactly one new position, makes no node foldable, and leaves neither that node nor its parent so |
| `Rax.Rax.Prune` | src/encoding/rax.rs:411-429 | removing the dead leaf chain restores "every leaf but the root holds a value", changes no key, and makes nothing foldable off the rest of the path |
| `Rax.Rax.TryMerge` | src/encoding/rax.rs:441-460 | merging changes no stored key, ends with nothing left to fold at that node, and makes no other node foldable |
| `Rax.Rax.MergeUp` | src/encoding/rax.rs:431-435 | re-compressing along the whole path back to the root changes no stored key and leaves no node of the path foldable, nor any other that was not |
| `RaxFolds.PathHolds` | src/encoding/rax.rs:402-437 | every live node at a prefix of the end of a path is on that path, so what re-merging along the path misses cannot lie on the way |
| `RaxFolds.ClearedFolds` | src/encoding/rax.rs:404-409 | taking a value away can make only the parent foldable |
| `RaxFolds.DetachedFolds` | src/encoding/rax.rs:411-429 | taking an edge away can make only that node and its parent foldable |
| `RaxFolds.MergedFolds` | src/encoding/rax.rs:441-460 | folding a node makes no other node foldable |
| `RaxFolds.SplitFolds` | src/encoding/rax.rs:366-397 | cutting a label leaves its first piece foldable, the second exactly if the whole was, and every other node as it was |
| `RaxFolds.CutTally` | src/encoding/rax.rs:366-397 | both cuts together: away from the cut byte and its parent no more nodes fold than before; with a value at the cut byte one more does exactly if the label goes on behind it |
| `RaxFolds.AttachedFolds` | src/encoding/rax.rs:333-355 | a new leaf makes no node foldable and leaves neither the node it hangs off nor its parent so |
| `RaxFolds.StoredFolds` | src/encoding/rax.rs:324-331 | storing a value leaves foldable exactly the nodes that were, but for the parent of an only child that now holds it |
| `RaxFolds.InsideHere` | src/encoding/rax.rs:288-323 | a key that ends inside a label, two bytes before its end or more, does so in the one label the descent meets |
| `RaxFolds.StopsThere` | src/encoding/rax.rs:288-323 | a key whose descent stops at a node ends inside no label |
| `RaxFolds.PrefixLoosens` | src/encoding/rax.rs:11-16 | a tree holding "abcd" alone has nothing to fold, and "ab" ends inside its label |
| `Rax.Rax.Alloc` | src/encoding/rax.rs:175-187 | reuses the last slot freed, or takes a new one when none is free, and keeps the partition into live and free |
| `Rax.Rax.Release` | src/encoding/rax.rs:189-192 | returns a slot to the free list and keeps the partition |
| `Rax.Rax.Labelled` | src/encoding/rax.rs:196-205 | a one-edge node, compressed exactly if its label is longer than one byte |
| `Rax.Rax.Clear` | src/encoding/rax.rs:463-468 | the empty map again |
| `RaxArena.Walk` | src/encoding/rax.rs:214-259 | the walk consumes the whole key outside a label exactly if a node stands at that position, and then ends there with the path on its stack |
| `RaxArena.SplitEdge` | src/encoding/rax.rs:366-397 | cutting a label in two keeps a well-formed tree with the same contents |
| `RaxArena.MergeEdge` | src/encoding/rax.rs:441-460 | joining a node with its only, valueless child keeps a well-formed tree with the same contents |
| `RaxArena.AttachEdge` | src/encoding/rax.rs:333-355 | adding an edge keeps a well-formed tree, and the new position was not there before |
| `RaxArena.DetachEdge` | src/encoding/rax.rs:413-429 | removing the edge to a valueless leaf keeps a well-formed tree with the same contents |
| `RaxArena.ReachableIffNotFree` | src/encoding/rax.rs:166-192 | the nodes reachable from the root are exactly the slots not on the free list, and each but the root is a child of exactly one node |
| `RaxArena.Toward` | src/encoding/rax.rs:214-259 | below a live node every deeper position hangs off one of its edges |
| `RaxCursor.RaxIter.constructor` | src/encoding/rax.rs:537-548 | a new cursor is exhausted and valid |
| `RaxCursor.RaxIter.Descend` | src/encoding/rax.rs:591-604 | moving to a child extends the key by its label |
| `RaxCursor.RaxIter.Ascend` | src/encoding/rax.rs:606-611 | moving back restores node, edge and key |
| `RaxCursor.RaxIter.DescendRightmost` | src/encoding/rax.rs:613-621 | ends at the last leaf of the subtree, past which the same keys lie |
| `RaxCursor.RaxIter.StepForward` | src/encoding/rax.rs:625-648 | moves to the least stored key above the current position (or past its subtree); false exactly if there is none |
| `RaxCursor.RaxIter.StepBackward` | src/encoding/rax.rs:652-671 | moves to the greatest stored key below the position (or at it); false exactly if there is none |
| `RaxCursor.RaxIter.NextSubtree` | src/encoding/rax.rs:630-648 | leaves the subtree for the next one to the right, false exactly at the far end |
| `RaxCursor.RaxIter.Reset` | src/encoding/rax.rs:675-681 | back at the root with an empty key |
| `RaxCursor.RaxIter.StartFirst` | src/encoding/rax.rs:683-695 | every stored key is still to come, ascending |
| `RaxCursor.RaxIter.StartLast` | src/encoding/rax.rs:697-706 | every stored key is still to come, descending |
| `RaxCursor.RaxIter.SeekWalk` | src/encoding/rax.rs:713-761 | the walk ends at the target or where the target splits the children of a node into smaller and larger ones |
| `RaxCursor.RaxIter.DoSeek` | src/encoding/rax.rs:709-816 | for Ge, Gt, Le, Lt and every target, stands on the extremal stored key in the relation, or reports that there is none |
| `RaxCursor.RaxIter.SeekForward` | src/encoding/rax.rs:766-787 | the Ge and Gt half: least key at or above, or strictly above, the target |
| `RaxCursor.RaxIter.SeekBackward` | src/encoding/rax.rs:789-808 | the Le and Lt half: greatest key at or below, or strictly below, the target |
| `RaxCursor.RaxIter.SeekTo` | src/encoding/rax.rs:491-496 | the cursor is about to yield the sought key and everything beyond it in ascending order |
| `RaxCursor.RaxIter.SeekRev` | src/encoding/rax.rs:500-505 | ... in descending order |
| `RaxCursor.RaxIter.Next` | src/encoding/rax.rs:558-577 | yields the next of the keys still to come, with its value, and removes just that one from them; None exactly when none is left |
| `RaxCursor.RaxIter.CollectPairs` | src/encoding/rax.rs:581-587 | yields exactly the keys still to come, each once, strictly ordered in the cursor direction |
| `RaxCursor.SeekSplit` | src/encoding/rax.rs:735-760 | where the target leaves the tree, the children before the split are below it and those from it on above it |
| `RaxCursor.SplitsCompressed` | src/encoding/rax.rs:724-744 | a target ending or diverging inside a label has that one child wholly on one side |
| `RaxCursor.SplitsBranching` | src/encoding/rax.rs:745-760 | a target between two edges has the smaller edges below it |
| `RaxCursor.ChildCompare` | src/encoding/rax.rs:625-671 | how a child position compares with any live position, whichever way it lies |
| `RaxCursor.LastChild` | src/encoding/rax.rs:652-671 | past the subtree of the last child means past the subtree of the node |
| `Glob.GlobMatch` | src/command/generic.rs:142-215 | the iterative matcher terminates and is true exactly if the token list of the pattern matches the string, every star taking some substring |
| `Glob.GlobLaw` | src/command/generic.rs:142-215 | what each byte of a pattern asks for: a star any number of bytes, a question mark one, a backslash the byte behind it, any other byte but an opening bracket itself |
| `Glob.PlainLaw` | src/command/generic.rs:142-215 | plain text matches itself alone, with a star behind it everything it begins, and a star alone everything |
| `Glob.RangeLaw` | src/command/generic.rs:219-268 | a class with one range takes the bytes between its ends, whichever way round, and behind a caret the others |
| `Glob.MatchClass` | src/command/generic.rs:219-268 | one class, with ranges, negation, escapes and missing brackets, accepts exactly the bytes its token accepts, and its end is found |
| `Glob.TakeOne` | src/command/generic.rs:149-193 | any single token accepts the byte exactly if its meaning does |
| `Glob.LastStarSuffices` | src/command/generic.rs:142-215 | whatever an earlier star could still reach, a later star reaches too, so remembering only the last star loses no match |
| `Glob.StarRetry` | src/command/generic.rs:197-207 | after a mismatch the last star has to take one byte more, and nothing else is worth trying |
| `Glob.Mismatch` | src/command/generic.rs:192-209 | giving up is right without a star, and backing up to the star is right with one |
| `Glob.NoStarShift` | src/command/generic.rs:142-215 | without stars every match consumes exactly one byte a token |
| `ScanCursor.ScanBits` | src/command/generic.rs:959-966 | the least number of bits, at most 4, that brings the slice down to COUNT keys a bucket |
| `ScanCursor.MaskIsShift` | src/command/generic.rs:1028-1028 | the mask of each size is `(1 << bits) - 1` |
| `Words.ReverseMovesBit` | src/command/generic.rs:974-979 | the word reversal moves bit i to bit 63 - i |
| `ScanCursor.AdvanceRank` | src/command/generic.rs:974-979 | the reverse-binary increment leads to the first rank after the bucket, or back to 0 after the last, whatever high bits the cursor carries |
| `ScanCursor.BucketRanks` | src/command/generic.rs:1028-1036 | a bucket of any mask is a contiguous stretch of reverse-binary ranks |
| `ScanCursor.BucketStartStays` | src/command/generic.rs:1079-1083 | a bucket boundary stays one when the table grows |
| `Scan.ScanDb` | src/command/generic.rs:1020-1054 | appends exactly the unexpired keys of the bucket that pass TYPE and MATCH, each once, and counts every entry as examined |
| `Scan.Wanted` | src/command/generic.rs:1033-1052 | the loop body keeps a key exactly if the bucket visit is to report it |
| `Scan.VisitShard` | src/command/generic.rs:1137-1148 | one shard turn under its lock, including a database that shard does not have |
| `Scan.CmdScan` | src/command/generic.rs:1100-1178 | one call visits a chain of buckets from its cursor on, returns exactly what those visits report, and stops at the first visit that spends the COUNT budget or ends the last shard: before its last visit the budget was unspent; it hands back the cursor of the place it reached (0 exactly when done) |
| `Scan.NextCursor` | src/command/generic.rs:1149-1162 | the cursor after a visit: the same shard, the next one from its start, or 0 behind the last |
| `Scan.SameLetters` | src/command/generic.rs:1037-1045 | two type names are the same if at every place they have the same byte or the two cases of one ASCII letter |
| `Scan.Decode` | src/command/generic.rs:1130-1131 | the shard and the intra-shard cursor a cursor names |
| `Scan.UnpackPack` | src/command/generic.rs:1130-1162 | packing a place into a cursor and unpacking it gives the place back, and only the end packs to 0 |
| `Scan.VisitCovers` | src/command/generic.rs:1020-1054 | a visit reports exactly the live keys of the ranks it covers and leads to the next rank |
| `Scan.CoveredSoFar` | src/command/generic.rs:1056-1099 | a key live at every visit of its shard has been returned by the time the iteration has left its rank |
| `Scan.FullCoverage` | src/command/generic.rs:1056-1099 | a full iteration returns every key that is live and matching throughout, whatever else is added or removed and however COUNT varies |
| `Scan.VisitBound` | src/command/generic.rs:935-940 | at most 16 bucket visits a shard, however sizes and COUNT vary |
| `Scan.AtMostOnce` | src/command/generic.rs:1056-1099 | a key is not returned twice, stable or not, if no visit of its shard goes back over its rank |
| `Scan.ExactlyOnce` | src/command/generic.rs:1056-1099 | with masks that never shrink inside a shard a key live throughout is returned exactly once, whatever its hash |
| `Scan.ShrinkingDuplicates` | src/command/generic.rs:1056-1099 | COUNT 1, then COUNT 10 over the same two keys: the second visit goes back, and a key is returned twice |
| `Scan.RanksBehind` | src/command/generic.rs:1079-1083 | wherever an iteration stands, all ranks it visited before in that shard lie behind the rank of its cursor, whatever the masks were |
| `Scan.ExactlyOnceIff` | src/command/generic.rs:1056-1099 | for a given hash, a key live throughout a full iteration is returned exactly once if and only if no visit of its shard starts its bucket below the cursor and covers the rank of the key with what it goes over again |
| `Scan.WentBack` | src/command/generic.rs:1028-1052 | a visit that goes back over the rank of a key that stays returns that key at least twice |
| `Scan.ExactlyOnceAnyHash` | src/command/generic.rs:1056-1099 | a key live throughout is returned exactly once under every hash if and only if every visit of its shard finds no cursor bit above the mask it is about to use |
| `Scan.NeverShrinksAligned` | src/command/generic.rs:1079-1083 | masks that never shrink inside a shard keep every cursor within its mask |
| `Scan.Iterate` | src/command/generic.rs:1056-1178 | a client passing back each cursor from 0 to 0 terminates within 16 visits a shard, gets every stable key, gets none twice if masks never shrink, and gets a stable key exactly once just when no visit goes back over its rank |
| `Scan.IterationComplete` | src/command/generic.rs:1056-1099 | the four promises of a finished iteration together |
| `Locking.StepInv` | src/engine.rs:5-59 | every step of every thread keeps: locks taken in ascending order, each shard owned by the one thread that holds it |
| `Locking.BlocksAbove` | src/engine.rs:5-59 | a thread only ever blocks on a shard above all it holds |
| `Locking.WaitPathAscends` | src/engine.rs:5-59 | along a chain of waiting threads the wanted shards strictly ascend |
| `Locking.NoWaitCycle` | src/engine.rs:5-59 | no reachable state of any number of threads has a cycle of waiting threads |
| `Locking.StuckMeansWaiting` | src/engine.rs:5-59 | in every reachable state an unfinished thread is stuck exactly while it waits for another thread that holds the shard it wants |
| `Locking.Progress` | src/engine.rs:5-59 | while any thread is unfinished some thread can step |
| `Locking.RunsEnd` | src/engine.rs:110-247 | every run is bounded by the work of its initial state |
| `Locking.RunOpsLocal` | src/shard/mod.rs:542-558 | a handler depends on and changes only the shards it locked |
| `Locking.SimulateCommit` | src/engine.rs:173-174 | taking the last lock corresponds to running the whole burst at once |
| `Locking.SimulateAccess` | src/engine.rs:188-193 | a handler access corresponds to no step of the serial run |
| `Locking.SimulateQuiet` | src/engine.rs:173-222 | acquiring and releasing correspond to no step of the serial run |
| `Locking.Simulation` | src/engine.rs:110-247 | in every reachable state the shards are those of the serial run in the order of last acquisitions, up to handlers still running |
| `Locking.Serializable` | src/engine.rs:110-247 | when all threads are done, shards and everything the threads have seen are those of running the bursts one at a time in the order of their last lock acquisitions |
| `Locking.SerializableWhenQuiet` | src/engine.rs:110-247 | the same for the shards at any moment no handler is running |
| `LockSets.KeyPositions` | src/command/mod.rs:174-203 | exactly the argument positions the spec declares, ascending: every step-th from the first to the last; a last of -1 means up to the last argument, of -m that the last m - 1 arguments are left out, and of 0 or more that nothing behind it is in; or the command's own extractor |
| `LockSets.ShardSet.constructor` | src/shard/mod.rs:438-440 | the empty set |
| `LockSets.ShardSet.Insert` | src/shard/mod.rs:458-460 | appends the index through the 16-bit cast |
| `LockSets.ShardSet.Finish` | src/shard/mod.rs:464-469 | strictly ascending, with the same members |
| `LockSets.ShardSet.All` | src/shard/mod.rs:443-447 | all shards up to the 16-bit cast of the count |
| `LockSets.SortUnstable` | src/shard/mod.rs:464-469 | sorts, keeping the members |
| `LockSets.Dedup` | src/shard/mod.rs:464-469 | drops repeats of a sorted list, keeping the members |
| `LockSets.AllShardsCovers` | src/shard/mod.rs:443-447 | the all-shards set covers every shard exactly if there are fewer than 65536 of them |
| `LockSets.ShardSetFor` | src/engine.rs:88-103 | the lock set is strictly ascending and holds exactly the shards of the declared keys (or all shards); for a command such as DEL the shard of every argument behind the name is in it |
| `LockSets.ShardGuards.LockSet` | src/shard/mod.rs:388-401 | the guards are exactly the existing shards of the set, in its order |
| `LockSets.ShardGuards.Shard` | src/shard/mod.rs:542-547 | the linear search finds a guard exactly if that shard is locked |
| `LockSets.ShardGuards.ForKey` | src/shard/mod.rs:555-558 | the shard that owns the key exactly if it is locked |
| `LockSets.ShardGuards.Primary` | src/shard/mod.rs:531-540 | the least locked shard |
| `LockSets.ReachDeclared` | src/engine.rs:173-195 | from arguments to guards: a handler can reach the shard of a key exactly if some declared key lives there; a command such as DEL reaches every one of its arguments |
| `ListpackCodec.DecodeEncode` | src/encoding/listpack.rs:311-485 | what the encoding ladder wrote decodes to the same entry and length, for every i64 and every string below 4 GB |
| `ListpackCodec.EncodeShortest` | src/encoding/listpack.rs:311-485 | no shorter bytes decode to the same entry |
| `ListpackCodec.BacklenTight` | src/encoding/listpack.rs:253-265 | a backlen takes the fewest groups that hold it, but for the greatest length of two, three or four groups, which takes one more |
| `ListpackCodec.ReadGroups` | src/encoding/listpack.rs:269-307 | a backlen written in n groups is read back, from its last byte, as the same length and n |
| `ListpackCodec.BacklenFits` | src/encoding/listpack.rs:253-265 | the group count chosen always holds the length, off-by-one bounds included |
| `ListpackCodec.WriteBacklen` | src/encoding/listpack.rs:269-284 | writes the big-endian groups |
| `ListpackCodec.DecodeBacklen` | src/encoding/listpack.rs:289-307 | the backward loop reads exactly those groups, at most five |
| `ListpackLayout.DecodeLocal` | src/encoding/listpack.rs:394-485 | an entry complete within its bytes reads the same in any buffer that contains them |
| `ListpackLayout.BacklenLocal` | src/encoding/listpack.rs:289-307 | so does its backlen from its end |
| `ListpackLayout.AtChunk` | src/encoding/listpack.rs:701-729 | at every entry start the forward length, the decoded entry and the backlen before the next start agree |
| `ListpackLayout.SameChunks` | src/encoding/listpack.rs:554-602 | a buffer has at most one reading as a list of entries |
| `ListpackLayout.Spliced` | src/encoding/listpack.rs:875-889 | a byte splice at entry boundaries is the matching splice of the entries |
| `Listpack.Listpack.constructor` | src/encoding/listpack.rs:512-514 | the seven-byte empty listpack |
| `Listpack.Listpack.FromBytes` | src/encoding/listpack.rs:545-550 | adopted bytes keep their one reading |
| `Listpack.Listpack.EofOffset` | src/encoding/listpack.rs:695-697 | the terminator stands where the last entry ends |
| `Listpack.Listpack.NextOffset` | src/encoding/listpack.rs:708-714 | from each entry start to the next, None at the end |
| `Listpack.Listpack.PrevOffset` | src/encoding/listpack.rs:718-729 | the backlen leads from each entry start to the one before, None at the first |
| `Listpack.Listpack.SeekFwd` | src/encoding/listpack.rs:758-769 | the forward walk finds element n |
| `Listpack.Listpack.SeekBack` | src/encoding/listpack.rs:772-779 | the backward walk finds the element counted from the end |
| `Listpack.Listpack.Seek` | src/encoding/listpack.rs:733-756 | whichever end it starts from, and with the count known or not, an index leads to that element |
| `Listpack.Listpack.EntryAt` | src/encoding/listpack.rs:785-790 | decodes the element that stands there |
| `Listpack.Listpack.Get` | src/encoding/listpack.rs:795-798 | indexing, negative from the end |
| `Listpack.Listpack.Forward` | src/encoding/listpack.rs:1052-1059 | the forward walk yields the elements in order |
| `Listpack.Listpack.Backward` | src/encoding/listpack.rs:1073-1077 | the backlen-driven walk yields them in reverse |
| `Listpack.Listpack.Len` | src/encoding/listpack.rs:640-647 | the number of elements, also once the 16-bit count gave up |
| `Listpack.Listpack.FindFrom` | src/encoding/listpack.rs:844-870 | the first entry at the start or a whole number of strides after it that is stored as the needle would be, None if there is none; the first with that text, if no number is kept as a string |
| `ListpackText.FindIsText` | src/encoding/listpack.rs:833-870 | every search, for any needle, start and stride, finds the first entry with that text if and only if no entry is the text of a number kept as a string |
| `ListpackText.StoredIsText` | src/encoding/listpack.rs:844-856 | an entry is the stored form of its own text and of no other, exactly unless it is the text of a number kept as a string |
| `Listpack.FindMisses` | src/encoding/listpack.rs:833-870 | an input: eleven bytes that are a listpack of the string "12", which a search for "12" does not find |
| `Listpack.Listpack.Splice` | src/encoding/listpack.rs:875-889 | opens or closes a gap and moves nothing else |
| `Listpack.Listpack.SyncHeader` | src/encoding/listpack.rs:662-677 | the total is the buffer length; a known count moves by the delta, saturates, and an unknown one stays unknown |
| `Listpack.Listpack.ReplaceChunks` | src/encoding/listpack.rs:875-1005 | splice, write and header refresh together replace entries and keep the buffer valid |
| `Listpack.Listpack.InsertAtOffset` | src/encoding/listpack.rs:894-907 | inserts one entry, or refuses past 1 GB and leaves the buffer alone |
| `Listpack.Listpack.Append` | src/encoding/listpack.rs:911-914 | append on the element sequence, refused only past 1 GB |
| `Listpack.Listpack.Prepend` | src/encoding/listpack.rs:918-920 | prepend on the element sequence |
| `Listpack.Listpack.Insert` | src/encoding/listpack.rs:923-933 | insert before an index, appending past the end |
| `Listpack.Listpack.Replace` | src/encoding/listpack.rs:936-955 | overwrites exactly that element, refused exactly when the index is out of range or the growth would pass 1 GB |
| `Listpack.Listpack.Overwrite` | src/encoding/listpack.rs:894-955 | writes over its bytes and nothing else |
| `Listpack.WritePayload` | src/encoding/listpack.rs:311-381 | encoding, data and backlen of an entry |
| `Listpack.Listpack.Delete` | src/encoding/listpack.rs:958-968 | deletes exactly that element |
| `Listpack.Listpack.DeleteRange` | src/encoding/listpack.rs:971-994 | deletes the clamped range and returns how many |
| `Listpack.Listpack.AppendAll` | src/encoding/listpack.rs:1008-1024 | concatenates the sequences, or refuses past 1 GB and changes nothing |
| `Listpack.Listpack.Clear` | src/encoding/listpack.rs:655-659 | the result is a valid listpack exactly if the old count was zero or unknown: the count is kept |
| `Listpack.CountStaysRight` | src/encoding/listpack.rs:662-677 | a count that follows every change is right, or knows it is not, which it does exactly from 65535 on |
| `Listpack.Validate` | src/encoding/listpack.rs:554-602 | accepts exactly the byte strings that read as entries under a fitting header |
| `Listpack.FromBytes` | src/encoding/listpack.rs:545-550 | a listpack exactly for those |
| `Listpack.ReadBackSplit` | src/encoding/listpack.rs:289-307 | a backlen read backwards determines the bytes that were read |
| `ListpackText.EqBytesIsEqual` | src/encoding/listpack.rs:169-177 | comparing a stored entry with a raw needle is string equality, integers included |
| `ListpackText.CanonicalInjective` | src/encoding/listpack.rs:214-222 | different strings never store as the same number |
| `QuicklistNodes.SpanBound` | src/encoding/quicklist.rs:67-104 | the 11-byte estimate: an element really costs at most its length plus 8 for lengths up to 64 KB |
| `QuicklistNodes.InsertRule` | src/encoding/quicklist.rs:67-104 | when a node takes an element: it is packed, the element is no larger than a node may be, and with 11 bytes of overhead it stays within the size class (4, 8, 16, 32 or 64 KB; 8 KB under an entry limit) and the entry limit |
| `QuicklistNodes.MergeRule` | src/encoding/quicklist.rs:188-195 | when two nodes may be one: both packed, their bytes less 11 within the size class, their entries within the limit |
| `QuicklistNodes.NewRule` | src/encoding/quicklist.rs:300-312 | a new element starts a plain node exactly if it is larger than a node may be |
| `QuicklistNodes.InsertBounded` | src/encoding/quicklist.rs:178-184 | an allowed insert keeps the entry limit and the size limit plus 15 bytes, and the listpack cannot refuse it |
| `QuicklistNodes.NewBounded` | src/encoding/quicklist.rs:300-312 | a fresh packed node keeps both bounds |
| `QuicklistNodes.MergeBounded` | src/encoding/quicklist.rs:188-195 | an allowed merge keeps both bounds and the listpack cannot refuse it, so ignoring its answer is harmless |
| `QuicklistNodes.PartBounded` | src/encoding/quicklist.rs:522-595 | every part of a bounded node is bounded |
| `Quicklist.Quicklist.constructor` | src/encoding/quicklist.rs:217-224 | empty, for any fill |
| `Quicklist.Quicklist.PushHead` | src/encoding/quicklist.rs:317-329 | prepends; a node is made exactly if the head node may not take it, and all other nodes stay |
| `Quicklist.Quicklist.PushTail` | src/encoding/quicklist.rs:332-344 | appends; a node is made exactly if the tail node may not take it, and all other nodes stay |
| `Quicklist.Quicklist.Head` | src/encoding/quicklist.rs:348-350 | the first element |
| `Quicklist.Quicklist.Tail` | src/encoding/quicklist.rs:354-360 | the last element |
| `Quicklist.Quicklist.DropHead` | src/encoding/quicklist.rs:364-383 | removes the first element and an emptied node |
| `Quicklist.Quicklist.DropTail` | src/encoding/quicklist.rs:386-405 | removes the last element and an emptied node |
| `Quicklist.Quicklist.PopHead` | src/encoding/quicklist.rs:408-412 | returns and removes the first element |
| `Quicklist.Quicklist.PopTail` | src/encoding/quicklist.rs:415-419 | returns and removes the last element |
| `Quicklist.Quicklist.Locate` | src/encoding/quicklist.rs:440-464 | from either end the same node and place for every index |
| `Quicklist.Quicklist.Index` | src/encoding/quicklist.rs:468-472 | indexing, negative from the end |
| `Quicklist.Quicklist.TryMerge` | src/encoding/quicklist.rs:608-625 | merges exactly if there is a next node and the two may be one; merging loses and reorders nothing and keeps both node bounds |
| `Quicklist.Quicklist.MergeAround` | src/encoding/quicklist.rs:598-605 | folds the node into the one before it and then into the one behind it where they may be one; nothing is lost or reordered |
| `Quicklist.Quicklist.InsertAt` | src/encoding/quicklist.rs:522-595 | insert at an index in every case: into the node, its neighbour, a new node, a plain node or a split; no node is made when a node at that place may take the element |
| `Quicklist.Quicklist.MakeRoom` | src/encoding/quicklist.rs:565-595 | a node of its own for the element, between two nodes or the halves of one, and the pieces folded together again where they fit: insert on the sequence, at most two more nodes |
| `Quicklist.Quicklist.SplitAt` | src/encoding/quicklist.rs:573-594 | the two halves of the node with a new node between them: insert on the sequence |
| `Quicklist.Quicklist.InsertBefore` | src/encoding/quicklist.rs:505-510 | insert before an index |
| `Quicklist.Quicklist.InsertAfter` | src/encoding/quicklist.rs:514-519 | insert after an index |
| `Quicklist.Quicklist.DeleteFrom` | src/encoding/quicklist.rs:631-678 | node by node exactly the wanted elements go |
| `Quicklist.Quicklist.DeleteRange` | src/encoding/quicklist.rs:631-678 | deletes the clamped range and returns how many |
| `Quicklist.Quicklist.Set` | src/encoding/quicklist.rs:475-499 | replaces exactly that element, crossing plain and packed nodes, or changes nothing; refuses exactly if the index is out of range or a small value overwrites an entry of a packed node that would pass 1 GB; the entry limit is kept, and the size limit exactly if it refuses, the value is large, or the node of the element is plain or has room for the difference |
| `Quicklist.OverfillsMeans` | src/encoding/quicklist.rs:475-499 | what is refused: a packed node that, with the entry exchanged, would grow and pass 1 GB |
| `QuicklistNodes.OverwriteBounded` | src/encoding/quicklist.rs:475-499 | an entry overwritten in place keeps the size limit exactly if the node has room for the difference |
| `Quicklist.SetOutgrows` | src/encoding/quicklist.rs:475-499 | an input: in a node limited to 4 KB that holds 3000 letters and one letter, LSET of 3000 letters over the second is accepted and leaves a node past its limit |
| `Quicklist.Quicklist.Rebuild` | src/encoding/quicklist.rs:494-497 | deleting the element and inserting the new one at its place replaces it and keeps every node within its bounds |
| `Quicklist.Quicklist.Position` | src/encoding/quicklist.rs:708-710 | the first equal element |
| `Quicklist.Quicklist.RPosition` | src/encoding/quicklist.rs:713-718 | the last equal element |
| `Quicklist.Quicklist.RemoveValue` | src/encoding/quicklist.rs:684-705 | removes the first n, the last n or all equal elements and returns how many |
| `Quicklist.Quicklist.TryInsertInto` | src/encoding/quicklist.rs:178-184 | a node takes the element exactly if its limits allow it, at that place and with nothing else changed |
| `Quicklist.Quicklist.SpliceNodes` | src/encoding/quicklist.rs:522-678 | replacing nodes by bounded non-empty ones keeps the bounds and replaces their elements |
| `Quicklist.Quicklist.PutNode` | src/encoding/quicklist.rs:565-595 | one node inserted or replaced |
| `Quicklist.Quicklist.DropNode` | src/encoding/quicklist.rs:631-678 | a whole node goes with its elements |
| `Quicklist.Quicklist.CutFrom` | src/encoding/quicklist.rs:631-678 | a stretch of one node goes, and the node too if it was all of it |
| `Quicklist.QuicklistIter.constructor` | src/encoding/quicklist.rs:724-731 | starts at the first element |
| `Quicklist.QuicklistRevIter.constructor` | src/encoding/quicklist.rs:759-767 | starts at the last element |
| `Quicklist.QuicklistIter.From` | src/encoding/quicklist.rs:734-755 | starts at the given element |
| `Quicklist.QuicklistIter.Next` | src/encoding/quicklist.rs:789-826 | yields the element at the position and moves on by one |
| `Quicklist.QuicklistRevIter.Next` | src/encoding/quicklist.rs:850-886 | yields the elements from the last to the first |
| `Quicklist.Pack` | src/encoding/quicklist.rs:123-160 | a packed node corresponds to a listpack with those entries and exactly that many bytes |
| `Quicklist.FlattenSplice` | src/encoding/quicklist.rs:522-678 | replacing nodes replaces exactly their stretch of the sequence |
| `Intset.EncodingIsLeast` | src/encoding/intset.rs:35-43 | the least width that fits the value |
| `Intset.OutsideBySign` | src/encoding/intset.rs:292-312 | a value that needs a wider encoding lies beyond all narrower ones on the side of its sign |
| `Intset.Intset.constructor` | src/encoding/intset.rs:70-75 | the empty 16-bit set |
| `Intset.Intset.Encoding` | src/encoding/intset.rs:129-134 | the width of the header |
| `Intset.Intset.Len` | src/encoding/intset.rs:137-142 | the number of elements |
| `Intset.Intset.SetLen` | src/encoding/intset.rs:156-160 | rewrites the count and nothing else |
| `Intset.Intset.Get` | src/encoding/intset.rs:171-180 | decodes the element at an index |
| `Intset.Intset.Search` | src/encoding/intset.rs:200-226 | the binary search gives the index of the value or its insertion point |
| `Intset.Intset.Contains` | src/encoding/intset.rs:230-232 | membership |
| `Intset.Intset.InsertAt` | src/encoding/intset.rs:278-287 | opens a gap and writes the value; the blob stays ascending |
| `Intset.Intset.UpgradeAndAdd` | src/encoding/intset.rs:292-312 | rewrites every element wider and puts the value at the end its sign selects |
| `Intset.Intset.Add` | src/encoding/intset.rs:235-249 | set union with the value, true exactly if it was new; the width becomes the larger one |
| `Intset.Intset.Remove` | src/encoding/intset.rs:252-268 | set difference, true exactly if it was there; the width stays |
| `Intset.FromBytes` | src/encoding/intset.rs:91-114 | accepts exactly the serializations of ascending sequences |
| `Intset.HeaderForces` | src/encoding/intset.rs:91-114 | width, count and length of a serialization are forced by its header |
| `LittleEndian.FromToSigned` | src/encoding/intset.rs:171-195 | a value written in two's complement reads back |
| `RespParser.RequestParser.Parse` | src/resp/parser.rs:211-362 | resuming from the remembered offsets gives exactly what parsing the buffer from scratch gives; an incomplete frame consumes nothing and leaves at most its last byte to be searched again |
| `RespParser.RequestParser.StepMbulkHeader` | src/resp/parser.rs:221-256 | the count line, resumed: error, empty frame, incomplete or on to the first bulk, as from scratch |
| `RespParser.RequestParser.StepBulkHeader` | src/resp/parser.rs:258-297 | a length line, resumed, as from scratch |
| `RespParser.RequestParser.StepBulkBody` | src/resp/parser.rs:299-331 | a payload, resumed, as from scratch; its two closing bytes are skipped unchecked |
| `RespParser.RequestParser.StepInline` | src/resp/parser.rs:333-359 | an inline line, resumed, as from scratch |
| `RespParser.RequestParser.constructor` | src/resp/parser.rs:159-165 | ready for any stream |
| `RespParser.LineEnd` | src/resp/parser.rs:384-403 | searching on from where the last search stopped finds the same line end as searching from the start |
| `RespParser.FitsExtended` | src/resp/parser.rs:186-205 | more bytes at the end invalidate nothing that was remembered |
| `Decimal.ParseStrict` | src/resp/parser.rs:523-542 | the checked loop accepts exactly an optional minus and digits that fit an i64 |
| `RespStream.FramePersists` | src/resp/parser.rs:211-362 | what is decided about a frame stays decided when more bytes arrive, except that a header reported too long may end after all |
| `RespStream.PrefixesAgreeIffShort` | src/resp/parser.rs:384-403 | for any bytes, be they a command, an empty frame, an error or unfinished: every read boundary gives the same result or "incomplete" if and only if all header lines end within 64 KB, or the count line does and a bulk header that is too long is followed, after complete bulks, by one that has not ended after 64 KB |
| `RespStream.OpenFrameFails` | src/resp/parser.rs:211-362 | a frame with a header line that ends too late is refused for that very line exactly if it goes on to such a bulk header |
| `RespStream.SteadyMeans` | src/resp/parser.rs:211-362 | the shape of a steady frame on its bytes is that its header lines are short, or the whole stream is refused for the first that is not |
| `RespStream.Undecided` | src/resp/parser.rs:211-362 | the only verdict on a frame that more bytes can change is a complaint about a header line that does end, but too late |
| `RespStream.FrameCut` | src/resp/parser.rs:211-362 | what follows a complete frame does not matter to it |
| `RespStream.FeedAll` | src/resp/parser.rs:211-362 | the resumed parser makes of any chunks what parsing each read from scratch makes of them, and of a steady stream, however it is cut, what parsing the whole stream from scratch makes of it |
| `RespStream.ChunksAgreeIffSteady` | src/resp/parser.rs:211-403 | all ways to cut a stream into reads give the commands and the end of parsing the whole stream if and only if the stream is steady: the header lines of every frame end within 64 KB, or one that does not is followed by another of its kind that has not ended after 64 KB, with nothing but bulks, or nothing but empty frames, between them |
| `RespStream.UnsteadyCut` | src/resp/parser.rs:221-297 | a stream that is not steady has a read boundary at which the connection fails although the whole stream gives something else |
| `RespStream.PaddedCount` | src/resp/parser.rs:221-256 | a command whose count line has n leading zeros is that command, steady exactly while the line stays below 64 KB; with 65536 zeros the read that ends past 64 KB refuses it |
| `RespStream.FrameDecodes` | benches/protocol_bench.rs:92-103 | an encoded command followed by anything parses back to its arguments and takes exactly its bytes |
| `RespStream.PipelineDecodes` | benches/protocol_bench.rs:92-103 | a pipeline of encoded argument lists parses back to exactly those lists (empty ones are dropped), and is steady |
| `RespStream.FeedPipeline` | src/resp/parser.rs:211-362 | ... in whatever chunks it arrives |
| `RespStream.InlineDecodes` | src/resp/parser.rs:333-359 | a request typed as a line of spelled words, ended with or without a carriage return, is the command those words mean; up to 64 KB |
| `Inline.SplitInline` | src/resp/parser.rs:410-509 | splits exactly by the grammar of quoted and bare words, failing on the same lines |
| `Inline.ReadDoubleQuoted` | src/resp/parser.rs:424-470 | a double-quoted word with its escapes |
| `Inline.HexOrLetter` | src/resp/parser.rs:424-470 | a backslash and an x take exactly two hexadecimal digits; without them they are the letter x |
| `Inline.ReadSingleQuoted` | src/resp/parser.rs:471-497 | a single-quoted word with its one escape |
| `Inline.SplitSpelled` | src/resp/parser.rs:410-509 | any words, in any mix of bare, single-quoted and double-quoted spellings with their escapes, and with any white space between them, split into what they mean |
| `Inline.SplitQuoted` | src/resp/parser.rs:410-509 | any argument list, every argument quoted with hex escapes, splits back into itself |
| `Crc64.BuildTable` | src/util/crc64.rs:37-55 | entry i is the register after eight single-bit steps from i |
| `Crc64.Crc64` | src/util/crc64.rs:64-72 | the table loop computes the bit-by-bit checksum |
| `Crc64.CheckValue` | src/util/crc64.rs:15-15 | the checksum of "123456789" is the published check value 0xe9c6d914c4b8d9ca |
| `Crc64.ReflectedPolynomial` | src/util/crc64.rs:22-35 | the constant really is the bit-reversed polynomial |
| `Crc64.LookupStep` | src/util/crc64.rs:64-72 | eight steps are one table lookup and a shift |
| `Crc64.CrcLinear` | src/util/crc64.rs:64-72 | the checksum of a difference is the difference of the checksums |
| `Crc64.StepsInjective` | src/util/crc64.rs:37-55 | the register step is invertible |
| `Crc64.CrcAppend` | src/util/crc64.rs:64-72 | a checksum can be continued |
| `Dump.SealDump` | src/command/generic.rs:339-344 | body, version, then the checksum of both |
| `Dump.VerifyDump` | src/command/generic.rs:348-365 | the body exactly if length, version and checksum are right |
| `Dump.SealedVerifies` | src/command/generic.rs:339-365 | whatever was sealed verifies and gives the body back |
| `Dump.OnlySealed` | src/command/generic.rs:348-365 | a payload of the current version that verifies is the sealing of its body |
| `Dump.StoredMatches` | src/command/generic.rs:348-365 | the stored checksum matches exactly if the register run over everything comes to zero |
| `Dump.BurstLeavesResidue` | src/util/crc64.rs:64-72 | a change within eight consecutive bytes never leaves a zero register |
| `Dump.BurstRejected` | src/command/generic.rs:339-365 | every same-length payload that differs from a sealed one only within eight consecutive bytes, footer included, is rejected |
| `Commands.ParseSetOptions` | src/command/string.rs:83-147 | accepts exactly the lists with no stray word, not both NX and XX, and at most one fitting deadline that excludes KEEPTTL; of an accepted list NX, XX, GET and KEEPTTL are set exactly by their own words, and the deadline is the one the expiry option names, saturating |
| `Commands.OptionsRead` | src/command/string.rs:83-147 | the same of the reading, for every list of options and every time |
| `Commands.OptionsRefuse` | src/command/string.rs:83-147 | a refusal is that of the first option that makes the list senseless, and names what is wrong with it |
| `Commands.SetLaw` | src/command/string.rs:149-205 | NX leaves a stored key as it was and XX creates none; any other accepted SET stores the value and the deadline its options name (the old one under KEEPTTL, else none) and touches no other key; GET replies with the old value, whatever happens |
| `Commands.MsetLaw` | src/command/string.rs:218-232 | every key an MSET names holds the last value given for it, and no deadline |
| `Commands.MsetOthers` | src/command/string.rs:218-232 | no other key is touched |
| `Commands.LiveUntil` | src/ctx.rs:545-587 | a key is there until its deadline and no longer |
| `Commands.ExpireLaw` | src/command/generic.rs:596-651 | seconds count 1000; a deadline past i64 is refused, one not ahead deletes the key, any other is set, and an absent key is not touched |
| `Commands.OptionsSane` | src/command/string.rs:83-147 | accepted options never combine NX with XX or KEEPTTL with a deadline, and a deadline is an i64 |
| `Commands.ParseExpireCond` | src/command/generic.rs:529-572 | refuses exactly an unknown flag, GT with LT, and NX with another; else yields the condition of the flag set, what that is worth being Commands.FlagsHonoured |
| `Commands.FlagsHonoured` | src/command/generic.rs:529-588 | for every accepted list of flags: the condition tests, for every current and every new deadline, what each flag says for itself (NX none, XX some, GT later, LT earlier, no deadline being the latest) if and only if XX does not stand beside GT or LT |
| `Commands.ExpireHonoursFlags` | src/command/generic.rs:529-651 | for every accepted list of flags: reply and visible keys of the EXPIRE family are, for every keyspace, argument and time, those of testing every flag, if and only if XX does not stand beside GT or LT |
| `Commands.XxMisread` | src/command/generic.rs:563-588 | every EXPIRE with XX and GT that would shorten a deadline, or XX and LT that would prolong one, does so and replies 1, where the flags ask for no change and 0 |
| `Commands.XxGtShortens` | src/command/generic.rs:563-588 | an input: PEXPIREAT with 3000 XX GT over a key that expires at 5000 makes it expire at 3000 and replies 1 |
| `Commands.ClockFreeOptions` | src/command/string.rs:83-147 | options without relative deadlines read the same at any time |
| `Commands.ReplayByDb` | src/shard/mod.rs:250-258 | replaying a log touches each database by its own entries only |
| `Commands.PlainIsMeaning` | src/engine.rs:195-219 | where nothing has expired, replaying a logged entry and running it as a command leave a client the same keys |
| `Keyspace.Db.constructor` | src/shard/mod.rs:80-88 | an empty slice with an exact, empty TTL index |
| `Keyspace.Shard.constructor` | src/shard/mod.rs:226-235 | the empty log accounts for the empty shard |
| `Keyspace.Db.SetEntry` | src/shard/mod.rs:110-120 | dict update; the TTL index stays exactly the deadlines in the dict |
| `Keyspace.Db.RemoveEntry` | src/shard/mod.rs:123-126 | dict removal; the TTL index stays exact |
| `Keyspace.Db.SetExpire` | src/shard/mod.rs:130-144 | deadline change on a stored key only; the TTL index stays exact |
| `Keyspace.Db.SignalWatch` | src/shard/mod.rs:156-165 | a watched key gets a version above every version before, others keep theirs |
| `Keyspace.ToldOne` | src/shard/mod.rs:156-165 | signalling the one key that changed is enough: whoever watches a changed key sees a new version |
| `Keyspace.Shard.Propagate` | src/shard/mod.rs:250-253 | one more entry at the end of the log |
| `Keyspace.Shard.Drain` | src/shard/mod.rs:256-258 | the buffered entries are handed over once, in order |
| `Dispatch.Ctx.ExpireIfNeeded` | src/ctx.rs:545-587 | an expired key goes from the dict, its deletion goes straight to the log, and whoever watches it can tell |
| `Dispatch.Ctx.Lookup` | src/ctx.rs:591-623 | the live entry or none, after lazy expiry |
| `Dispatch.Ctx.constructor` | src/ctx.rs:481-502 | a fresh context has nothing pending |
| `Dispatch.Ctx.SignalModified` | src/ctx.rs:837-847 | counts one change, gives a watched key a new version and touches no entry |
| `Dispatch.Ctx.Insert` | src/ctx.rs:698-711 | creates or replaces the entry and counts one change; whoever watches the key can tell |
| `Dispatch.Ctx.Remove` | src/ctx.rs:714-737 | true exactly for a live key; an expired one is logged as its own deletion; either way whoever watches it can tell |
| `Dispatch.Ctx.SetExpire` | src/ctx.rs:683-695 | deadline change on a live key, reported by the result; a key that has expired goes first, and its deletion is logged; whoever watches the key can tell |
| `Dispatch.Ctx.Propagate` | src/ctx.rs:871-882 | explicit entries replace the default one |
| `Dispatch.Ctx.PropagateNone` | src/ctx.rs:896-899 | nothing will be logged |
| `Dispatch.ResolveWhen` | src/command/generic.rs:596-625 | a deadline exactly if the argument in milliseconds is an i64 and adding the base passes no i64; it is that sum, and it is what the logged PEXPIREAT resolves to at any later time; otherwise the invalid-expire error |
| `Dispatch.Ctx.CmdGet` | src/command/string.rs:57-62 | reply and visible keys as GET means; only a lazy expiry is logged |
| `Dispatch.Ctx.CmdSet` | src/command/string.rs:149-205 | reply and visible keys as SET with its options means; replaying what is logged closes the gap between log and dict |
| `Dispatch.Ctx.CmdMset` | src/command/string.rs:218-232 | the same for MSET |
| `Dispatch.Ctx.CmdDel` | src/command/generic.rs:383-394 | the same for DEL and UNLINK, repeated and expired keys included |
| `Dispatch.Ctx.CmdExpire` | src/command/generic.rs:596-651 | the same for the EXPIRE family, past deadlines (logged as deletions) included |
| `Dispatch.Ctx.CmdPersist` | src/command/generic.rs:499-510 | the same for PERSIST |
| `Dispatch.SetReplays` | src/command/string.rs:149-205 | the SET that is logged, with an absolute deadline, does to the dict what the command did |
| `Dispatch.LogPending` | src/engine.rs:195-219 | the propagation step logs the explicit entries, or the command itself if it changed something |
| `Dispatch.Execute` | src/engine.rs:166-219 | one command under its lock: reply and visible keys are those of its meaning, the log still accounts for the whole shard, and whoever watches a key whose entry changed can tell |
| `Background.SampleRound` | src/shard/expire.rs:137-163 | the victims are exactly the keys of a distinct sample, as large as wanted or as the TTL index, whose deadline has passed; they go, nothing else does, and whoever watches one of them can tell |
| `Background.ExpireRound` | src/shard/expire.rs:201-224 | exactly the overdue keys of the sample go, and are counted and logged; with no more deadlines than one round samples no overdue key is left; a round is invisible to clients from that moment on |
| `Background.CycleShard` | src/shard/expire.rs:171-258 | round by round: which database is sampled (again while more than a quarter of its sample was overdue, else the next one), and the databases after every round; no round starts after the deadline, and a sweep that was not timed out has seen every database; from its last round on no client can tell, at any time, that it happened; nothing happens when expiry is off or no key has a deadline |
| `Background.RoundMeans` | src/shard/expire.rs:137-163 | a round that samples every deadline leaves no overdue key; the dict shrinks by the number of victims, of which there are no more than samples |
| `Background.OneRound` | src/shard/expire.rs:171-258 | one more round takes the overdue keys of its sample from its database, and stays there exactly if they were more than a quarter of it |
| `Background.ExpiredInvisible` | src/shard/expire.rs:137-163 | removing what has expired changes nothing a client can see, now or later |
| `Background.Pool.Push` | src/shard/evict.rs:250-261 | the pool holds, best first, the 16 best of everything pushed so far |
| `Background.PushedBest` | src/shard/evict.rs:250-261 | inserting behind everything at least as good and truncating keeps the best |
| `Background.Sample` | src/shard/expire.rs:137-163 | a window of distinct stored keys, as many as wanted or all |
| `Background.LogDeletions` | src/shard/expire.rs:207-224 | one deletion per victim, which replay removes |
| `Background.EvictDb` | src/shard/evict.rs:385-411 | the victims of one database are the best of its sample, best first, as many as there is room for, and nothing else goes |
| `Background.TakeVictim` | src/shard/evict.rs:392-408 | one eligible key goes, whoever watches it can tell, and the rest of the shard stays |
| `Background.SampleKeys` | src/shard/evict.rs:300-341 | the best of a sample are distinct, stored, eligible and carry their own scores |
| `Background.LogVictims` | src/shard/evict.rs:413-424 | one deletion per victim, each in its own database |
| `Background.FillPool` | src/shard/evict.rs:300-341 | a sample of as many eligible keys as wanted or there are (under volatile policies only keys with a deadline), the count being that of the sample, and in the pool the best of exactly that sample with their scores |
| `Background.EvictBatch` | src/shard/evict.rs:365-435 | the victims are the best of a sample of each database in turn until the given number is reached, all of them eligible and logged; a database is left unsampled only when that number was reached, and nothing else changes |
| `Background.RunShard` | src/engine.rs:166-219 | after any run of commands, expiry rounds, evictions and drains from the empty shard, replaying everything logged, as plain clock-free effects, gives every database entry for entry, and the TTL index is exactly the deadlines |
| `OutputQueue.OutputBuffer.Pending` | src/net/output.rs:240-242 | exactly the bytes written and not yet delivered |
| `OutputQueue.OutputBuffer.constructor` | src/net/output.rs:219-230 | nothing written, nothing delivered |
| `OutputQueue.OutputBuffer.NotePending` | src/net/output.rs:307-312 | the peak becomes the larger of itself and what is pending now |
| `OutputQueue.Writer.Write` | src/net/output.rs:387-411 | the other end takes any prefix of the offer, nothing, or fails; the log keeps what was offered and answered |
| `OutputQueue.OutputBuffer.Stage` | src/net/output.rs:234-236 | staged bytes are outstanding at the end |
| `OutputQueue.OutputBuffer.Seal` | src/net/output.rs:270-276 | moving the staging buffer into the queue changes nothing outstanding |
| `OutputQueue.OutputBuffer.PushBytes` | src/net/output.rs:296-304 | a queued frame comes after everything staged before it |
| `OutputQueue.OutputBuffer.WriteSome` | src/net/output.rs:387-411 | one write, offering exactly the head frame, or the first 64 frames when vectored, from the head offset on; what that write answered is returned, and the bytes it took are the next ones |
| `OutputQueue.OutputBuffer.Advance` | src/net/output.rs:415-430 | n accepted bytes are dropped from the front, across frames |
| `OutputQueue.OutputBuffer.Flush` | src/net/output.rs:344-371 | however much the writer takes at a time and wherever it fails, delivered plus outstanding is everything written; it fails exactly if the last write it made failed or took nothing of what it was offered, so a writer that always takes a byte gets everything, and the total is what was outstanding |
| `OutputQueue.OutputBuffer.Discard` | src/net/output.rs:434-439 | nothing outstanding is left |
| `OutputQueue.RunOutput` | src/net/output.rs:344-430 | over any interleaving of writes, pushes and flushes, what arrived followed by what is pending is everything written, in order; after a final flush to an end that took something at every write, all of it has arrived |

## Left out

Contracts weaker than, or different in scope from, the code:

- Listpack.Listpack.Clear: does not restore the invariant; the contract says exactly when it holds.
- Locking.Serializable: a handler is a finite list of accesses, each to one shard, and a background cycle or SCAN is serialised burst by burst, not as a whole.
- Scan.Iterate: for at most 2^60 shards, so that the cursor fits 64 bits; the shifts by the shard bits are multiplication and division by the shard count.
- RespStream.FeedAll: the bulk limit does not change while a frame is being read, and the overflow check on `usize` positions is not modelled.
- Crc64.BuildTable: the loop that reverses the polynomial is replaced by its constant, which is proved to be the reversal.
- Intset.Intset.Add: fewer than 2^32 - 1 elements, the range of the header count.

Not modelled:

- Scores are positions in a total order: no NaN, no signed zero, no formatting.
- Tower heights, sampled windows and hash-table order are arbitrary choices within their range; eviction scores are any function of batch, database, key and entry, so the formulas of the policies do not appear; the SCAN hash and the key-slot hash are uninterpreted functions.
- Skiplist reverse iteration and iteration from a rank; capacity and memory accounting everywhere.
- The radix tree's u32 node indices and key lengths are unbounded numbers; the skiplist's arena is kept below 2^32 - 1 slots.
- Borrowing: a radix-tree cursor works on the nodes as they are when it is made, and quicklist iterators likewise.
- Quicklist nodes hold their entries as values; `Quicklist.Pack` shows the listpack each stands for.  `set_fill`, compression depth and `from_values` are left out.
- `string2ll` and float parsing: `src/util/strnum.rs` is not part of this model; a string is a number exactly if it is the canonical text of an i64.
- SCAN's option text, type names and error replies; KEYS, SORT and RANDOMKEY.
- The lock release is one shard at a time; lock poisoning and `try_lock` do not occur.
- Log entries are typed commands rather than byte arguments, so keyword case and number formatting do not appear; WRONGTYPE, LRU and LFU fields, notifications and statistics are left out.
- FLUSHDB, FLUSHALL, RENAME, RENAMENX, MOVE and COPY; running with propagation off; merging the logs of several shards.
- Registering and dropping WATCH; transactions.
- Memory estimates, `check_oom`, the choice of the fattest shard, and the loop over shards of an eviction cycle.
- DUMP's value encoding: the body is any byte string.
- Output limits, buffer shrinking and the async plumbing around a write.
- Mid-token quotes of inline commands are ordinary bytes, as in the code.
- Sockets, configuration, INFO, CLIENT LIST, pub/sub, blocking, persistence: input and output without a deep property.
