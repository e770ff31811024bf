# Verified model of a PST reader

A model in Dafny of the algorithmic core of libpst, which reads Outlook personal folder files, and
of `readpst`, which writes their contents out. Run `dafny verify dfyconfig.toml` in this directory.

## What is modelled

- **The parallel folder walk** (`ForkProtocol.dfy`, `WorkOrder.dfy`, `Reaper.dfy`). A tree of processes shares one
  counting semaphore, and each process keeps a bounded list of its own children. The model is a
  transition system in which every step is one system call or one round of a polling loop, so that
  reading the semaphore and waiting for it are separate. Failed forks are steps of the model: the
  program keeps the permit and goes on alone. Without them every run can be continued until all
  processes have exited, and every item has then been handled exactly once per occurrence. However
  the processes interleave, the work of each is in the order of the agenda, and with every child's
  work in the place where the child was forked it is the whole agenda in order. With failed forks
  processes can wait for each other for ever if, and only if, there are at least two permits.
- **The descriptor forest** (`Forest.dfy`, `RecordOrder.dfy`, `Traversal.dfy`,
  `DescriptorTree.dfy`). Linked nodes that may arrive before their parents. The heap is related to a
  forest value; recording, searching and walking are proved against that value. Which parent a node
  ends up under does not depend on the order of arrival, exactly when no nodes name each other as
  parents in a circle (`RecordOrder.OrderMattersIffCycle`).
- **Compressed RTF** (`Lzfu.dfy`, `LzfuRoundTrip.dfy`), section 2 of [MS-OXRTFCP]. A 4096-byte ring
  is proved to refine LZ77 over an unbounded history, and a reference to stand for the bytes that
  last went to the ring slots it names.
- **The block index** (`BlockIndex.dfy`, `IndexOrder.dfy`), section 2.2.2.7.7 of [MS-PST]. A checked
  walk over a B-tree fills a growing table, which is then searched. The walk hands each child the
  start of the next record as its bound without checking it. So the table is in order only under a
  condition on those bounds, for which an exact form is given. A well-formed tree meets it and is
  loaded completely.
- **Block data and where it goes** (`DataTree.dfy`, `StoredText.dfy`, `LostData.dfy`, `Cipher.dfy`,
  `Holder.dfy`, `Base64.dfy`, `Attachment.dfy`), sections 2.2.2.8.3.2, 5.1 and 5.2 of [MS-PST], section 4 of
  RFC 4648 and section 6.8 of RFC 2045. Nested tables of block ids are followed, leaves are
  decrypted, and the bytes go to memory, to a file, or through an encoder that carries up to two
  bytes and a column. What has to be stored for a text to be delivered is said byte by byte, without
  the reader (`StoredText.StoredTree`). What a missing block costs is read off the stored blocks.
- **Text and rows** (`Mboxrd.dfy`, `HeaderField.dfy`, `HeaderRemoval.dfy`, `RowMatrix.dfy`). Quoting in
  mbox files, removing fields from message headers, and walking the rows of a table (section 2.3.4.4
  of [MS-PST]).

`Common.dfy` and `Bytes.dfy` hold what these parts share.

Loops and updates in place are methods over arrays and linked objects, as in the C code. Each is
proved equal to a function, and the properties are lemmas about those functions.

## What turned out not to hold in general

- A look-ahead start beyond a node's own bound lets a child append an id outside that bound
  (`BlockIndex.Overrun`), and a whole table can come out of order (`IndexOrder.RootOutOfOrder`).
  `IndexOrder.InnerNodesDecide` gives the exact condition for every tree, and
  `BlockIndex.LookAheadDecides` that for one inner node.
- `grim_reaper` hands a failed child's raw status to `exit`, which keeps its low byte only. So a
  failure is noticed one level up, or two if a signal was the cause (`Reaper.FailureFades`).
- A missing block makes the running size start again from zero, while a file keeps what it received.
  `LostData.KeptIsSentIff` and `Attachment.AgreementCondition` say for which stored blocks the three
  destinations still agree; `LostData.SecondLeafMissing` is an example where they do not.
- `my_stristr` starts over behind a character that breaks off a partial match, so it can overlook a
  match. It finds exactly the first match that it makes an attempt at
  (`HeaderField.SearchFindsFirstLive`), and misses none only for needles that repeat one character
  (`HeaderField.CompleteIffUniform`). So header stripping can leave a field behind an empty line
  (`HeaderRemoval.MimeVersionIsKept`). `HeaderRemoval.LeftBehindIffHidden` says exactly when an
  occurrence is left in headers that do not begin with the field, and
  `HeaderRemoval.LeftBehindIffKept` in all headers. At the start a hidden occurrence can be stripped
  all the same, and an attempted one kept (`HeaderRemoval.HiddenIsStripped`,
  `HeaderRemoval.AttemptedIsKept`). `HeaderRemoval.UncutIsStripped` says which headers never keep one.
- The allocation for base64 can be used up to the last byte from other columns than 76 as well:
  `Base64.AllocationIsSufficient` has the exact condition.
- Nodes that name each other as parents in a circle all stay in the forest, but not all of them can
  be placed (`RecordOrder.PlacedIffAcyclic`), and which ones are depends on the order
  (`RecordOrder.OrderMattersIffCycle`).
- With a failed fork and two or more permits there are runs that end in a deadlock
  (`ForkProtocol.DeadlockIff`).

## Model

| member | source | states |
|---|---|---|
| ForkProtocol.ConservedMove | src/readpst.c:206-226 | semaphore value plus permits held plus permits lost in failed forks stays equal to the number of permits |
| ForkProtocol.PendingMove | src/readpst.c:278-299 | a step either logs a job and keeps its items on an agenda, or leaves what is on all agendas as it is; the order is in WorkOrder |
| ForkProtocol.OccurrencesMove | src/readpst.c:278-299 | how often an item occurs on agendas and in the log together is kept by every step |
| ForkProtocol.ListedMove | src/readpst.c:221-227 | a live process stays on its parent's list of children |
| ForkProtocol.TreeMove | src/readpst.c:163-226 | every step keeps the child lists bounded, free of repetitions and complete, and parents older than children |
| ForkProtocol.NoStallMove | src/readpst.c:206-209 | without failed forks, whenever someone waits for a permit and none is left, a process that is not waiting holds one |
| ForkProtocol.NobodyWaitsMove | src/readpst.c:206-209 | with at most one permit nobody ever waits for one, failed forks or not |
| ForkProtocol.YoungestReaps | src/readpst.c:153-190 | among processes that only wait for children, one can go on |
| ForkProtocol.Progress | src/readpst.c:201-236 | in a state that satisfies the invariants, all processes have exited or one of them can move |
| ForkProtocol.EffortMove | src/readpst.c:163-226 | a step leaves strictly less to do to the process that makes it and to its new child |
| ForkProtocol.FuelMove | src/readpst.c:153-236 | every step, including a failed fork, lowers a bound on the steps left |
| ForkProtocol.EveryRun | src/readpst.c:153-236 | all invariants hold after every run, and the bound on the steps left has fallen by at least the length of the run |
| ForkProtocol.Safety | src/readpst.c:206-226 | in every run: permits are conserved, at most max + 1 processes work at once, no child list outgrows its array, nothing is handled too often, and processes that only wait for children hold no permit |
| ForkProtocol.FirstExitsLast | src/readpst.c:663-664 | once the first process has exited, all have |
| ForkProtocol.Liveness | src/readpst.c:278-299 | no run without failed forks is longer than a bound known at the start, and where it cannot be continued all processes have exited, all permits are back and every item was handled exactly as often as it occurs; in what order is stated by WorkOrder.Order |
| ForkProtocol.ChainGrows | src/readpst.c:206-226 | processes can be forked one below the other, each of which then sees a permit for its next job, until one permit is left |
| ForkProtocol.AllSeeTheLast | src/readpst.c:206-209 | as many processes as there are permits can all be past the availability check while one permit is left |
| ForkProtocol.OneFailureBlocks | src/readpst.c:209-214 | from there, the first process takes the last permit and loses it in one failed fork |
| ForkProtocol.BlockedForEver | src/readpst.c:209-214 | then no process can move, and none has exited |
| ForkProtocol.DeadlockIff | src/readpst.c:206-214 | runs with failed forks can end in a deadlock if and only if there are at least two permits, and then one failed fork is enough |
| WorkOrder.MoveEffect | src/readpst.c:201-299 | a step leaves the preorder of what its process has to do as it is, or takes the first id off it and logs it, or takes the first job off it and hands it to a new child |
| WorkOrder.ChildsWhole | src/readpst.c:278-299 | the whole work of a new child is the preorder of the job it was forked for |
| WorkOrder.WholeMove | src/readpst.c:201-299 | no step, a failed fork included, changes the whole work of any process: what it logged and has to do, with the work of each child where it was forked |
| WorkOrder.AllTodoMove | src/readpst.c:278-285 | nobody ever has anything to do that is not on the agenda, at some depth |
| WorkOrder.OwnWork | src/readpst.c:278-299 | the ids a process has logged are a subsequence of its work, and all of it if it has no children |
| WorkOrder.Order | src/readpst.c:239-424 | in every run the whole work of the first process is the preorder of the agenda and that of every other one of its shared jobs; what each process logged, followed by what it has to do, is a subsequence of its whole work, and equal to it if it has no children |
| WorkOrder.SequentialOrder | src/readpst.c:230-232 | without permits there is one process; what it logged and has to do is always the preorder of the agenda, and at the end the log is |
| WorkOrder.FolderComesFirst | src/readpst.c:278-285 | folder 1 with message 2 in it and message 3 behind it come in the order 1, 2, 3 |
| Reaper.ProcessTable.Record | src/readpst.c:226 | appends a child to the list |
| Reaper.ProcessTable.Remove | src/readpst.c:184-187 | the list is the old one without entry i |
| Reaper.ProcessTable.GrimReaper | src/readpst.c:153-198 | the list is left with exactly the children not reaped, in order, and waiting for all leaves none; the first child with a nonzero status in list order makes the process exit with that status |
| Reaper.SurvivorsKeepOrder | src/readpst.c:163-190 | what is left of a list are exactly the children that have not exited, in their order |
| Reaper.FailureIsFirst | src/readpst.c:180-182 | the status reported is that of the first child in the list that failed, and there is none exactly if none has failed |
| Reaper.FailureFades | src/readpst.c:180-182 | the raw status passed to exit reaches the next process as 0 if the child had exited, and as an exit code if a signal ended it, which the one above sees as 0 |
| Reaper.SecondHandFailureIsNotSeen | src/readpst.c:180-182 | a process whose children gave up because of a failed child of their own does not notice |
| Reaper.Round | src/readpst.c:163-190 | taking an entry out and looking at the same index again, or stepping over it, leaves the outcome of the loop unchanged |
| Reaper.PollingCompacts | src/readpst.c:163-190 | the protocol's polling steps, uninterrupted, do to a list of children what the array loop does |
| DescriptorTree.AddDescriptorToList | src/libpst.c:455-469 | the list extended by the node is again doubly linked between the new head and tail |
| DescriptorTree.PstFile.Unlink | src/libpst.c:499-500 | the top-level list without its k-th node is again properly linked |
| DescriptorTree.PstFile.Adopt | src/libpst.c:494-501 | one orphan moves from the top-level list to the end of its parent's list, both staying linked |
| DescriptorTree.PstFile.CollectOrphans | src/libpst.c:489-506 | exactly the top-level nodes that name the new node move under it, in order, and are counted |
| DescriptorTree.PstFile.RecordDescriptor | src/libpst.c:479-533 | the pointers form the forest that Record describes, with consistent links, heads, tails, parents and child counts |
| DescriptorTree.PstFile.RecordList | src/libpst.c:1264-1292 | recording a list of new nodes into a forest that holds earlier ones gives the forest of both lists; with distinct non-zero ids every parent pointer is right if and only if there is no circle of parents |
| DescriptorTree.PstFile.ParentPointer | src/libpst.c:497-524 | the parent field of every node agrees with the forest |
| DescriptorTree.PstFile.ParentsAreRight | src/libpst.c:489-531 | parent fields lead to the node named, and are null only if none was recorded, exactly when there is no circle |
| DescriptorTree.PstFile.GetTopOfFolders | src/libpst.c:556-585 | null exactly without a message store; otherwise the node with the id that it names, or 0x2142 if it names none, or a new top-level node that has taken in the orphans waiting for it |
| DescriptorTree.PstFile.GetDptr | src/libpst.c:4040-4056 | the first node in preorder with the id, or null exactly when no node has it |
| DescriptorTree.PstFile.Ascend | src/libpst.c:691-692 | going up as long as there is no next sibling, and then sideways, reaches what follows the node's tree in preorder |
| DescriptorTree.PstFile.GetNextDptr | src/libpst.c:686-697 | the node after the given one in preorder, or null after the last |
| DescriptorTree.PstFile.Walk | src/libpst.c:686-697 | stepping from the head visits the preorder, which holds every node exactly once |
| DescriptorTree.SelectKeepsLinks | src/libpst.c:489-506 | collecting orphans leaves the lists below all nodes alone |
| DescriptorTree.GraftLinks | src/libpst.c:521-526 | hooking a tree under a node gives the links of the grafted forest |
| DescriptorTree.CollectedIsFilter | src/libpst.c:489-506 | the collecting loop splits the top-level list as two filters do |
| Forest.PreorderOnce | src/libpst.c:686-697 | the preorder of a forest names each of its nodes exactly once |
| Forest.GraftParents | src/libpst.c:521-526 | grafting changes the parent of the grafted roots and of nothing else |
| Forest.SelectParents | src/libpst.c:489-506 | selecting top-level trees changes no parent inside them |
| Forest.KidsHaveParent | src/libpst.c:497-498 | a node is on a list of children exactly when the list's owner is its parent |
| RecordOrder.RecordNodes | src/libpst.c:479-533 | recording keeps every node in the forest exactly once, duplicate and cyclic ids included |
| RecordOrder.RecordParents | src/libpst.c:489-531 | the new node goes under the node chosen, waiting orphans go under the new node, nothing else moves |
| RecordOrder.RecordLists | src/libpst.c:489-531 | orphans go below the new node in the order they had, and the new node comes last in the list it is put into; all other lists stay |
| RecordOrder.FilterKeepsOrder | src/libpst.c:489-506 | what is collected is a subsequence of the list and holds exactly the nodes that name the id |
| RecordOrder.ChosenIsNode | src/libpst.c:518-526 | the node chosen as parent has the id named and is not below the new node |
| RecordOrder.FirstComesFirst | src/libpst.c:4040-4056 | the node found has the id, and none before it in preorder has |
| RecordOrder.AllRecordedOnce | src/libpst.c:479-533 | any list of new nodes ends up in the preorder exactly once each |
| RecordOrder.SiblingsInOrder | src/libpst.c:489-531 | the top-level list and every list of children hold their nodes in the order in which they were recorded |
| RecordOrder.PlacedIffAcyclic | src/libpst.c:489-531 | with distinct non-zero ids, every node is under the node it names, or on top if there is none, if and only if no nodes name each other in a circle |
| RecordOrder.OrderIndependence | src/libpst.c:489-531 | any two orders of the same nodes give every node the same parent |
| RecordOrder.OrderMattersIffCycle | src/libpst.c:489-531 | some other order of the same nodes gives some node another parent if and only if there is a circle of parents |
| RecordOrder.CircleDiffers | src/libpst.c:489-531 | with a circle, moving a misplaced node to the front of the order puts it under the node it names |
| RecordOrder.ParentIsNamed | src/libpst.c:489-531 | a node is never put under any other than the one it names |
| RecordOrder.FirstIsPlaced | src/libpst.c:489-506 | a node recorded first is found by the node it names, circles or not |
| Traversal.FromIsSuffix | src/libpst.c:686-697 | every node splits the preorder into what comes before it and what starts with it |
| Traversal.AfterNode | src/libpst.c:690-692 | after a node comes its first child, or what follows its tree |
| Traversal.AfterRoot | src/libpst.c:691-692 | after the tree of a top-level node comes the next one, or nothing |
| Traversal.AfterKid | src/libpst.c:691-692 | after the tree of a child comes its next sibling, or what follows the parent's tree |
| Lzfu.CopyBackIsLz77 | src/lzfu.c:112-121 | a reference copies bytes from one constant distance back, including those just written; distance 0 gives zeros |
| Lzfu.ReferenceReadsSlot | src/lzfu.c:108-114 | byte i of a reference is the last byte that went to ring slot (offset + i) mod 4096, and 0 if that is the slot about to be written |
| Lzfu.DictionaryIsRead | src/lzfu.c:59-61 | a reference into the first 207 slots stands for the same part of the initial dictionary, whatever was decoded before, until it is overwritten |
| Lzfu.DictionaryAlone | src/lzfu.c:59-61 | a block with nothing but such a reference expands to that part of the dictionary |
| Lzfu.ReferenceBits | src/lzfu.c:100-111 | offset in the twelve high bits, most significant byte first, length less two in the four low bits |
| Lzfu.LastByte | src/lzfu.c:95-137 | where one byte is left, flags for references consume nothing and the first other flag takes it |
| Lzfu.KnownBody | src/lzfu.c:92-138 | the body 02 41 00 02 is a literal and a reference and expands to A{\rt |
| Lzfu.HeaderSizes | src/lzfu.c:63-90 | both sizes are little-endian, at bytes 0 and 4; four are added to the first modulo 2^32, and it is cut to the input |
| Lzfu.RingInitially | src/lzfu.c:59-61 | the initial dictionary is the tail of a history of 3889 zeros and 207 octets |
| Lzfu.RingPush | src/lzfu.c:115-120 | storing a byte, advancing and clearing the next slot keeps the ring the last 4095 bytes of the history |
| Lzfu.RingRead | src/lzfu.c:114 | ring slot (offset + i) mod 4096 holds the byte that lies at the same distance for every i |
| Lzfu.Emit | src/lzfu.c:115-120 | ring and output agree with the history extended by one byte, past the end of the output too |
| Lzfu.EmitReference | src/lzfu.c:112-121 | ring and output agree with the history extended by the LZ77 copy, whose bytes ReferenceReadsSlot names |
| Lzfu.DecodeToken | src/lzfu.c:96-135 | one flag consumes one token, or nothing if the token does not fit |
| Lzfu.DecodeFlag | src/lzfu.c:95-137 | one round of the flag loop leaves the rest of the group to be applied |
| Lzfu.DecodeGroup | src/lzfu.c:93-137 | the eight rounds apply the tokens that the flag byte announces |
| Lzfu.GroupStep | src/lzfu.c:95-137 | after one round the rest of the group remains to be applied |
| Lzfu.DecodeBody | src/lzfu.c:92-138 | the output is the expansion of all tokens as far as it fits |
| Lzfu.Decompress | src/lzfu.c:38-141 | null for a block shorter than its header; otherwise exactly the expansion of its tokens cut to the size in the header; what tokens stand for is in ReferenceReadsSlot, and which a block holds in LzfuRoundTrip |
| Lzfu.GroupBound | src/lzfu.c:93-137 | twice what a group of tokens yields is at most 17 times what it takes up |
| Lzfu.ParseBound | src/lzfu.c:92-138 | the same for a whole body |
| Lzfu.CapNeverTruncates | src/lzfu.c:82-86 | the cap of 17 times the input and 16 more is never below what the header's size keeps |
| Lzfu.CappedIsDecode | src/lzfu.c:82-86 | cutting to the capped size is the same as cutting to the size in the header |
| LzfuRoundTrip.GroupRoundTrip | src/lzfu.c:93-137 | a printed group of tokens is parsed as these tokens and no more |
| LzfuRoundTrip.ParseRoundTrip | src/lzfu.c:92-138 | printed tokens are parsed as the same list, zero-padded flags included |
| LzfuRoundTrip.HeaderRoundTrip | src/lzfu.c:63-67 | the sizes of a printed header are read back |
| LzfuRoundTrip.RoundTrip | src/lzfu.c:63-139 | decompressing a printed block gives the expansion of its tokens cut to the header's size |
| LzfuRoundTrip.EndMarkerIsCutOff | src/lzfu.c:82-139 | the end marker of the format, which the program decodes like any token, is cut off again by the header's size |
| BlockIndex.LoadAscends | src/libpst.c:1062-1199 | if no look-ahead start exceeds its node's bound, a call appends ids in order inside its own bounds, however malformed other nodes are |
| BlockIndex.EntriesAscend | src/libpst.c:1123-1157 | a leaf always appends ids in order inside the bounds |
| BlockIndex.EntriesLoaded | src/libpst.c:1123-1157 | a leaf loads its entries up to the first whose id is 0, not below the bound, or less than the one before, as many as it counts, and fails exactly if it stops before its count at anything but an id 0 |
| BlockIndex.ChildrenLoaded | src/libpst.c:1158-1195 | an inner node loads its children up to the first pointer that is 0, out of bounds or order, or without the record behind it; it fails exactly if that is not a 0, whether or not children fail |
| BlockIndex.NodeIsChecked | src/libpst.c:1070-1105 | a node too deep, with empty bounds, missing, over its maximum count or with another backlink loads nothing and fails |
| BlockIndex.LevelsRead | src/libpst.c:1070-1074 | levels 0 to 64 are read and no deeper ones |
| BlockIndex.PointersAscend | src/libpst.c:1158-1195 | under the condition, the children of an inner node append runs that follow each other in order |
| BlockIndex.StoredTreeLoads | src/libpst.c:1062-1199 | a well-formed tree within the depth limit is loaded completely and in order, without failure, and meets the condition on look-aheads |
| BlockIndex.AllEntriesLoad | src/libpst.c:1124-1157 | a leaf whose ids do not fall is loaded completely |
| BlockIndex.Overrun | src/libpst.c:1172-1193 | a look-ahead start beyond the bound lets some leaf append an id beyond the bound |
| BlockIndex.LookAheadDecides | src/libpst.c:1158-1195 | above any leaves, what one inner node appends is in order and in bounds if and only if its look-aheads stay within its bound |
| IndexOrder.LoadIsGathered | src/libpst.c:1062-1199 | a call appends what the leaves it arrives at append, one after the other |
| IndexOrder.InnerNodesDecide | src/libpst.c:1062-1199 | for every tree: every filling of the leaves is loaded in order and in bounds if and only if the intervals that the inner nodes hand to the leaves follow one another inside the bound, with the exact form for leaves arrived at more than once |
| IndexOrder.SomeFillingFails | src/libpst.c:1172-1193 | otherwise leaves with one or two entries bring the table out of order |
| IndexOrder.RootOutOfOrder | src/libpst.c:673 | a whole file whose table, loaded from the root, is out of order |
| BlockIndex.IndexTable.Add | src/libpst.c:1147-1156 | the entry is appended, and the earlier ones survive the growth of the table |
| BlockIndex.IndexTable.BuildIdPtr | src/libpst.c:1062-1199 | appends exactly the run that Load describes and returns -1 exactly on its failures |
| BlockIndex.IndexTable.AddEntries | src/libpst.c:1124-1157 | the loop over a leaf, stopping at a zero id, failing at a bad one |
| BlockIndex.IndexTable.ReadPointer | src/libpst.c:1162-1191 | the checks on one record of an inner node and the bound for its child |
| BlockIndex.IndexTable.AddChildren | src/libpst.c:1159-1194 | the loop over an inner node; failures of children are ignored |
| BlockIndex.IndexTable.LoadIndex | src/libpst.c:673 | the table is the run from the root; it is in order if the look-aheads are bounded, and holds exactly the entries of a well-formed tree |
| BlockIndex.IndexTable.GetId | src/libpst.c:3972-4007 | an entry found has the id without its low bit; in a table in order, one is found for a non-zero id exactly when there is one |
| Cipher.RotorsAreInverse | src/libpst.c:209-268 | the first two tables are inverse to each other, the third to itself, on all 256 values |
| Cipher.StrongTwice | src/libpst.c:4188-4198 | the three-rotor step undoes itself for every salt |
| Cipher.NextSalt | src/libpst.c:4188-4197 | the low byte of the salt is added before the first rotor and taken off after the last: how a byte changes when it grows by one |
| Cipher.NextHighByte | src/libpst.c:4188-4197 | the high byte is added behind the first rotor and taken off before the last, likewise |
| Cipher.WithoutSalt | src/libpst.c:4190-4197 | with salt 0 a byte goes through the three rotors in their order |
| Cipher.SaltBits | src/libpst.c:4185 | bit k of the salt is the exclusive or of bits k and k + 16 of the id, for k below 16, and 0 above |
| Cipher.SaltOfHalves | src/libpst.c:4185 | the salt is 0 exactly for equal halves of the id, the same when they are exchanged, and the id itself below 0x10000 |
| Cipher.SaltRuns | src/libpst.c:4185-4200 | behind its first byte a block is treated like the block with the next salt, 0 after 0xffff |
| Cipher.KnownBytes | src/libpst.c:4165-4210 | the byte 0 of block 4 becomes 0x47 under the simple cipher and 0xb6 under the strong one |
| Cipher.StrongIsInvolution | src/libpst.c:4182-4201 | decrypting twice with the same block id restores a buffer of any length, salt wrapping included |
| Cipher.SubstitutionIsInvertible | src/libpst.c:4174-4180 | the simple cipher is undone by substitution through the second table, on either side |
| Cipher.DecryptByte | src/libpst.c:4188-4198 | one round is the three-rotor step; what each byte of the salt does in it is in NextSalt and NextHighByte |
| Cipher.DecryptSimple | src/libpst.c:4174-4180 | every byte below size is substituted, the others stay |
| Cipher.DecryptStrong | src/libpst.c:4182-4201 | every byte below size goes through the rotors with its own salt, the others stay |
| Cipher.Decrypt | src/libpst.c:4165-4210 | the cipher is chosen by type; null and unknown types return -1 and change nothing; with StoredText.BlockIsDecrypted, exactly the encrypted text is turned back |
| Base64.Base64Append | src/libstrfunc.c:10-18 | a line break comes first exactly at column 76, and the buffer holds the text wrapped so far |
| Base64.AppendQuad | src/libstrfunc.c:51-54 | the four characters of a group are appended with their line breaks |
| Base64.EncodeGroups | src/libstrfunc.c:47-56 | the whole groups are encoded in order |
| Base64.EncodeMultiple | src/libstrfunc.c:35-71 | null for no data, otherwise the wrapped encoding as a C string inside the allocation; the column is where it stops |
| Base64.EncodeWrapped | src/libstrfunc.c:21-25 | the encoding in lines of 76 from column 0 |
| Base64.EncodeSingle | src/libstrfunc.c:28-32 | the encoding without line breaks |
| Base64.EncodeRoundTrip | src/libstrfunc.c:35-71 | a strict decoder after section 4 of RFC 4648 restores every byte string |
| Base64.GroupBits | src/libstrfunc.c:47-54 | three bytes are 24 bits, from which four characters take six each, most significant first |
| Base64.CodeTable | src/libstrfunc.c:7 | the character codes of the 64 values |
| Base64.TestVectors | src/libstrfunc.c:35-71 | three test vectors of section 10 of RFC 4648 |
| Base64.EncodeAlphabet | src/libstrfunc.c:7 | only code characters and padding occur |
| Base64.EncodeSplits | src/libstrfunc.c:47-56 | data can be split behind any whole group |
| Base64.ColumnSplits | src/libstrfunc.c:10-18 | the column after m + n characters is the column n characters after m |
| Base64.WrapSplits | src/libstrfunc.c:10-18 | wrapping can be interrupted anywhere if the column is kept |
| Base64.WrapShape | src/libstrfunc.c:12-15 | line breaks are exactly where no line gets longer than 76 and all but the last are full; all other characters are kept in order |
| Base64.WrapLength | src/libstrfunc.c:10-18 | the number of line breaks in closed form |
| Base64.AllocationIsSufficient | src/libstrfunc.c:44 | the allocation suffices from every column, and is used up exactly under the stated condition |
| Base64.WrappedRoundTrip | src/libstrfunc.c:35-71 | dropping line breaks and decoding gives back the data, whatever the starting column |
| Holder.PstHolder.Append | src/libpst.c:4495-4542 | data is added to what was sent, and the returned size counts all of it but the bytes carried over |
| Holder.PstHolder.AppendBase64 | src/libpst.c:4506-4529 | bytes encoded plus bytes carried stay equal to bytes supplied, and the file is the one-shot encoding of all whole groups |
| Holder.PstHolder.WriteEncoded | src/libpst.c:4523-4529 | a chunk of any size continues the encoding where the file stops |
| Holder.PstHolder.Finish | src/libpst.c:4551-4565 | the file ends as the one-shot encoding of everything sent |
| Holder.ChunkAppends | src/libpst.c:4508-4529 | encoding a chunk at the current column extends the one-shot encoding of whole groups |
| Holder.FileShape | src/libpst.c:4495-4565 | every byte of the base64 file: code 10 at each 77th place, elsewhere the codes of the encoding in order |
| Holder.FileRoundTrip | src/libpst.c:4495-4565 | reading the bytes of the file as characters, dropping the line breaks and decoding gives back the data |
| DataTree.CompileId | src/libpst.c:4399-4484 | the holder receives exactly the appends and resets that Events describes |
| DataTree.CompileTables | src/libpst.c:4446-4455 | the loop over a table of tables |
| DataTree.CompileLeaves | src/libpst.c:4466-4483 | the loop over a table of leaves, which gives up at the first missing one |
| DataTree.CompileLeaf | src/libpst.c:4467-4477 | one round of that loop |
| DataTree.GetId2Data | src/libpst.c:4371-4388 | memory holds what was kept, a file all that was sent, a base64 file its one-shot encoding; the size is that of what was kept; which text that is, is in StoredText |
| DataTree.ResetIffMissing | src/libpst.c:4418-4423 | the running size is reset exactly when a block asked for is missing |
| LostData.KeptIsSentIff | src/libpst.c:4399-4484 | everything sent counts at the end if and only if the stored blocks lose nothing, and the size returned for base64 is the number of bytes sent if and only if they lose fewer than three bytes |
| LostData.LostIsNotKept | src/libpst.c:4399-4484 | the number of bytes that stop counting, read off the stored blocks |
| LostData.LosesIffLost | src/libpst.c:4418-4478 | a table of leaves loses data exactly if its first leaf is present and a later one missing, a table of tables exactly if one of them does or one sends something and a later one has a missing block |
| LostData.SecondLeafMissing | src/libpst.c:4466-4478 | the table with leaves 4 and 8, of which 8 is missing: the first leaf is sent and lost |
| DataTree.PresentDataCounts | src/libpst.c:4399-4484 | if no block is missing, everything sent counts |
| DataTree.MissingLeafLoses | src/libpst.c:4466-4478 | what a table of leaves has sent before its first missing leaf no longer counts |
| StoredText.BlockIsDecrypted | src/libpst.c:4296-4311 | what is read of a block is a text if and only if the text, encrypted for the id of the block, is what is stored, or the text itself if bit 1 of the id is set |
| StoredText.NotIndexed | src/libpst.c:3980-4007 | id 0 and ids that are not in the index are read as missing |
| StoredText.TableIsRead | src/libpst.c:4432-4450 | kind, count and ids of a table by their places in the block, as many ids as there is room for |
| StoredText.TreeDelivers | src/libpst.c:4399-4484 | a tree whose text is stored, encrypted leaf by leaf under tables in clear, delivers the text down to level 65 and none below |
| StoredText.StoredTreeIsDelivered | src/libpst.c:4371-4388 | the same for the data behind an index entry, whatever its id; all of the text if there are no more than 65 levels |
| StoredText.KnownBlocks | src/libpst.c:4371-4388 | the byte 0 stored as block 4 is delivered as 0, 0x47 or 0xb6 depending on the encryption |
| Attachment.AttachToMem | src/libpst.c:588-609 | size and buffer are those of the attachment's data; inline data is handed over; without data and id the size on record is returned |
| Attachment.AttachToFile | src/libpst.c:612-633 | the file is extended by the attachment's data; the size is that of what counts, or the size on record without data and id |
| Attachment.AttachToFileBase64 | src/libpst.c:636-661 | the file is extended by the one-shot encoding of the attachment's data |
| Attachment.DestinationsAgree | src/libpst.c:588-661 | for a text stored in the file, in whatever blocks and encryption, what is sent and what counts is the text |
| Attachment.AttachEverywhere | src/libpst.c:588-661 | for one attachment exported to all three: a text stored for it, or its inline data, arrives in the buffer, in the raw file and encoded in the base64 file, with its length as each size; without both nothing does. In general the base64 file encodes the raw file, the buffer equals the raw file if and only if no data is lost, and the sizes agree if and only if the number of bytes lost is a multiple of three |
| Attachment.PresentBlocksAgree | src/libpst.c:588-661 | no data is lost whenever no block asked for is missing |
| Attachment.AgreementCondition | src/libpst.c:588-661 | memory and file receive the same if and only if the stored blocks of the attachment lose nothing; how many bytes differ |
| Mboxrd.WriteEmailBody | src/readpst.c:685-702 | the file is extended by the quoted body, or by the body itself in separate mode |
| Mboxrd.WriteLine | src/readpst.c:689-698 | one round writes the mark and the line, and the last round only the mark |
| Mboxrd.StartsLikeFrom | src/readpst.c:690-692 | looking past the leading marks in the rest of the body decides about the first line |
| Mboxrd.QuotingIsReversible | src/readpst.c:685-702 | taking one mark off each marked line restores every body, and no line written starts with the separator |
| Mboxrd.WhichLinesAreQuoted | src/readpst.c:688-692 | a line gets one mark if and only if it consists of any number of marks, then the word From and a space, then anything; all other lines stay as they are |
| Mboxrd.LinesAreLines | src/readpst.c:693-697 | the lines of a text join to the text, and only the last may lack its newline |
| HeaderField.MyStristr | src/readpst.c:1000-1022 | computes the search function, whose comparison ignores the case of letters and nothing else (SameIffSameLetter) |
| HeaderField.SameIffSameLetter | src/readpst.c:1008 | two characters match if and only if they are equal or the same ASCII letter in upper and lower case |
| HeaderField.CaseDoesNotMatter | src/readpst.c:1492-1531 | field names that differ in the case of letters only are found at the same place and taken out with the same result |
| HeaderField.SearchFindsFirstLive | src/readpst.c:1000-1022 | for every needle, the first match that an attempt is made at is found, and nothing exactly if there is none |
| HeaderField.ScanIsSound | src/readpst.c:1007-1018 | whatever the needle, what is found is a case-insensitive match |
| HeaderField.CompleteIffUniform | src/readpst.c:1000-1022 | the search misses no occurrence in any text if and only if all characters of the needle are the same |
| HeaderField.SecondIsOverlooked | src/readpst.c:1013-1016 | for any other needle, an occurrence right behind its first character is overlooked |
| HeaderField.GetFieldIsSound | src/readpst.c:1492-1497 | a field found is a match, or the name at the very start |
| HeaderField.HeaderGetField | src/readpst.c:1492-1497 | the search, and then the comparison with the start of the headers |
| HeaderField.HeaderEndField | src/readpst.c:1502-1509 | the first newline that is not followed by a continuation line, or the end |
| HeaderField.StripRound | src/readpst.c:1515-1530 | one round takes out the field in place |
| HeaderField.DeletedIsField | src/readpst.c:1502-1530 | what is taken out reaches to the first newline that no space or tab follows, which goes only at the very start, or to the end |
| HeaderField.HeaderStripField | src/readpst.c:1512-1531 | the buffer ends as the fixpoint of taking out fields, in whatever case they are written |
| HeaderField.StripReachesFixpoint | src/readpst.c:1512-1531 | afterwards the field is not found, and headers without it are not changed |
| HeaderField.StripTakesOutFields | src/readpst.c:1512-1531 | the result comes from deleting fields only, each from a match to its unfolded end, each round shortening the headers |
| HeaderRemoval.UncutIsStripped | src/readpst.c:1512-1531 | if no newline of the headers cuts a line short inside the name, no occurrence of the field is left, not at the start either |
| HeaderRemoval.LeftBehindIffHidden | src/readpst.c:1512-1531 | for headers that do not begin with the field, be it with or without its newline, an occurrence is left if and only if the headers had one that the search makes no attempt at |
| HeaderRemoval.LeftBehindIffKept | src/readpst.c:1512-1531 | for all headers: an occurrence is left if and only if one is hidden once the fields at the start have been taken out, one after the other |
| HeaderRemoval.AttemptedIsStripped | src/readpst.c:1512-1531 | for headers that do not begin with a newline and the name, those that begin with the name alone included: if the search attempts every occurrence, the field is gone, at the start too |
| HeaderRemoval.FieldAtStartGoesFirst | src/readpst.c:1492-1497 | a field with its newline at the very start is taken out before all others |
| HeaderRemoval.NameAtStartGoesLast | src/readpst.c:1492-1497 | a name alone at the very start is taken out when the search finds nothing else |
| HeaderRemoval.HiddenIsStripped | src/readpst.c:1512-1531 | headers that begin with the name and are stripped of a hidden occurrence |
| HeaderRemoval.AttemptedIsKept | src/readpst.c:1512-1531 | headers that begin with the field and keep an occurrence that was attempted |
| HeaderRemoval.StartStays | src/readpst.c:1515-1530 | taking out another field does not change whether the headers begin with the field |
| HeaderRemoval.HiddenStaysHidden | src/readpst.c:1515-1530 | taking out a field hides no occurrence and brings none to light |
| HeaderRemoval.LiveBehind | src/readpst.c:1515-1530 | behind the field taken out, attempts are made at the same places as before |
| HeaderRemoval.EmptyLineKeepsField | src/readpst.c:1512-1531 | a field behind an empty line at the start is kept, whatever its name |
| HeaderRemoval.BlankNameIsHiddenLater | src/readpst.c:1512-1531 | the condition fails for a name that begins with a blank: headers in which every occurrence is attempted keep one |
| HeaderRemoval.MimeVersionIsKept | src/readpst.c:1819 | the same for the name passed there |
| RowMatrix.ClosedForm | src/libpst.c:2086-2095 | the row pointer after k rows in closed form |
| RowMatrix.RowPositions | src/libpst.c:2086-2095 | the same in numbers, for blocks of 8176 and of 8180 bytes |
| RowMatrix.UnsplitIffRowFits | src/libpst.c:2089-2094 | no row straddles a block boundary or shares a byte with the next if and only if a row fits into a block |
| RowMatrix.OversizedRows | src/libpst.c:2090-2094 | rows larger than a block start one block apart |
| RowMatrix.CursorFindsRow | src/libpst.c:1832-1834 | in a matrix laid out by the format, the pointer stands at every row in turn |
| RowMatrix.ReadRow | src/libpst.c:1868-1912 | every cell of a row at the cursor, or none where it would leave the matrix |
| RowMatrix.ReadTable | src/libpst.c:1849-2096 | reads all cells of all rows, the cursor advancing as in the closed form |
| RowMatrix.OutsideIsNotRead | src/libpst.c:1887-1905 | a cell is left out if and only if it would reach beyond the end of the matrix |
| RowMatrix.WrittenTableIsRead | src/libpst.c:1832-1912 | what is read of a matrix laid out by the format is, cell by cell, what was written |

## Left out

- Lzfu.Decompress: a compressed size of 2^32 - 1 is excluded; the code's test for two available bytes would wrap there.
- Lzfu.Decompress: the magic number and the checksum in the header are not looked at, as in the code, so nothing is claimed about them.
- LzfuRoundTrip.RoundTrip: blocks of 4 GiB and more, whose size the header cannot hold, are excluded.
- RecordOrder.PlacedIffAcyclic: id 0 and repeated ids are excluded; for these only the invariants of RecordDescriptor are claimed.
- DescriptorTree.PstFile.RecordDescriptor: assoc_tree and desc, which it does not touch, are not part of this model.
- BlockIndex.IndexTable.BuildIdPtr: nodes are decoded records; the 32-bit, 64-bit and 4K layouts, and records that overlap because of an odd entry size, are abstracted to lists.
- BlockIndex.LookAheadDecides: for one inner node above the depth limit and above arbitrary leaves, none of its pointers leading back to it; whole trees are in IndexOrder.
- BlockIndex.IndexTable.GetId: bsearch of the C library is written out as a plain binary search.
- DataTree.GetId2Data: block ids are those of the file; reading, sizes on disk and decompression of 4K blocks are a map from ids to bytes.
- Holder.PstHolder.Append: writing to a file always succeeds.
- ForkProtocol.Liveness: children exit with status 0; what follows when a parent exits early because of a nonzero one is in Reaper for one process only.
- ForkProtocol.Safety: that an item is handled is logged when a process takes it up; what handling writes is not modelled.
- Reaper.ProcessTable.GrimReaper: which children have exited does not change during one call; in ForkProtocol it may change between polls.
- HeaderField.HeaderStripField: fields of fewer than two characters are excluded: the loop would not end, and all callers pass a newline and a name; upper and lower case are those of ASCII.
- HeaderRemoval.LeftBehindIffKept: names that begin with a blank, which are never passed, are not covered; BlankNameIsHiddenLater shows that the condition fails for them, and UncutIsStripped gives a sufficient one.
- RowMatrix.ReadTable: the bytes of the cells are not interpreted.
- pst_build_desc_ptr: the same checked walk as the one for the block index; its leaf loop is RecordList.
- pst_process, pst_freeItem and the LIST_COPY macros: field-by-field copying without a deep invariant.
- Output interleaving, stdio buffers and open files across fork: the protocol covers permits, children and items.
- Recurrences, character sets, dates, vCard, iCalendar and LDIF output, growing string buffers, command-line options and the debug log.
- Allocation always succeeds.
