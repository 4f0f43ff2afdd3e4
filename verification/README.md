# Verified model of the NVMe test driver and its libraries

This project models, in Dafny, the hard parts of an NVMe test driver (`modules/dnvme`), of its
user-space library (`lib/nvme`), and of the CRC and JSON libraries beside it, and proves what
they are for. `dafny verify dfyconfig.toml` checks the whole project.

- **Completion queues** (`Ring`, `CompletionQueue`). The phase-bit scan, the reap loop and the head
  update, against a controller that obeys the full-queue rule (section 4.1.2 of NVM Express 1.2) and
  the phase tag rule (section 4.6). Main result: `ReapedIsPrefixOfPosted`.
- **Submission queues and the protocol** (`SubmissionQueue`, `QueueProtocol`, `IdReuse`). Any number
  of submission queues sharing a completion queue; the controller fetches in order and completes in
  any order. Main results, for every run: `ProtocolIsSafe`, `SubmitNeverOverwrites`,
  `HeadIsReported`; for runs in which live commands have different ids: `NodesAreOwn`.
- **Queue tables and page ownership** (`Device`, `DeviceQueues`, `DeviceOwnership`, `DeviceAnyRun`).
  Create and delete commands, and the owner of each set of PRP pages. Main results:
  `NeverSharedNorReleasedTwice` for every run, `OneOwnerReleasedOnce` for clean ones, with
  `UncleanCreateLeaks` showing that its condition is needed; `SecondCreateRefused`, `DropAllExactly`.
- **PRP lists** (`PrpList`, `PrpWalk`; section 4.3 of NVM Express 1.4). Main results:
  `SetupAndWalk`, `WalkRecoversBuffer`, `QueueBufferBoundary`, `StandardWalkBoundary`.
- **SGL descriptors and segments** (`SglDescriptors`, `SglSegments`; section 4.4 of NVM Express 1.4).
  Main results: `InitSglDescList`, `CmdSetupSgl`, `MetaSetupSgl`.
- **CRC** (`Bits`, `Crc`). The table-driven form against bit-serial division, reflection, and error
  detection. One generic-width class stands for the four copies of the source.
- **JSON** (`JsonString`, `JsonStringBuffers`, `JsonText`, `JsonTrees`, `JsonGrammar`, `JsonRoundTrip`,
  `JsonParser`, `JsonPrinter`, `SiblingList`; RFC 8259 and section 3 of RFC 3629). Parsing and printing
  are functions, the buffers, loops and pointer updates methods proved against them; what is parsed is
  proved sound and complete against concrete syntax trees. Main results: `ParseSound`,
  `ParseComplete`, `RoundTrip`, `PrintAndParse`, `PrintPreallocated`, `FillUnescaped`,
  `SiblingList.Node.Run`.
- **Interrupts** (`IrqSet`). Paired irq and work lists with rollback. Main result: `IrqSet.Set.Run`.
- **Netlink attributes** (`NetlinkAttr`). Main result: `PutAndParse`.

`Wrappers`, `Sequences` and `Linux` hold an option type, sequence edits and error numbers.

## Where the code does not do what one might expect

Each is a lemma or a clause with the exact condition.

- The phase scan of a queue with 65536 elements may never end, since `tail_ptr` is a 16-bit field
  (`WideScanDiverges`), and a rule-abiding run gets there (`WideRunDiverges`).
- Command ids come round after 65536 draws. If a command is outstanding that long, another one with
  its id may take its node, and with it the wrong page set (`RetiresOwnNode`,
  `ReusedIdTakesWrongNode`). Slots, heads and completions are not affected (`ProtocolIsSafe`).
- A PRP list for a create-queue command is wrong exactly when the first scatter entry starts inside a
  page and, by coalescing, reaches past it: the address advances by a whole page while the length
  advances to the page boundary (`QueueBufferBoundary`).
- The chain slot of a PRP list is written even when one page remains, so a walker following the
  standard differs exactly at 511 m + 1 list entries (`StandardWalkBoundary`).
- A create command with a data buffer for a contiguous queue or for queue 0 loses its page set for
  good (`UncleanCreateLeaks`).
- A reap that frees a submission queue and then meets a completion of that queue stops there with an
  error (`RemovalEndsReap`).
- Buckets past the data, or repeated strictly inside a scatter entry, make the descriptor count too
  large and the command fail (`SlackIsZero`, `InitSglDescList`).
- An SGL command without buckets fails if mapping merged some of its pages (`CmdSetupSgl`).
- A multiple-message MSI set-up that fails after allocating vectors leaves them allocated
  (`IrqSet.Set.SetInterrupt`).
- Appending a JSON item that still has a `next` breaks the list unless the list was empty
  (`SiblingList.Node.AddItemToArray`).
- A `\u` escape whose four characters are not all digits is not refused but read as code point 0
  (`BadDigitsAreRead`).
- Printing into a preallocated buffer needs one byte more than the text and its terminator
  (`PrintPreallocated`).
- A netlink payload whose attribute length does not fit 16 bits is never read back
  (`NetlinkAttr.Message.PutAttr`).
- The attribute loop compares a signed remainder with an unsigned size, so with a negative remainder
  it reads a length past the stream before it stops (`NegativeLeftover`, `Parse`).

## What the model takes as given

Memory is sequences and arrays, lookups by id are maps, kernel lists are sequences. User copies
succeed. Foreign answers (DMA addresses, page mapping, `request_irq`, how preparing a command ends, and
allocation wherever the source checks it, except for the nodes and strings the JSON parser makes) are
parameters, and the claims hold for all their values. List pages have distinct bus addresses. A new
completion queue is cleared memory: the source clears contiguous queues only, so for a discontiguous
one the user must have cleared the pages. DMA lengths are positive and DMA addresses of
SGL data are not zero, since address 0 marks a bit bucket (modules/dnvme/cmd.c:552). Mapping merges
no pages of a metadata SGL: its loop counts pages and walks scatter entries. Sorting the
buckets yields a sorted permutation. Releasing a null page set does nothing. C integers do not
overflow except where the model writes it out: 16-bit queue pointers, command ids and attribute
lengths.

## Model

| member | source | states |
|---|---|---|
| `CompletionQueue.CursorWithinOnePass` | modules/dnvme/queue.c:546-558 | For 1 to 65535 elements the scan position after k steps is the slot k further round the ring, with the phase flipped exactly if it wrapped |
| `CompletionQueue.ScanStopsWithinOnePass` | modules/dnvme/queue.c:546-558 | Whatever the buffer holds, the phase scan meets an entry of the wrong phase after at most as many steps as there are elements |
| `CompletionQueue.WideScanDiverges` | include/uapi/dnvme.h:314-318 | With 65536 elements or more the 16-bit tail wraps before the wrap test, and the scan never ends if and only if the 65536 entries it can reach all carry its phase |
| `CompletionQueue.WideRunDiverges` | modules/dnvme/queue.c:546-558 | A run of a 65536-element queue that keeps every rule (65535 posts, an inquiry, a reap of one, one more post) ends where the scan never ends |
| `CompletionQueue.Queue.GetCqeRemain` | modules/dnvme/queue.c:525-564 | The loop ends, counts exactly the consecutive entries of the expected phase, and leaves the tail one past the last of them |
| `CompletionQueue.Handled` | modules/dnvme/queue.c:730-765 | How many entries a reap consumes: all wanted ones, or up to and including the first whose handling failed |
| `CompletionQueue.Queue.CopyCqData` | modules/dnvme/queue.c:715-768 | The entries copied are the ones from the head on, in ring order; the answer is 0 if and only if every wanted entry was handled without error, and otherwise the error of the entry that ended the loop |
| `CompletionQueue.Queue.UpdateCqHead` | modules/dnvme/queue.c:774-790 | Head and doorbell move by the number reaped modulo the size; the expected phase flips exactly on a wrap |
| `CompletionQueue.Queue.ReapCqe` | modules/dnvme/queue.c:792-833 | Which error for a zero count, for a missing buffer and for one smaller than the 32-bit size computed, and then nothing moves; otherwise the number reaped, the entries, the new head, phase, tail and doorbell, and whether the queue has gone quiet so that its interrupt is to be unmasked |
| `CompletionQueue.RemainIsOutstanding` | modules/dnvme/queue.c:532-563 | In every state the host and controller can reach, the scan result equals entries posted minus entries reaped |
| `CompletionQueue.PostInv` | include/uapi/nvme.h:41 | A controller that keeps one slot free by the doorbell never overwrites an entry not yet reaped, and its phase tags keep telling old from new |
| `CompletionQueue.ReapInv` | modules/dnvme/queue.c:774-790 | A reap bounded by an earlier inquiry keeps the head, phase and doorbell equal to the position and parity of the number reaped |
| `CompletionQueue.StepInv` | modules/dnvme/netlink.c:78-92 | Every step of host and controller (post, inquire, reap what an inquiry found) keeps the ring invariant |
| `CompletionQueue.ReapedIsPrefixOfPosted` | modules/dnvme/queue.c:715-790 | For every interleaving and any number of wraps, all reaped completions in order are a prefix of all posted ones, and the scan reports exactly the rest |
| `CompletionQueue.ReapBoundIsExact` | modules/dnvme/netlink.c:78-92 | Reaping k entries yields a prefix of what was posted if and only if k is at most what an inquiry reports |
| `SubmissionQueue.Find` | modules/dnvme/queue.c:65-74 | The first command node with an id, and that none before it has it |
| `SubmissionQueue.Queue.FindCmd` | modules/dnvme/queue.c:65-74 | The list walk finds the same node as the specification, or the end of the list |
| `SubmissionQueue.Queue.Submit64bCmd` | modules/dnvme/cmd.c:1204-1300 | EBUSY and no change exactly when advancing the virtual tail would meet the head; otherwise 0 with one more node and the command in the slot at the virtual tail, or the error of what failed with the list and slots untouched; an id drawn stays consumed only on success or on a failure before preparing |
| `SubmissionQueue.Queue.RingSqDoorbell` | modules/dnvme/queue.c:460-476 | The real tail and the doorbell take the virtual tail and nothing else changes |
| `SubmissionQueue.Queue.HandleCmdCompletion` | modules/dnvme/queue.c:676-710 | The reported head is taken over in any case; an id no node has gives EBADSLT and keeps the list; otherwise the first node with the id goes and the answer is 0 |
| `QueueProtocol.SubmitWritesFreeSlot` | modules/dnvme/queue.h:22-26 | A submit that is not refused writes a slot that holds no command between the known head and the virtual tail, and leaves one slot free |
| `QueueProtocol.FullAndEmpty` | modules/dnvme/queue.h:22-36 | Full means all but one slot are between the known head and the virtual tail, empty means none is; both are exact |
| `QueueProtocol.SubmitInv` | modules/dnvme/cmd.c:1204-1300 | Submits, accepted, refused or failed half-way, keep ring contents, node list and id bookkeeping, however old the live commands are |
| `QueueProtocol.SubmitAnswers` | modules/dnvme/cmd.c:1204-1300 | In every run a submit answers EBUSY and changes nothing exactly when all but one slot are between the known head and the virtual tail; otherwise it answers 0 or the error of what failed, and one command is added exactly when the answer is 0 |
| `QueueProtocol.CidsDistinct` | modules/dnvme/cmd.c:1223-1300 | Ids of live commands differ in any state where none of them has seen 65536 later draws of an id, failed submits included |
| `QueueProtocol.SameIdIff` | modules/dnvme/cmd.c:1223-1224 | Two live commands have the same id if and only if a multiple of 65536 draws lies between them |
| `QueueProtocol.NextCidCollides` | modules/dnvme/cmd.c:1223-1224 | The next id equals that of a live command, of any age, if and only if they are a multiple of 65536 draws apart |
| `QueueProtocol.CompleteInv` | modules/dnvme/queue.c:637-710 | A completion written by the controller always finds a node with its id, one such node goes, and the invariant stays, whatever ids the other live commands have |
| `QueueProtocol.ReapAll` | modules/dnvme/queue.c:715-768 | A reap within the inquired bound handles every entry of every queue without an error |
| `QueueProtocol.StepInv` | modules/dnvme/cmd.c:1172-1301 | Every step of any number of submission queues sharing a completion queue keeps the invariant of the whole system, with no condition on ids |
| `QueueProtocol.ProtocolIsSafe` | modules/dnvme/cmd.c:839-912 | In every run, ids reused or not: the controller reads exactly the submitted commands in order; every posted entry completes one command and no command twice; reaped completions are a prefix of posted ones; the driver keeps as many nodes as there are submitted commands without a reaped completion, with the same ids altogether, each the node of a submitted command, in submission order |
| `QueueProtocol.NodesAreOwn` | modules/dnvme/cmd.c:839-912 | As long as live commands have had different ids, the nodes are exactly those of the submitted commands without a reaped completion, in order, each with its id and slot |
| `QueueProtocol.RetiresOwnNode` | modules/dnvme/queue.c:696-706 | A completion takes its own command's node if and only if no earlier live command has the same id |
| `QueueProtocol.YoungIdsDiffer` | modules/dnvme/cmd.c:1223-1300 | In every run the ids of live commands differ in every state where none of them has seen 65536 later draws |
| `IdReuse.ReusedIdTakesWrongNode` | modules/dnvme/queue.c:65-74 | A run that gets there: an id comes round while its first command is outstanding, the second command with it completes, and the node taken is the first one's |
| `QueueProtocol.RetiredIsReaped` | modules/dnvme/queue.c:676-710 | A command counts as handled if and only if one of the reaped completions reports it |
| `QueueProtocol.SubmitNeverOverwrites` | modules/dnvme/cmd.c:1204-1300 | In every run, full or not, the slots from the head field to the virtual tail hold the commands submitted there; the head is the slot behind what the reaped completions report as read; a submit that is not refused writes outside; full and empty are exact |
| `QueueProtocol.HeadIsReported` | modules/dnvme/queue.c:692-693 | In every run the head field of a queue is what its last reaped completion reported |
| `Device.Driver.ReleasePrps` | modules/dnvme/cmd.c:985-990 | Releases a page set once; releasing none is a no-op |
| `Device.Driver.DeleteCmdList` | modules/dnvme/cmd.c:998-1011 | Releases what every node of the list owns, in list order |
| `Device.Driver.ReleaseSqNode` | modules/dnvme/queue.c:174-196 | Removes the queue, releases its nodes' page sets and, for a discontiguous queue, its own |
| `Device.Driver.ReleaseCqNode` | modules/dnvme/queue.c:296-316 | Removes the queue and, for a discontiguous queue, releases its page set |
| `Device.Driver.DeleteAllQueues` | modules/dnvme/queue.c:483-518 | Sweeps all submission queues and then all completion queues, keeping the admin pair but emptying its command list when asked to; `DropAllExactly` says what that leaves and releases |
| `Device.Driver.PrepareSqNode` | modules/dnvme/ioctl.c:351-382 | Refused, with which error, for an impossible size, an id in use, a discontiguous queue where that is not allowed, or no memory; otherwise the queue enters the table without pages or commands |
| `Device.Driver.PrepareCqNode` | modules/dnvme/ioctl.c:384-424 | The same for completion queues; one whose interrupt cannot be bound is released again |
| `Device.Driver.SubmitCmd` | modules/dnvme/cmd.c:914-1123 | Which create commands are refused and with what error, and that an error while preparing is passed on and changes nothing; on success who receives the page set: the command node, or the queue being created |
| `Device.Driver.HandleCmdCompletion` | modules/dnvme/queue.c:605-710 | A failed create or successful delete removes its target queue; an ordinary completion releases the node's pages; the node goes in either case |
| `Device.Driver.HandleBatch` | modules/dnvme/queue.c:730-765 | The entries of one reap are handled in order; the first that fails is counted and ends it |
| `DeviceOwnership.StepInv` | modules/dnvme/queue.c:605-671 | Each prepare, submit, completion and drop keeps one owner for every page set that is allocated and not released |
| `DeviceOwnership.OneOwnerReleasedOnce` | modules/dnvme/cmd.c:897-911 | In every run each page set ever allocated is released exactly once or has exactly one owner (one command node of one queue, an SQ or a CQ), given that creates carry a data buffer only for discontiguous I/O queues |
| `DeviceAnyRun.NeverSharedNorReleasedTwice` | modules/dnvme/cmd.c:985-990 | After any steps at all, clean creates or not, a page set has at most one owner, down to the node, has been released at most once, and has no owner once released |
| `DeviceOwnership.DropAllReleasesEverything` | modules/dnvme/queue.c:483-518 | After dropping all queues no page set is left unreleased |
| `DeviceOwnership.DropAllExactly` | modules/dnvme/queue.c:483-518 | A drop removes every queue; if the admin pair is kept, its submission queue keeps its settings and loses its commands, its completion queue is untouched; what is released is exactly what any command node and any discontiguous removed queue held |
| `DeviceOwnership.KeepAdminReleasesTheRest` | modules/dnvme/queue.c:435-449 | In every run a drop that keeps the admin pair releases the page set of every command, admin commands included, and of every other queue |
| `DeviceOwnership.CompletionTouchesOnlyItsTarget` | modules/dnvme/queue.c:605-671 | A completion takes the first node with its id; on the admin queue a failed create or successful delete removes exactly the queue it names, EINVAL and none for queue 0; no other queue changes |
| `DeviceOwnership.UnknownCompletion` | modules/dnvme/queue.c:684-701 | A completion for an unknown queue, or with an id that no node of its queue has, gives EBADSLT and changes nothing in the tables |
| `DeviceOwnership.RemovalEndsReap` | modules/dnvme/queue.c:684-690 | When an entry of a reap frees a submission queue, a later entry of the same reap for that queue is the last one handled, with EBADSLT, if the reap gets to it |
| `DeviceOwnership.GoneQueueEndsReap` | modules/dnvme/queue.c:684-690 | A reap never gets past an entry for a queue that is not in the table |
| `DeviceOwnership.BatchInv` | modules/dnvme/queue.c:730-765 | A reap of any entries keeps one owner for every live page set |
| `DeviceOwnership.BatchStopsAtFailure` | modules/dnvme/queue.c:730-765 | The entries handled in one reap are those through the first that fails, in order; every one before the last answered 0, and the answer of the reap is that of the last; it is 0 if and only if all entries answered 0 |
| `DeviceQueues.PrepareAnswers` | modules/dnvme/ioctl.c:351-424 | Preparing a queue: EINVAL for 0 or too many elements, EEXIST for an id in use, EINVAL for a discontiguous queue where those are not allowed, ENOMEM, or for a completion queue the error of binding its interrupt, tested in that order; exactly the queue asked for is added otherwise |
| `DeviceQueues.QueuesArePermitted` | modules/dnvme/ioctl.c:351-424 | From the empty tables, after any steps whatever, every queue has between 1 and the allowed number of elements and is contiguous where it must be |
| `DeviceQueues.SubmitRefusals` | modules/dnvme/cmd.c:1013-1123 | The answer of a submit in every case: unknown queue, create of an unprepared queue, of the other contiguity, without the buffer it needs, created before, or without its interrupt; an error changes nothing |
| `DeviceQueues.SubmitHandsOver` | modules/dnvme/cmd.c:839-983 | An accepted command adds its node at the end of its own queue; a new page set goes to the queue it creates, or to the node if it names no queue but 0; the created queue is marked, no other queue changes and nothing is released |
| `DeviceQueues.SecondCreateRefused` | modules/dnvme/cmd.c:1013-1123 | After an accepted create, whatever happens while the queue exists, another create of it is refused and changes nothing |
| `DeviceOwnership.UncleanCreateLeaks` | modules/dnvme/cmd.c:897-911 | The condition is needed: any accepted create that breaks it ends with a page set that nobody owns, and after whatever the driver does next it is still owned by nobody and not released |
| `DeviceOwnership.LostForever` | modules/dnvme/cmd.c:985-990 | A page set without an owner stays so, unreleased, through any sequence of prepares, submits, completions and drops |
| `PrpList.PagesToSgl` | modules/dnvme/cmd.c:84-114 | One scatter entry a page: fails exactly if memory or a page is missing; otherwise entry i lies in page i, and the entries cover the buffer, start at its offset and meet at page boundaries |
| `PrpList.MergeKeepsBuffer` | modules/dnvme/cmd.c:184-192 | Coalescing adjacent scatter entries changes neither the bytes nor the page-mapped form |
| `PrpList.TakePages` | modules/dnvme/cmd.c:755-773 | List pages are all taken, in order and different, or those already taken are given back, last one first, when tables or a page are refused |
| `PrpList.FillPrpList` | modules/dnvme/cmd.c:750-828 | The list pages hold the data entries 511 to a page with links in the last slots; a fault is reported exactly if a piece ends inside a page; no index reaches the number of pages allocated |
| `PrpList.LinkInRange` | modules/dnvme/cmd.c:751-799 | A link is written only while bytes remain, so it never points past the pages counted in advance |
| `PrpWalk.SetupPrps` | modules/dnvme/cmd.c:681-837 | Invalid exactly if a needed PRP1/PRP2 mask bit is missing, out of memory exactly if list pages are needed and refused; otherwise PRP1, PRP2 and the list are those of the chosen form, and PRP2 keeps what the user left there if one page is enough; a page-mapped scatter list never faults |
| `PrpWalk.NeedsByPages` | modules/dnvme/cmd.c:702-748 | The mask tests and list lengths, written in bytes and offsets, say the same as counting the pages touched |
| `PrpWalk.EntriesRecover` | modules/dnvme/cmd.c:788-826 | From a page-aligned or in-page position the entries written stand for exactly the bytes left, in order |
| `PrpWalk.ListWalk` | modules/dnvme/cmd.c:793-799 | Walking the list pages from any data position yields the pieces from there on |
| `PrpWalk.WalkRecoversBuffer` | modules/dnvme/cmd.c:681-837 | For every size, offset and coalescing, walking PRP1, PRP2 or the list gives back exactly the bytes of the buffer in order; for a queue buffer, provided its first scatter entry does not straddle a page boundary |
| `PrpWalk.WalkLength` | modules/dnvme/cmd.c:681-837 | The walk has one piece for each page the buffer touches |
| `PrpWalk.SetupAndWalk` | modules/dnvme/cmd.c:681-837 | From scatter list to walk, by the number of pages the buffer touches: which mask bits it needs (PRP1 a page, PRP2 a page for exactly two, PRP2 a list for more, PRP1 a list for a queue) and how many list pages; it is set up exactly if it has them, list pages are taken exactly for a queue or more than two pages, and the controller then walks as many pieces as pages and exactly the bytes in order, if and only if it is no queue buffer that straddles |
| `PrpWalk.StraddlingQueueBufferLost` | modules/dnvme/cmd.c:801-813 | A create-queue list whose first scatter entry starts inside a page and goes on past it never gives back the buffer |
| `PrpWalk.QueueBufferBoundary` | modules/dnvme/cmd.c:801-813 | For queue buffers the walk gives back the buffer if and only if the first scatter entry does not straddle so |
| `PrpWalk.StraddlingExample` | modules/dnvme/cmd.c:801-813 | A concrete 5000-byte buffer at page offset 256 that straddles |
| `PrpWalk.StandardWalkBoundary` | modules/dnvme/cmd.c:793-799 | A walker that takes the last slot as data when one page remains recovers the buffer, an ordinary one or a queue's, if and only if the list does not hold one entry more than a positive multiple of 511 and no queue buffer straddles |
| `SglDescriptors.CountSglDescNum` | modules/dnvme/cmd.c:296-329 | The count: one per scatter entry, one per bucket on an entry boundary, two per bucket elsewhere |
| `SglDescriptors.WeaveKeepsBytes` | modules/dnvme/cmd.c:331-452 | Leaving the holes out of the reference stream leaves every data byte once, in order |
| `SglDescriptors.WeavePlacesHoles` | modules/dnvme/cmd.c:331-452 | In the reference stream bucket i comes after as many data bytes as its offset says, or after all of them if the offset is larger |
| `SglDescriptors.WeaveIsSpliced` | modules/dnvme/cmd.c:331-452 | For acceptable buckets the reference stream touches every byte once in order and finds each bucket after exactly its offset |
| `SglDescriptors.SlackIsZero` | modules/dnvme/cmd.c:296-452 | Counted minus emitted is zero if and only if buckets strictly inside entries have distinct offsets and none lies past the data |
| `SglDescriptors.AcceptablePermutes` | modules/dnvme/cmd.c:268-294 | Whether buckets are acceptable does not depend on the order the user gave them in |
| `SglDescriptors.FillEntry` | modules/dnvme/cmd.c:364-431 | One scatter entry: every write is inside the counted number and continues the reference stream |
| `SglDescriptors.InitSglDescList` | modules/dnvme/cmd.c:331-452 | Never writes past the counted number, accepted or not; the number written equals it if and only if buckets inside entries differ and none lies past the data; the list is kept if and only if that number is also the one allocated; dropping the bucket entries then leaves every data byte once in order, and a bucket with offset o comes after exactly o data bytes |
| `SglSegments.FillSegments` | modules/dnvme/cmd.c:510-562 | Fills the pages with the descriptors 255 to a page and chain descriptors between, inside the pages allocated and touching no earlier page |
| `SglSegments.ChainYieldsList` | modules/dnvme/cmd.c:70-82 | Following segment and last-segment descriptors from any page yields the descriptors from there on, each segment as long as stated |
| `SglSegments.CmdSetupSgl` | modules/dnvme/cmd.c:459-582 | Which requests fail and with what error, among them a bucketless one whose pages were merged; otherwise, from the command, the chain yields exactly the counted descriptors, which touch every data byte once in order with every bucket of the user after exactly its offset, and there is no page more than needed |
| `SglSegments.MetaSetupSgl` | modules/dnvme/meta.c:22-98 | Out of memory exactly if a page is refused; otherwise from the leading descriptor page the chain yields one data descriptor per scatter entry in order, with no page more than needed |
| `SglSegments.MeaningOfEntries` | modules/dnvme/cmd.c:552-557 | Turning list entries into descriptors, address 0 becoming a bit bucket, keeps what a reader does |
| `Bits.Reverse8Bits` | lib/base/base.c:58-64 | Three mask-and-shift steps reverse the eight bits |
| `Bits.ReverseBits` | lib/include/libbase.h:66-82 | Reversing halves and swapping them reverses 16, 32 and 64 bits |
| `Crc.Instance.InitTable` | lib/crc/crc.c:170-194 | Entry i is the register after dividing byte i for eight steps |
| `Crc.LookupIsSerial` | lib/crc/crc.c:210-216 | One table lookup equals feeding eight message bits to the bit-serial divider, for every register and generator |
| `Crc.Instance.Calculate` | lib/crc/crc.c:196-224 | For every width, polynomial, initial value, reflection and message the result is that of bit-serial division, whatever polynomial the cached table was built for |
| `Crc.Instance.CalculateAll` | lib/crc/crc.c:196-224 | Any sequence of calls with changing polynomials gives each call the bit-serial result |
| `Crc.ReflectedIsLsbFirst` | lib/crc/crc.c:318-346 | With both reflections on, the result is that of the right-shifting register with bit-reversed generator and initial value |
| `Crc.SettingsAreIndependent` | lib/crc/crc.c:196-224 | Reflected input is the input with the bits of every byte reversed, reflected output the reversed result, the final value is added last, and no input leaves the initial value |
| `Crc.WindowDetected` | lib/crc/crc.c:292-346 | With the generator's bit 0 set, messages that differ only in a window no longer than the register divide differently |
| `Crc.BurstDetected` | lib/crc/crc.c:170-224 | So two messages of one length that differ only within width/8 consecutive bytes have different CRCs, under every configuration |
| `Crc.AppendedCrcLeavesZero` | lib/crc/crc.c:413-441 | Without reflection and final inversion, a message followed by its CRC, high byte first, leaves zero |
| `Crc.T10DifGuardsItself` | lib/crc/crc.c:274-283 | In particular for CRC-16/T10-DIF |
| `Crc.T10DifOfOne` | lib/crc/crc.c:274-283 | The generator is 8BB7h and the CRC of the byte 01h is 8BB7h |
| `JsonString.Utf8RoundTrip` | lib/json/core.c:681-732 | The UTF-8 bytes written for a code point decode to it |
| `JsonString.Utf16Literal` | lib/json/core.c:618-736 | A \u literal takes at least two input characters for each byte it yields |
| `JsonString.StringRoundTrip` | lib/json/core.c:739-987 | For every NUL-free byte string, parsing its printed form gives the string back and stops right behind it |
| `JsonString.UnicodeEscapeIsRead` | lib/json/core.c:618-736 | Every code point written as one \u escape or a surrogate pair, with the digits in any mixture of cases, is read as its UTF-8 bytes |
| `JsonString.HexDigits` | lib/json/core.c:581-615 | A character is a digit exactly if its lower-case form is one of the sixteen, and has that value |
| `JsonString.Hex4OfText` | lib/json/core.c:581-615 | Four digits in any mixture of cases have the value they spell |
| `JsonString.TwoCharacterEscapes` | lib/json/core.c:801-836 | What each of the eight two-character escapes stands for, the escaped slash included; any other character after a backslash, except u, is an error |
| `JsonString.LoneSurrogates` | lib/json/core.c:618-670 | A low surrogate alone, or a high one without a low one behind it, is an error |
| `JsonString.BadDigitsAreRead` | lib/json/core.c:581-615 | Four characters that are not all digits are not an error: they are read as code point 0 |
| `JsonString.EscapeForm` | lib/json/core.c:895-984 | Which characters are printed as they are, which as two characters and which as a \u escape |
| `JsonStringBuffers.CountEscapes` | lib/json/core.c:895-919 | The first pass of the printer counts exactly the extra characters escaping writes |
| `JsonStringBuffers.FillEscaped` | lib/json/core.c:938-984 | The second pass writes exactly the escaped text between the quotes |
| `JsonStringBuffers.PrintStringAt` | lib/json/core.c:927-986 | Quote, escaped text, quote and terminator fill exactly the size counted, and nothing before it changes |
| `JsonStringBuffers.ParseHex4` | lib/json/core.c:581-615 | The digit loop computes the value of four hexadecimal digits, or 0 if one is none |
| `JsonStringBuffers.WriteUtf8` | lib/json/core.c:681-732 | Continuation bytes written from the back and the marked first byte are the UTF-8 encoding |
| `JsonStringBuffers.Utf16LiteralToUtf8` | lib/json/core.c:618-736 | Takes 0 characters exactly for a malformed literal; otherwise writes its bytes and nothing before them |
| `JsonStringBuffers.FindEnd` | lib/json/core.c:752-775 | The first pass finds the closing quote and counts the backslashes stepped over |
| `JsonStringBuffers.WindowSkips` | lib/json/core.c:752-777 | In any window of n characters the first pass skips at most half of them, rounded up, wherever the second pass stands |
| `JsonStringBuffers.RoomAfter` | lib/json/core.c:785-843 | Every unit the second pass reads fits the space its input leaves, even when malformed escapes put the passes out of step |
| `JsonStringBuffers.FillUnescaped` | lib/json/core.c:785-843 | The second pass never writes past the first pass's allocation, for any text, and yields the unescaped string or an error |
| `JsonStringBuffers.ParseStringAt` | lib/json/core.c:739-865 | Parsing at an offset gives the string and the offset behind the closing quote exactly when the grammar accepts |
| `JsonParser.ParseBuffer.SkipWhitespace` | lib/json/core.c:1004-1026 | Moves past blanks but never past the last character |
| `JsonParser.ParseBuffer.TakeDigits` | lib/json/core.c:285-320 | Collects the leading digits within the 63-character buffer and their value |
| `JsonParser.ParseBuffer.ParseNumberHere` | lib/json/core.c:271-345 | Reads an integer, saturated to int |
| `JsonParser.ParseBuffer.ParseValueHere` | lib/json/core.c:1278-1330 | Dispatches on the first characters; value, new offset and restored depth are those of the grammar, on any text |
| `JsonParser.ParseBuffer.ParseArrayHere` | lib/json/core.c:1407-1502 | Arrays, with the nesting limit |
| `JsonParser.ParseBuffer.ParseItemsHere` | lib/json/core.c:1439-1479 | The item loop collects exactly the items of the grammar in order |
| `JsonParser.ParseBuffer.ParseObjectHere` | lib/json/core.c:1567-1677 | Objects, with the nesting limit |
| `JsonParser.ParseBuffer.ParseMemberHere` | lib/json/core.c:1623-1648 | A key, a colon and a value |
| `JsonParser.ParseBuffer.ParseMembersHere` | lib/json/core.c:1597-1655 | The member loop collects exactly the members of the grammar in order |
| `JsonParser.ParseText` | lib/json/core.c:1061-1144 | A whole text: byte order mark, blanks, one value, and on request nothing but blanks before the terminator |
| `JsonGrammar.NumberSound` | lib/json/core.c:271-345 | An accepted number is a sign and digits within the number buffer, read as the nearest int |
| `JsonGrammar.NumberComplete` | lib/json/core.c:271-345 | Every sign and digits that fit are read so; beyond the limits of int the limit is taken |
| `JsonGrammar.StringSound` | lib/json/core.c:739-865 | An accepted string is quoted text that has a meaning, which does not depend on what follows |
| `JsonGrammar.StringComplete` | lib/json/core.c:739-865 | Every quoted text with a meaning is accepted with that meaning |
| `JsonGrammar.ValueSound` | lib/json/core.c:1278-1330 | Whatever is accepted at any depth is the text of a well-formed syntax tree (with blanks only where they may stand) whose value is the result, nested within the limit |
| `JsonGrammar.ValueComplete` | lib/json/core.c:1278-1330 | The text of every well-formed syntax tree is accepted with its value and what follows, if and only if it nests within the limit |
| `JsonGrammar.ParseSound` | lib/json/core.c:1045-1144 | An accepted text is a byte order mark or none, blanks, the text of a well-formed tree nested at most 1000 deep whose value is the result, and, with the strict option, only blanks up to the terminator |
| `JsonGrammar.ParseComplete` | lib/json/core.c:1045-1144 | Every such text is accepted with that value, with a byte order mark or without, if and only if it nests at most 1000 deep |
| `JsonPrinter.PrintBuffer.Ensure` | lib/json/core.c:405-488 | Grows to hold what is needed and one more, keeping the text; with memory granted it fails exactly if that exceeds INT_MAX, or the buffer may not grow |
| `JsonPrinter.PrintBuffer.UpdateOffset` | lib/json/core.c:491-501 | The offset moves to the terminator |
| `JsonPrinter.PrintBuffer.PrintStringHere` | lib/json/core.c:868-987 | A string is written behind the text, inside the room reserved by the first pass |
| `JsonPrinter.PrintBuffer.PrintValueHere` | lib/json/core.c:1333-1404 | Any tree is written behind the text with its terminator, never outside the buffer, and the depth restored; with memory granted it is whenever text and two bytes fit the limit |
| `JsonPrinter.PrintBuffer.AppendItems` | lib/json/core.c:1528-1552 | The item loop adds the items and their separators |
| `JsonPrinter.PrintBuffer.PrintArrayHere` | lib/json/core.c:1505-1564 | The items in brackets, one level deeper |
| `JsonPrinter.PrintBuffer.AppendMembers` | lib/json/core.c:1707-1765 | The member loop adds tabs, keys, values, separators and line ends |
| `JsonPrinter.PrintBuffer.PrintObjectHere` | lib/json/core.c:1680-1791 | The members in braces, one level deeper, in both layouts |
| `JsonPrinter.CleanPrint` | lib/json/core.c:491-501 | Printed text holds no NUL, which is what finding its end by strlen relies on |
| `JsonPrinter.PrintText` | lib/json/core.c:1153-1226 | Printing gives the text and its terminator; with memory granted it succeeds if and only if the text and two bytes fit INT_MAX |
| `JsonPrinter.PrintPreallocated` | lib/json/core.c:1258-1275 | Printing into the caller's buffer succeeds if and only if it holds the text, its terminator and one byte more |
| `JsonRoundTrip.NumberRoundTrip` | lib/json/core.c:531-534 | Every int is read back from its decimal text |
| `JsonRoundTrip.LayoutText` | lib/json/core.c:1333-1791 | The printed text is the text of the syntax tree of that value with these blanks and no others: none unformatted; formatted, a space between items, a line and its tabs for every member, a tab before its value |
| `JsonRoundTrip.LayoutFormed` | lib/json/core.c:1278-1791 | That tree is well formed and has the value printed |
| `JsonRoundTrip.RoundTrip` | lib/json/core.c:1045-1144 | For every tree of null, booleans, ints, NUL-free strings, arrays and objects, in both layouts and with or without the check for trailing text, parsing the printed text gives the tree if it nests at most 1000 deep, and an error if and only if it nests deeper |
| `JsonPrinter.PrintAndParse` | lib/json/core.c:1141-1226 | The same of the running printer and parser, one after the other; printing fails only for lack of memory or beyond INT_MAX |
| `SiblingList.Node.GetArrayItem` | lib/json/core.c:1817-1844 | The index-th child, or null if there is none |
| `SiblingList.Node.GetObjectItem` | lib/json/core.c:1846-1866 | The first child with the key before any child without a name |
| `SiblingList.NamedFinds` | lib/json/core.c:1846-1866 | Among named children the search finds a key exactly when some child has it |
| `SiblingList.Node.AddItemToArray` | lib/json/core.c:1907-1938 | Appends; the result is a well-linked list if and only if the item was new and either the list was empty or the item had no next |
| `SiblingList.Node.AddItemToObject` | lib/json/core.c:1962-1995 | Adds exactly if the key is not found and can be copied; distinct keys stay distinct and the new member is found under its key |
| `SiblingList.Node.DetachItemViaPointer` | lib/json/core.c:2130-2164 | The list is the old one without the item, whose own links are cleared |
| `SiblingList.Node.DetachItemFromArray` | lib/json/core.c:2166-2174 | The index-th item goes and is returned loose; an index out of range changes nothing |
| `SiblingList.Node.InsertItemInArray` | lib/json/core.c:2194-2221 | The item stands at the index, or at the end if the index is too large; a negative index changes nothing |
| `SiblingList.Node.ReplaceItemViaPointer` | lib/json/core.c:2223-2270 | The replacement stands in the item's place, also for head, tail and single items |
| `SiblingList.Node.AttachParsed` | lib/json/core.c:1451-1489 | The links the parser sets between the nodes it makes give a well-linked list of them, in order |
| `SiblingList.Node.ReplaceItemInArray` | lib/json/core.c:2272-2280 | The new item stands at the index; an index out of range changes nothing |
| `SiblingList.Node.Run` | lib/json/core.c:1879-2270 | Any sequence of append, insert, detach and replace leaves the list equal to the same edits of a sequence, with head.prev the tail, tail.next null and links mutually inverse |
| `IrqSet.Set.CreateIrqNode` | modules/dnvme/irq.c:364-400 | Succeeds exactly for a pair already there or for an unused number and vector with memory; appends only in the second case |
| `IrqSet.Set.CreateWorkNode` | modules/dnvme/irq.c:459-497 | The same for work nodes |
| `IrqSet.Set.CreateIrqWorkPair` | modules/dnvme/irq.c:558-582 | Both lists gain the interrupt or, whichever allocation fails, both stay as they were |
| `IrqSet.Set.DestroyIrqWorkPair` | modules/dnvme/irq.c:584-589 | Both lists lose the interrupt |
| `IrqSet.Set.RequestVectors` | modules/dnvme/irq.c:694-702 | Handlers are requested in order up to the first refusal |
| `IrqSet.Set.BindVectors` | modules/dnvme/irq.c:694-721 | Handlers and nodes for every vector or for none; success exactly if all requests and allocations succeed, the vectors differ and no pending bit is set |
| `IrqSet.Set.SetIntPin` | modules/dnvme/irq.c:596-621 | Pin-based set-up and its rollback |
| `IrqSet.Set.SetIntMsiSingle` | modules/dnvme/irq.c:628-669 | Single-message set-up and its rollback |
| `IrqSet.Set.SetIntMsiMulti` | modules/dnvme/irq.c:676-722 | Multiple-message set-up; its rollback restores lists and handlers but leaves the vectors allocated |
| `IrqSet.Set.SetIntMsix` | modules/dnvme/irq.c:737-802 | MSI-X set-up and its rollback |
| `IrqSet.Set.CleanInterrupt` | modules/dnvme/irq.c:940-977 | Frees every handler once and empties both lists |
| `IrqSet.Set.SetInterrupt` | modules/dnvme/irq.c:989-1053 | When it succeeds and with what state; a failure after the parameter check leaves no scheme, lists, handlers or work queue; the PCI mode disagrees with the active type if and only if multiple-message MSI failed after allocating vectors |
| `IrqSet.Set.BindCq` | modules/dnvme/irq.c:301-318 | The list of that interrupt gains the completion queue at its end unless it has it already; an unknown number, or no memory, is an error and changes nothing |
| `IrqSet.Set.UnbindCq` | modules/dnvme/irq.c:329-343 | The list of that interrupt loses exactly this completion queue, the others staying in order; nothing changes if it was not bound or the number is unknown |
| `IrqSet.Set.Run` | modules/dnvme/irq.c:940-1053 | After every run of set, clean, bind and unbind, whatever fails: both lists hold the same pairs, numbers and vectors unique, requested handlers are exactly the vectors listed, and all is empty when no type is active |
| `IrqSet.AcceptedRequests` | modules/dnvme/irq.c:851-937 | Which requests pass the parameter check: none while the controller is enabled, one vector for single-message MSI, 1 to 32 within the limit of the device for multiple-message MSI, 1 to 2048 within its limit for MSI-X |
| `IrqSet.RequiredGrants` | modules/dnvme/irq.c:596-802 | What each scheme needs of the kernel to succeed: handlers, nodes, the mode switched on and, for MSI-X, distinct vectors and a clear pending-bit array |
| `NetlinkAttr.Parse` | lib/nvme/netlink.c:535-559 | On arbitrary bytes the loop ends, the table holds for each type the last attribute of that type in the stream, and a length past the stream is read exactly if the leftover is negative, without consequence |
| `NetlinkAttr.AttrTest` | lib/nvme/netlink.c:320-325 | The test as compared, unsigned first, decides as intended whatever a length read past the stream holds |
| `NetlinkAttr.NegativeLeftover` | lib/nvme/netlink.c:343-349 | The leftover is negative if and only if the rounded length of the last attribute passes the end of the stream, never for a stream whose length is a multiple of four, and never below -3 |
| `NetlinkAttr.NegativeExample` | lib/nvme/netlink.c:343-349 | Five bytes with an attribute of length five leave -3 |
| `NetlinkAttr.ReadOne` | lib/nvme/netlink.c:275-306 | An encoded attribute is read with its payload, its length modulo 65536 and the low 14 bits of its type |
| `NetlinkAttr.StreamOfPuts` | lib/nvme/netlink.c:320-349 | Reading a stream of encoded attributes finds exactly those, in order, with zero bytes left over |
| `NetlinkAttr.LastIsLastPut` | lib/nvme/netlink.c:542-553 | The last attribute found of a type carries the payload of the last put of that type |
| `NetlinkAttr.Message.ReserveRoom` | lib/nvme/netlink.c:153-171 | Reserves rounded-up room with cleared padding, or leaves the message unchanged |
| `NetlinkAttr.Message.GenlPut` | lib/nvme/netlink.c:648-660 | The generic header takes four bytes behind the message header |
| `NetlinkAttr.Message.Reserve` | lib/nvme/netlink.c:367-385 | Header and cleared padding behind the message, or no change if it does not fit; the length field keeps 16 bits |
| `NetlinkAttr.Message.PutAttr` | lib/nvme/netlink.c:387-400 | A put that does not fit changes nothing; one that fits appends its encoding; its payload can be read back if and only if its length fits 16 bits |
| `NetlinkAttr.Message.PutAll` | lib/nvme/netlink.c:387-400 | A sequence of puts appends the encodings of those that fit, in order |
| `NetlinkAttr.PutAndParse` | lib/nvme/netlink.c:679-691 | After any sequence of puts, parsing gives for each type the payload of its last accepted put, nothing for absent types and zero bytes left over |

## Left out

- Page pinning, `vmap`, DMA mapping, MMIO, PCI configuration and interrupt delivery: foreign kernel code, seen only through its answers.
- `dnvme_reap_cqe_legacy`, `dnvme_test_iops` and the polling around reaps: they add no step to the ring protocol, or bypass it.
- 65536-element completion queues: outside the ring protocol, because of the 16-bit tail; `WideScanDiverges` says what happens there.
- The second `dnvme_cmd_setup_sgl` (modules/dnvme/cmd.c:585-660): disabled by `#if 0`.
- Fetching and modifying PRP lists and SGL segments of commands in flight (modules/dnvme/cmd.c:1303-1640).
- CMB, PMR and HMB set-up, the proc interface, netlink sockets, ioctl dispatch and debug printing: plumbing.
- Admin queue creation and the branches of queue allocation for CMB memory: easy members.
- Device.Driver.DeleteAllQueues: resetting ring pointers, ids, phase and memory of a kept admin pair (modules/dnvme/queue.c:440-458) is left out, since the tables hold no rings; for the ring protocol it is the start of a new run.
- CompletionQueue.Queue.ReapCqe: says when the fired flag is to be reset and the interrupt unmasked; the reset and the unmasking themselves are not modelled.
- QueueProtocol.ProtocolIsSafe: the set of submission queues is fixed during a run; queues that come and go are in `Device` and `DeviceOwnership`.
- JsonParser.ParseBuffer.ParseNumberHere: covers integers; a fraction, an exponent or a lone sign counts as an error here, because what the original does with them is `strtod` and floating point.
- JsonParser.ParseBuffer.ParseValueHere: numbers are integers only, as above; failed allocations of nodes and strings while parsing are not modelled.
- JsonParser.ParseText: the same, and the error position it reports is left out.
- JSON printing of non-integers, raw nodes, references, `cJSON_Minify`, duplicate, compare, allocation hooks and texts without a terminating NUL.
- SglSegments.MetaSetupSgl: takes the number of scatter entries for the number of mapped pages; with merged pages the source walks past the end of the scatter list.
- JsonParser.ParseBuffer.ParseItemsHere: collects items in a sequence; the links set between the nodes are modelled apart, by `SiblingList.Node.AttachParsed`.
- JsonParser.ParseBuffer.ParseMembersHere: the same for members.
- SiblingList.Node.ReplaceItemViaPointer: the freed item is only unlinked; freeing memory is not modelled.
- SglSegments.FillSegments: the list it copies is a sequence; the pages it fills are an array.
- IrqSet.Set.BindVectors: one member for the loops that MSI and MSI-X set-up share; masks, the MSI-X table and the pending-bit array are reduced to one answer of the kernel.
- The interrupt service routine, its work items and the reset of fired flags.
- NetlinkAttr.PutAndParse: the header fields other than the length, and sending and receiving, are not modelled.
- The named CRC configurations other than T10-DIF: constants passed to the same function.
- `lib/nvme/queue.c`, `lib/nvme/core.c` and the applications: wrappers around ioctls.
