# A verified model of the runtime's algorithmic core

The repository is a microVM runtime. Most of it talks to hypervisors, sockets and files. This project
models the parts that carry an algorithm of their own and proves what they promise, over every input
and every run:

- the flattened devicetree writer (`Fdt.dfy`, `FdtBuild.dfy`), against a reader written from sections
  5.2 to 5.5 of the Devicetree Specification;
- the NVMe controller: PRP list walking, coalesced transfers and the zero-copy path (`NvmePrp.dfy`,
  `NvmeTransfer.dfy`, `NvmeCommands.dfy`) and what they do to each byte (`NvmeBytes.dfy`), the completion
  ring, doorbells and the interrupt line (`NvmeQueue.dfy`), and what admin commands leave behind
  (`NvmeAdmin.dfy`), after sections 4.3 and 4.6 of the NVMe Base Specification 1.4;
- the OCI layer merge (`OciActions.dfy`, `OciLayers.dfy`), which tar entry each node of the index comes from
  (`OciOrigin.dfy`), what the image specification's `layer.md` makes of it (`OciSpec.dfy`) and the directory
  tree built from it (`OciTree.dfy`);
- the image overlay (`Overlay.dfy`);
- the userspace TCP stack: reassembly (`TcpReceive.dfy`, `TcpReassembly.dfy`), delivery by several threads (`TcpDeliver.dfy`),
  windowed sending and the retransmission queue (`TcpSend.dfy`), batched draining (`TcpDrain.dfy`) and the
  Internet checksum (`Checksum.dfy`);
- the CVMFS client: pruned catalog lookup (`CvmfsCatalog.dfy`), ranged reads of chunked files
  (`CvmfsRange.dfy`) and the reference-counted publication locks (`CvmfsLocks.dfy`);
- the daemon's concurrent objects: the watchdog (`Watchdog.dfy`), the per-VM operation chain
  (`OperationChain.dfy`) and the bounded exec-input queue (`ExecInputs.dfy`).

`Bytes.dfy`, `ByteStrings.dfy`, `Paths.dfy` and `Common.dfy` hold machine words, byte strings in sort
order, cleaned paths and small shared definitions. `dafny verify dfyconfig.toml` checks the whole project.

How to read it. Code that changes state is a class or a method with loops, proved against a function on
values or against an invariant that every step keeps; what the code is for is then a lemma about that
function, or the invariant itself. Concurrent code is modelled step by step: one method per critical
section, and a `Run` method that takes any schedule of steps. Time, random numbers, the network, guest
memory and the object store are parameters: a logical clock, a schedule of acknowledgments, a flat byte
store, a function from hash to bytes.

Nine properties that one might expect are not what the code does. Each has a concrete counterexample and
an exact condition:

- `NvmeRing.FullRingRewrite`, `NvmeRing.AdvanceInStep`: a driver that rewrites an unmoved head while the
  completion ring is full is taken to have consumed everything.
- `CvmfsRange.ByteRangeWraps`, `CvmfsRange.ByteRangeExact`: a request whose end lies beyond 2^63 - 1 wraps
  to an end before its start.
- `CvmfsCatalog.RootMountHides`, `CvmfsCatalog.PruneIsExact`, `CvmfsCatalog.LookupExact`: a nested catalog
  mounted at the root is pruned from every lookup but that of the root. A lookup finds what the full walk finds
  first unless the first visit lies behind such a mount and no equal entry comes first elsewhere.
- `OperationChain.CancelledWhileWaiting`, `OperationChain.GiveUpIsSafe`: an operation that is cancelled while it
  waits closes its channel early. That is safe exactly when its turn had come; otherwise at most three steps lead
  to two operations of the VM running at once.
- `Watchdog.ExpireOverLease`, `Watchdog.DisturbedOnlyByCreation`: the expiry callback is decided on when
  nothing is left to wait for, but invoked after the lock is given up. It meets a deadline that is still ahead
  exactly when a watchdog or a lease was created in between and, by the steps that followed, has time left.
- `NvmeCommands.FailedReadDiffers`, `NvmeCommands.ReadPathsAgree`: a backend that stores something and then
  fails leaves it in guest memory on the zero-copy path alone. The paths of a read leave the same memory exactly
  when the backend does not fail, or stored only what was there, and report the same exactly when it does not fail.
- `NvmeCommands.ShortWriteDiffers`, `NvmeCommands.WritePathsAgree`: a short write without an error is refused on
  the zero-copy path and reported as complete on the other. The paths report the same exactly when the backend
  takes everything without an error.
- `OciSpec.OwnWhiteoutRemoves`, `OciSpec.TopMarkerRemovesNothing`, `OciSpec.ReplacedDirectoryStays`,
  `OciSpec.LayerExact`, `OciSpec.ImageExact`: the merge departs from `layer.md`. A whiteout also removes what its
  own layer added before it; an opaque marker at the top level, or a whiteout of the root, hides nothing below the
  root; a file put over a directory leaves what was in the directory, and building the tree then fails. A layer
  gets its meaning exactly when its last entry for the path has no whiteout behind it that covers the path, and it
  is not so that the path is there below, unnamed in the layer, and hidden only by what is overlooked. A list of
  layers does so exactly when no layer goes wrong with nothing later to make up for it.
- `TcpDeliver.LaterHandlerFirst`, `TcpDeliver.DeliveryExact`: a handler gives up the lock before it enqueues, and
  a full channel drops. All segments end up in the channel in stream order exactly when every handler enqueues in
  the order in which the lock was held and finds room.

Where code and documentation differ, the model follows the code. A hard link resolves to the last entry of its
own layer that names the target even after a whiteout removed that entry. In the catalog walk the branch for a
parent hash `0:0` outside the resolved paths is never taken, because the walk starts with that hash resolved.

Assumptions, stated in the contracts: PRP list pages are not themselves written by the transfer, the value of
a submission doorbell lies below the queue size, and list pointers are read as whole pages; sequence-number
claims hold for streams below 2^32 bytes (receiving) and below 2^31 bytes (sending, with Nagle's algorithm
off); a peer acknowledges only what was sent; hashes in CVMFS catalogs stand for one path each, parent links
lead upwards and names are plain.

## Model

| member | source | states |
|---|---|---|
| FdtBuild.Build | internal/fdt/build.go:22-28 | fails exactly when some property does not define exactly one value kind; otherwise a blob with NUL-free names below 4 GiB reads back, by the specification's reader, as the whole tree: names, children in order, properties in ascending order of their names, and for each key a value from which its data can be told: each string and its NUL at its place, four big-endian bytes for each 32-bit number and eight for each 64-bit one, the raw bytes, or nothing for a flag |
| FdtBuild.Builder.EmitNode | internal/fdt/build.go:36-60 | appends exactly the node's layout for the final string offsets, keeps the structure block aligned and every offset handed out earlier |
| FdtBuild.Builder.EmitProperties | internal/fdt/build.go:39-50 | the properties in ascending key order, whatever order the map yields them in |
| FdtBuild.Builder.EmitChildren | internal/fdt/build.go:52-56 | the children in order, failing exactly when one of them is not defined |
| FdtBuild.Builder.EmitProperty | internal/fdt/build.go:62-103 | rejects a property unless it has exactly one kind, else writes a value that carries its data, byte by byte |
| FdtBuild.Builder.BeginNode | internal/fdt/build.go:105-110 | token, name, terminating zero and padding |
| FdtBuild.Builder.WriteProperty | internal/fdt/build.go:116-125 | token, length, name offset and padded value; the table keeps all earlier offsets |
| FdtBuild.Builder.StringOffset | internal/fdt/build.go:159-168 | a name has one offset, which stays valid as the table grows; a known name adds nothing |
| FdtBuild.Builder.PadStruct | internal/fdt/build.go:176-180 | zero bytes up to the next multiple of four and no more |
| FdtBuild.Builder.Finish | internal/fdt/build.go:127-157 | the blob of the two blocks |
| FdtBuild.Assemble | internal/fdt/build.go:134-156 | the header filled in place, the empty reservation map and the two blocks, byte for byte |
| FdtBuild.TableExtends | internal/fdt/build.go:159-168 | a name appended to the string table leaves every offset valid and makes the new one valid |
| FdtBuild.BlobReads | internal/fdt/build.go:127-157 | the specification's reader gets both blocks back from any blob below 4 GiB |
| FdtBuild.HeaderReads | internal/fdt/build.go:134-156 | the ten header words at their places: magic number, sizes, offsets and versions |
| FdtLayout.NodeReads | internal/fdt/build.go:36-60 | a node laid out anywhere in a block, with any offsets valid for its names, reads back as the node |
| FdtLayout.StructReads | internal/fdt/build.go:22-60 | a whole structure block reads back as the tree it was made from |
| FdtFormat.WordsRoundTrip | internal/fdt/build.go:79-92 | cell values of any width are recovered from their bytes |
| FdtFormat.StringsRoundTrip | internal/fdt/build.go:72-78 | NUL-free strings are recovered from the joined value |
| FdtFormat.EncodeCarries | internal/fdt/build.go:71-100 | the value of a property of any kind, by positions: its length and every string, number or byte in it; splitting the value gives the list back |
| FdtLayout.CanonShows | internal/fdt/build.go:36-60 | the tree that is read has the node's name, just its keys in ascending order, for each a value that carries the property, and its children, at every depth |
| FdtBuild.EncodeStrings | internal/fdt/build.go:72-78 | the string loop builds the NUL-terminated strings one after another |
| FdtBuild.EncodeWords | internal/fdt/build.go:79-92 | the cell loop builds the big-endian cells one after another |
| ByteStrings.SortStringsSorts | internal/fdt/build.go:40-44 | sorting distinct names gives the one ascending listing of them |
| ByteStrings.LessAtDifference | internal/fdt/build.go:40-44 | the order of names is decided at the first difference, a name before its extensions |
| NvmePrpSpec.EntryAt | internal/nvme/controller.go:570-626 | the k-th entry that walking finds is in the slot and list page that section 4.3 of NVMe 1.4 puts it in, with page / 8 slots to a page |
| NvmePrpSpec.EntryIsLittleEndian | internal/nvme/controller.go:605-620 | on little-endian memory that entry is the number in eight bytes of that list page |
| NvmePrpSpec.ChainPageNext | internal/nvme/controller.go:605-620 | each list page is named by the last of the page / 8 slots of the one before it; zero or an unmapped address ends the chain |
| NvmePrpSpec.EntryPositionClosed | internal/nvme/controller.go:599-620 | where entry k of n lies, in closed form: pages of e - 1 entries, the last one of up to e |
| NvmePrpSpec.CountIsCeiling | internal/nvme/controller.go:585-585 | the divided entry count is the number of pages the bytes take |
| NvmePrpSpec.PlanTiles | internal/nvme/controller.go:748-809 | a complete plan's pages tile the command's bytes from first to last, without gap or overlap |
| NvmePrpSpec.RunMove | internal/nvme/controller.go:748-809 | one transfer over adjacent pages does to memory, buffer and failure what one transfer per page does |
| NvmePrpSpec.EntriesFrame | internal/nvme/controller.go:570-626 | a walk reads the same entries from memories that agree on its list pages |
| NvmeTransfer.StartWalk | internal/nvme/controller.go:570-585 | the walk starts in front of its first entry with all bytes remaining |
| NvmeTransfer.Load | internal/nvme/controller.go:587-620 | one list page: its usable entries, and the next list address from its last slot |
| NvmeTransfer.Next | internal/nvme/controller.go:586-625 | the callbacks get the prescribed entries one after another, with chunks that sum to the length; it fails exactly when the chain breaks |
| NvmeTransfer.Controller.TransferPage | internal/nvme/controller.go:818-834 | one page, or a refusal that leaves memory alone |
| NvmeTransfer.Controller.AddPage | internal/nvme/controller.go:788-804 | one callback of the coalescing loop keeps the flushed pages and the open run in step with the page list |
| NvmeTransfer.Controller.TransferLoop | internal/nvme/controller.go:775-809 | walking with coalesced runs succeeds exactly when page-by-page transfer of the whole list does, with the same memory |
| NvmeTransfer.Controller.Transfer | internal/nvme/controller.go:748-809 | transferPRP equals one transfer per page in list order, duplicate pages included, and fails exactly when that fails; then a first part of the pages has been moved and nothing else; a read of guest memory leaves it unchanged; what that does to each byte is in the NvmeBytes rows |
| NvmeTransfer.Controller.Contiguous | internal/nvme/controller.go:544-568 | accepts exactly the commands whose complete list names consecutive addresses; by NvmeBytes.StretchByPages, each page starts where one stretch from PRP1 has it |
| NvmeTransfer.ZeroCopyAgrees | internal/nvme/controller.go:496-568 | for a contiguous command one access at PRP1 over the whole length equals the page-by-page reference |
| NvmeBytes.PlanByte | internal/nvme/controller.go:748-809 | for every byte i of a command with a complete list: it lies at PRP1 + i while PRP1 mod page + i is below page; else at offset (PRP1 mod page + i) mod page of page (PRP1 mod page + i) / page - 1 behind the first, which is PRP2 if one page is enough for the rest and that entry of the list if not |
| NvmeBytes.CommandReads | internal/nvme/controller.go:748-834 | a read of guest memory gives every byte of the buffer what lies at that address |
| NvmeBytes.CommandWrites | internal/nvme/controller.go:748-834 | a write puts every byte at its address, unless a later byte of the command goes there too |
| NvmeBytes.CommandSpares | internal/nvme/controller.go:748-834 | and changes no byte of guest memory where none of the command's bytes lies |
| NvmeBytes.CommandSucceeds | internal/nvme/controller.go:748-834 | a transfer succeeds if and only if the list, where one is needed, is complete, every byte's address is mapped and no page is at address zero |
| NvmeBytes.ListCompletes | internal/nvme/controller.go:586-625 | the walk gets to the end of the list if and only if the list page that holds the last entry is reached |
| NvmeBytes.StretchByPages | internal/nvme/controller.go:544-568 | the pages are consecutive if and only if every page start i of the command lies at (PRP1 + i) mod 2^64 |
| NvmeCommands.Namespace.TakesSlice | internal/nvme/controller.go:496-568 | the zero-copy path is open exactly when slices work and the command's pages are one mapped stretch |
| NvmeCommands.Namespace.ExecuteRead | internal/nvme/controller.go:436-452 | while the backend does not fail, whichever path is taken, guest memory ends up as if what the backend delivered, zero-filled behind its count, had been moved page by page, and the command fails exactly when that fails, with a first part of the pages moved; for a backend that reads its content that is the device block. When it fails, the zero-copy path leaves in guest memory what was stored and ends in an error, the other leaves memory alone and ends in status 1 |
| NvmeCommands.Namespace.ExecuteWrite | internal/nvme/controller.go:453-468 | whichever path is taken, what the backend stores, all of it or the part it stored before failing, comes from the command's pages in list order, and guest memory is unchanged; nothing is stored when a page cannot be read; a short count is an error on the zero-copy path alone |
| NvmeCommands.ReadPathsAgree | internal/nvme/controller.go:496-517 | for a contiguous command, the two paths of a read leave the same memory if and only if the backend does not fail or stored only what was there, and report the same if and only if it does not fail |
| NvmeCommands.FailedReadDiffers | internal/nvme/controller.go:507-514 | a read that fails after one byte and leaves guest memory changed on the zero-copy path alone |
| NvmeCommands.WritePathsAgree | internal/nvme/controller.go:519-542 | the two paths of a write report the same if and only if the backend takes everything without an error |
| NvmeCommands.ShortWriteDiffers | internal/nvme/controller.go:534-540 | half a block stored without an error: refused on one path, complete on the other |
| NvmeCommands.GatherMove | internal/nvme/controller.go:519-542 | reading pages that tile a buffer fills it with their bytes in order, whatever it held before |
| NvmeCommands.SourceAt | internal/nvme/controller.go:519-542 | byte i of what a write command takes is the one at its address |
| NvmeCommands.DeviceBlockAt | internal/nvme/controller.go:446-452 | byte i of what a read delivers is the backend's at offset + i, or zero behind its end |
| NvmeCommands.StoredAt | internal/nvme/controller.go:465-468 | every byte of the backend after a write: the data's in its range, the old one elsewhere |
| NvmeRing.SlotIsRemainder | internal/nvme/controller.go:677-683 | slot, lap and phase of the k-th completion are k mod size, k / size and the parity of k / size |
| NvmeRing.PostInStep | internal/nvme/controller.go:660-685 | a completion keeps ring and history in step if and only if the ring has room |
| NvmeRing.AdvanceInStep | internal/nvme/controller.go:717-738 | a new head after taking n of the pending completions keeps them in step if and only if it is not an unmoved head on a full ring |
| NvmeRing.LawfulRun | internal/nvme/controller.go:660-738 | over every lawful run of completions and doorbells the ring holds the last lap of the history and counts posted minus consumed |
| NvmeRing.RunPositions | internal/nvme/controller.go:660-738 | the same in numbers: slot k mod size, phase set iff k / size is even, head + pending mod size is the tail, pending is posted minus consumed |
| NvmeRing.FullRingRewrite | internal/nvme/controller.go:729-732 | the run in which a full ring loses its pending count |
| NvmeQueues.Queue.WriteCompletion | internal/nvme/controller.go:660-685 | posts one completion to the ring, or changes nothing when guest memory refuses it |
| NvmeQueues.Queue.AdvanceHead | internal/nvme/controller.go:717-738 | for every value written, also one outside the ring: the head moves to its remainder and the pending count falls by what that takes; an empty queue has a branch of its own |
| NvmeQueues.Controller.ProcessSubmissions | internal/nvme/controller.go:287-319 | every command up to the new tail is answered exactly once and in order in its completion ring, which needs no submission ring of its own; admin commands between head and tail make and delete exactly the queues they name meanwhile, the admin queue's own deletion included, every queue that none of them makes is unchanged, whatever the other slots hold, and the interrupt line then tells whether completions are pending; with a completion queue that is missing or that guest memory refuses, it succeeds exactly when nothing is to be answered, and the first command that is has been carried out before that fails |
| NvmeQueues.Controller.Complete | internal/nvme/controller.go:305-317 | the head moves on, and the answer is posted if the completion queue exists and can be written |
| NvmeQueues.Controller.RingSubmission | internal/nvme/controller.go:279-282 | the same for a doorbell that moves the tail |
| NvmeQueues.TailOutsideIsNeverReached | internal/nvme/controller.go:287-303 | with a tail outside the ring no number of commands taken ends the loop |
| NvmeQueues.Controller.RingCompletion | internal/nvme/controller.go:283-284 | moves the head of any queue, and the interrupt condition holds |
| NvmeQueues.Controller.WriteDoorbell | internal/nvme/controller.go:272-285 | decodes queue and direction; a missing queue changes nothing, the line included; a completion doorbell asks nothing of the queue; after success on a queue that exists the line is high iff unmasked and some interrupting queue has pending completions; after an admin doorbell all other queues are what its submissions make of them |
| NvmeQueues.Controller.ChangeQueues | internal/nvme/controller.go:357-384 | an admin command makes or deletes exactly the queue it names and keeps every queue under its own number; Create Submission Queue sets its size, (field + 1) mod 2^16, address, completion queue and ring from the command's own fields, and Create Completion Queue its size, address, interrupt flag, phase and ring; no other queue changes |
| NvmeAdmin.LastCommandDecides | internal/nvme/controller.go:357-384 | for every batch of admin commands: the last one that makes or deletes a queue decides its size and the ring it is about, from its own fields, or that the queue is gone |
| NvmeAdmin.LastSubmissionSide | internal/nvme/controller.go:370-382 | the last creation of a submission queue sets its address and its completion queue, even with a creation of the completion queue of that number behind it |
| NvmeAdmin.LastCompletionSide | internal/nvme/controller.go:357-369 | the same for address, interrupt flag and phase of a completion queue |
| NvmeAdmin.UntouchedStays | internal/nvme/controller.go:357-384 | a queue that no command makes or deletes stays as it is |
| NvmeAdmin.DoorbellChanges | internal/nvme/controller.go:287-319 | what a doorbell leaves of the queues is what its submissions, in ring order, make of them |
| NvmeAdmin.SubmittedAt | internal/nvme/controller.go:287-303 | the submissions of a doorbell are the slots from head to tail, the first following the last |
| NvmeAdmin.OwedAt | internal/nvme/controller.go:305-317 | the completion of each answered command has the command's number and queue, the head behind the command, and the result and status of running it, in order |
| NvmeAdmin.OwedCount | internal/nvme/controller.go:298-308 | completions are owed for all commands but asynchronous event requests on the admin queue, and none if one of them cannot be carried out |
| NvmeAdmin.RingNewPair | internal/nvme/controller_test.go:75-127 | an admin doorbell whose submissions make a completion queue and a submission queue that names it, then commands in the new ring and its doorbell: the completions are in the ring of the completion queue that the creation named |
| NvmeQueues.Controller.CreateSubmissionQueue | internal/nvme/controller.go:370-382 | a submission ring with its completion queue; indices start at zero if the queue is new and are kept if it is not; a completion ring that is there is cut to the new size |
| NvmeQueues.Recut | internal/nvme/controller.go:409-424 | a ring that stays at its address keeps its entries up to the new size and goes on with what lies behind |
| NvmeQueues.Controller.UpdateIRQ | internal/nvme/controller.go:687-715 | the line is high exactly when the mask bit is clear and some interrupt-enabled queue has pending completions |
| NvmeQueues.Controller.SetMask | internal/nvme/controller.go:189-191 | the interrupt condition holds after the mask is set |
| NvmeQueues.Controller.ClearMask | internal/nvme/controller.go:192-194 | the interrupt condition holds after the mask is cleared |
| NvmeQueues.Controller.CreateCompletionQueue | internal/nvme/controller.go:357-369 | a completion ring at the given address, fresh if the queue is new; a submission ring that is there is cut to the new size; the size field 65535 gives an empty queue |
| NvmeQueues.PostAllInStep | internal/nvme/controller.go:287-319 | a batch of completions that fits keeps ring and history in step |
| Paths.PrefixTest | internal/oci/indexedfs.go:659-666 | on cleaned paths the test for target and slash as a string prefix means lying below the target, and nothing when the target is the root |
| Paths.ParentFirst | internal/oci/indexedfs.go:80-80 | sorting by spelling puts every directory before what is below it |
| OciActions.SurvivorIsFound | internal/oci/indexedfs.go:512-619 | the node of the last entry naming a path that no later whiteout covers is the one found |
| OciActions.FoundSurvives | internal/oci/indexedfs.go:512-619 | nothing is found for a path unless such an entry exists |
| OciMerge.BuildState.DeleteBelow | internal/oci/indexedfs.go:659-666 | removes exactly the covered paths from both maps and changes nothing else |
| OciMerge.BuildState.ApplyEntry | internal/oci/indexedfs.go:520-617 | one tar entry has exactly its action on the index or is an error; by the entry's own fields: which path it writes, which paths a whiteout or marker takes away, and kind, attributes, size, blob, offset and link of the node, a hard link with size, blob and offset of the node its target has, looked up in this layer first |
| OciActions.LinkTarget | internal/fsmeta/meta.go:40-42 | as long as the link name, with every backslash a slash and nothing else changed |
| OciMerge.BuildState.ApplyLayer | internal/oci/indexedfs.go:512-619 | a layer is its entries' actions in order; it fails exactly when one of them is an error |
| OciMerge.BuildState.ApplyLayers | internal/oci/oci.go:1023-1033 | after any list of layers every path maps to the node of the last uncovered entry naming it; said of the tar entries by their positions: just the paths with a last writer are there, each with the node that this entry makes, a hard link with the size, blob and offset of the node that the entry it refers to makes; it fails exactly when some entry is not accepted; the metadata map has the same paths, with owner, mode, device and link of their nodes |
| OciOrigin.ImageSourced | internal/oci/indexedfs.go:555-617 | any index that shows an image's actions holds what the tar entries say by their positions |
| OciOrigin.RunMakes | internal/oci/indexedfs.go:555-617 | every entry that writes a path makes the node its type calls for: attributes of its own; regular files with their size, blob and offset, devices with size zero, directories and symbolic links without data, links with every backslash a slash; a hard link with the data of the last entry of its layer before it that writes the target, else of the one in force |
| OciOrigin.IndexedFileHasData | internal/oci/indexedfs.go:555-604 | every file of the index, through any number of hard links, has the blob, offset and size of a regular or device entry of the layer with that blob |
| OciOrigin.ImageAccepted | internal/oci/indexedfs.go:520-605 | an image has an index if and only if no entry has a refused name, an unsupported type, or is a hard link that refers to no file |
| OciMerge.BuildState.EnsureParents | internal/oci/indexedfs.go:621-657 | adds exactly the missing ancestors as default directories, and the root to the node map alone; everything else is unchanged |
| OciSpec.MergedLayer | internal/oci/indexedfs.go:512-619 | what the merge makes of a layer over what lies below, by whether the layer names the path, covers it behind its last entry, or covers it at all |
| OciSpec.LayerExact | internal/oci/indexedfs.go:536-606 | for all actions below, all layers and all paths: the path means what `layer.md` says if and only if the layer's last entry for it is not followed by a whiteout covering it, and it is not there below, unnamed and hidden only by what the merge overlooks |
| OciSpec.OwnWhiteoutRemoves | internal/oci/indexedfs.go:549-553 | a file and then its whiteout in one layer: the file is gone |
| OciSpec.TopMarkerRemovesNothing | internal/oci/indexedfs.go:539-548 | an opaque marker at the top level over a file: the file stays |
| OciSpec.ReplacedDirectoryStays | internal/oci/indexedfs.go:606-607 | a file over a directory: what was in the directory stays |
| OciSpec.ImageExact | internal/oci/oci.go:1023-1033 | for all lists of layers and all paths: merging gives the path its meaning if and only if no layer undoes its own entry, with no later layer touching the path, and none misses the path, with no later layer naming or covering it |
| OciSpec.MergeMeetsSpec | internal/oci/oci.go:1023-1033 | the same for the index that an image's layers are merged into |
| OciTree.BuildRoot | internal/oci/indexedfs.go:77-125 | on nodes in any order, one per path: succeeds exactly when every indexed path lies in an indexed directory, and the tree then shows the index |
| OciTree.LookupPath | internal/imagefs/imagefs.go:118-142 | component-wise lookup finds exactly the indexed paths, each with its node |
| OciTree.IndexedDir.ReadDir | internal/oci/indexedfs.go:249-264 | every entry once, in ascending order of the names, with its kind and mode |
| OciTree.ReadDirShows | internal/oci/indexedfs.go:249-264 | in a tree that shows an index that listing has exactly the indexed children, with the kind and mode they are indexed with |
| OciTree.ListIndex | internal/oci/indexedfs.go:54-61 | the index as a list sorted by spelling, every path once, standing for the same index |
| OciTree.ImageIsTreelike | internal/oci/indexedfs.go:77-125 | with the ancestors added, the index makes a tree exactly when everything that survives lies below directories |
| OciTree.BuildImage | internal/oci/oci.go:1023-1065 | from layers to a root directory: succeeds exactly when no entry is an error and what survives lies below directories; the tree then shows exactly the surviving paths and their ancestors; the same said of the tar entries: every entry is accepted and what is written lies below what directory entries wrote, and the index has the nodes those entries make and default directories above them |
| OverlayFs.Overlay.constructor | internal/imagefs/overlay.go:18-27 | a new overlay shows its base |
| OverlayFs.EnsureDir | internal/imagefs/overlay.go:114-161 | succeeds exactly when no file or link lies on the way, then adds just the missing directories; when it fails, nothing visible has changed although wrappers may have been made |
| OverlayFs.Overlay.AddDir | internal/imagefs/overlay.go:36-39 | the visible tree is the base with all edits so far applied in order; wrapped directories keep their base children |
| OverlayFs.Overlay.AddFile | internal/imagefs/overlay.go:41-62 | a file appears and hides everything below its path; a failed call changes nothing visible |
| OverlayFs.Overlay.AddDevice | internal/imagefs/overlay.go:64-82 | the same for a device node |
| OverlayFs.Overlay.AddSymlink | internal/imagefs/overlay.go:84-102 | the same for a symbolic link |
| OverlayFs.Overlay.LookupPath | internal/imagefs/imagefs.go:118-142 | finds at every path what the base with the edits has there, through wrappers and base directories |
| OverlayFs.Overlay.ReadDir | internal/imagefs/overlay.go:195-223 | lists a name exactly when a lookup finds it, as what it finds, every name once and in ascending order |
| OverlayView.WrapShows | internal/imagefs/overlay.go:138-158 | a wrapper put where no override was changes no visible path, or adds one empty directory |
| OverlayView.LeafShows | internal/imagefs/overlay.go:55-60 | a leaf put into a directory shows at its path, hides all below it and nothing else |
| OverlayView.ViewClosed | internal/imagefs/overlay.go:229-237 | whatever is visible lies in visible directories |
| OverlayFs.StepFails | internal/imagefs/overlay.go:127-150 | when a leaf blocks the way, the wrappers made so far show exactly the tree from before |
| TcpSeq.SeqLTInWindow | internal/netstack/tcp.go:534-547 | inside a window narrower than 2^31 the signed comparison is the order of offsets |
| TcpReceive.OverlapInWindow | internal/netstack/tcp.go:549-553 | inside such a window the overlap test means that neither segment is before the other |
| TcpReceive.InsertKeepsOrder | internal/netstack/tcp.go:266-295 | inserting at the found spot keeps a window's segments sorted and pairwise disjoint |
| TcpReceive.CollectKeepsOrder | internal/netstack/tcp.go:299-322 | collecting keeps the rest sorted, disjoint and no longer than before |
| TcpReceive.CollectContinues | internal/netstack/tcp.go:299-322 | for true slices of a stream below 2^32 bytes, what is collected is exactly the next bytes of the stream |
| TcpReceive.CollectIsComplete | internal/netstack/tcp.go:299-322 | nothing that could be handed over stays in the buffer |
| TcpReceive.RecvBuffer.Insert | internal/netstack/tcp.go:266-295 | accepts exactly when nothing overlaps and there is room; keeps every window sorted and disjoint and the limit on gaps |
| TcpReceive.RecvBuffer.CollectContiguous | internal/netstack/tcp.go:299-322 | repeated passes in place until nothing matches |
| TcpReceive.Receiver.HandleData | internal/netstack/netstack.go:2110-2166 | what is delivered continues the prefix delivered so far, and the expected number follows it; a segment ahead is buffered exactly when it is new and there is room, and an expected one takes along all it uncovers |
| TcpReceive.Receiver.HandleAll | internal/netstack/netstack.go:2110-2166 | any run of true segments, lost, duplicated, reordered, overlapping or wrapping, delivers exactly the prefix of the stream that the expected sequence number says, and ends where receiving the segments one by one ends; all along the buffer keeps to its gap limit and, for a stream that fits the window, stays sorted and disjoint |
| TcpReassembly.DeliversUpToMissing | internal/netstack/netstack.go:2110-2166 | for a stream below 2^31 bytes cut into segments, no more than the gap limit: whatever the order in which they arrive, and however often, exactly those before the first one still missing have been handed over, in order |
| TcpReassembly.DeliversAll | internal/netstack/netstack.go:2110-2166 | once every segment has arrived the whole stream has been handed over |
| TcpDeliver.OrderedOrSpoiled | internal/netstack/netstack.go:2148-2153 | every run of handlers either keeps the channel in stream order, if each enqueues in turn and finds room, or lacks a segment or has one in the wrong place for good |
| TcpDeliver.DeliveryExact | internal/netstack/netstack.go:2203-2220 | for every run at whose end nothing is in hand: all segments are in the channel in stream order if and only if every handler enqueued in the order in which the lock was held and found room |
| TcpDeliver.LaterHandlerFirst | internal/netstack/netstack.go:2148-2153 | two handlers of which the second enqueues first |
| TcpDeliver.ChannelIsPrefix | internal/netstack/netstack.go:2203-2220 | while all enqueue in turn the channel has a prefix of what was taken under the lock |
| TcpDeliver.Serve | internal/netstack/netstack.go:2110-2166 | any interleaving of any number of handlers with the reassembly: what was taken under the lock is what the segments that arrived make the receiver hand over; while handlers enqueue in turn the bytes in the channel are a prefix of the stream, and the exact condition for all of it in order |
| TcpSend.SendBuffer.Append | internal/netstack/tcp.go:136-148 | adds a segment exactly when it fits; used is the queue's byte count and at most the capacity |
| TcpSend.SendBuffer.Ack | internal/netstack/tcp.go:152-175 | keeps exactly the segments not wholly acknowledged, with used kept exact |
| TcpSend.UnackedIsSuffix | internal/netstack/tcp.go:152-175 | on consecutive segments without wrap-around, the signed comparison removes exactly the wholly acknowledged first ones |
| TcpSend.AckedAreFirst | internal/netstack/tcp.go:152-175 | a segment is wholly acknowledged exactly when it is among the first ones counted |
| TcpSend.Sender.HandleAck | internal/netstack/netstack.go:1964-2047 | an honest acknowledgment moves the acknowledged edge and window, and leaves in the queue exactly what is not wholly acknowledged |
| TcpSend.Sender.HandleAcks | internal/netstack/netstack.go:1964-2047 | after any acknowledgments, none beyond what was sent: the edge is the highest of them and the window the last one |
| TcpSend.Sender.Emit | internal/netstack/netstack.go:2567-2628 | the scaled window is (field * 2^shift) mod 2^32, or the field without scaling; with that much or more in flight nothing is sent, else the smallest of the data, 1460 bytes and what is left of the window, and the window's right edge is recorded |
| TcpSend.ShiftIsProduct | internal/netstack/netstack.go:2580-2582 | shifting a 32-bit number left is multiplying it by a power of two modulo 2^32 |
| TcpSend.Sender.Reconcile | internal/netstack/netstack.go:2682-2685 | acknowledging with the value read earlier: exact if that is still the acknowledged edge, and an exact queue stays exact if it is stale |
| TcpSend.Sender.Settle | internal/netstack/netstack.go:2682-2685 | reading the edge under the lock and dropping without it, with acknowledgments before and in between, leaves exactly the emitted segments not wholly acknowledged, also when the acknowledgment came before the append |
| TcpSend.StaleStep | internal/netstack/tcp.go:152-175 | an acknowledgment behind the last one keeps the queue a stretch of the emitted segments and does nothing to an exact queue |
| TcpSend.Sender.EnqueueWhenRoom | internal/netstack/netstack.go:2656-2676 | append, reading the edge, dropping, appending again and waiting are separate steps with acknowledgments between any two; the segment is in the queue when the loop ends |
| TcpSend.Sender.Write | internal/netstack/netstack.go:2550-2697 | for every schedule of acknowledgments and windows, at every point where no lock is held: segments have consecutive ranges whose payloads concatenate to the bytes written, each inside the window in force when it was sent, and a finished call leaves the queue exact; a call that is not finished has passed all of its schedule, and the window is shut or the queue has no room for the segment sent last |
| TcpSend.EmittedAreSlices | internal/netstack/netstack.go:2550-2697 | every emitted segment is the slice of the written bytes that its sequence numbers say, so the reassembly theorem applies to a receiver of them |
| TcpDrain.WriteTo | internal/netstack/netstack.go:2372-2456 | for every pattern of payload sizes, gaps and partial writes the output is the pending bytes and the payloads up to the end marker, in order, and the count is their length; with a failing writer it is a prefix, and at the read deadline what has not been written is still to come |
| TcpDrain.DrainBatch | internal/netstack/netstack.go:2393-2455 | the batching loop loses, repeats and reorders nothing, with a large payload behind the batch it follows |
| TcpDrain.WriteFull | internal/netstack/netstack.go:2531-2547 | all of the data, or a prefix and an error |
| TcpDrain.Conn.TryNext | internal/netstack/netstack.go:2504-2529 | the pending bytes first, then one item of the channel, or a report that it is empty, ended or closed |
| TcpDrain.Conn.NextPayload | internal/netstack/netstack.go:2458-2502 | the same, waiting through the gaps; pending bytes come first, and once the read deadline has passed without any it reports that and takes nothing |
| OnesComplement.FoldIsOnesSum | internal/netstack/netstack.go:3853-3865 | folding a sum of words once at the end equals one's-complement addition word by word (RFC 1071) |
| OnesComplement.WordSumIsOnes | internal/netstack/netstack.go:3853-3865 | the same for bytes of any number, an odd last one padded with a zero byte |
| OnesComplement.NoOverflow | internal/netstack/netstack.go:3889-3901 | no partial sum of fewer than 2^16 bytes leaves 32 bits |
| OnesComplement.WordSumAppend | internal/netstack/netstack.go:3872-3906 | the sum of an even prefix followed by data is the sum of both, for data of odd or even length |
| OnesComplement.WordSumIsWeighted | internal/netstack/netstack.go:3889-3896 | the sum of the words is the sum of the bytes weighted 256 and 1 in turn |
| OnesComplement.FilledChecks | internal/netstack/netstack.go:3889-3901 | a word-aligned field that holds the checksum of the rest makes the whole check to zero |
| Checksums.Fold | internal/netstack/netstack.go:3897-3900 | the fold loop computes the end-around sum |
| Checksums.ChecksumWithInitial | internal/netstack/netstack.go:3889-3901 | the complement of the one's-complement sum of the initial value and the words |
| Checksums.PseudoHeaderSum | internal/netstack/netstack.go:3872-3887 | the unfolded sum of the pseudo-header's bytes |
| Checksums.TransportChecksum | internal/netstack/netstack.go:3903-3906 | the checksum of the pseudo-header followed by the segment |
| Checksums.VerifiesByRemainder | internal/netstack/netstack.go:3872-3906 | the receive-side test passes if and only if addresses, protocol, length and bytes, each weighted by 256 or 1 for its place in a word, add up to a positive multiple of 65535 |
| Checksums.NewTcpSegment | internal/netstack/netstack.go:3019-3069 | options padded to words with zeros, each header field a big-endian number at its bytes, and the segment passes the receive-side test |
| Checksums.BuildTcp | internal/netstack/netstack.go:3048-3069 | whatever the buffer held, the written segment passes the receive-side test, with ports, sequence number, acknowledgment, header length, flags and window as big-endian numbers at their bytes, then options and payload |
| Checksums.BuildUdp | internal/netstack/netstack.go:1346-1370 | the datagram around a payload in place has ports and length at their bytes and passes the receive-side test |
| Checksums.BuildIpv4Header | internal/netstack/netstack.go:994-1023 | the header, with stale bytes zeroed first, checks to zero |
| Checksums.AcceptsTcp | internal/netstack/netstack.go:1831-1838 | the receive-side test accepts exactly the segments that check to zero |
| Checksums.AcceptsUdp | internal/netstack/netstack.go:1188-1194 | the same for datagrams, switched off by a zero field |
| CvmfsCatalog.PruneIsExact | internal/cvmfs/cvmfs.go:1896-1903 | the pruning test means that the path lies at or below the mount point, if and only if the mount point is not the root or the path is |
| CvmfsCatalog.LookupKeeps | internal/cvmfs/cvmfs.go:1887-1903 | the tests of a lookup are true of the path itself and of every mount point above it |
| CvmfsCatalog.PrunedFinds | internal/cvmfs/cvmfs.go:1296-1361 | a walk that keeps what leads to the path finds the same first entry, or the same absence, as the depth-first walk of the whole tree |
| CvmfsCatalog.RootMountHides | internal/cvmfs/cvmfs.go:1896-1903 | the lookup of a file under a catalog mounted at the root, in a well-formed tree, reports that it is not there |
| CvmfsCatalog.LookupExact | internal/cvmfs/cvmfs.go:1296-1361 | for every tree whose nested content lies at or below its mount points: a lookup of a path other than the root finds what the full walk finds first if and only if it is not so that the first visit of the path lies in a catalog reached through a mount at the root and the first visit elsewhere, if any, is of another entry |
| CvmfsCatalog.SpotsFind | internal/cvmfs/cvmfs.go:1305-1361 | the visits of the full walk by their place in the tree: the first one is what the full walk finds, the first one not behind a mount at the root what the walk off the root finds |
| CvmfsCatalog.OwnEntryFirst | internal/cvmfs/cvmfs.go:1306-1346 | the first of a catalog's own entries with the path comes before all nested catalogs |
| CvmfsCatalog.NestedCatalogNext | internal/cvmfs/cvmfs.go:1347-1361 | without one, the first nested catalog that has the path decides |
| CvmfsCatalog.Resolve | internal/cvmfs/cvmfs.go:1312-1334 | memoised resolution through this catalog and those above gives the entry's one path, and fails only when a parent is nowhere |
| CvmfsCatalog.WalkEntries | internal/cvmfs/cvmfs.go:1306-1346 | the entry loop resolves every path and stops at the first visit of the target |
| CvmfsCatalog.Walk | internal/cvmfs/cvmfs.go:1305-1361 | the recursive walk finds what the pruned list of visits has first |
| CvmfsCatalog.LookupFileEntry | internal/cvmfs/cvmfs.go:1267-1303 | reports what a walk of the whole tree finds first, or what is found off the root if catalogs are mounted there: a file as its entry, a directory as a directory, a link as a link, nothing as not found; an error only when some parent is nowhere above |
| CvmfsRange.ByteRangeExact | internal/cvmfs/cvmfs.go:566-575 | the computed range is the requested one if and only if the end fits in 64 bits or does not matter |
| CvmfsRange.ByteRangeWraps | internal/cvmfs/cvmfs.go:566-575 | a request whose computed end is negative |
| CvmfsRange.TilesAreSorted | internal/cvmfs/cvmfs.go:1080-1086 | chunks that tile a file are left in place by the sort |
| CvmfsRange.StreamEntryData | internal/cvmfs/cvmfs.go:1044-1068 | the full read is the file's content, chunk after chunk |
| CvmfsRange.CopyOverlaps | internal/cvmfs/cvmfs.go:1087-1109 | the chunk loop copies exactly the range's bytes |
| CvmfsRange.StreamRange | internal/cvmfs/cvmfs.go:1070-1110 | the ranged read of a tiled file is that slice of its content |
| CvmfsRange.ReadRemote | internal/cvmfs/cvmfs.go:799-815 | slice and end-of-file flag as requested, for every offset and length that does not wrap |
| CvmfsRange.ReadLocal | internal/cvmfs/cvmfs.go:544-564 | the same for a local file |
| CvmfsRange.ReadCached | internal/cvmfs/cvmfs.go:505-520 | the same for a cached file |
| CvmfsRange.ReadFileRange | internal/cvmfs/cvmfs.go:471-542 | local, cached and remote branches agree on the slice and the flag; negative arguments are refused |
| CvmfsRange.ReadWhole | internal/cvmfs/cvmfs.go:471-542 | successive ranges until end of file concatenate to the whole file |
| CvmfsLocks.LockTable.Enter | internal/cvmfs/cvmfs.go:2061-2070 | a thread references the table's lock for its path, made if missing |
| CvmfsLocks.LockTable.Take | internal/cvmfs/cvmfs.go:2072-2072 | a path's mutex is taken exactly when nobody holds it |
| CvmfsLocks.LockTable.Release | internal/cvmfs/cvmfs.go:2073-2086 | the mutex is free again, after a publication or a failed file lock |
| CvmfsLocks.LockTable.Leave | internal/cvmfs/cvmfs.go:2076-2092 | the reference goes, and the lock with the last one |
| CvmfsLocks.LockTable.Run | internal/cvmfs/cvmfs.go:2061-2094 | every interleaving of any number of threads keeps the invariant, and every thread is where the fold of the steps has it: a mutex is given only when nobody holds it |
| CvmfsLocks.LockTable.Safe | internal/cvmfs/cvmfs.go:53-61 | in every reachable state refs is the number of referencing threads, they all hold the table's lock for their path, at most one is inside per path, and a path is in the table exactly while somebody references it |
| CvmfsLocks.AtomicFile.Finish | internal/cvmfs/cvmfs.go:2013-2059 | however often Close and Abort are called, the publication lock is given back exactly once |
| Watchdog.Controller.ResetTimer | internal/ccvmd/ccvmd.go:361-387 | the timer is set for a deadline that exists, in time for every other, and a millisecond from now for one that has passed |
| Watchdog.Controller.constructor | internal/ccvmd/ccvmd.go:184-198 | no deadline, no lease, no timer and no history |
| Watchdog.Controller.Create | internal/ccvmd/ccvmd.go:200-212 | a new deadline and nothing else, with the timer in time |
| Watchdog.Controller.Feed | internal/ccvmd/ccvmd.go:310-318 | extends the deadline of an active watchdog and nothing else |
| Watchdog.Controller.CreateLease | internal/ccvmd/ccvmd.go:245-262 | a lease with a positive timeout and nothing else, with the timer in time |
| Watchdog.Controller.FeedLease | internal/ccvmd/ccvmd.go:264-279 | extends that lease alone, with the timer in time |
| Watchdog.Controller.ReleaseLease | internal/ccvmd/ccvmd.go:281-302 | decides on the callback exactly when the last lease of an inactive, non-persistent watchdog goes |
| Watchdog.Controller.Stop | internal/ccvmd/ccvmd.go:320-327 | inactive, with the timer stopped and all leases kept |
| Watchdog.Controller.Expire | internal/ccvmd/ccvmd.go:329-354 | also for a stale firing: drops exactly the passed leases, decides on the callback exactly when none is left, no active deadline is in the future, there was something to expire and the watchdog is not persistent, else sets the timer again |
| Watchdog.Controller.Invoke | internal/ccvmd/ccvmd.go:303-305 | the callback for any one of the decisions made, which meets the state that the steps since then have led to |
| Watchdog.LiveHasOrigin | internal/ccvmd/ccvmd.go:200-318 | once nothing is active and no lease is left, only Create makes a watchdog active and only CreateLease makes a lease: feeding refuses |
| Watchdog.HeldIsThere | internal/ccvmd/ccvmd.go:245-347 | a lease that no step has ended is there, with its timeout from the time it was last fed as its deadline |
| Watchdog.ThereIsHeld | internal/ccvmd/ccvmd.go:245-347 | a lease that is there was made by a step and ended by none since |
| Watchdog.WatchIsActive | internal/ccvmd/ccvmd.go:200-347 | the same for the watchdog's own deadline |
| Watchdog.DisturbedOnlyByCreation | internal/ccvmd/ccvmd.go:354-358 | for all steps between decision and callback: the callback meets a deadline ahead if and only if a Create or a CreateLease among them set one that, by the steps that followed, has not run out since it was last fed and was not released, stopped, replaced or found expired |
| Watchdog.QuietWithoutCreation | internal/ccvmd/ccvmd.go:354-358 | with neither in between it runs in quiet |
| Watchdog.CallbackOverLiveLease | internal/ccvmd/ccvmd.go:303-305 | a lease made between decision and callback is alive when the callback runs |
| Watchdog.ExpireOverLease | internal/ccvmd/ccvmd.go:329-358 | a run from the start in which the callback is invoked while a lease has time left |
| Watchdog.Controller.Run | internal/ccvmd/ccvmd.go:200-387 | in every run, invocations of the callback anywhere after their decisions included: each was decided on in quiet and never for a persistent watchdog, and meets a deadline ahead only for a creation in between; while Stop is not called, whatever deadline exists has a timer set no later than the deadline or a millisecond after the last operation, or a firing on its way; every step of the run moves the state as the machine's transition relation says |
| OperationChain.ReadyIsFirst | internal/ccvmd/ccvmd.go:723-729 | an unfinished operation's wait is over exactly when it is the first of its VM that has not finished |
| OperationChain.GiveUpExact | internal/ccvmd/ccvmd.go:712-729 | giving up while waiting keeps a VM's operations in turn if and only if the operation's turn had come |
| OperationChain.GiveUpIsSafe | internal/ccvmd/ccvmd.go:712-729 | after giving up, the tail removed if it was the operation's own: no run in which the others keep to their turn, of any length or of at most three steps, has two operations of the VM running at once, if and only if the operation's turn had come |
| OperationChain.BeforeTurn | internal/ccvmd/ccvmd.go:694-729 | the steps, at most a start and two beginnings, that lead there |
| OperationChain.RunsApart | internal/ccvmd/ccvmd.go:694-743 | over every run in which nobody gives up before its turn, a VM's operations run one at a time |
| OperationChain.CancelledWhileWaiting | internal/ccvmd/ccvmd.go:712-729 | three operations of which the first and the third run at once |
| OperationChain.Registry.Start | internal/ccvmd/ccvmd.go:694-705 | the operation waits for the VM's latest, and becomes the latest |
| OperationChain.Registry.Begin | internal/ccvmd/ccvmd.go:723-730 | an operation runs exactly when the channel it waits for is closed, and keeps all VMs in turn |
| OperationChain.Registry.Finish | internal/ccvmd/ccvmd.go:712-722 | closes the channel, and removes the tail exactly if it is still this operation's, whether it ran or gave up; keeps all VMs in turn unless it gave up before its turn |
| OperationChain.Registry.OneAtATime | internal/ccvmd/ccvmd.go:677-732 | in every reachable state a VM's operations run one at a time in start order, and its tail is there exactly while one is outstanding and is the latest one's |
| OperationChain.Registry.Run | internal/ccvmd/ccvmd.go:694-743 | every interleaving is the fold of its steps, and one in which no operation gives up before its turn keeps the invariant |
| ExecInputs.ActiveExec.SendInput | internal/ccvmd/ccvmd.go:807-832 | an open queue accepts data exactly below 56 inputs, control exactly below 63 and a closing input always; nothing after a closing input |
| ExecInputs.ActiveExec.Take | internal/ccvmd/ccvmd.go:864-880 | the oldest input comes off the queue; a closing input or a closed empty queue ends the forwarder |
| ExecInputs.ActiveExec.Deliver | internal/ccvmd/ccvmd.go:881-883 | what is sent stays a prefix of what was accepted |
| ExecInputs.ActiveExec.Drop | internal/ccvmd/ccvmd.go:884-886 | once the done channel is closed, also before the queue is, the forwarder may stop without sending |
| ExecInputs.ActiveExec.CloseDone | internal/ccvmd/ccvmd.go:792-792 | the first half of closeInputs closes the channel and not the queue |
| ExecInputs.ActiveExec.CloseQueue | internal/ccvmd/ccvmd.go:793-798 | the second half closes the queue for good |
| ExecInputs.CloseIsAlone | internal/ccvmd/ccvmd.go:876-880 | a closing input at the head of the queue is the last of all, and everything before it has been sent |
| ExecInputs.ActiveExec.Run | internal/ccvmd/ccvmd.go:764-889 | in every interleaving, inputs between the two halves of closeInputs included: the sent values are a prefix of the accepted ones in order, nothing is lost while the forwarder runs, all but the closing input has been sent when it returns without being cut short, the queue never exceeds 64, and a closed queue accepts nothing; the state at the end is the fold of the steps, with data accepted up to 56 and control up to 63 queued inputs |

## Left out

- FDT: nothing of the writer is missing; a table or block of 4 GiB or more is only shown to terminate, since its 32-bit offsets wrap.
- NvmeQueues.Controller.ProcessSubmissions: an admin command, among those submitted, that makes the admin queue anew while its ring is worked on is left out, and so is a tail outside the ring, with which the loop goes on until a command fails; the data that other admin commands move is not modelled.
- NvmeCommands.Namespace.ExecuteRead: takes byte offset and size as given, without decoding the command words; the same holds for ExecuteWrite.
- NvmeQueues.Controller.CreateCompletionQueue: re-creating an existing queue keeps its indices, as the code does, so only a new queue is shown to be fresh.
- NvmePrpSpec: guest memory is one block; a hypervisor with several mappings refuses an access that crosses two of them, which a coalesced run may do where single pages do not.
- NVMe: register decoding apart from doorbells and masks, MSI delivery, the controller-enable sequence, Identify data and traces.
- OciTree.BuildRoot: two nodes for one path are left out, since the sort may put either first; opening the packed file and mode-bit conversion are not part of the model.
- OCI: tar reading, name cleaning, JSON and the CVMFS-backed variant of the tree; entries come decoded, with cleaned names.
- Overlay: times, owners and cancellation; the base is an immutable tree whose lookups succeed or report that nothing is there.
- TCP: FIN handling, Nagle buffering, SYN exchange, congestion and round-trip estimation, retransmission timers, write deadlines, closing, and payload pooling.
- TcpReassembly.DeliversUpToMissing: speaks of segments of one cutting of the stream; a segment cut differently may be refused for overlapping and has to come again, so for those runs only the delivered prefix is shown.
- TcpSend.Sender.Write: a failing packet send is not modelled, and a call that waits for ever shows as not done when its schedule ends.
- TcpDrain.WriteTo: a read deadline that is moved while the call runs is not modelled; a channel that ends without the marker is a closed one.
- CVMFS: HTTP, mirrors, decompression and SQLite; the object store returns whole objects, and the temporary files of atomic writes are not part of the model.
- CvmfsCatalog.LookupFileEntry: Walk and ReadDir with their own pruning test are left out, as are catalogs whose parent links form a cycle.
- Watchdog: the activity counters, and what onExpired itself does.
- OperationChain: operations without a VM and the cancel functions themselves, which only let a waiting operation give up or a running one end.
- ExecInputs: delivery acknowledgments with their timeout, and the capacity of the inputs channel.
- Everything else in the repository: HTTP and WebSocket handlers, the CLI, hypervisor back ends, virtio devices, image builders.
