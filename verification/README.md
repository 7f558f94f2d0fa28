# Virtio-9p driver: a verified model

This project models the virtio-9p driver in `src/common/virtio9p` and proves properties of the
model with Dafny 4.11. `dafny verify dfyconfig.toml` checks all of it. The driver lets a QNX
resource manager mount a host directory: connect and I/O handlers turn file operations into
9P2000.L messages, a session sends them and recovers from transport failures, a codec gives
them bytes, and a virtio transport moves the bytes through a split virtqueue.

## How it is organised

Code that changes state is modelled by classes and methods with the same fields and branches;
each method is proved against a specification on values, and the properties are lemmas about
that specification or the `ensures` of a method that carries out a whole run on fresh objects.

**Virtqueue.** `RingSpec` is the queue with unbounded counters: a free list, in-flight chains
and the queues of published, taken, staged and completed heads, stepped by events of the driver
(`Add`, `Get`) and of a conforming device (`Take`, `Stage`, `Publish`) in any order. Its lemmas
hold after every sequence of events. `Virtqueues` is the memory: a descriptor array whose free
list is threaded through `next`, and two rings behind 16-bit wrapping indices. Every method is
proved to be one `RingSpec.Step`, and `Interleave` says so for all interleavings.
`Alignment` and `QueueLayout` are the address arithmetic (sections 2.4, 2.4.2, 2.4.5, 2.4.6
and 2.4.8 of Virtio 1.0).

**Transport.** `Transports` puts `Exchange`, `WaitForCompletion` and `ResetDevice` of the two
transports on top of the real queue, bounce buffers and a device that takes, answers and
completes the request between polls. A whole history of exchanges, timeouts and resets,
complete or failing part-way, returns what `SyncCall`, a synchronous call without rings, returns.

**Session and handlers.** `Sessions` has the `Transact` / `Reinitialize` / `Initialize`
recursion for arbitrary outcomes of every exchange. `Server` is the server's fid table, read
off the messages (version(5), attach(5), walk(5) and clunk(5) in section 5 of the Plan 9
manual). `ResourceManager` has the connect and close handlers, the fid balance over every run
of them, and what each handler sends and returns for every reply. `Paths` is the path splitting they rely on.

**Codec and data loops.** `Wire` defines the byte layouts and the decoders as functions on a
cursor; `NinePMessages` is the message class, the builders and the looping parsers.
`FileWrite` is the chunked write, `DirRead` the directory read.

## What does not hold, and exactly when it does

- A reset that stops between mapping the new response buffer and translating its address leaves
  the old address in use. On PCI `Exchange` can then return 0 with zero bytes
  (`StaleAddressReturnsZeros`). After any history this is the case exactly if the last setup
  stopped there and the new buffer did not get the old address (`HonestIff`, `HistoryDelivers`).
  On MMIO such a reset also leaves no interrupt, the wait fails before it looks at the used ring,
  and a 0 return is always the device's answer.
- `Exchange` never retries a reset: once the null guard fails it fails for good (`DownStaysDown`).
- `ParseRreaddir` adds its byte count in 32 bits. It ends on every reply with a given count exactly
  if the count is at most 2^32 - 8 (`EndsIff`); the byte count stays unwrapped up to 2^32 - 24.
- The bound check of `GetBytes` adds in 32 bits too: parsing an Rread reads outside its buffer
  exactly for counts of 2^32 - 11 or more (`RreadEscapesIff`, `ParseWrappingRread`).
- A string survives the wire exactly when it is at most 65535 bytes long (`StringRoundTripIff`).
- The write loop ends only if the sender's message holds what it announces: if it holds less and
  `resmgr_msgread` gives what is there and then nothing, the loop runs for ever, and only then
  (`StallsForeverIff`, `Stall`).
- A directory read reports the end of the directory also when the first record does not fit.
  An entry that fits a 9P reply of the same size may not fit: exactly for name lengths that
  leave 4 to 7 modulo 8 (`WireEntryOutgrowsIff`).
- `d_reclen` is 16 bits: the caller can walk the buffer exactly when no name is longer than
  32739 bytes (`WalkUndoesPacking`).
- Open and unlink take a file for a directory if its mode has the bit 0040000. Block devices and
  sockets have it too: they are removed with AT_REMOVEDIR and read with Treaddir. No other type in
  use is mistaken (`DirectoryTypes`, `UnlinkFlags`, `OpenedAs`).

## Assumptions

- The device is conforming: it returns only heads it took and has not returned, a reply fits the
  response buffer, and after a reset it leaves the old queue and buffers alone. Queue sizes are
  powers of two.
- `Exchange` copies a request into its buffer unchecked, so requests are taken to be at most
  kMaxMessageSize bytes. Writes are exactly if the server's I/O unit is 0 or at most 131049
  (`ChunksFitIff`); the handler does not check it.
- Fid statements are about runs whose exchanges all succeed against a conforming server and that
  have fewer than 2^32 - 1 messages (`Healthy`).
- The handler of the QNX open helper is a parameter (`localOpen`); when it succeeds, the new OCB
  gets the handle the caller names.
- `S_ISDIR` is not part of the repository; it is taken to compare the four type bits of a mode
  with 0040000.
- QNX's `struct dirent` is not part of the repository. Its layout is taken to be `d_ino` and
  `d_offset` of 8 bytes, `d_reclen` and `d_namelen` of 2, then `d_name`.
- Read, directory and write requests get their answers from arbitrary functions of the request
  and its number, restricted by `Cooperates`, `Serves` and `Prompt` where a theorem needs it.

## Model

| member | source | states |
|---|---|---|
| RingSpec.StepKeepsInv | src/common/virtio9p/src/transport/virtqueue.cpp:168-254 | every driver or device step keeps the partition of descriptors into free list and chains, and keeps each in-flight head in exactly one stage |
| RingSpec.RunKeepsInv | src/common/virtio9p/src/transport/virtqueue.cpp:168-254 | the same after every sequence of events from the initial queue |
| RingSpec.ReachablePartition | src/common/virtio9p/src/transport/virtqueue.cpp:75-84 | in every reachable state each descriptor is free, a chain's head or a chain's second, and only one of these; free + 2 * in flight is the queue size; no two chains share a descriptor |
| RingSpec.StagesBounded | src/common/virtio9p/src/transport/virtqueue.cpp:195-206 | at most half the queue is published, held or completed, so no unread ring slot can be overwritten |
| RingSpec.FirstInFirstOut | src/common/virtio9p/src/transport/virtqueue.cpp:217-254 | over a whole run the completions collected are a prefix of those the device made, in order and once each; the heads taken are a prefix of those published |
| RingSpec.GetEmptyIffAllCollected | src/common/virtio9p/src/transport/virtqueue.cpp:222-227 | GetBuf returns -1 exactly when every completion made so far has been collected |
| RingSpec.HeadsConserved | src/common/virtio9p/src/transport/virtqueue.cpp:168-254 | every head was published as often as collected, plus once if it is in flight |
| Virtqueues.SlotIsRemainder | src/common/virtio9p/src/transport/virtqueue.cpp:199-203 | walking round the ring k times ends at slot k modulo q |
| Virtqueues.WrappedSlot | src/common/virtio9p/src/transport/virtqueue.cpp:199-203 | the 16-bit index selects the slot of the unbounded counter, across the wrap at 65536 |
| Virtqueues.WrapKeepsSlotIff | src/common/virtio9p/src/transport/virtqueue.cpp:229-232 | it does so for all counters exactly when the queue size divides 65536 |
| Virtqueues.Virtqueue.constructor | src/common/virtio9p/src/transport/virtqueue.cpp:91-125 | a queue of the given size over zeroed rings |
| Virtqueues.Virtqueue.InitDescChain | src/common/virtio9p/src/transport/virtqueue.cpp:75-84 | the table becomes a free list of all descriptors in order: the abstract initial queue |
| Virtqueues.Virtqueue.AddBuf | src/common/virtio9p/src/transport/virtqueue.cpp:168-209 | on memory it is the abstract Add: same result, -ENOSPC included, and a memory that again represents the abstract queue, in-flight chains untouched; in numbers, a readable and a writable descriptor (flags 1 and 2) with the given addresses and lengths, the head in its slot, the index one up |
| Virtqueues.Virtqueue.FillChain | src/common/virtio9p/src/transport/virtqueue.cpp:175-197 | takes the first two free descriptors and changes exactly these |
| Virtqueues.Virtqueue.PublishHead | src/common/virtio9p/src/transport/virtqueue.cpp:199-206 | writes the head to the slot of the available index, then bumps the index with wrap-around |
| Virtqueues.Virtqueue.GetBuf | src/common/virtio9p/src/transport/virtqueue.cpp:217-254 | on memory it is the abstract Get: head and length of the oldest uncollected completion, or -1 |
| Virtqueues.Virtqueue.FreeChain | src/common/virtio9p/src/transport/virtqueue.cpp:236-251 | the relinking loop puts exactly the two descriptors of the chain in front of the free list |
| Virtqueues.AddKeepsRep | src/common/virtio9p/src/transport/virtqueue.cpp:168-209 | the memory after AddBuf represents the abstract state after Add |
| Virtqueues.GetKeepsRep | src/common/virtio9p/src/transport/virtqueue.cpp:217-254 | the memory after GetBuf represents the abstract state after Get |
| Virtqueues.PushFree | src/common/virtio9p/src/transport/virtqueue.cpp:236-251 | pushing two descriptors on the threaded list leaves every link of it intact |
| Virtqueues.StageKeepsRep | src/common/virtio9p/src/transport/virtqueue.cpp:229-234 | a used element the device writes overwrites no uncollected one |
| Virtqueues.Device.TakeHead | src/common/virtio9p/src/transport/virtqueue.cpp:199-206 | a device that reads the available ring and walks the descriptors by their flag bits finds the oldest untaken head and the chain AddBuf posted under it |
| Virtqueues.Device.DoEvent | src/common/virtio9p/src/transport/virtqueue.cpp:168-254 | one driver or device step on memory is one abstract step |
| Virtqueues.Interleave | src/common/virtio9p/src/transport/virtqueue.cpp:75-254 | for every interleaving of driver and device steps the array-backed queue gives the outcomes of the abstract one |
| Alignment.AndMask | src/common/virtio9p/src/transport/virtqueue.cpp:86-89 | masking bit by bit with the complement of a power of two minus one removes the remainder |
| Alignment.AlignUpIsLeast | src/common/virtio9p/src/transport/virtqueue.cpp:86-89 | AlignUp is the least multiple of the alignment not below its argument |
| QueueLayout.LegacyRegions | src/common/virtio9p/src/transport/virtqueue.cpp:91-125 | the three legacy regions are disjoint, aligned, inside the allocation, and the used ring starts as early as the alignment allows |
| QueueLayout.AccessesInside | src/common/virtio9p/src/transport/virtqueue.cpp:91-166 | in both layouts every descriptor, index and ring access stays inside its region, and different slots share no byte |
| QueueLayout.LegacyOffsets | src/common/virtio9p/src/transport/virtqueue.cpp:91-125 | the available ring starts at 16q, the used ring at the least multiple of the alignment not below 18q + 6, as section 2.4.2 of Virtio 1.0 has it |
| QueueLayout.AccessOffsets | src/common/virtio9p/src/transport/virtqueue.cpp:175-234 | descriptor i is at 16i, ring indices at byte 2, the heads at 4 + 2(idx mod q), the used elements at 4 + 8(idx mod q) |
| Transports.Transport.SetupVirtqueue | src/common/virtio9p/src/transport/pci_transport.cpp:686-710 | a fresh idle queue of min(device limit, 128) descriptors, or an error and no device on it |
| Transports.Transport.MapBuffers | src/common/virtio9p/src/transport/pci_transport.cpp:583-614 | which buffers and which addresses are in place after each step that can fail |
| Transports.Transport.AttachInterrupt | src/common/virtio9p/src/transport/pci_transport.cpp:616-634 | pulses can arrive exactly when channel, connection and interrupt were all attached |
| Transports.Transport.InitializeDevice | src/common/virtio9p/src/transport/pci_transport.cpp:569-637 | the link and the return code after each step that can fail |
| Transports.Transport.Initialize | src/common/virtio9p/src/transport/mmio_transport.cpp:52-156 | a usable transport, or after any failure one whose null guard is closed |
| Transports.Transport.ResetDevice | src/common/virtio9p/src/transport/pci_transport.cpp:769-823 | nothing of the old queue and buffers is left except the response address; the null guard passes exactly as AfterReset says |
| Transports.Transport.Submit | src/common/virtio9p/src/transport/pci_transport.cpp:834-847 | the request bytes are in place, the response buffer is zero, the chain carries both addresses, and with two descriptors or more AddBuf cannot fail |
| Transports.Transport.WaitForCompletion | src/common/virtio9p/src/transport/mmio_transport.cpp:453-495 | succeeds exactly when the device, working step by step between polls, has completed the chain before the last poll the wait makes; then the length is the reply's and the ring is idle; else the code of the wait |
| Transports.Transport.WaitOnPci | src/common/virtio9p/src/transport/pci_transport.cpp:877-958 | polls before the first receive, 101 times after every pulse and once after a failed receive, so also without an interrupt |
| Transports.Transport.WaitOnMmio | src/common/virtio9p/src/transport/mmio_transport.cpp:453-495 | polls only after a pulse, 101 times, so never without an interrupt |
| Transports.Transport.PollRound | src/common/virtio9p/src/transport/pci_transport.cpp:929-947 | the look after a pulse and the spin find the completion exactly when it comes within 101 polls |
| Transports.Transport.Poll | src/common/virtio9p/src/transport/virtqueue.cpp:217-254 | one GetBuf finds the completion exactly when the device has taken, answered and published the request by then |
| Transports.Transport.Exchange | src/common/virtio9p/src/transport/pci_transport.cpp:827-875 | one exchange on the queue is one synchronous call of either transport, and the ring is idle again whenever the null guard passes |
| Transports.Transport.DoRequest | src/common/virtio9p/src/transport/mmio_transport.cpp:290-451 | exchanges and resets on their own refine the synchronous call |
| Transports.ExchangeCodes | src/common/virtio9p/src/transport/pci_transport.cpp:877-958 | on a transport that is set up, MMIO serves a request exactly if a pulse comes and the completion is there within 101 looks, PCI exactly if it is there by look 1 + 101 per pulse; the code of every other case |
| Transports.GuardCodes | src/common/virtio9p/src/transport/mmio_transport.cpp:410-427 | -22 behind a closed guard, -28 on a queue of fewer than two descriptors |
| Transports.ResetLeaves | src/common/virtio9p/src/transport/mmio_transport.cpp:290-406 | queue size, buffer and announced address, interrupt and code by the step at which a reset stops |
| Transports.SetupLeaves | src/common/virtio9p/src/transport/pci_transport.cpp:569-637 | a device without a queue stops a reset at once; a first setup leaves a usable link exactly if all steps succeed |
| Transports.RunExchanges | src/common/virtio9p/src/transport/mmio_transport.cpp:408-451 | on both transports the replies of a whole history of exchanges, timeouts and resets, complete or failing part-way, are those of the synchronous calls; a 0 return is the answer to this very request exactly on honest histories |
| Transports.LinkHistory | src/common/virtio9p/src/transport/pci_transport.cpp:769-823 | what every history leaves of queue, addresses and interrupt, as a function of the setups it made |
| Transports.HonestIff | src/common/virtio9p/src/transport/pci_transport.cpp:602-614 | after any history a usable link gives the device its own response buffer, and so hands over every answer, exactly when the last setup did not stop between mapping and translating that buffer, or the new buffer got the old address |
| Transports.HistoryDelivers | src/common/virtio9p/src/transport/pci_transport.cpp:827-875 | whatever failed before, a 0 return hands over the device's answer to this very request exactly on honest histories (or when the answer is zeros), and on MMIO always |
| Transports.NoStopIsHonest | src/common/virtio9p/src/transport/mmio_transport.cpp:374-387 | a history in which no setup stops there is honest, wherever else setups stop |
| Transports.CompleteResetsDeliver | src/common/virtio9p/src/transport/pci_transport.cpp:827-875 | if all setups complete, every exchange that the device completes in time is served, and every other returns the code of the wait |
| Transports.StaleAddressReturnsZeros | src/common/virtio9p/src/transport/pci_transport.cpp:809-823 | on PCI a reset that stops before translating the address leads to a success with bytes nobody sent |
| Transports.DownStaysDown | src/common/virtio9p/src/transport/pci_transport.cpp:829-832 | once the null guard fails every later exchange returns -EINVAL |
| FidPools.FidPool.Allocate | src/common/virtio9p/src/protocol/fid_pool.cpp:20-26 | a fid not in use, until the 32-bit counter wraps |
| FidPools.FidPool.Release | src/common/virtio9p/src/protocol/fid_pool.cpp:28-32 | exactly this fid leaves the pool |
| FidPools.FidPool.Reset | src/common/virtio9p/src/protocol/fid_pool.cpp:46-51 | the pool is empty and numbering starts again |
| Server.TableRules | src/common/virtio9p/src/protocol/nine_p_session.cpp:138-181 | message by message what the manual says of the fid table: a complete walk and an attach add, a clunk drops even if refused, a version drops all |
| Server.TableStays | src/common/virtio9p/src/protocol/nine_p_session.cpp:183-242 | nothing else changes the table, nor does a failed exchange |
| Server.ReplyRules | src/common/virtio9p/src/protocol/nine_p_session.cpp:155-180 | which replies a conforming server may give: any error, and the type owed to the request exactly if its fids are right |
| Server.CleanMeans | src/common/virtio9p/src/protocol/nine_p_session.cpp:46-59 | a run without failures is one whose replies all conform |
| Server.ProperMeans | src/common/virtio9p/src/protocol/nine_p_session.cpp:155-157 | no new fid is in use when it is sent, and no clunk is of the root |
| Sessions.Session.Transact | src/common/virtio9p/src/protocol/nine_p_session.cpp:25-64 | ends for every pattern of failures; a top-level call leaves a retry trace, a nested one a single message; the return code is the one the trace stands for and 0 hands back the last reply; the re-initialising flag is as before |
| Sessions.Session.Reinitialize | src/common/virtio9p/src/protocol/nine_p_session.cpp:66-75 | sends one version and, if it is accepted, one attach with tag 0 and fid 0; on success the root fid is in the pool; the flag is false again |
| Sessions.Session.Initialize | src/common/virtio9p/src/protocol/nine_p_session.cpp:83-136 | at most 18 exchanges; whatever fails, the retry trace of a version and, exactly if that was accepted, the retry trace of an attach with the next tag and fid, and the exact code; on success the root fid is in the pool; without failures the message size is the smaller of the two sides' |
| Sessions.Session.NextTag | src/common/virtio9p/src/protocol/nine_p_session.cpp:77-81 | tags count up and wrap at 65536 |
| Sessions.TransactOnce | src/common/virtio9p/src/protocol/nine_p_session.cpp:25-75 | for every behaviour of the transport: at most nine exchanges; between two sends of the same request exactly one accepted version and one accepted attach; 0 hands back the reply to the last send, an error reply to it is returned as its errno |
| Sessions.TraceIsUnique | src/common/virtio9p/src/protocol/nine_p_session.cpp:27-63 | the retry trace determines everything that was sent |
| Sessions.UnansweredFails | src/common/virtio9p/src/protocol/nine_p_session.cpp:30-63 | a trace that does not end on an answered send has a negative return code |
| Sessions.RetryMessages | src/common/virtio9p/src/protocol/nine_p_session.cpp:83-117 | the messages of a retry trace in numbers and bytes: the request, a version for 131072 bytes and "9P2000.L", an attach with tag 0, fid 0, no afid, an empty user name and the tree's name |
| Sessions.RetryContinuesIff | src/common/virtio9p/src/protocol/nine_p_session.cpp:27-48 | another message follows exactly after a failed send, an accepted version and an accepted attach |
| Sessions.InitMessages | src/common/virtio9p/src/protocol/nine_p_session.cpp:83-136 | the same for an Initialize that does not retry, with its own tag and fid |
| Sessions.InitCodes | src/common/virtio9p/src/protocol/nine_p_session.cpp:83-136 | the attach of a first Initialize has tag and fid 0, or 1 if the version was retried; its code is the server's errno, 48 for another version, 5 for another reply |
| Sessions.TraceCodes | src/common/virtio9p/src/protocol/nine_p_session.cpp:27-63 | the code of a request by how its trace ends: the server's errno as a signed number, the transport error that was not recovered, or -5 after three recovered sends |
| Sessions.CallCodes | src/common/virtio9p/src/protocol/nine_p_session.cpp:183-201 | the code of an operation by its reply: the errno, -5 for another type, -2 for a walk that stopped early |
| Sessions.Session.Call | src/common/virtio9p/src/protocol/nine_p_session.cpp:25-64 | without failures one message is sent, and its reply, checked for type and error code, gives the return code |
| Sessions.Session.Walk | src/common/virtio9p/src/protocol/nine_p_session.cpp:138-181 | sends one walk of the path's components from the root, whose reply gives the code; the new fid was unused and is in the pool exactly when the walk was complete; pool and server table agree |
| Sessions.Session.WalkParent | src/common/virtio9p/src/protocol/nine_p_session.cpp:395-417 | fails with -EINVAL and sends nothing exactly if the path does not end in a name; else walks all components but the last, with that walk's code, and returns the last |
| Sessions.Session.Clunk | src/common/virtio9p/src/protocol/nine_p_session.cpp:266-284 | the fid leaves the pool and the server's table whatever the reply |
| Sessions.Session.Perform | src/common/virtio9p/src/protocol/nine_p_session.cpp:183-201 | a request that does not touch fids leaves pool and table as they were |
| Sessions.Session.Open | src/common/virtio9p/src/protocol/nine_p_session.cpp:183-201 | sends this Tlopen once; fids unchanged; the I/O unit is the reply's |
| Sessions.Session.Create | src/common/virtio9p/src/protocol/nine_p_session.cpp:306-329 | sends this Tlcreate once; fids unchanged; the I/O unit is the reply's |
| Sessions.Session.GetAttr | src/common/virtio9p/src/protocol/nine_p_session.cpp:225-242 | sends this Tgetattr once; fids unchanged; mode and size are the reply's, or zeros |
| Sessions.Session.ReadDir | src/common/virtio9p/src/protocol/nine_p_session.cpp:244-264 | sends this Treaddir once; fids unchanged; the entries are the reply's |
| Sessions.Session.Mkdir | src/common/virtio9p/src/protocol/nine_p_session.cpp:331-352 | sends this Tmkdir once; fids unchanged |
| Sessions.Session.Unlink | src/common/virtio9p/src/protocol/nine_p_session.cpp:354-371 | sends this Tunlinkat once; fids unchanged |
| Sessions.Session.Rename | src/common/virtio9p/src/protocol/nine_p_session.cpp:373-393 | sends this Trenameat once; fids unchanged |
| Sessions.Session.Mount | src/common/virtio9p/src/protocol/nine_p_session.cpp:83-136 | without failures of the transport a first Initialize leaves client and server with exactly the root fid, or, if it returns an error, both without any |
| Paths.SplitPath | src/common/virtio9p/src/protocol/nine_p_session.cpp:140-153 | the getline loop computes the non-empty stretches between slashes |
| Paths.SplitParent | src/common/virtio9p/src/protocol/nine_p_session.cpp:397-409 | the path is parent, slash and a basename without slash, or a lone basename |
| Paths.ComponentsAreNames | src/common/virtio9p/src/protocol/nine_p_session.cpp:146-152 | no component is empty or contains a slash |
| Paths.ComponentsConcat | src/common/virtio9p/src/protocol/nine_p_session.cpp:144-152 | splitting at a slash splits the components |
| Paths.JoinThenSplit | src/common/virtio9p/src/protocol/nine_p_session.cpp:144-152 | splitting joined components gives them back |
| Paths.ParentAndBasename | src/common/virtio9p/src/protocol/nine_p_session.cpp:395-417 | the components of a path are its parent's followed by the basename |
| Paths.ParentIsUnique | src/common/virtio9p/src/protocol/nine_p_session.cpp:398-409 | there is only one such cut |
| Paths.LastByte | src/common/virtio9p/src/protocol/nine_p_session.cpp:411-414 | the basename is empty exactly if the path is empty or ends in a slash |
| ResourceManager.OpenOwns | src/common/virtio9p/src/resmgr/fs_virtio9p.cpp:202-208 | a new OCB with an unused fid keeps one fid of its own per OCB |
| ResourceManager.CloseOwns | src/common/virtio9p/src/resmgr/fs_virtio9p.cpp:607-616 | closing takes exactly that OCB's fid, never the root's |
| ResourceManager.OwnedCounts | src/common/virtio9p/src/resmgr/fs_virtio9p.cpp:607-616 | the pool has one fid per open OCB and the root's, and no others |
| ResourceManager.FileSystem.OpenExisting | src/common/virtio9p/src/resmgr/fs_virtio9p.cpp:138-149 | sends open and, depending on its reply, getattr or clunk; the code is that of the open; the fid stays exactly on success |
| ResourceManager.FileSystem.CreateMissing | src/common/virtio9p/src/resmgr/fs_virtio9p.cpp:150-174 | sends nothing, a walk, or a walk and a create, with a clunk if that is refused; the code is that of the last step; the parent's fid stays as the new file's exactly on success |
| ResourceManager.FileSystem.OpenOrCreate | src/common/virtio9p/src/resmgr/fs_virtio9p.cpp:136-178 | opens exactly if the walk reaches the path, creates exactly if it fails with ENOENT and O_CREAT is given, else returns the walk's code |
| ResourceManager.FileSystem.ConnectOpen | src/common/virtio9p/src/resmgr/fs_virtio9p.cpp:113-218 | by every branch: pool = root + one fid per OCB; the messages sent and the return code for every reply of the server and every result of the QNX helper; on success the new OCB holds the fid opened or created for this path, with the server's I/O unit, mode and size |
| ResourceManager.FileSystem.ConnectMknod | src/common/virtio9p/src/resmgr/fs_virtio9p.cpp:473-509 | by every branch: no fid is left over; the messages sent and the return code for every reply; the last component is made in its parent with the permission bits |
| ResourceManager.FileSystem.Probe | src/common/virtio9p/src/resmgr/fs_virtio9p.cpp:532-548 | AT_REMOVEDIR exactly when the target was reached and its mode has the bit 0040000; its fid is clunked again |
| ResourceManager.FileSystem.ConnectUnlink | src/common/virtio9p/src/resmgr/fs_virtio9p.cpp:511-558 | by every branch: no fid is left over; the messages sent and the return code for every reply; the last component is removed from its parent, as what the probe found |
| ResourceManager.FileSystem.ConnectRename | src/common/virtio9p/src/resmgr/fs_virtio9p.cpp:560-605 | by every branch: no fid is left over; the messages sent and the return code for every reply; the old name in the old parent is renamed to the new name in the new parent |
| ResourceManager.FileSystem.IoCloseOcb | src/common/virtio9p/src/resmgr/fs_virtio9p.cpp:607-616 | one clunk, of this OCB's fid |
| ResourceManager.MknodSucceedsIff | src/common/virtio9p/src/resmgr/fs_virtio9p.cpp:501-508 | EOK exactly if the mkdir was sent and accepted |
| ResourceManager.UnlinkSucceedsIff | src/common/virtio9p/src/resmgr/fs_virtio9p.cpp:550-557 | EOK exactly if the unlink was sent and accepted |
| ResourceManager.RenameSucceedsIff | src/common/virtio9p/src/resmgr/fs_virtio9p.cpp:596-604 | EOK exactly if the rename was sent and accepted |
| ResourceManager.OpenSucceedsIff | src/common/virtio9p/src/resmgr/fs_virtio9p.cpp:138-217 | EOK exactly if an open or a create was accepted and the QNX helper agreed |
| ResourceManager.DirectoryTypes | src/common/virtio9p/src/resmgr/fs_virtio9p.cpp:148-148 | which file types count as a directory: those with the bit 0040000, that is directories, block devices and sockets; the test of mknod takes directories only |
| ResourceManager.CreatBit | src/common/virtio9p/src/resmgr/fs_virtio9p.cpp:162-162 | O_CREAT sets bit 6 and keeps the others |
| ResourceManager.MknodCodes | src/common/virtio9p/src/resmgr/fs_virtio9p.cpp:473-509 | the errno of a refused walk or mkdir is returned as it is; 22 for an empty path, 48 for anything but a directory |
| ResourceManager.RenameCodes | src/common/virtio9p/src/resmgr/fs_virtio9p.cpp:560-605 | the errno of a refused walk or rename is returned as it is; 22 for a path that does not end in a name |
| ResourceManager.UnlinkCodes | src/common/virtio9p/src/resmgr/fs_virtio9p.cpp:511-558 | the errno of a refused walk or unlink is returned as it is, whatever the probe found |
| ResourceManager.UnlinkFlags | src/common/virtio9p/src/resmgr/fs_virtio9p.cpp:532-548 | an answered mode makes the flags 0x200 exactly for the types of DirectoryTypes; without an answer they are 0 |
| ResourceManager.OpenCodes | src/common/virtio9p/src/resmgr/fs_virtio9p.cpp:136-178 | the errno of a refused walk, open or create is returned as it is; only after errno 2 or a walk that stopped early, and with O_CREAT, the parent is walked to |
| ResourceManager.OpenedAs | src/common/virtio9p/src/resmgr/fs_virtio9p.cpp:148-208 | a file that was found is open under the fid walked to and by its type; one that was made is never a directory |
| ResourceManager.Serve | src/common/virtio9p/src/resmgr/fs_virtio9p.cpp:113-616 | for every mount and sequence of handlers: the mount's retry traces and code; on runs without failures each handler's messages, code and effect on the table of open OCBs; against a conforming server client pool = server table = root + one distinct fid per open OCB, or nothing if the mount failed; every new fid was unused, the root was never clunked |
| LittleEndian.LeRoundTrip | src/common/virtio9p/src/protocol/nine_p_message.cpp:51-69 | a number that fits n bytes is read back from them |
| LittleEndian.LeInverse | src/common/virtio9p/src/protocol/nine_p_message.cpp:93-125 | bytes are written back from the number they stand for |
| Wire.StringRoundTripIff | src/common/virtio9p/src/protocol/nine_p_message.cpp:71-75 | a string is read back exactly when its length fits 16 bits |
| Wire.HeaderHere | src/common/virtio9p/src/protocol/nine_p_message.cpp:161-188 | the accessors find size, type and tag in the header and the body behind it |
| Wire.StringsHere | src/common/virtio9p/src/protocol/nine_p_message.cpp:245-248 | a list of names is read back name by name |
| Wire.EncodeThenRead | src/common/virtio9p/src/protocol/nine_p_message.cpp:207-379 | every request whose lengths fit is read back from its bytes field by field, to the last byte, with size, type and tag |
| Wire.EncodeReadsBack | src/common/virtio9p/src/protocol/nine_p_message.cpp:207-379 | for every request type with its code and tag in numbers: the Get helpers, called in the order of the protocol at its byte offsets, find each named argument, up to the end of the message |
| Wire.NumberBytes | src/common/virtio9p/src/protocol/nine_p_message.cpp:51-69 | numbers are written least significant byte first, 64-bit ones low half first |
| Wire.AnswersIff | src/common/virtio9p/include/protocol/nine_p_types.h:36-68 | a reply answers a request exactly if its type code is the request's plus one |
| Wire.FieldsDetermine | src/common/virtio9p/src/protocol/nine_p_message.cpp:207-379 | type, tag and fields are the whole request |
| Wire.EncodeInjective | src/common/virtio9p/src/protocol/nine_p_message.cpp:207-379 | different requests have different bytes |
| Wire.TwriteFitsIff | src/common/virtio9p/src/protocol/nine_p_message.cpp:304-318 | a write request fits kMaxMessageSize exactly if its data is at most 131049 bytes |
| Wire.RwalkRoundTrip | src/common/virtio9p/src/protocol/nine_p_message.cpp:417-431 | the qid loop reads back every list of qids |
| Wire.RreaddirRoundTrip | src/common/virtio9p/src/protocol/nine_p_message.cpp:492-516 | the entry loop reads back every listing and ends at the end of the message |
| Wire.EntryLayout | src/common/virtio9p/src/protocol/nine_p_message.cpp:501-512 | where type, version and path of the qid, cookie, type and name stand in a directory entry |
| Wire.ReadsKeepCursor | src/common/virtio9p/src/protocol/nine_p_message.cpp:84-148 | on any bytes the cursor moves forward and never past the end |
| Wire.ShortReads | src/common/virtio9p/src/protocol/nine_p_message.cpp:84-188 | what every helper makes of a message that is too short |
| Wire.QidsKeepCursor | src/common/virtio9p/src/protocol/nine_p_message.cpp:417-431 | the same for the qid loop, which always reads the announced number |
| Wire.EntryKeepsCursor | src/common/virtio9p/src/protocol/nine_p_message.cpp:506-512 | the same for a directory entry, which moves the cursor unless at the end |
| Wire.EntriesBound | src/common/virtio9p/src/protocol/nine_p_message.cpp:503-513 | at most ceil(count / 24) entries, on any bytes |
| NinePMessages.NinePMessage.BeginMessage | src/common/virtio9p/src/protocol/nine_p_message.cpp:25-34 | a header with size 0 and nothing else |
| NinePMessages.NinePMessage.EndMessage | src/common/virtio9p/src/protocol/nine_p_message.cpp:36-44 | only the first four bytes change, to the length |
| NinePMessages.NinePMessage.PutU16 | src/common/virtio9p/src/protocol/nine_p_message.cpp:51-55 | appends the two little-endian bytes |
| NinePMessages.NinePMessage.PutU32 | src/common/virtio9p/src/protocol/nine_p_message.cpp:57-63 | appends the four little-endian bytes |
| NinePMessages.NinePMessage.PutU64 | src/common/virtio9p/src/protocol/nine_p_message.cpp:65-69 | appends the low half, then the high half |
| NinePMessages.NinePMessage.PutString | src/common/virtio9p/src/protocol/nine_p_message.cpp:71-75 | appends the length, cast to 16 bits, and all bytes |
| NinePMessages.NinePMessage.GetU32 | src/common/virtio9p/src/protocol/nine_p_message.cpp:106-118 | reads at the cursor, or 0 without moving when the message is too short |
| NinePMessages.NinePMessage.GetU64 | src/common/virtio9p/src/protocol/nine_p_message.cpp:120-125 | two 32-bit reads, low half first |
| NinePMessages.NinePMessage.GetString | src/common/virtio9p/src/protocol/nine_p_message.cpp:127-137 | length and bytes, or an empty string when they do not fit |
| NinePMessages.NinePMessage.GetBytes | src/common/virtio9p/src/protocol/nine_p_message.cpp:139-148 | the bytes at the cursor, or none when they do not fit; leaves the buffer exactly when the 32-bit sum wraps to at most the length |
| NinePMessages.ParseRread | src/common/virtio9p/src/protocol/nine_p_message.cpp:445-455 | on any bytes: the announced bytes, or none, or a read outside the buffer, and exactly when |
| NinePMessages.RreadEscapesIff | src/common/virtio9p/src/protocol/nine_p_message.cpp:445-455 | parsing an Rread leaves the buffer exactly for counts of 2^32 - 11 or more, whatever it carries; a truthful count gives the payload |
| NinePMessages.ParseWrappingRread | src/common/virtio9p/src/protocol/nine_p_message.cpp:141-144 | the reply with count 2^32 - 11 and no data is parsed with success and a read outside the buffer |
| NinePMessages.NinePMessage.GetQid | src/common/virtio9p/src/protocol/nine_p_message.cpp:150-157 | type, version and path in this order |
| NinePMessages.Build | src/common/virtio9p/src/protocol/nine_p_message.cpp:207-379 | the message class ends up with exactly the bytes of the request, in which every argument stands where the protocol has it |
| NinePMessages.PutNames | src/common/virtio9p/src/protocol/nine_p_message.cpp:244-248 | the name loop of BuildTwalk writes the count and every name |
| NinePMessages.ParseRwalk | src/common/virtio9p/src/protocol/nine_p_message.cpp:417-431 | on any bytes: the announced number of qids, cursor in bounds, false exactly for another message type |
| NinePMessages.ParseRreaddir | src/common/virtio9p/src/protocol/nine_p_message.cpp:492-516 | on any bytes and every count up to 2^32 - 8: ends, after exactly the iterations its 32-bit guard asks for, with the entries they read and the cursor in bounds |
| NinePMessages.ParseListing | src/common/virtio9p/src/protocol/nine_p_message.cpp:492-516 | the parser gives back exactly the entries of a listing, in order, and stops at the end |
| NinePMessages.ParseWalk | src/common/virtio9p/src/protocol/nine_p_message.cpp:417-431 | the parser gives back exactly the qids of a walk and stops at the end |
| NinePMessages.StuckPastEnd | src/common/virtio9p/src/protocol/nine_p_message.cpp:503-513 | past the end the byte count grows by 24 an iteration modulo 2^32 and the cursor stays |
| NinePMessages.NoWrap | src/common/virtio9p/src/protocol/nine_p_message.cpp:503-513 | up to a count of 2^32 - 24 the loop reads, on any bytes, what it would read with unbounded numbers |
| NinePMessages.StopsUnwrapped | src/common/virtio9p/src/protocol/nine_p_message.cpp:503-513 | so up to that count it stops after at most ceil(count / 24) entries |
| NinePMessages.SmallCountsEnd | src/common/virtio9p/src/protocol/nine_p_message.cpp:503-513 | up to a count of 2^32 - 8 some number of iterations makes the guard false, on any bytes |
| NinePMessages.EmptyReplyEndsIff | src/common/virtio9p/src/protocol/nine_p_message.cpp:499-513 | on a reply without entries the loop ends exactly for counts up to 2^32 - 8 |
| NinePMessages.EndsIff | src/common/virtio9p/src/protocol/nine_p_message.cpp:499-513 | the loop ends on every reply with this count exactly when the count is at most 2^32 - 8 |
| FileWrite.WriteThenRead | src/common/virtio9p/src/resmgr/fs_virtio9p.cpp:445-450 | what a positional write leaves at every position of the file |
| FileWrite.WritesJoin | src/common/virtio9p/src/resmgr/fs_virtio9p.cpp:409-456 | two adjacent positional writes are one |
| FileWrite.InlineIffReceived | src/common/virtio9p/src/resmgr/fs_virtio9p.cpp:391-404 | a payload byte is taken inline exactly if it has arrived in the receive buffer, where it stands behind the header |
| FileWrite.AsksForTheMissing | src/common/virtio9p/src/resmgr/fs_virtio9p.cpp:411-443 | an iteration asks msgread for the part of its stretch that has not arrived, from the first missing byte of the message on, and for nothing else |
| FileWrite.ChunkSizes | src/common/virtio9p/src/resmgr/fs_virtio9p.cpp:406-406 | chunks are of the server's I/O unit, or of 130944 bytes |
| FileWrite.FillBuffer | src/common/virtio9p/src/resmgr/fs_virtio9p.cpp:411-443 | copies what has arrived from the receive buffer and asks msgread for the rest; whatever that delivers, the buffer is the next stretch of the payload, as long as arrived bytes and msgread allow |
| FileWrite.WriteChunk | src/common/virtio9p/src/resmgr/fs_virtio9p.cpp:409-456 | one iteration writes the next stretch of the payload, as long as inline bytes and msgread allow and as far as the server takes it, or fails with the code of msgread or server |
| FileWrite.IoWrite | src/common/virtio9p/src/resmgr/fs_virtio9p.cpp:354-471 | ends; the file is the old one with payload[..total] at the offset; the chunks are the payload stretches in order with the server's own answers; on EOK total is everything or the server answered the last chunk short; on failure the code is msgread's or the server's for the next chunk and the OCB did not move; ENOSYS for an unknown type |
| FileWrite.OutcomeIsUnique | src/common/virtio9p/src/resmgr/fs_virtio9p.cpp:409-456 | the answers of msgread and server determine code, total and chunks |
| FileWrite.TakersWriteAll | src/common/virtio9p/src/resmgr/fs_virtio9p.cpp:409-456 | a server that takes what it is given, and a msgread that does not fail, get everything written |
| FileWrite.ChunksFitIff | src/common/virtio9p/src/resmgr/fs_virtio9p.cpp:406-406 | every chunk fits the transport's buffer exactly if the I/O unit is 0 or at most 131049 |
| FileWrite.WriteSeries | src/common/virtio9p/src/resmgr/fs_virtio9p.cpp:379-470 | a series of write calls, each with its own split and its own outside answers, is one positional write of all acknowledged bytes; each total is all of its payload or ends on a short answer of that call's server; the series stops early only on a call that fails, which may have written a prefix |
| FileWrite.TotalBounds | src/common/virtio9p/src/resmgr/fs_virtio9p.cpp:409-456 | with a sender that holds less than it announces the total climbs to what it holds and no further |
| FileWrite.StallsForeverIff | src/common/virtio9p/src/resmgr/fs_virtio9p.cpp:409-456 | with such a sender, and a server that takes all, the loop never ends exactly when the message holds less than it announces |
| FileWrite.Stall | src/common/virtio9p/src/resmgr/fs_virtio9p.cpp:409-456 | the handler's own loop body, iterated with such a sender, gets exactly that far and writes exactly that |
| DirRead.RecLenBounds | src/common/virtio9p/src/resmgr/fs_virtio9p.cpp:262-263 | the record length is a multiple of 8 with room for name and NUL and less than 8 bytes to spare |
| DirRead.RecordShape | src/common/virtio9p/src/resmgr/fs_virtio9p.cpp:270-276 | records are 8-aligned, the name is followed by 1 to 8 zero bytes |
| DirRead.RecordLayout | src/common/virtio9p/src/resmgr/fs_virtio9p.cpp:263-276 | inode at 0, cookie at 8, record length and name length at 16 and 18, name at 20 and a NUL; the record length is the name's plus 28, rounded down to a multiple of 8 |
| DirRead.RecLenFitsIff | src/common/virtio9p/src/resmgr/fs_virtio9p.cpp:274-275 | the int16 cast keeps the record length exactly for names up to 32739 bytes |
| DirRead.WalkUndoesPacking | src/common/virtio9p/src/resmgr/fs_virtio9p.cpp:257-280 | walking by d_reclen recovers inode, cookie and name of all entries exactly when no name is longer than that |
| DirRead.WireEntryOutgrowsIff | src/common/virtio9p/src/resmgr/fs_virtio9p.cpp:263-268 | for which names the dirent is larger than the 9P entry |
| DirRead.FitsIsMaximal | src/common/virtio9p/src/resmgr/fs_virtio9p.cpp:265-268 | the entries packed are the longest prefix that fits |
| DirRead.Pack | src/common/virtio9p/src/resmgr/fs_virtio9p.cpp:270-276 | filling a zeroed buffer field by field gives the record |
| DirRead.IoRead | src/common/virtio9p/src/resmgr/fs_virtio9p.cpp:243-293 | the longest fitting prefix is returned and the cookie is its last entry's; the reply is empty exactly when there is no entry or the first does not fit; errors leave the OCB alone |
| DirRead.AfterCookieFound | src/common/virtio9p/src/resmgr/fs_virtio9p.cpp:279-279 | resuming after an entry's cookie starts at the next entry |
| DirRead.WholeListings | src/common/virtio9p/src/resmgr/fs_virtio9p.cpp:247-253 | a server that answers with all entries behind the cookie is one of those the theorems are about |
| DirRead.ReadExtends | src/common/virtio9p/src/resmgr/fs_virtio9p.cpp:257-280 | one read extends what the caller has found by exactly the next entries |
| DirRead.ReadSeries | src/common/virtio9p/src/resmgr/fs_virtio9p.cpp:243-293 | over any series of reads each gives the longest fitting prefix of the server's answer; the caller finds a prefix of the listing, none skipped, none twice; no buffer is overfilled; the cookie is the last entry's |
| DirRead.ReadNext | src/common/virtio9p/src/resmgr/fs_virtio9p.cpp:243-293 | a read that starts after the first entries gives the longest fitting prefix of the answer for their cookie, and makes progress if the server is prompt and the next record fits |
| DirRead.ReadAll | src/common/virtio9p/src/resmgr/fs_virtio9p.cpp:243-293 | reading with any sizes until an empty reply ends; with a prompt server the empty reply comes only when the listing is exhausted or the next record has no room |

## Left out

- PCI discovery, BAR mapping, MSI-X, MMIO registers, interrupts, pulses, timers, memory barriers and mutexes: device plumbing; the ring's publication points are atomic steps.
- Virtqueues.Virtqueue.constructor: allocation failure of the ring memory is not part of it; it is a stage at which SetupVirtqueue of the transport stops.
- Transports.Transport.WaitForCompletion: pulses are a number, and a timeout and an error of a receive are one event with an error code.
- Transports.Transport.Initialize: device discovery and BAR mapping before it are left out.
- FidPools.FidPool.Allocate: after 2^32 allocations fids repeat, which the code does not detect; freshness is stated up to there.
- Sessions.Session.GetAttr: of the attributes mode and size are modelled, those the handlers use.
- Sessions.Session.Walk: fid statements are made only on runs without transport failure, because Reinitialize clears the pool while OCBs and the retried request keep old numbers.
- Sessions.Session.NextTag: reuse of tags after 65536 requests is harmless with one request outstanding and not studied.
- Session and handlers exchange message values; that values and bytes correspond is proved separately in Wire and NinePMessages. An Rlerror with code 0 or the most negative 32-bit code follows the arithmetic of the code on unbounded integers.
- Session.Read and Session.Write have the form of ReadDir and are not repeated; the data loops take their answers from functions.
- NinePMessages.NinePMessage.GetBytes: what the C++ code does after it has left the buffer is not modelled; the model says that it left and reads nothing.
- NinePMessages.ParseRreaddir: requires a message of at most kMaxMessageSize bytes and a count of at most 2^32 - 8; beyond that count the loop does not end on every reply (EndsIff).
- The cursor is unbounded: messages of 2^32 - 8 bytes or more, where the 32-bit cursor plus 4 would wrap, are not modelled.
- The parsers without loops (ParseRversion, ParseRlopen, ParseRgetattr, ParseRwrite and the like) only chain the Get helpers.
- ResourceManager.FileSystem.ConnectOpen: the flag translation from QNX to Linux and the QNX open helper are left out; the helper's result is a parameter.
- FileWrite.IoWrite: the header of a message is any bytes, and the offset of a pwrite, which stands in it, is given beside it; offsets and sizes are unbounded, append mode is left out, and `resmgr_msgread` reports its error as a negative number.
- DirRead.IoRead: the permission check before it and the regular-file read are left out.
- Handlers called before a session exists return ENOSYS; this guard is not modelled.
- IoStat, ParseArgs, daemonising, logging, mount scripts, the credential helper and the sample programs.
