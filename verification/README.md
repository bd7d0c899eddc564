# Verification of the bootloader and its lwIP core

A Dafny model of the hard parts of the STM32H743 OTA bootloader and of the lwIP 2.0.3
sources it runs on, with proofs of what they promise over every input and every run.
`dafny verify dfyconfig.toml` checks the whole project.

## How it is organised

| files | what they model |
|---|---|
| `Words.dfy` | 8-, 16- and 32-bit ranges and unsigned wrap-around |
| `HeapLayout.dfy`, `Heap.dfy` | `mem.c`: the heap as a tiling of blocks, and the byte arena whose headers hold that tiling |
| `PbufSpec.dfy`, `PbufCopy.dfy`, `Pbuf.dfy` | `pbuf.c`: chains, reference counts and flattened bytes, the walk of `pbuf_copy`, and the loops over the pbufs |
| `TcpSpec.dfy`, `TcpStream.dfy`, `TcpWindow.dfy`, `TcpProgress.dfy`, `Tcp.dfy` | the receive path of `tcp_in.c` and `tcp.c`: one connection as functions in wrapped arithmetic, what the application sees of the peer's stream, the window account, that a connection gets on, and the fields and pbufs updated in place |
| `Chksum.dfy` | `inet_chksum.c`: three summing algorithms, chains, pseudo-headers |
| `Crc.dfy` | `crc32.c` and the bitwise loop of `ota.c` |
| `Flash.dfy`, `Qspi.dfy` | a flash device (erase sets bits, program clears them and wraps inside its page, any operation may fail or be cut short) and `bsp_qspi_flash.c` over it |
| `BootSpec.dfy`, `Boot.dfy`, `BootRuns.dfy` | `metadata.c`, `menu.c`, `main.c`: the persistent state, the operations on it, and runs of boots, updates, hangs and power losses |
| `Ota.dfy`, `OtaRecv.dfy` | `ota.c`: writing an update, and receiving, staging and confirming it |
| `Select.dfy`, `SelectRuns.dfy` | the wake-up protocol of `sockets.c`, as the interleaving of its protected sections, and what a run of them makes of the events |

Two layers recur. A *specification* module gives each operation as a function (or an outcome
relation, where hardware may fail in many ways) and proves the laws about it; a *class* then
carries the fields the source mutates, and each of its methods - loops, retries and all - is
proved to do to its state exactly what the specification says. What the specification says is
in turn proved in raw terms - bytes, words, stream positions, counts of events - so that it
does not rest on its own definitions.

A loss of power is the status `Cut`: any device operation may return it, with the device left
anywhere on the way, and every caller returns at once. A postcondition that does not mention
the status therefore holds at every point where the power can go. Every device counts the
operations that failed or were cut short; where a contract says that failing costs a fault,
working hardware means success. HAL calls, clocks, delays, display and key input are
parameters or nondeterministic choices.

Some proofs say `hide F;`: the body of `F` is then not available to that proof, which keeps it
cheap. It assumes nothing.

## What the code does that its comments do not say

* A retransmitted SYN that carries data and completes the handshake loses its first data
  byte: the front cut takes a byte for the SYN's sequence number. `TcpStream.SynData` is the
  exact condition, `TcpStream.ProcessInStreamIff` shows that nothing else breaks the stream,
  and `TcpStream.SynDataLosesByte` shows what is lost; `TcpStream.SynDataHappens` is such a
  segment.
* `tcp_recved(pcb, 0)` with a closed window in CLOSE_WAIT or LAST_ACK is taken for an
  overflow and opens the whole window; `TcpWindow.RecvedAccounted` gives the exact condition
  under which a call keeps the account, `TcpWindow.EmptyReportOverflows` a state in which it
  does not.
* `mem_malloc` rounds sizes above 65532 down to the minimum, because the aligned size wraps in
  16 bits (`HeapLayout.RoundedCoversRequest`). `mem_trim` rounds in the same way and so cuts a
  live block to 12 bytes when asked for such a size.
* `pbuf_dechain` derives its answer from an 8-bit count of deallocated pbufs; when that count
  wraps to 0 it returns a pointer to freed memory (`PbufSpec.DechainAnswer`);
  `PbufSpec.DechainDangles` builds the chain of 257 pbufs that makes it do so.
* `QSPI_Erase_Blocks` reports success without erasing when start + size wraps in 32 bits
  (`Qspi.Qspi.EraseBlocks`). No caller asks for that.
* `pbuf_copy` fails on some single packets that contain empty pbufs, because a pbuf followed
  only by empty ones looks to it like the end of a packet; `PbufCopy.Passes` is the exact
  condition on the lengths of the pbufs.
* The front trimming of `tcp_receive` accepts a segment of length 1 that lies exactly half the
  sequence space behind `rcv_nxt`: there, and nowhere else, the offset is not inside the segment
  (`TcpSpec.FrontInside`). Converted to s32 and s16 it cuts nothing, and the byte is taken for
  the next one of the stream (`TcpStream.HalfBehindIsTaken`). C leaves the negation of that
  offset undefined; the model takes it as wrapping. The theorems about the stream concern
  segments less than half the space away.
* A state word other than the four defined ones, under a valid magic, makes the bootloader jump
  without the watchdog (`BootRuns.JumpsFree`; key 5 of the menu, menu.c:661, jumps without it in
  any state). A metadata write interrupted while TESTING is programmed leaves one exactly when
  the magic is whole and the state word none of the three that are looked for
  (`BootRuns.TornRecordJumpsFreeIff`); for every pending update one lies on the way of the first flash word
  (`BootRuns.TornStateJumpsFree`). Which records it may leave at all is part of the contract of
  `Boot.Board.MetadataWrite`. So a hanging image is not taken back after 2 boots and 2 more per
  interruption in every run: it is if and only if after every boot the record reads as PENDING,
  as TESTING, or as CONFIRMED with the old application in Bank2
  (`BootRuns.HangingImageIsTakenBackIff`). Metadata written whole or not at all is enough
  (`BootRuns.HangingImageIsTakenBack`); with a torn record the board stays with the hanging
  image for any number of boots (`BootRuns.TornRunNeverRecovers`).
* The firmware compiles lwIP's assertions out (`LWIP_NOASSERT`, User/APP/lwipopts.h:226). Where
  a precondition of the model is the text of an assertion (the live block demanded by `mem_free`
  and `mem_trim`, the positive count in `pbuf_free`), keeping it is the callers' duty, and
  nothing checks it. Two assertions are not needed: `off < 0x7fff` in `tcp_receive`, in whose
  place it is enough that no single pbuf holds more than 0x7fff bytes, and `chksum_len < 0x7fff`
  in the partial checksum.
* The header of `menu.c` says that a test boot without a watchdog reset becomes CONFIRMED; the
  code leaves it in TESTING. `metadata.h` lists fields that `ota.c` and `menu.c` do not use;
  the model has theirs. The note on version 1 of the checksum limits it to 64 KB; 128 KB fit.

## Model

| member | source | states |
|---|---|---|
| `HeapLayout.RoundedCoversRequest` | STM32/Bootloader/User/lwip-2.0.3/src/core/mem.c:613-622 | the aligned size covers the request, except exactly for the sizes above 65532, whose alignment wraps in 16 bits |
| `HeapLayout.FirstFit` | STM32/Bootloader/User/lwip-2.0.3/src/core/mem.c:641-655 | the lowest free block with room, or none |
| `HeapLayout.LowestFree` | STM32/Bootloader/User/lwip-2.0.3/src/core/mem.c:697-710 | what `lfree` caches: the lowest free block, or the end |
| `HeapLayout.TakeKeepsWf` | STM32/Bootloader/User/lwip-2.0.3/src/core/mem.c:655-695 | splitting or taking a block keeps a strictly increasing tiling without adjacent free blocks |
| `HeapLayout.FreeKeepsWf` | STM32/Bootloader/User/lwip-2.0.3/src/core/mem.c:446-460 | freeing and merging keeps it |
| `HeapLayout.TrimKeepsWf` | STM32/Bootloader/User/lwip-2.0.3/src/core/mem.c:478-592 | shrinking keeps it |
| `HeapLayout.LivePayloadsDisjoint` | STM32/Bootloader/User/lwip-2.0.3/src/core/mem.c:256-260 | live payloads and all headers lie apart inside the arena |
| `HeapLayout.MallocGrants` | STM32/Bootloader/User/lwip-2.0.3/src/core/mem.c:603-742 | exactly one payload of at least the rounded size is granted, in the lowest fitting free block, and no other payload moves; none only if no free block fits |
| `HeapLayout.GapsAreBlocks` | STM32/Bootloader/User/lwip-2.0.3/src/core/mem.c:344-376 | coalescing hides no room: a stretch touching no used block lies inside one free block |
| `HeapLayout.RefusedOnlyWhenFull` | STM32/Bootloader/User/lwip-2.0.3/src/core/mem.c:641-742 | a request is refused if and only if no untouched stretch of the arena could hold a header and the rounded size |
| `HeapLayout.GrantedIffRoom` | STM32/Bootloader/User/lwip-2.0.3/src/core/mem.c:603-742 | a request of any size but 0 is granted if and only if an untouched stretch has room for 8 bytes and the rounded size |
| `HeapLayout.FreeReturns` | STM32/Bootloader/User/lwip-2.0.3/src/core/mem.c:419-465 | freeing takes away exactly that payload and leaves the others |
| `HeapLayout.TrimShrinks` | STM32/Bootloader/User/lwip-2.0.3/src/core/mem.c:478-592 | trimming cuts exactly that payload, down to the new size if a free block above takes the rest, else to less than 20 bytes more |
| `HeapLayout.MallocThenFree` | STM32/Bootloader/User/lwip-2.0.3/src/core/mem.c:446-460 | freeing what was just allocated restores the previous layout, and with it `lfree` |
| `HeapLayout.NothingLive` | STM32/Bootloader/User/lwip-2.0.3/src/core/mem.c:382-410 | with nothing live the heap is the single free block `mem_init` made |
| `HeapLayout.RunKeepsHeap` | STM32/Bootloader/User/lwip-2.0.3/src/core/mem.c:343-742 | over every run of malloc, free and trim the heap stays a well-formed tiling whose used blocks are exactly the extents the clients hold |
| `HeapLayout.FreeAllInAnyOrder` | STM32/Bootloader/User/lwip-2.0.3/src/core/mem.c:419-465 | freeing all live blocks in any order returns to the state after `mem_init` |
| `Heap.Arena.constructor` | STM32/Bootloader/User/lwip-2.0.3/src/core/mem.c:382-410 | `mem_init` writes the headers of one free block |
| `Heap.Arena.Malloc` | STM32/Bootloader/User/lwip-2.0.3/src/core/mem.c:603-742 | over the bytes of the arena: the layout becomes that of the specification, the pointer is that of the lowest fitting block, NULL exactly when none fits, all live payload bytes unchanged |
| `Heap.Arena.Store` | STM32/Bootloader/User/lwip-2.0.3/src/core/mem.c:722-730 | a client's write into a payload it holds changes that byte only: the heap stays valid, all other payloads unchanged |
| `Heap.Arena.Free` | STM32/Bootloader/User/lwip-2.0.3/src/core/mem.c:419-465 | the layout becomes that of the specification; other payloads keep their bytes; pointers outside the heap are ignored |
| `Heap.Arena.PlugHoles` | STM32/Bootloader/User/lwip-2.0.3/src/core/mem.c:344-376 | merging forward and backward on the headers, with `lfree` following |
| `Heap.Arena.Trim` | STM32/Bootloader/User/lwip-2.0.3/src/core/mem.c:478-592 | the layout becomes that of the specification, the kept bytes and all other payloads unchanged |
| `PbufSpec.FreeKeepsCounts` | STM32/Bootloader/User/lwip-2.0.3/src/core/pbuf.c:715-791 | freeing gives up exactly one surplus reference: afterwards `ref` is again holders plus predecessors, and no link dangles |
| `PbufSpec.FreeIsPrefix` | STM32/Bootloader/User/lwip-2.0.3/src/core/pbuf.c:735-788 | exactly the longest prefix of count-1 pbufs is deallocated, the one after it loses one reference, nothing else changes |
| `PbufSpec.RefKeepsCounts` | STM32/Bootloader/User/lwip-2.0.3/src/core/pbuf.c:820-827 | one reference for one new holder |
| `PbufSpec.CatKeepsCounts` | STM32/Bootloader/User/lwip-2.0.3/src/core/pbuf.c:840-862 | the caller's reference to the tail becomes the link's |
| `PbufSpec.CatIsConcat` | STM32/Bootloader/User/lwip-2.0.3/src/core/pbuf.c:840-862 | two packets become one well-formed packet of their concatenated bytes |
| `PbufSpec.ChainKeepsCounts` | STM32/Bootloader/User/lwip-2.0.3/src/core/pbuf.c:882-888 | the caller keeps its reference to the tail |
| `PbufSpec.DechainKeepsCounts` | STM32/Bootloader/User/lwip-2.0.3/src/core/pbuf.c:899-927 | unlinking drops the link's reference |
| `PbufSpec.UnlinkIsSplit` | STM32/Bootloader/User/lwip-2.0.3/src/core/pbuf.c:899-918 | unlinking makes two well-formed packets of one: the first pbuf, and the others, with the bytes of the whole |
| `PbufSpec.DechainIsSplit` | STM32/Bootloader/User/lwip-2.0.3/src/core/pbuf.c:899-927 | so does dechaining, if somebody else holds the rest; the first pbuf is a packet of its own in any case |
| `PbufSpec.DechainAnswer` | STM32/Bootloader/User/lwip-2.0.3/src/core/pbuf.c:914-927 | the answer is an allocated pbuf or NULL exactly when the number of deallocated pbufs is not a positive multiple of 256 |
| `PbufSpec.DechainDangles` | STM32/Bootloader/User/lwip-2.0.3/src/core/pbuf.c:914-927 | a counted chain of 257 pbufs whose second one `pbuf_dechain` deallocates and returns |
| `PbufSpec.ReallocIsPrefix` | STM32/Bootloader/User/lwip-2.0.3/src/core/pbuf.c:493-555 | the packet afterwards is well formed and holds exactly the first bytes; no other chain is touched |
| `PbufSpec.ReallocKeepsCounts` | STM32/Bootloader/User/lwip-2.0.3/src/core/pbuf.c:545-555 | only the chain's own link to the rest is dropped |
| `PbufSpec.RunKeepsCounts` | STM32/Bootloader/User/lwip-2.0.3/src/core/pbuf.c:699-927 | over every run `ref` equals outside holders plus predecessors, and no deallocated pbuf is reachable from a holder |
| `PbufSpec.RefThenFree` | STM32/Bootloader/User/lwip-2.0.3/src/core/pbuf.c:715-827 | a reference taken and given back leaves everything as it was |
| `PbufSpec.ChainThenDechain` | STM32/Bootloader/User/lwip-2.0.3/src/core/pbuf.c:882-927 | so does a pbuf chained to a packet and dechained again |
| `PbufSpec.TotLenSums` | STM32/Bootloader/User/lwip-2.0.3/src/core/pbuf.c:525-542 | `tot_len` is `len` plus the `tot_len` of the next pbuf |
| `Pbuf.PbufMem.Free` | STM32/Bootloader/User/lwip-2.0.3/src/core/pbuf.c:715-791 | the loop deallocates as specified and returns the 8-bit count |
| `Pbuf.PbufMem.Ref` | STM32/Bootloader/User/lwip-2.0.3/src/core/pbuf.c:820-827 | one more reference, nothing else |
| `Pbuf.PbufMem.Cat` | STM32/Bootloader/User/lwip-2.0.3/src/core/pbuf.c:840-862 | the loop adds the lengths along the head chain and links its end |
| `Pbuf.PbufMem.Chain` | STM32/Bootloader/User/lwip-2.0.3/src/core/pbuf.c:882-888 | cat and one more reference |
| `Pbuf.PbufMem.Dechain` | STM32/Bootloader/User/lwip-2.0.3/src/core/pbuf.c:899-927 | unlinks, frees, and answers by the count |
| `Pbuf.PbufMem.CopyPartial` | STM32/Bootloader/User/lwip-2.0.3/src/core/pbuf.c:1015-1051 | the slice of the flattened bytes, clipped at the end of the chain |
| `Pbuf.PbufMem.Skip` | STM32/Bootloader/User/lwip-2.0.3/src/core/pbuf.c:1105-1119 | the pbuf that holds the byte, and where in it; NULL past the end |
| `Pbuf.PbufMem.Take` | STM32/Bootloader/User/lwip-2.0.3/src/core/pbuf.c:1149-1179 | the data overwrites the first bytes of the flattened chain and nothing else, or an error changes nothing |
| `Pbuf.PbufMem.TakeAt` | STM32/Bootloader/User/lwip-2.0.3/src/core/pbuf.c:1193-1213 | the data overwrites the flattened bytes at the offset; refused exactly when it does not fit or the offset is at the end |
| `Pbuf.PbufMem.Realloc` | STM32/Bootloader/User/lwip-2.0.3/src/core/pbuf.c:493-555 | the walk with its wrapped 16-bit subtraction reaches the specified memory |
| `Pbuf.PbufMem.Copy` | STM32/Bootloader/User/lwip-2.0.3/src/core/pbuf.c:948-1000 | ERR_ARG, changing nothing, when the target is too small or missing; otherwise the first bytes of the source overwrite the front of the target, all of them unless ERR_VAL; ERR_OK if and only if the lengths pass |
| `PbufCopy.FirstRound` | STM32/Bootloader/User/lwip-2.0.3/src/core/pbuf.c:962-985 | the first round of any two chains reaches a position as described |
| `PbufCopy.NextRound` | STM32/Bootloader/User/lwip-2.0.3/src/core/pbuf.c:962-985 | so does every round after a passed check |
| `PbufCopy.StrikeFails` | STM32/Bootloader/User/lwip-2.0.3/src/core/pbuf.c:984-996 | where a check strikes, the closed condition on the lengths is false |
| `PbufCopy.EndPasses` | STM32/Bootloader/User/lwip-2.0.3/src/core/pbuf.c:997-999 | where the source ends, it is true |
| `PbufCopy.FullPasses` | STM32/Bootloader/User/lwip-2.0.3/src/core/pbuf.c:987-996 | it is true of all chains that do not end in an empty pbuf |
| `Pbuf.TakeAtThenCopy` | STM32/Bootloader/User/lwip-2.0.3/src/core/pbuf.c:1015-1213 | `pbuf_copy_partial` reads back what `pbuf_take_at` wrote |
| `TcpSpec.DiffIsDistance` | STM32/Bootloader/User/lwip-2.0.3/src/include/lwip/priv/tcp_priv.h:106-114 | the wrapped signed comparison of two stream positions is their comparison, within half the sequence space |
| `TcpSpec.FrontInside` | STM32/Bootloader/User/lwip-2.0.3/src/core/tcp_in.c:1319-1325 | the bytes before rcv_nxt lie inside the segment, except exactly for a length of 1 half the sequence space behind |
| `TcpSpec.RecvedAllFrame` | STM32/Bootloader/User/lwip-2.0.3/src/core/tcp.c:794-830 | `tcp_recved` changes only windows and the announced edge |
| `TcpSpec.RetryKeepsRcvNxt` | STM32/Bootloader/User/lwip-2.0.3/src/core/tcp.c:1311-1367 | retrying refused data moves no sequence number |
| `TcpStream.ReceiveIntersects` | STM32/Bootloader/User/lwip-2.0.3/src/core/tcp_in.c:1286-1489 | front and tail trimming in wrapped arithmetic is the intersection of the segment with the window at rcv_nxt: these bytes, this FIN, these new rcv_nxt and rcv_wnd, and otherwise nothing |
| `TcpStream.HalfBehindIsTaken` | STM32/Bootloader/User/lwip-2.0.3/src/core/tcp_in.c:1319-1381 | such a byte is taken for the next one of the stream |
| `TcpStream.ReceiveInStream` | STM32/Bootloader/User/lwip-2.0.3/src/core/tcp_in.c:1286-1489 | the text of a segment keeps the stream invariant |
| `TcpStream.ProcessInStreamIff` | STM32/Bootloader/User/lwip-2.0.3/src/core/tcp_in.c:709-961 | a segment keeps the stream invariant if and only if it is not a SYN with data that completes the handshake |
| `TcpStream.SynDataLosesByte` | STM32/Bootloader/User/lwip-2.0.3/src/core/tcp_in.c:1319-1369 | such a segment delivers the stream from byte 1 on |
| `TcpStream.SynDataHappens` | STM32/Bootloader/User/lwip-2.0.3/src/core/tcp_in.c:840-882 | there is such a segment for a fresh connection, and it breaks the invariant |
| `TcpStream.DeliverInStream` | STM32/Bootloader/User/lwip-2.0.3/src/core/tcp_in.c:403-484 | data before FIN, a FIN behind refused data held back, the end reported once and only when everything was delivered |
| `TcpStream.RetryInStream` | STM32/Bootloader/User/lwip-2.0.3/src/core/tcp.c:1311-1367 | refused data and its FIN are delivered once, in order |
| `TcpStream.StepInStream` | STM32/Bootloader/User/lwip-2.0.3/src/core/tcp_in.c:104-528 | every event keeps the invariant |
| `TcpStream.DeliveredIsPrefix` | STM32/Bootloader/User/lwip-2.0.3/src/core/tcp_in.c:104-528 | over every run the bytes delivered plus those refused are a prefix of the peer's stream, rcv_nxt is IRS + 1 + their number + FIN modulo 2^32, and the end is reported only to who has all of it |
| `TcpProgress.InOrderIsTaken` | STM32/Bootloader/User/lwip-2.0.3/src/core/tcp_in.c:1286-1489 | a segment that continues what is there and fits the window is taken whole, with its FIN |
| `TcpProgress.InOrderIsDelivered` | STM32/Bootloader/User/lwip-2.0.3/src/core/tcp_in.c:403-484 | an application that accepts has all the stream up to its end at once, and the end of the stream if the segment brought it |
| `TcpProgress.InOrderIsKept` | STM32/Bootloader/User/lwip-2.0.3/src/core/tcp_in.c:446-470 | one that refuses finds exactly those bytes, and the FIN, kept with the pcb |
| `TcpProgress.RetryDelivers` | STM32/Bootloader/User/lwip-2.0.3/src/core/tcp.c:1311-1367 | and gets them, and the end, when it accepts later, at the fast timer for one; refusing again changes nothing |
| `TcpProgress.RefusedComesFirst` | STM32/Bootloader/User/lwip-2.0.3/src/core/tcp_in.c:353-372 | a segment that arrives has refused data delivered before anything newer |
| `TcpProgress.AckStillCounts` | STM32/Bootloader/User/lwip-2.0.3/src/core/tcp_in.c:353-372 | a segment without text is processed even while refused data is kept |
| `TcpProgress.WholeStreamArrives` | STM32/Bootloader/User/lwip-2.0.3/src/core/tcp_in.c:104-528 | every stream, however long, sent in order in pieces of 1 to 1460 bytes to an application that reports what it gets, is delivered whole and its end with it |
| `TcpProgress.NextStateIs` | STM32/Bootloader/User/lwip-2.0.3/src/core/tcp_in.c:883-957 | the state switch registers exactly what happened to the two FINs; it ends the connection only from LAST_ACK, on the ACK of our FIN |
| `TcpProgress.ResetIsObeyed` | STM32/Bootloader/User/lwip-2.0.3/src/core/tcp_in.c:718-757 | a reset within half the sequence space is obeyed exactly at rcv_nxt, and else changes nothing |
| `TcpProgress.SynIsIgnored` | STM32/Bootloader/User/lwip-2.0.3/src/core/tcp_in.c:759-763 | once synchronized, a SYN changes nothing |
| `TcpProgress.HandshakeIs` | STM32/Bootloader/User/lwip-2.0.3/src/core/tcp_in.c:840-882 | SYN_RCVD is left exactly on an acceptable ACK: for ESTABLISHED or, with a FIN, CLOSE_WAIT if the application consents, else for good |
| `TcpProgress.TimeWaitHoldsNothing` | STM32/Bootloader/User/lwip-2.0.3/src/core/tcp_in.c:907-948 | a pcb that enters TIME_WAIT holds no refused data |
| `TcpProgress.SendFinIs` | STM32/Bootloader/User/lwip-2.0.3/src/core/tcp.c:330-380 | closing our side sends a FIN unless one was sent, and touches nothing of the peer's |
| `TcpProgress.CloseResetsIffUnread` | STM32/Bootloader/User/lwip-2.0.3/src/core/tcp.c:265-298 | `tcp_close` resets the connection if and only if something given to it is unread, kept or unreported; nothing is kept then, and who closes first passes through TIME_WAIT |
| `TcpWindow.UpdateAnnKeeps` | STM32/Bootloader/User/lwip-2.0.3/src/core/tcp.c:759-782 | the window announced next never ends left of the announced edge nor right of the real one (`TcpProgress.WindowOpens` says where it ends) |
| `TcpProgress.WindowOpens` | STM32/Bootloader/User/lwip-2.0.3/src/core/tcp.c:759-782 | in stream positions: a real edge half the window or an mss ahead of the announced one is announced whole, and the difference returned; else the window ends at the larger of rcv_nxt and the announced edge, and 0 is returned |
| `TcpProgress.OutputAnnounces` | STM32/Bootloader/User/lwip-2.0.3/src/core/tcp_out.c:1208-1218 | a segment that goes out announces rcv_nxt + rcv_ann_wnd |
| `TcpProgress.RecvedClamps` | STM32/Bootloader/User/lwip-2.0.3/src/core/tcp.c:794-815 | whatever is reported, the window grows by it in 16 bits, to 2920 at most, and a 0 in CLOSE_WAIT or LAST_ACK becomes 2920 |
| `TcpProgress.RecvedAnnounces` | STM32/Bootloader/User/lwip-2.0.3/src/core/tcp.c:794-830 | after `tcp_recved` the announced edge is the real one exactly if that was ahead by 730 bytes and by half a window or an mss; else it is as before |
| `TcpProgress.ReportedReopens` | STM32/Bootloader/User/lwip-2.0.3/src/core/tcp.c:794-830 | once everything is reported the window is whole and more than half of it announced |
| `TcpWindow.RecvedAccounted` | STM32/Bootloader/User/lwip-2.0.3/src/core/tcp.c:794-815 | a call of `tcp_recved` keeps the account if and only if it reports no more than is unread and is not the empty report the source takes for an overflow |
| `TcpWindow.EmptyReportOverflows` | STM32/Bootloader/User/lwip-2.0.3/src/core/tcp.c:802-808 | a closed window in CLOSE_WAIT, with refused data and a held FIN, for which `tcp_recved(pcb, 0)` breaks the account |
| `TcpWindow.ReceiveInWindow` | STM32/Bootloader/User/lwip-2.0.3/src/core/tcp_in.c:1462-1468 | accepting a segment moves the left edge only |
| `TcpWindow.InputInWindow` | STM32/Bootloader/User/lwip-2.0.3/src/core/tcp_in.c:353-484 | so does all of `tcp_input`, callbacks and the FIN's place included |
| `TcpWindow.WindowNeverShrinks` | STM32/Bootloader/User/lwip-2.0.3/src/core/tcp.c:758-830 | over every run rcv_wnd plus unread, refused and an unreported FIN is TCP_WND; the right edge never moves left; rcv_nxt + rcv_ann_wnd never falls behind the announced edge |
| `TcpWindow.FreshInWindow` | STM32/Bootloader/User/lwip-2.0.3/src/core/tcp_in.c:605-617 | a fresh connection starts with both invariants |
| `Tcp.TcpPcb.constructor` | STM32/Bootloader/User/lwip-2.0.3/src/core/tcp_in.c:605-617 | a fresh passive connection |
| `Tcp.TcpPcb.UpdateRcvAnnWnd` | STM32/Bootloader/User/lwip-2.0.3/src/core/tcp.c:759-782 | the fields, and the inflation returned |
| `Tcp.TcpPcb.Recved` | STM32/Bootloader/User/lwip-2.0.3/src/core/tcp.c:794-830 | the fields after `tcp_recved` |
| `Tcp.TcpPcb.TrimFront` | STM32/Bootloader/User/lwip-2.0.3/src/core/tcp_in.c:1319-1369 | the segment's pbufs hold exactly the bytes from rcv_nxt on |
| `Tcp.TcpPcb.TrimTail` | STM32/Bootloader/User/lwip-2.0.3/src/core/tcp_in.c:1384-1409 | the segment's pbufs hold exactly what fits the window |
| `Tcp.TcpPcb.Receive` | STM32/Bootloader/User/lwip-2.0.3/src/core/tcp_in.c:1286-1489 | fields, pbufs, recv_data and TF_GOT_FIN as specified |
| `Tcp.TcpPcb.Settle` | STM32/Bootloader/User/lwip-2.0.3/src/core/tcp_in.c:883-957 | the state switch, with its purge and the release of refused data |
| `Tcp.TcpPcb.Process` | STM32/Bootloader/User/lwip-2.0.3/src/core/tcp_in.c:709-961 | RST, SYN and the states, on the fields, with every reference accounted for |
| `Tcp.TcpPcb.ProcessRefusedData` | STM32/Bootloader/User/lwip-2.0.3/src/core/tcp.c:1311-1367 | on the fields |
| `Tcp.TcpPcb.Deliver` | STM32/Bootloader/User/lwip-2.0.3/src/core/tcp_in.c:417-480 | on the fields |
| `Tcp.TcpPcb.Input` | STM32/Bootloader/User/lwip-2.0.3/src/core/tcp_in.c:353-484 | the whole of it, on fields and pbufs; every reference stays accounted for: the driver's to the segment goes with its data to the application or the pcb, or is given up, and refused data is given up by a purge |
| `Tcp.PassedOnIffGiven` | STM32/Bootloader/User/lwip-2.0.3/src/core/tcp_in.c:353-484 | the reference to a segment is passed on if and only if the application or the pcb got bytes of it |
| `Chksum.StandardChksum1` | STM32/Bootloader/User/lwip-2.0.3/src/core/inet_chksum.c:80-114 | the ones' complement representative of the little-endian word sum |
| `Chksum.StandardChksum2` | STM32/Bootloader/User/lwip-2.0.3/src/core/inet_chksum.c:133-173 | the same value, from either start parity; the 32-bit accumulator does not overflow for lengths up to 0x20000 |
| `Chksum.StandardChksum3` | STM32/Bootloader/User/lwip-2.0.3/src/core/inet_chksum.c:189-255 | the same value for every length, any alignment, with end-around carries |
| `Chksum.SumChain` | STM32/Bootloader/User/lwip-2.0.3/src/core/inet_chksum.c:260-283 | pieces of any length and alignment add up to the sum of the concatenation |
| `Chksum.InetPbuf` | STM32/Bootloader/User/lwip-2.0.3/src/core/inet_chksum.c:568-589 | equals the checksum of the concatenated bytes |
| `Chksum.InetPseudo` | STM32/Bootloader/User/lwip-2.0.3/src/core/inet_chksum.c:260-327 | equals the checksum of pseudo-header and data |
| `Chksum.InetPseudoPartial` | STM32/Bootloader/User/lwip-2.0.3/src/core/inet_chksum.c:399-473 | equals the checksum of pseudo-header and the first chksum_len bytes, although the last parity test looks at the whole pbuf |
| `Chksum.FilledChecks` | STM32/Bootloader/User/lwip-2.0.3/src/core/tcp_in.c:142-153 | a packet whose zero field was filled with its checksum sums to 0 |
| `Chksum.ChangeDetected` | STM32/Bootloader/User/lwip-2.0.3/src/core/inet_chksum.c:568-589 | one aligned word replaced by another leaves the checksum as it is if and only if they are equal, or are the two forms of zero beside something not zero |
| `Chksum.PseudoHeaderIs` | STM32/Bootloader/User/lwip-2.0.3/src/core/inet_chksum.c:310-327 | the pseudo-header byte by byte: the addresses, a zero, the protocol, the length with its high byte first |
| `Chksum.ExampleOfStandard` | STM32/Bootloader/User/lwip-2.0.3/src/core/inet_chksum.c:560-566 | the example of section 3 of RFC 1071 goes out as 22 0d |
| `Crc.TableIs` | STM32/Bootloader/User/crc32/crc32.c:8-52 | every table entry is eight bit steps of its index |
| `Crc.Bits8Xor` | STM32/Bootloader/User/ota/ota.c:334-352 | the register is linear over exclusive or |
| `Crc.TableStep` | STM32/Bootloader/User/crc32/crc32.c:60 | one look-up does the work of eight bit steps |
| `Crc.Calculate` | STM32/Bootloader/User/crc32/crc32.c:54-63 | the table-driven loop computes the bit-by-bit checksum |
| `Crc.BitStep` | STM32/Bootloader/User/ota/ota.c:344-345 | the masked shift is the bit step |
| `Crc.UpdateChunk` | STM32/Bootloader/User/ota/ota.c:341-346 | the bitwise loops over one chunk continue the checksum |
| `Crc.UpdateConcat` | STM32/Bootloader/User/ota/ota.c:336-348 | chunking does not matter |
| `Crc.Bits8Injective` | STM32/Bootloader/User/ota/ota.c:344-345 | no two register values step to the same one |
| `Crc.BurstDetected` | STM32/Bootloader/User/ota/ota.c:352-361 | images of equal length that differ only within four consecutive bytes have different checksums |
| `Crc.CheckValue` | STM32/Bootloader/User/crc32/crc32.c:54-63 | the check value of the digits 1 to 9 is 0xCBF43926 |
| `Flash.WithinUnit` | STM32/Bootloader/User/flash/bsp_qspi_flash.c:205-209 | a program that stays inside its page does not wrap |
| `Flash.RetryCompletes` | STM32/Bootloader/User/ota/ota.c:320-328 | programming the same data again after an attempt that stopped anywhere gives what one attempt would have given |
| `Qspi.Qspi.Write` | STM32/Bootloader/User/flash/bsp_qspi_flash.c:199-248 | for every address and length: only programs of 1 to 256 bytes inside a page are issued; success means that the range lies inside the chip and the result is the bytewise AND, nothing else changed; failing, every byte is on its way |
| `Qspi.Qspi.EraseBlock64K` | STM32/Bootloader/User/flash/bsp_qspi_flash.c:290-328 | the block is erased, or only it is disturbed, and that only after three failures or a cut |
| `Qspi.Qspi.EraseBlocks` | STM32/Bootloader/User/flash/bsp_qspi_flash.c:336-357 | the range is erased, or only it is disturbed, and that only after six failures or a cut; where start + size wraps, nothing happens and success is reported |
| `Qspi.ErasedReadsBack` | STM32/Bootloader/User/flash/bsp_qspi_flash.c:199-357 | an erased range reads back as what is then written |
| `BootSpec.ReadStored` | STM32/Bootloader/User/metadata/metadata.c:11-40 | reading what was written gives the record back, with the magic |
| `BootSpec.NoBackupIs` | STM32/Bootloader/User/menu/menu.c:330-345 | there is no backup exactly if the word at 0x200000 of the chip is erased |
| `Boot.Board.MetadataWrite` | STM32/Bootloader/User/metadata/metadata.c:29-111 | success means that the sector holds the record; once it is erased, wherever the write ends, the first flash word is on its way and the second erased, or the first done and the second on its way; it fails only after three failed operations or a cut |
| `Boot.RetryFinishes` | STM32/Bootloader/User/metadata/metadata.c:75-89 | programming a flash word again after an attempt that stopped anywhere gives what one attempt would have given |
| `Boot.Board.EraseBank2` | STM32/Bootloader/User/menu/menu.c:176-212 | exactly the sectors below the limit are erased, or only they are disturbed and as many operations failed as attempts are made, or the power went |
| `Boot.SectorsIs` | STM32/Bootloader/User/menu/menu.c:176-212 | those are the least whole number of sectors of 128 KB |
| `Boot.Board.LoadBank2` | STM32/Bootloader/User/menu/menu.c:214-251 | the image arrives as it is, padded with 0xFF, and nothing else changes |
| `Boot.Board.ProgramWord` | STM32/Bootloader/User/menu/menu.c:230-240 | one flash word arrives, or three attempts failed, each finishing the last, or the power went |
| `Boot.Board.CopyOut` | STM32/Bootloader/User/ota/ota.c:396-424 | the backup area is Bank2, and nothing outside it changes |
| `Boot.Board.Rollback` | STM32/Bootloader/User/menu/menu.c:322-395 | success means that Bank2 is the backup; it fails exactly for an empty backup, Bank2 untouched, or with a failed operation |
| `Boot.Board.BackupSlotA` | STM32/Bootloader/User/menu/menu.c:107-153 | backup and label, or the old label; without an application nothing changes, and with one only a failed operation keeps it from success |
| `Boot.NoVectorIs` | STM32/Bootloader/User/menu/menu.c:107-119 | there is no application exactly if the first four bytes of Bank2 are all clear or all set |
| `Boot.Board.RestoreSlotA` | STM32/Bootloader/User/menu/menu.c:156-272 | Bank2 is the backup and labelled CONFIRMED, or the old label; without a backup nothing changes, and with one only a failed operation keeps it from success |
| `Boot.Board.BootMetadataStep` | STM32/Bootloader/User/menu/menu.c:407-459 | every transition of the boot state machine, wherever flash fails or power goes |
| `BootRuns.MainBoot` | STM32/Bootloader/User/main.c:160-177 | by the words found in the metadata sector: KEY1 and EMPTY open the menu; PENDING, and TESTING without the watchdog flag, jump under the watchdog; TESTING with it jumps without once Bank2 is the backup, and opens the menu if there is none or an operation failed; any other state jumps without |
| `BootRuns.BootTable` | STM32/Bootloader/User/menu/menu.c:407-459 | the same with what becomes of the board: PENDING becomes TESTING and nothing else changes, a rollback becomes CONFIRMED, and every other boot leaves the board as it is but for the flag |
| `BootRuns.JumpsFree` | STM32/Bootloader/User/menu/menu.c:411-459 | which states jump how |
| `BootRuns.TornRecordJumpsFreeIff` | STM32/Bootloader/User/menu/menu.c:411-459 | of all records a write of TESTING interrupted after the erase may leave, exactly those with the magic whole and none of the three states make the next boot jump without the watchdog |
| `BootRuns.TornStateJumpsFree` | STM32/Bootloader/User/menu/menu.c:457-459 | for every pending update there is such a record on the way of the first flash word: all of it programmed but one bit of the state word, the second flash word erased |
| `BootRuns.TurnProgress` | STM32/Bootloader/User/menu/menu.c:411-459 | one boot of a hanging image stays on track unless cut short, comes nearer to the rollback or was interrupted, and the boot after the watchdog fired recovers |
| `BootRuns.TurnStuck` | STM32/Bootloader/User/menu/menu.c:411-459 | in any other state no boot writes anything |
| `BootRuns.HangingImageIsTakenBackIff` | STM32/Bootloader/User/menu/menu.c:407-459 | with a backup and working flash, after 2 boots and 2 more per power loss or pin reset, during the boot or after it, the old application is back in Bank2 and CONFIRMED if and only if every boot left a record that says PENDING, TESTING or the truth |
| `BootRuns.HangingImageIsTakenBack` | STM32/Bootloader/User/menu/menu.c:407-459 | so it always is when metadata is written whole or not at all |
| `BootRuns.TwoBootsTakeItBack` | STM32/Bootloader/User/menu/menu.c:407-459 | for every pending update there is the run of two boots: into the hanging image, and back |
| `BootRuns.TornRunNeverRecovers` | STM32/Bootloader/User/menu/menu.c:407-459 | for every pending update and every length there is a run, cut once inside the metadata write, that never gets the old application back |
| `BootRuns.OldApplicationComesBack` | STM32/Bootloader/User/ota/ota.c:388-560 | the same from a successful update on: what comes back is the application that was in Bank2 before the update |
| `BootRuns.UpdateKeepsLabels` | STM32/Bootloader/User/ota/ota.c:425-554 | an update moves the checksum labels with the images |
| `BootRuns.LabelsHold` | STM32/Bootloader/User/ota/ota.c:388-560 | over every run of updates, backups, restores, boots, rollbacks and restarts of any kind whose metadata writes succeed, crc32 and bak_crc32 are the checksums of what they label, a failed copy costing only its destination's label |
| `BootRuns.WholeRunKeepsLabels` | STM32/Bootloader/User/ota/ota.c:388-560 | so in every run without a broken-off copy both labels stay right |
| `BootRuns.NoRecordHolds` | STM32/Bootloader/User/metadata/metadata.c:11-27 | without a record both labels are those of empty images, and right |
| `BootRuns.RollbackRestores` | STM32/Bootloader/User/menu/menu.c:423-441 | in every such run of update, boot, watchdog and boot, Bank2 and its label end as they were before the update |
| `BootRuns.RollbackHappens` | STM32/Bootloader/User/menu/menu.c:423-441 | there is such a run for every board with an application and a staged image, and it ends with both labels trusted |
| `BootRuns.ConfirmedUpdateStays` | STM32/Bootloader/User/menu/menu.c:407-459 | after an update whose image confirms itself every later boot starts that image without the watchdog, and changes nothing |
| `Ota.OtaFlashWrite` | STM32/Bootloader/User/ota/ota.c:388-560 | wherever it ends, the complete old application is in Bank2 or in the backup; on success Bank2 is the staged image padded with 0xFF, sectors past it untouched, the backup is the old Bank2, and the label is the new one; and it succeeds unless an operation fails or the power goes |
| `Ota.LabelledIs` | STM32/Bootloader/User/ota/ota.c:533-554 | the label word by word: magic, PENDING, checksum, size, and the version twice |
| `Ota.UpdateLabels` | STM32/Bootloader/User/ota/ota.c:425-554 | the old image's label becomes the backup's, word by word |
| `OtaRecv.BadStays` | STM32/Bootloader/User/ota/ota.c:198-244 | a refused stream stays refused |
| `OtaRecv.WireParses` | STM32/Bootloader/User/ota/ota.c:212-244 | the bytes 4F 54 41 00, a length lowest byte first and an image of up to 0x80000 bytes are read as that length and that image; a longer one is refused |
| `OtaRecv.OtherHeadRefused` | STM32/Bootloader/User/ota/ota.c:212-232 | 8 bytes or more that begin otherwise are refused, fewer wait |
| `OtaRecv.Receiver.constructor` | STM32/Bootloader/User/ota/ota.c:82-104 | OTA_Server_Start |
| `OtaRecv.Receiver.RecvCb` | STM32/Bootloader/User/ota/ota.c:195-252 | for every way of cutting the stream into callbacks and pbufs the state is what parsing the concatenated bytes once says, payload in order in the buffer, overflow exactly past OTA_BUF_SIZE, never a write past it |
| `OtaRecv.Receiver.Disconnect` | STM32/Bootloader/User/ota/ota.c:177-193 | VERIFY exactly for a valid header with a non-zero length and at least that much payload |
| `OtaRecv.Receiver.ErrCb` | STM32/Bootloader/User/ota/ota.c:254-260 | a broken connection is an error while receiving, and nothing later |
| `OtaRecv.Receiver.Poll` | STM32/Bootloader/User/ota/ota.c:263-365 | CONFIRM exactly when the received and the staged image have the expected checksum, and always when the former has and no operation fails; then the staged bytes are the received ones |
| `OtaRecv.CorruptStagingRejected` | STM32/Bootloader/User/ota/ota.c:352-361 | staging that differs within four consecutive bytes never passes |
| `OtaRecv.Receiver.Confirm` | STM32/Bootloader/User/main.c:85-115 | 'y' resets unless an operation fails or the power goes, and then Bank2 holds the staged image, with the checksum its label carries; any other key changes nothing |
| `OtaRecv.Connection` | STM32/Bootloader/User/ota/ota.c:82-252 | a whole connection: what a sender puts on the wire, cut anywhere, is in the buffer with its length, and VERIFY follows exactly if it is neither empty, nor shorter than announced, nor too long |
| `OtaRecv.WholeUpdate` | STM32/Bootloader/User/ota/ota.c:82-560 | from the wire to Bank2: without a failing operation the board resets if and only if the checksum is right, and then Bank2 begins with the sender's image, labelled, and the backup is the old Bank2 |
| `Select.InternalSafe` | STM32/Bootloader/User/lwip-2.0.3/src/api/sockets.c:1440-1512 | counting in and out, scanning, waking and timing out keep the invariant |
| `Select.EnlistSafe` | STM32/Bootloader/User/lwip-2.0.3/src/api/sockets.c:1424-1438 | entering the list keeps it |
| `Select.UnlistSafe` | STM32/Bootloader/User/lwip-2.0.3/src/api/sockets.c:1509-1522 | leaving the list keeps it |
| `Select.VisitSafe` | STM32/Bootloader/User/lwip-2.0.3/src/api/sockets.c:1646-1683 | one look at one entry keeps it |
| `Select.NotifySafe` | STM32/Bootloader/User/lwip-2.0.3/src/api/sockets.c:1611-1640 | a new event keeps it |
| `Select.NoLostWakeUp` | STM32/Bootloader/User/lwip-2.0.3/src/api/sockets.c:1371-1685 | in every interleaving a blocked selector with a pending event has been signalled or a callback under way for that socket has its entry still before it |
| `SelectRuns.EventsAre` | STM32/Bootloader/User/lwip-2.0.3/src/api/sockets.c:1609-1631 | over every run a socket's rcvevent is its start plus RCVPLUS less RCVMINUS steps, sendevent says whether SENDPLUS or SENDMINUS came last, and errevent whether there was an ERROR |
| `SelectRuns.EventsWake` | STM32/Bootloader/User/lwip-2.0.3/src/api/sockets.c:1371-1685 | so a selector waiting to read a socket with more arrivals than removals, or for one last said to be writable, or for an error there was, is signalled or a callback for that socket has its entry still before it; with no callback under way it is signalled |
| `SelectRuns.LookSignals` | STM32/Bootloader/User/lwip-2.0.3/src/api/sockets.c:1646-1668 | a look signals the entry it is at exactly if that asked for what there is, and nobody else |
| `SelectRuns.EnlistAsks` | STM32/Bootloader/User/lwip-2.0.3/src/api/sockets.c:1402-1438 | an entry asks for the sets of its call, at the top of the list |
| `SelectRuns.SetsKept` | STM32/Bootloader/User/lwip-2.0.3/src/api/sockets.c:1371-1545 | and for the same to the end |
| `SelectRuns.CountingEnds` | STM32/Bootloader/User/lwip-2.0.3/src/api/sockets.c:1440-1464 | a selector comes to its scan |
| `SelectRuns.ScanDecides` | STM32/Bootloader/User/lwip-2.0.3/src/api/sockets.c:1306-1352 | and waits if and only if the scan finds no event it asked for |
| `SelectRuns.WaitEnds` | STM32/Bootloader/User/lwip-2.0.3/src/api/sockets.c:1482-1486 | the wait ends on a signal or a timeout |
| `SelectRuns.LeavingEnds` | STM32/Bootloader/User/lwip-2.0.3/src/api/sockets.c:1488-1522 | and the selector is then off the list, all others still on it |
| `Select.CallbackArrives` | STM32/Bootloader/User/lwip-2.0.3/src/api/sockets.c:1645-1683 | and that callback, left to itself, signals it within as many looks as the list has entries |
| `SelectRuns.CallbackEnds` | STM32/Bootloader/User/lwip-2.0.3/src/api/sockets.c:1645-1683 | a callback ends within one look more than the list is long |

## Left out

- TCP output, retransmission, congestion control, round-trip times, options and the list of connections: the model is the receive side of one connection; an outgoing segment is the step that announces the window.
- TCP active open, `tcp_timewait_input`, `tcp_slowtmr`: a connection starts as `tcp_listen_input` makes it and is followed until it leaves the active list.
- TcpStream.DeliveredIsPrefix: segments must lie within half the sequence space of rcv_nxt, and callbacks may report, refuse or abort, but not close the connection from inside; `tcp_shutdown` of the receive side, which drops refused data, and a sent callback that aborts are not steps of the run.
- TcpWindow.WindowNeverShrinks: assumes that fewer than half the sequence space minus two windows was received since an edge was last announced, and that the application never reports more than it was given.
- Tcp.TcpPcb.Input: no pbuf of a segment holds more than 0x7fff bytes (the pool's hold 1528); refused data the pcb still holds when it is removed (RST, LAST_ACK, abort) is released by `tcp_pcb_remove`, which is not part of this model.
- Chksum.StandardChksum1: lengths up to 0x20000, as far as its 32-bit accumulator is safe; version 2 is the same.
- Chksum: the IPv6 pseudo-headers, which differ only in length, and `lwip_chksum_copy`.
- Heap: `ram_end->prev`, which `mem_malloc` does not maintain, semaphores and protection, statistics, and the libc and pool variants of `mem.c`.
- Pbuf: allocation (`pbuf_alloc`), the memory pools behind pbuf types, pbuf flags other than the FIN mark, and the searching and comparing helpers.
- Qspi: the controller, which is told the size of the chip, is taken to refuse every operation past its end.
- Boot: the order of the fields inside the 64-byte record is a choice of the model; the cache, interrupt and register code around flash operations is not modelled, and a HAL call that reports success has done its work, so that the read-back of the metadata never fails.
- BootRuns.HangingImageIsTakenBackIff: KEY1 is not pressed, and flash operations do not fail except by a loss of power or a reset.
- An automatic recovery from a power loss inside `OTA_Flash_Write`: the metadata still carries the old state there, so only the survival of the old application is decided by the code.
- The application itself: it appears as hanging, confirming, or being interrupted.
- Menu display and prompts, the version check and the UDP trigger: their results are inputs.
- Select: closing a selected socket, an overflow of `select_waiting` or a full turn of the 32-bit list counter between two looks, data left over from a partial receive (`lastdata`), which no callback signals, and the pooling of semaphores per thread.
- `dns.c`, `memp.c`, `netif.c`, `ip.c`, `ethernet.c`, the sequential API and the other protocol files: not part of this model.
