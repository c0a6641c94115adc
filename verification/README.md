# Simeth drivers: verified models

This project models the descriptor-ring engines of two Ethernet drivers (Intel
e1000 and Realtek r8169), the firmware verifier and interpreter of the second,
and a small shared-memory NIC emulator, and proves what they are meant to keep.

| file | what it models |
|---|---|
| `E1000TxMap.dfy` | how `e1000_tx_map` cuts a packet under four hardware workarounds, and the reservation made by `e1000_xmit_frame` |
| `E1000TxRing.dfy` | the e1000 transmit ring: send, DMA failure, reclaim |
| `E1000RxFrames.dfy` | cutting a stream of receive descriptors into frames |
| `E1000RxRing.dfy` | the e1000 receive ring with one buffer per frame: refill, errata 23, discarding |
| `E1000RxJumbo.dfy` | the e1000 receive ring of pages: chains across polls, and polls that break off |
| `E1000RxMode.dfy`, `E1000Vlan.dfy` | address filters and the VLAN filter table |
| `R8169TxRing.dfy` | the r8169 transmit ring: publication, rollback, reclaim, u32 counters, packets the NIC cannot checksum |
| `R8169TxQueue.dfy` | stopping and waking the r8169 queue, step by step, with wake-ups that come late |
| `R8169RxRing.dfy` | the r8169 receive ring |
| `R8169Firmware.dfy` | the PHY firmware checks and the bytecode interpreter |
| `HwEmu.dfy` | the emulator's receive and transmit loops |
| `NetDev.dfy` | what both drivers share with the stack and the DMA layer: features, trimming, the first mapping that fails |
| `Ring.dfy`, `Accounts.dfy`, `Bits.dfy`, `Words.dfy`, `Wrappers.dfy` | ring arithmetic, books of resources, bits of words, machine words, `Option` |

## How to read the model

Objects that the drivers update in place are classes over arrays. Each class has
a `Valid()` (or `Inv()`) predicate, kept by every operation and by every step of
the hardware, so that what it says holds over whole runs. Ghost fields record
histories: packets accepted and freed, mappings made and undone, pieces received
and frames delivered. What an outside party decides is a parameter or a constant
of the class, over which every statement is universal: DMA mapping results,
allocation results, PHY answers, the hash of a multicast address, the schedule of
signals and of the peer. Operations of the two sides of a ring are atomic, except
in `R8169TxQueue.dfy`, where the two sides are interleaved step by step under
sequential consistency, and in `R8169TxRing.dfy`, where `trace` records the ring
after every single write of a send.

Assumed of the surroundings, as the drivers do: packets reach `e1000_tx_map`
padded to 60 bytes, with a non-empty linear part and non-empty fragments;
transmit descriptors start out zero; hardware sets a descriptor done only inside
the window given to it, in order; a frame received by an e1000 carries its 4-byte
checksum and something before it, and its last piece is not empty; one received by
an r8169 has 4 bytes at least where a checksum is cut off; a successful mapping is
never address 0. `e1000.h` and `e1000_hw.h` are not part of this model; the number
of unused e1000 descriptors is taken from the comment at
simeth/e1000_main.c:402-405: one descriptor always stays unused.

## What turned out not to hold

Each of these is proved with its exact condition, but for the termination of
firmware with skips, where the entry says what is proved. Where the code reaches the
failure, a packet or a run that does so is given.

- **82544 dword workaround on fragments.** The driver tests the end of a fragment's
  chunk at the address of its page and leaves out the offset inside the page
  (simeth/e1000_main.c:2931-2933). By the driver's own addresses the rule holds of
  every chunk (`ChunksEndOdd`); on the bus it holds of every packet whose fragments
  start at a given page offset if and only if the offset is a multiple of 8
  (`PageOffsetSafeIff`). At any other offset `UnsafePacket` is a packet that fails.
- **DMA error in `e1000_tx_map`.** The unwind releases one mapping fewer than were
  made (simeth/e1000_main.c:2965-2977). The books stay balanced if and only if the
  very first mapping was the one that failed (`DropTidy`, `TxRing.XmitFrame`).
  `LeakingSend` is a run that leaks.
- **`e1000_restore_vlan`.** It re-adds each VLAN through `e1000_vlan_rx_add_vid`,
  which skips the manageability VLAN (simeth/e1000_main.c:4962-4965). From a cleared
  table the hardware agrees with the active VLANs again if and only if it is not the
  case that manageability VLANs are on and the VLAN of the cookie is active; then
  just that VLAN is missing (`VlanTable.RestoreVlan`). With manageability VLANs off
  agreement is always restored. `LostVlan` is a run that loses one.
- **No skb while cleaning the ring of pages.** `e1000_clean_jumbo_rx_irq` has moved on
  to the next slot when it finds that it has no skb, and breaks off without clearing
  the status of the descriptor (simeth/e1000_main.c:4167-4168, 4211-4213, 4246-4249,
  4270-4274, 4316). A poll leaves a valid ring valid if and only if every piece it
  looks at that needs an skb gets one (`JumboRing.CleanJumboRxIrq`). Otherwise no page
  and no mapping is lost, but the piece is, and a descriptor stays marked done that no
  pieces received could have marked. `LosePiece` is such a run. Polls go on working on
  such a ring as long as they do not come to the mark; there the loop test holds though
  nothing has been received (`JumboRing.LooksDone`), unless the hardware has filled the
  slot before (`JumboRing.HwReceive`). A frame whose first piece is lost so is delivered
  without it, as the run `LoseHead` shows. The ring with one buffer per frame does not
  move on, and tries again (`RxRing.CleanRxIrq`).
- **`r8169_csum_workaround`.** It ignores the outcome of sending
  (simeth/r8169.c:6983-6995). A segment that is refused is neither queued nor freed.
  None is lost if and only if the ring has a slot left when the last one comes
  (`RefusedIff`, `TxRing.StartXmitUnaided`); `LoseSegment` is a run that loses one.
  A packet sent again whole, with its checksum computed, is never refused.
- **Termination of PHY firmware.** The checks let jumps through that are never left
  (simeth/r8169.c:2634-2640): two images are shown (`EndlessPrograms`). Of code
  without skips the condition is exact: it ends if and only if an all-zero word comes
  before every jump (`SkipFreeHaltsIff`). Of code with skips only sufficient
  conditions are proved: code without jumps ends within as many turns as it has words
  (`HaltsWithoutJumps`), and a stretch of code that every word in it leads back into
  is never left (`Trapped`). No condition on the code alone could be exact, since the
  same accepted code may end or not with the PHY's answers (`PollDependsOnPhy`).
- **`rxpkts` of the emulator.** The count reported is the number of receives less 32
  if there were at least 32; 2^64 - 1 if there were fewer
  (simeth_nic/hwemu.c:154, simeth_nic/hwemu.c:167); and 0 if SIGINT came before the
  outer loop was entered, when nothing has been received (simeth_nic/hwemu.c:139).
- **Waking the r8169 queue.** `rtl_tx` sees that the queue is stopped, counts the free
  slots and wakes the queue in three steps (simeth/r8169.c:7338-7341). Meanwhile the
  sender can wake the queue itself, fill it and stop it again. Every state of a run is
  good (no packet refused, no queue awake without room once the sender has stopped it or
  is done, no wake-up lost) if and only if no wake-up of the run is stale, that is, finds
  the queue stopped with too few slots free (`GoodIffNeverStale`). A stale one leaves a queue awake without room
  (`StaleHurts`), and from there a wake-up can be lost for good: the next packet is
  refused, and that branch stops the queue without looking again, over a ring that may
  have drained by then (simeth/r8169.c:7238-7241; `StaleLoses`, `StaysLost`). The runs
  `StaleTestWakesFullQueue` and `LosesWakeUp` show both. The ring is never overrun, even
  so (`NeverOverrun`). Were the three steps one, no wake-up would be stale
  (`AtomicNeverStale`, `NoLostWakeUp`).

## Model

| member | source | states |
|---|---|---|
| E1000TxMap.BudgetCovers | simeth/e1000_main.c:3151-3219 | for every packet, bus and TSO history, the context descriptor and the chunks cut never exceed the count reserved |
| E1000TxMap.BudgetTight | simeth/e1000_main.c:3188-3214 | the reservation cannot be lowered for TSO off the 82544 in PCI-X: a 60-byte linear TSO packet uses all 3 of it |
| E1000TxMap.BudgetSlack | simeth/e1000_main.c:3188-3214 | every other packet, without TSO or on an 82544 in PCI-X, leaves at least one reserved descriptor over |
| E1000TxMap.PlainCount | simeth/e1000_main.c:2849-2904 | off the 82544 a buffer costs its units plus one chunk for each live workaround |
| E1000TxMap.Count82544 | simeth/e1000_main.c:2877-2883 | on the 82544 a buffer costs its units, one chunk for the phase it starts in, and one for each other live workaround |
| E1000TxMap.LimitsPaired | simeth/e1000_main.c:3151-3154 | the unit 2^(fls(M)-1) and the limit M picked from the MSS leave room for a chunk to lose a dword, unless both are multiples of 8 or M is 4 |
| E1000TxMap.UnitsIsUseCount | simeth/e1000_main.c:3111 | TXD_USE_COUNT is the number of units needed to hold the bytes |
| E1000TxMap.ChunksCoverPacket | simeth/e1000_main.c:2849-2952 | the chunks are non-empty, within the limit, and put together are exactly the packet's bytes in order |
| E1000TxMap.FirstChunkCapped | simeth/e1000_main.c:2868-2875 | errata 10: on PCI-X the first chunk of a packet is of its linear part, starts at its first byte and has at most 2015 bytes |
| E1000TxMap.TrimSplits | simeth/e1000_main.c:2852-2861 | a linear packet without TSO behind a TSO packet takes at least two descriptors |
| E1000TxMap.TsoEndsShort | simeth/e1000_main.c:2863-2867 | the last chunk of a TSO packet has at most 8 bytes |
| E1000TxMap.ChunksEndOdd | simeth/e1000_main.c:2877-2937 | on an 82544 in PCI-X every chunk over 4 bytes ends in an odd dword, by the addresses the driver computes |
| E1000TxMap.PageOffsetSafeIff | simeth/e1000_main.c:2931-2943 | on the bus this holds of every packet, TSO included, whose fragments start at a page offset if and only if the offset is a multiple of 8 |
| E1000TxMap.UnsafePacket | simeth/e1000_main.c:2931-2943 | at every other page offset a packet of a 60-byte linear part and one fragment has a chunk that ends wrongly |
| E1000TxMap.ChunksEndOddOnBus | simeth/e1000_main.c:2931-2943 | a packet whose fragments all start at multiples of 8 is safe on the bus |
| E1000TxRing.SendKeeps | simeth/e1000_main.c:3236-3283 | a send that was mapped and queued adds exactly its packet to the queue, in consecutive slots modulo the ring, and the ring stays consistent |
| E1000TxRing.SendTidy | simeth/e1000_main.c:3236-3283 | and every mapping is still given back or owned by a queued packet |
| E1000TxRing.DropKeeps | simeth/e1000_main.c:2965-2979 | a send that failed in mapping leaves the queue as it was |
| E1000TxRing.DropTidy | simeth/e1000_main.c:2965-2979 | it keeps the books of the mappings if and only if it failed at its first one |
| E1000TxRing.ReleasedKeeps | simeth/e1000_main.c:3860-3879 | releasing the slots of the oldest packet leaves the rest of the queue consistent |
| E1000TxRing.ReleasedTidy | simeth/e1000_main.c:3860-3879 | and releases exactly the mappings of that packet |
| E1000TxRing.WatchHead | simeth/e1000_main.c:3852-3854 | next_to_watch of the slot to clean leads to the end of the oldest packet, or on an empty queue, however stale, to a slot without status bit |
| E1000TxRing.DoneStep | simeth/e1000_main.c:3856-3883 | how far the hardware has got carries over from the whole queue to its rest |
| E1000TxRing.LaidDone | simeth/e1000_main.c:3856-3857 | hardware that marks the end of a queued packet done keeps the queue laid out |
| E1000TxRing.BytesInFlight | simeth/e1000_main.c:3270-3270 | bytes reported as sent less bytes reported as completed are the bytes in flight |
| E1000TxRing.TxRing.UnmapAndFree | simeth/e1000_main.c:1961-1981 | a slot's mapping is undone once, and its packet and handle are gone |
| E1000TxRing.TxRing.DmaError | simeth/e1000_main.c:2965-2979 | of the mappings made, all but the first are undone, newest first |
| E1000TxRing.TxRing.MapHead | simeth/e1000_main.c:2849-2904 | the loop over the linear part maps exactly the chunks of the specification, up to a failure |
| E1000TxRing.TxRing.MapFrags | simeth/e1000_main.c:2906-2952 | and so do the loops over the fragments |
| E1000TxRing.TxRing.TxMap | simeth/e1000_main.c:2834-2980 | all chunks are mapped in consecutive slots and the last one holds the packet, or the failure is unwound |
| E1000TxRing.TxRing.TxQueue | simeth/e1000_main.c:3013-3039 | exactly the packet's slots are written, the last with the report-status command, and next_to_use moves past them |
| E1000TxRing.TxRing.ReserveCount | simeth/e1000_main.c:3188-3214 | the loop computes the reservation of the specification |
| E1000TxRing.TxRing.Offload | simeth/e1000_main.c:2702-2831 | a context descriptor takes one slot, and last_tx_tso is set by TSO off the 82544 |
| E1000TxRing.TxRing.XmitFrame | simeth/e1000_main.c:3112-3301 | refused exactly without room for the count + 2 or on a FIFO stall, with nothing changed; sent with at least 2 slots left; dropped with the queue as before, the books balanced if and only if the first mapping failed |
| E1000TxRing.TxRing.CleanPacket | simeth/e1000_main.c:3860-3879 | the inner loop releases exactly the oldest packet and adds up its statistics |
| E1000TxRing.TxRing.CleanTxIrq | simeth/e1000_main.c:3840-3905 | exactly the prefix of whole packets the hardware has finished is freed, in order, each once, with its mappings; the queue is woken under the stated condition |
| E1000TxRing.TxRing.Commit | simeth/e1000_main.c:3258-3273 | a packet whose chunks are all mapped is written and joins the queue, with the books balanced |
| E1000TxRing.TxRing.Revert | simeth/e1000_main.c:3293-3297 | a packet that was unwound leaves next_to_use and the queue as they were, the books balanced if and only if no mapping was made |
| E1000TxRing.LeakingSend | simeth/e1000_main.c:2965-2979 | a run from a new ring in which the second of two mappings fails and the first is never undone |
| E1000TxRing.TxRing.HardwareDone | simeth/e1000_main.c:3856-3857 | the hardware may finish any queued packet at any time |
| E1000RxFrames.CutLosesNothing | simeth/e1000_main.c:4422-4438 | cutting a stream of descriptors at every end of frame loses and reorders nothing |
| E1000RxFrames.CutAtEnds | simeth/e1000_main.c:4422-4438 | every group but the open one is one whole frame |
| E1000RxFrames.CutIsUnique | simeth/e1000_main.c:4422-4438 | and no other way of cutting has these two properties |
| E1000RxRing.CheckIsOnePage | simeth/e1000_main.c:1478-1495 | the xor-shift test passes exactly when the first and last byte share a 64 KiB page, and exactly when all bytes of the buffer do |
| E1000RxRing.PageIsQuotient | simeth/e1000_main.c:1491 | shifting an address right by 16 gives the number of its 64 KiB page |
| E1000RxRing.RefinesStep | simeth/e1000_main.c:4428-4474 | one more descriptor keeps what was delivered equal to the one-descriptor frames that pass the filter, and `discarding` equal to "a frame is open" |
| E1000RxRing.Refilled | simeth/e1000_main.c:4657-4664 | one more buffer joins the hardware's window, one unused slot fewer remains |
| E1000RxRing.Consumed | simeth/e1000_main.c:4411-4420 | the oldest buffer leaves the window, one unused slot more remains |
| E1000RxRing.FragsUpdate | simeth/e1000_main.c:4630-4657 | exchanging one slot's buffer changes the resources held by the ring by just that |
| E1000RxRing.RxRing.PickFrag | simeth/e1000_main.c:4591-4622 | the fragment chosen passes the 64 KiB check; failure exactly if the first is NULL, or crosses and the second is NULL or crosses; every rejected fragment is freed once |
| E1000RxRing.RxRing.AllocBuffer | simeth/e1000_main.c:4588-4657 | a slot keeps its buffer, gets one that is mapped and passes the check at both addresses, or stays empty with everything undone; success exactly under the stated condition |
| E1000RxRing.RxRing.AllocRxBuffers | simeth/e1000_main.c:4571-4680 | next_to_use never reaches the clean index, every slot of the window has a live mapped buffer, RDT names the predecessor of next_to_use, and the window grows by cleaned_count exactly if nothing failed |
| E1000RxRing.RxRing.TakeSkb | simeth/e1000_main.c:4391-4409 | a short frame is copied if an skb for that can be had, and the buffer stays; otherwise, if an skb can be built around it, the buffer leaves the ring, unmapped and on the books as given away; without an skb nothing changes |
| E1000RxRing.RxRing.Receive | simeth/e1000_main.c:4428-4474 | dropping, filtering and trimming deliver just what the specification says; the length never underflows |
| E1000RxRing.RxRing.CleanTurn | simeth/e1000_main.c:4378-4488 | through the refill in the midst of the loop, unused slots seen from the local index are never fewer than cleaned_count; fewer than E1000_RX_BUFFER_WRITE are ever held back, and without a failure exactly those just cleaned |
| E1000RxRing.RxRing.CleanRxIrq | simeth/e1000_main.c:4360-4500 | waiting descriptors are consumed in order up to the budget or to the first that can be neither copied nor built around, which is retried; frames delivered depend on the descriptors alone, wherever polls end; a poll without failures leaves no slot unfilled |
| E1000RxRing.RxRing.HwReceive | simeth/e1000_main.c:4378 | hardware fills the next buffer of its window |
| E1000RxJumbo.Grows | simeth/e1000_main.c:4207-4225 | a piece that does not end its frame extends the chain by its bytes |
| E1000RxJumbo.Ends | simeth/e1000_main.c:4226-4301 | a piece that ends a frame completes it: what is delivered is the filtered concatenation of the pieces since the last end |
| E1000RxJumbo.JumboRing.AllocBuffer | simeth/e1000_main.c:4521-4542 | a slot gets the page and the mapping it lacks; it fails exactly if one cannot be had, and then holds neither |
| E1000RxJumbo.JumboRing.AllocRxBuffers | simeth/e1000_main.c:4508-4565 | refill safety as for the other ring |
| E1000RxJumbo.JumboRing.Assemble | simeth/e1000_main.c:4183-4301 | chaining, dropping on error, copying and delivering keep reassembly exact and every page in the ring, the chain, the stack or freed; it fails exactly if the skb the piece needs cannot be had, and then nothing changes |
| E1000RxJumbo.JumboRing.CleanJumboRxIrq | simeth/e1000_main.c:4138-4326 | as many waiting descriptors as the budget allows are consumed; frames delivered equal the stream cut at EOP, concatenated, trimmed and filtered, however budgets divide it; a valid ring stays valid if and only if no skb was wanting, and otherwise is astray, one piece short, with one more descriptor left marked and pages and mappings accounted for; the same of polls that follow, marks being left further on |
| E1000RxJumbo.JumboRing.LooksDone | simeth/e1000_main.c:4156 | the loop goes on at a slot exactly if a piece waits in it or it was left marked |
| E1000RxJumbo.JumboRing.AstrayIff | simeth/e1000_main.c:4156-4163 | descriptors are left marked if and only if no pieces received could explain the ring |
| E1000RxJumbo.LosePiece | simeth/e1000_main.c:4167-4213 | a run from a new ring that a first piece without an skb leads astray |
| E1000RxJumbo.LoseHead | simeth/e1000_main.c:4167-4316 | a run from a new ring: two pieces of a frame are received, a poll without an skb loses the first, and the next poll delivers the second as if it were the frame |
| E1000RxJumbo.JumboRing.HwReceive | simeth/e1000_main.c:4156 | hardware fills the next page of its window; a mark left behind on its descriptor is right again |
| E1000RxMode.Filters.SetRxMode | simeth/e1000_main.c:2238-2337 | exact filters hold the first addresses in order and nothing else, the hash table has exactly the bits of the multicast addresses left over, RCTL follows flags and list lengths; without memory nothing changes |
| E1000RxMode.Filters.LoadMulticast | simeth/e1000_main.c:2299-2311 | multicast addresses go to free exact filters first, the rest to the hash table |
| E1000RxMode.Filters.ClearRest | simeth/e1000_main.c:2313-2318 | no exact filter keeps an address of an earlier call |
| E1000RxMode.Filters.WriteMta | simeth/e1000_main.c:2320-2331 | written from the top down the table comes out right even on an 82544, where writing an odd register damages the one before |
| E1000RxMode.Filters.Complete | simeth/e1000_main.c:2253-2331 | every unicast address is in an exact filter or UPE is on, every multicast address is in an exact filter or the hash table, and nothing is there that was not asked for |
| E1000Vlan.VlanTable.AddVid | simeth/e1000_main.c:4955-4979 | exactly one VLAN is added to table and set, unless it is the manageability VLAN; agreement is kept, and the filter is on while there is a VLAN |
| E1000Vlan.VlanTable.KillVid | simeth/e1000_main.c:4981-5005 | exactly one VLAN is removed from table and set; agreement is kept |
| E1000Vlan.VlanTable.UpdateMngVlan | simeth/e1000_main.c:329-355 | the four outcomes for set, table and manageability VLAN; agreement is kept |
| E1000Vlan.VlanTable.FilterOnOff | simeth/e1000_main.c:4912-4939 | turning the filter on or off, with the manageability update |
| E1000Vlan.VlanTable.RestoreVlan | simeth/e1000_main.c:5007-5017 | from a cleared table agreement is restored if and only if it is not so that manageability VLANs are on and the cookie's VLAN is active |
| E1000Vlan.LostVlan | simeth/e1000_main.c:4955-5017 | a run from a new table: add the cookie's VLAN, clear the table, restore; the VLAN is active and not in the table |
| Bits.TableSet | simeth/e1000_main.c:4970-4974 | setting or clearing the bit of a VLAN in the table changes no other VLAN's |
| R8169TxRing.CountersWrap | simeth/r8169.c:76-81 | across the 2^32 wrap the counters give the true number outstanding, 0 to 64, and name the right slot |
| R8169TxRing.RingEndLast | simeth/r8169.c:6938-6939 | among descriptors the NIC owns, RingEnd is set on slot 63 and no other |
| R8169TxRing.HiddenRun | simeth/r8169.c:6941-6957 | from every position the NIC may have reached, a packet without its head's ownership bit is invisible |
| R8169TxRing.PublishedRun | simeth/r8169.c:7200-7205 | once published, the NIC's run of descriptors is all of the queue |
| R8169TxRing.Enqueued | simeth/r8169.c:7170-7205 | a published packet joins the outstanding slots |
| R8169TxRing.Undone | simeth/r8169.c:7231-7232 | undoing the fragments and the head restores the ring bit for bit |
| R8169TxRing.Reclaimed | simeth/r8169.c:7299-7326 | reclaiming the oldest slot leaves it clean and the rest outstanding |
| R8169TxRing.ClearedLogs | simeth/r8169.c:6850-6871 | clearing slots from the oldest on releases exactly the outstanding ones, their mappings and packets |
| R8169TxRing.BooksAfterSend | simeth/r8169.c:7170-7205 | after a send every accepted packet is freed or outstanding, and every mapping undone or outstanding |
| R8169TxRing.TxRing.UnmapTxSkb | simeth/r8169.c:6837-6848 | one slot is cleared and its mapping undone; no image on the way shows it to the NIC |
| R8169TxRing.TxRing.TxClearRange | simeth/r8169.c:6850-6871 | exactly the slots in use in the range are cleared, once each |
| R8169TxRing.TxRing.XmitFrags | simeth/r8169.c:6909-6958 | all fragments are written, or at the first mapping error all are undone; the packet stays hidden throughout |
| R8169TxRing.TxRing.StartXmit | simeth/r8169.c:7141-7242 | refused exactly when it does not fit; on a mapping error the ring is what it was bit for bit and every mapping undone; otherwise queued; every ring image before the last write shows the NIC just the earlier packets |
| R8169TxRing.TxRing.StartXmitUnaided | simeth/r8169.c:6971-7004 | of a packet that tso_csum turns down the segments that fit are queued, in order, and those refused are lost; sent again whole it is not refused; without either it is dropped; every packet not queued is counted as dropped; every ring image on the way shows the NIC just what has been published by then |
| R8169TxRing.TxRing.SendSegments | simeth/r8169.c:6983-6988 | the loop over the segments, with the images it shows the NIC in order |
| R8169TxRing.RefusedIff | simeth/r8169.c:6983-6988 | no segment is lost if and only if the slots outstanding and the mappable segments before the last leave a slot |
| R8169TxRing.LoseSegment | simeth/r8169.c:6983-6988 | a run from a cleared ring that loses a segment |
| R8169TxRing.TxRing.RtlTx | simeth/r8169.c:7291-7341 | exactly the slots handed back are reclaimed, packets counted are those whose last descriptor was, and the queue is woken under the stated condition |
| R8169TxRing.TxRing.TxClear | simeth/r8169.c:6873-6877 | everything outstanding is unmapped and freed, and the ring is as new |
| R8169TxRing.TxRing.NicDone | simeth/r8169.c:7304-7306 | the NIC hands back the next descriptor |
| R8169TxQueue.GoodIffNeverStale | simeth/r8169.c:7338-7341 | of every run, the three steps of rtl_tx apart or not: in all its states no packet is refused, a queue awake between calls, or at the sender's second look, has room for the largest packet, and a stopped one that nobody is about to wake has not and has something outstanding, if and only if no wake-up of the run finds the queue stopped with too few slots free |
| R8169TxQueue.StaleHurts | simeth/r8169.c:7338-7341 | such a wake-up leaves an idle queue awake without room, at once or with the sender's second look |
| R8169TxQueue.StaleLoses | simeth/r8169.c:7238-7241 | every run up to such a wake-up goes on, within seven steps, to a stopped queue with nothing outstanding and nobody to wake it |
| R8169TxQueue.StaysLost | simeth/r8169.c:7238-7241 | and then, short of a reset, in every continuation the queue stays stopped |
| R8169TxQueue.NeverOverrun | simeth/r8169.c:7154-7160 | in every state of every run, stale wake-ups or not, between 0 and 64 slots are free and a packet being written fits |
| R8169TxQueue.NoLostWakeUp | simeth/r8169.c:7205-7227 | were the test and the wake-up of rtl_tx one step, every state of every run would be good |
| R8169TxQueue.AtomicNeverStale | simeth/r8169.c:7338-7341 | since then no wake-up would be stale |
| R8169TxQueue.NextReclaimWakes | simeth/r8169.c:7328-7341 | after a run without stale wake-ups, from a stopped queue the next reclaim wakes it if and only if it makes enough room |
| R8169TxQueue.InvStep | simeth/r8169.c:7154-7160 | each step of either side that is no stale wake-up keeps the invariant behind this, the three steps of rtl_tx apart or not |
| R8169TxQueue.StaleTestWakesFullQueue | simeth/r8169.c:7338-7341 | a run with a stale wake-up, after which a packet is refused on an awake queue |
| R8169TxQueue.LosesWakeUp | simeth/r8169.c:7238-7241 | and on: a run that ends with the queue stopped over an empty ring |
| R8169RxRing.FullRing | simeth/r8169.c:6794-6818 | a filled ring with its last descriptor marked is the NIC's as a whole |
| R8169RxRing.Released | simeth/r8169.c:7475-7477 | giving the oldest slot back moves the boundary by one and keeps RingEnd on the last slot only |
| R8169RxRing.RxRing.FillSlot | simeth/r8169.c:6746-6780 | a slot gets a buffer exactly if one can be had and mapped, and what is mapped starts at a multiple of 16 and lies within the buffer; else nothing is left over |
| R8169RxRing.RxRing.RxFill | simeth/r8169.c:6799-6823 | it succeeds if and only if every slot without a buffer can be given one; then all 256 have one, else none and every buffer and mapping is given back |
| R8169RxRing.RxRing.RxClear | simeth/r8169.c:6782-6792 | no buffer is left and each is freed and unmapped once |
| R8169RxRing.RxRing.Deliver | simeth/r8169.c:7413-7474 | errored, fragmented and unaffordable frames are dropped, others trimmed and delivered |
| R8169RxRing.RxRing.RtlRx | simeth/r8169.c:7391-7484 | exactly the longest run of driver-owned descriptors up to min(budget, 256) is handled, its length returned, and every slot handed back with the same buffer, across the u32 wrap |
| R8169Firmware.FormatOk | simeth/r8169.c:2562-2611 | accepted exactly with an intact header and code inside the image, or without header as whole words; the code is then inside the image |
| R8169Firmware.DataOk | simeth/r8169.c:2613-2667 | accepted if and only if every word is known and leads to a word of the code |
| R8169Firmware.CheckFirmware | simeth/r8169.c:2669-2683 | an image passes if and only if its format is in order and every word of its code is; the code is then inside the image and the interpreter may run it |
| R8169Firmware.StepOk | simeth/r8169.c:2696-2768 | one turn on accepted code stays inside the code and goes forward but for jumps |
| R8169Firmware.Sound | simeth/r8169.c:2685-2772 | for any PHY answers and any number of turns accepted code never reaches BUG() nor a negative index, and on exit the original MDIO accessors are back |
| R8169Firmware.FetchInImage | simeth/r8169.c:2696-2697 | every word fetched lies inside the image |
| R8169Firmware.TurnsBound | simeth/r8169.c:2696-2768 | turns made are at most the code's size for each jump taken and once more |
| R8169Firmware.HaltsWithoutJumps | simeth/r8169.c:2696-2768 | without backward jumps it ends within as many turns as there are words |
| R8169Firmware.Trapped | simeth/r8169.c:2634-2640 | once in a stretch of code every word of which leads back into it, the interpreter never ends, whatever the PHY answers |
| R8169Firmware.SkipFreeHaltsIff | simeth/r8169.c:2696-2768 | accepted code without skips ends if and only if an all-zero word comes before every jump |
| R8169Firmware.EndlessPrograms | simeth/r8169.c:2634-2640 | a jump to itself, and a write with a jump back to it: accepted images that never end |
| R8169Firmware.PollDependsOnPhy | simeth/r8169.c:2696-2768 | an accepted image that ends if the PHY answers 0 and not if it answers 1 |
| R8169Firmware.Phy.WriteFw | simeth/r8169.c:2685-2772 | the interpreter's loop makes the run of the specification, PHY accesses included, and restores the accessors on exit |
| HwEmu.Emulator.InitRings | simeth_nic/hwemu.c:222-227 | once round both rings: receive buffers become the emulator's, transmit buffers the peer's, contents untouched |
| HwEmu.Emulator.RxOne | simeth_nic/hwemu.c:145-156 | a receive happens only into a buffer the emulator owns, and moves both cursors by one |
| HwEmu.Emulator.Transfer | simeth_nic/hwemu.c:150-156 | the receive slot gets what the transmit slot holds, and goes to the peer |
| HwEmu.Emulator.TxOne | simeth_nic/hwemu.c:160-164 | a transmit buffer is taken only once the peer has handed it over; the n-th is slot n mod 32 |
| HwEmu.Emulator.LoopRxTx | simeth_nic/hwemu.c:116-174 | both cursors are at base at every live outer head, the n-th receive copies slot n mod 32 to slot n mod 32 which the emulator owns; the count reported is n - 32, or 2^64 - 1 below 32, or 0 if the outer loop was never entered; the n-th transmit takes slot n mod 32, owned, and all are counted |
| HwEmu.Emulator.LoopRxOnly | simeth_nic/hwemu.c:86-114 | the receives of the receive-only loop, and its count, alone or with the transmit-only loop in the other thread |
| HwEmu.Emulator.LoopTxOnly | simeth_nic/hwemu.c:66-84 | the transmits of the transmit-only loop, and their count, alone or with the receive-only loop in the other thread |

## Left out

- E1000TxRing.TxRing.XmitFrame: the TDT write and `xmit_more` are left out, and the packet is taken as it is after `eth_skb_pad`, and after `__pskb_pull_tail` on an 82544.
- E1000TxMap.UnitsIsUseCount: TXD_USE_COUNT is taken over unbounded numbers; its u32 overflow near 2^32 bytes cannot occur for a packet.
- E1000TxRing.TxRing.CleanTxIrq: runs atomically against the transmit path; hang detection is left out.
- R8169TxRing.TxRing.StartXmit: the path on which `tso_csum` succeeds; the other is `StartXmitUnaided`. The second look at the ring after stopping is trivial here and is modelled in `R8169TxQueue`.
- R8169TxRing.TxRing.UnmapTxSkb: opts1 is a record of flags and a length, not a packed word.
- R8169TxQueue.GoodIffNeverStale: sequential consistency, memory barriers being no-ops. `R8169TxQueue.NoLostWakeUp` is of a test and wake-up in one step, which the code does not have.
- R8169Firmware.Phy.WriteFw: the loop is cut off after a given number of turns, since accepted firmware need not end; `size_t` indices are integers, shown never to be negative.
- E1000RxJumbo.JumboRing.CleanJumboRxIrq: nothing is claimed of a poll that comes to a mark left behind, nor of what is left of a frame whose head was lost if that is shorter than 5 bytes. Checksum offload, VLAN tags and byte counters are left out.
- E1000RxJumbo.JumboRing.Assemble: the limit on pages in a chain is not modelled, and `napi_get_frags` yields an empty skb.
- R8169TxRing.TxRing.StartXmitUnaided: `tso_csum` takes what the workaround sends again; `eth_skb_pad` succeeds; no reclaim comes between the segments, nor between the images.
- E1000RxRing.RxRing.CleanRxIrq: checksum offload, VLAN tags and byte counters are left out.
- R8169RxRing.RxRing.RtlRx: an r8169 frame of fewer than 4 bytes whose checksum would be cut off is not modelled; error counters, checksum flags and the reset task on FIFO overflow are left out.
- E1000Vlan.VlanTable.FilterOnOff: the interrupt mask, CTRL.VME and RCTL.CFIEN are left out; VLAN ids are below 4096, also in the cookie.
- E1000RxMode.Filters.SetRxMode: an exact filter is one register pair; the 82542 reset around the writes is left out.
- HwEmu.Emulator.LoopRxTx: mmap, the creation of the thread and terminal output are left out, and what the other thread does comes between two looks at the flag; time is a finite schedule of the peer's actions after which SIGINT comes, and nothing is claimed about the transmit bytes staying the same.
- `simeth/simeth.c` and `simeth_nic/simeth_nic.c` are mostly stubs.
- Probing, ethtool, ioctl, register scripts, power management, statistics registers, interrupt moderation and locks have no specification in the repository to prove against.
