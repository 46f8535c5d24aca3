# Driver engines of a board support package, modelled and proved in Dafny

This project models five stateful engines of an embedded board support package and proves what
they keep over whole runs. Hardware, bus and operating-system calls appear as nondeterministic
steps or as parameters; the drivers' own code appears with its fields, loops and branches.

* **i.MX35 FEC Ethernet rings.** `FecTransmit` is the transmit ring shared with the DMA engine. The
  engine may run between any two accesses the driver makes to a descriptor, so every contract holds
  in every interleaving. The ring is tied to `FecTxQueue`, a queue described by an event log, whose
  theorems speak about all runs: what goes over the wire, the order of reaping, and that packets and
  defragmentation copies are given back exactly once. `FecReceive` is the receive ring with its free
  list; where every packet is, is part of the state.
* **MMC/SD driver.** `MmcIdent` and `MmcIdentRuns` are the card identification: a transition function,
  the graph of the protocol, and theorems over every sequence of card answers; `MmcIdentValues` says in
  numbers which command follows which answer, with which argument, and what an answer decides.
  `MmcIdentifier` is the driver's code, proved to compute that function and so to have those properties.
  `MmcCsd` decodes the CSD register and does the capacity arithmetic in 32-bit words. `MmcJobs` says what
  a request asks for and which data commands it justifies; `MmcIo` is the I/O engine: the request in hand,
  DMA chunks, PIO progress, CMD12 with its retries, the identification of inserted cards. It keeps a log
  of bus commands that `MmcTrace` monitors. `MmcScatter` is the bounce buffer.
* **SMC9118 transmit path.** `Smc9118Encoder` relates the FIFO words of a packet to what a decoder
  reads from them; `Smc9118Queue` is the linked queue and the sender, with other threads running
  wherever the lock is given up.
* **MC13892 touch filter.** `TouchFilter` bounds how reports move over touches of any length, shows
  where the report of a resting finger settles, and says when what the driver passes on is in range.
* **IPL serial image download.** `ImageDownload` is the record parser, proved the inverse of an encoder
  in both directions.

`Common` holds a few shared definitions, `FecRing` the slot positions both Ethernet rings use.
`dfyconfig.toml` names all files, so `dafny verify dfyconfig.toml` checks the project.

## Where the code does less

Eleven properties one might expect do not hold of the code. For each there is the exact condition under
which it does, for all inputs, and an input for which it does not.

* *A transmit packet comes back only after it has been sent.* It also comes back refused by a full ring, or
  copied, or not copied (src/hardware/devn/mx35/transmit.c:29-81, 190-202), and the reaper hands it back when
  its first descriptor is done (src/hardware/devn/mx35/transmit.c:127-137). `FecTxQueue.HandedBackIff` says
  which hand-backs are of packets sent whole: those by the reaper with as many descriptors finished as the
  packet has fragments. By the reaper it is sure if and only if there is a single fragment, as in
  defragmentation copies (`FecTxQueue.SentFirstIffSingle`). Inputs are `FecTxQueue.HandedBackEarly` and
  `FecTxQueue.RefusedUnsent`.
* *Every transmit packet can be started.* One without fragments is stored, and then a null descriptor is
  started (src/hardware/devn/mx35/transmit.c:205-253): `FecTransmit.Ring.Send` ends that way if and only if
  there is no fragment.
* *Transmit descriptors hold the fragments' lengths.* The length field has 16 bits
  (src/hardware/devn/mx35/mx35.h:235). They do if and only if every fragment is shorter than 65536 bytes
  (`FecTxQueue.LengthsExact`); `FecTxQueue.LengthLost` is a packet that has a longer one.
* *Receive packets are never lost.* On a frame with an error the replacement taken from the free list is not
  given back (src/hardware/devn/mx35/receive.c:130-145). None is lost if and only if no frame had an error
  (`FecReceive.Receiver.NoneLost`, and for one frame `FecReceive.Receiver.HandleFrame`);
  `FecReceive.Receiver.OneLost` is the input.
* *Transfers go to their blocks.* The block size is 0 until a READ CAPACITY completes, and afterwards that of
  the card it was answered for, also when another card is in the slot
  (src/hardware/devb/mmcsd/sim_mmc.c:284). A DMA transfer divides by it once a command is out, to get to the
  block of the next one (src/hardware/devb/mmcsd/sim_mmc.c:363), and byte addresses are multiples of it
  (src/hardware/devb/mmcsd/mmcsd.c:83-84). `MmcIo.Engine.CapacityFirst` is the condition for every transfer of
  every run, and `MmcIo.Engine.CardCovered` says what a completed one has then covered;
  `MmcIo.Engine.CrashIff` is the condition for the driver as a whole with DMA. `MmcJobs.WrittenToZero`,
  `MmcJobs.WrittenAstray` and `MmcJobs.ChunkAstray` are inputs.
* *A protected card gets no write.* The flag is cleared when an identification begins, also if its first
  command is refused and the card before stays ready (src/hardware/devb/mmcsd/mmcsd.c:466-468):
  `MmcIdentRuns.StartClears`. It is set if and only if the identification begun last has heard of a
  write-protect bit (`MmcJobs.FlagsHeard`), and then no write is sent (`MmcIo.Engine.CardDecides`).
* *Byte addresses fit in 32 bits.* They do for all of a card's blocks if and only if its capacity is at most
  4 GiB (`MmcCsd.AddressesFit`); then the bus argument is exactly the address (`MmcJobs.AddressedExactly`).
  Cards with the block lengths of the SD specification qualify; `MmcCsd.LongBlocksOverflow` is a CSD that does
  not.
* *A PIO transfer ends with its last byte.* The loop over a list stops behind an empty piece
  (src/hardware/devb/mmcsd/sim_mmc.c:483-494). It reaches the end with the last byte if and only if the list
  does not end in two empty pieces (`MmcIo.Engine.PioPieces`, `MmcIo.Engine.PioRw`); `MmcJobs.StuckPieces` is a
  list that does.
* *A multi-block transfer is stopped by CMD12.* With CMD12 pending, what an interrupt must report for it to be
  sent is in `MmcIo.Engine.ProcessInterrupt`: no card bit, no error, and data that has ended well. Else the
  request fails or waits. A failed one never gets its CMD12 (`MmcIo.Engine.ErrorUnstopped`,
  `MmcIo.Engine.StopOrFails`).
* *The SMC9118 reads back what was written.* Both command words are formed without a range check. They are
  read back if and only if every fragment and the packet fit in their length fields
  (`Smc9118Encoder.PacketRoundTrip`). All that is taken from the source about these fields is that they end
  below the flags next to them (src/hardware/devn/smc9118/smc.h:360-372), at 12 bits; a length of 4096 fails
  with any width (`Smc9118Encoder.LongBufferMisread`).
* *Touch coordinates are in the range of the readings.* A rejected sample can leave the sum of two readings
  behind (src/hardware/devi/mc13892/touch.c:814-828), and the callers pass it on. `TouchFilter.PassedInRange`
  and `TouchFilter.RunInRange` are the conditions for a sample and for a run, `TouchFilter.RejectedOutOfRange`
  an input.

## Model

| member | source | states |
|---|---|---|
| `FecTxQueue.WireCarriesAcceptedFrames` | src/hardware/devn/mx35/transmit.c:205-254 | in every run the DMA engine transmits whole frames in the order they were accepted: cut after every last flag, the wire is the frames of the first accepted packets and a beginning of the next one |
| `FecTxQueue.WireCarriesPackets` | src/hardware/devn/mx35/transmit.c:205-254 | in every run frame k on the wire is accepted packet k: for the caller's own packet, of at most eight fragments, one descriptor a fragment, in order, with that fragment's physical address and its length modulo 65536, true below 65536, the last flag on the final one alone; for a copy one descriptor with the copy's address and the length of the concatenation of the packet's fragments |
| `FecTxQueue.WireEndsInPacket` | src/hardware/devn/mx35/transmit.c:205-254 | whatever follows the whole frames on the wire are the first descriptors of the next accepted packet, in order, with their addresses and lengths, none of them flagged |
| `FecTxQueue.CopiesTrue` | src/hardware/devn/mx35/transmit.c:29-81 | in every run a copy holds the concatenation of its packet's fragments, at most 1536 bytes |
| `FecTxQueue.AcceptedKnown` | src/hardware/devn/mx35/transmit.c:174-182 | in every run what is accepted is a packet of one to eight fragments, or a copy that was made |
| `FecTxQueue.CutFrames` | src/hardware/devn/mx35/transmit.c:244-253 | cutting any prefix of well-formed frames after the last flags gives back exactly those frames and a proper prefix of the next |
| `FecTxQueue.RunInOrder` | src/hardware/devn/mx35/transmit.c:87-149 | at every point of every run: wire followed by the untransmitted ring is the accepted frames, and reaped packets followed by those in the ring are the accepted packets; one slot stays free |
| `FecTxQueue.StepKeepsOrder` | src/hardware/devn/mx35/transmit.c:101-146 | each single step of sender, reaper or DMA engine keeps that order |
| `FecTxQueue.ReapedInOrder` | src/hardware/devn/mx35/transmit.c:101-146 | packets leave the ring in the order they entered it |
| `FecTxQueue.RunBalancesPackets` | src/hardware/devn/mx35/transmit.c:174-242 | at every point of every run each offer of a packet has been answered by tx_done or the packet waits in the ring, never both |
| `FecTxQueue.StepKeepsPackets` | src/hardware/devn/mx35/transmit.c:174-242 | every step keeps that balance of offered, returned and waiting packets |
| `FecTxQueue.RunBalancesCopies` | src/hardware/devn/mx35/transmit.c:127-138 | copies freed and copies in the ring add up to the copies submitted, for every copy and every run |
| `FecTxQueue.StepKeepsCopies` | src/hardware/devn/mx35/transmit.c:127-138 | every step keeps the balance of copies |
| `FecTxQueue.ReturnedAtMostOnce` | src/hardware/devn/mx35/transmit.c:127-138 | no packet is handed to tx_done more often than it was offered, no copy freed more often than made |
| `FecTxQueue.DrainedRunReturnsAll` | src/hardware/devn/mx35/transmit.c:87-149 | once the ring has drained, every packet was returned exactly once, every copy freed exactly once, and the wire is exactly the accepted frames |
| `FecTxQueue.AcceptedNonEmpty` | src/hardware/devn/mx35/transmit.c:205-242 | only packets with a fragment are in the ring |
| `FecTxQueue.ReturnedWhenSent` | src/hardware/devn/mx35/transmit.c:101-142 | in every run, the packet or copy handed back with a finished first descriptor has been transmitted whole if and only if the engine has finished as many descriptors as it has fragments |
| `FecTxQueue.SentFirstIffSingle` | src/hardware/devn/mx35/transmit.c:101-142 | a packet has been transmitted whole whenever the reaper hands it back, in every interleaving, if and only if it has a single fragment; copies always have |
| `FecTxQueue.HandedBackEarly` | src/hardware/devn/mx35/transmit.c:101-142 | for every packet of several fragments, a run that hands it back with one fragment on the wire and the others still armed |
| `FecTxQueue.HandedBackIff` | src/hardware/devn/mx35/transmit.c:29-258 | for every hand-back of every run, by the reaper, after a refusal, after a copy or a failed one: the packet has been transmitted whole if and only if the reaper hands it back and the engine has finished as many descriptors as it has fragments; every other hand-back has put none of its fragments in the ring |
| `FecTxQueue.ReturnsSplit` | src/hardware/devn/mx35/transmit.c:29-258 | in every run a packet is handed back once for each time it was reaped and once for each offer that was refused or copied |
| `FecTxQueue.RefusedUnsent` | src/hardware/devn/mx35/transmit.c:190-202 | for every packet, a run that hands it back with nothing on the wire: refused by a full ring, or not copied |
| `FecTxQueue.RunRemains` | src/hardware/devn/mx35/transmit.c:87-254 | in every run the ring is what remains of the descriptors of all accepted packets, in order, when those reaped are taken away |
| `FecTxQueue.LengthsExact` | src/hardware/devn/mx35/transmit.c:205-235 | the descriptors of a packet hold its fragments' true lengths if and only if every fragment is shorter than 65536 bytes |
| `FecTxQueue.LengthLost` | src/hardware/devn/mx35/transmit.c:213-213 | a fragment of 65536 bytes is sent with length 0 |
| `FecTransmit.Ring.constructor` | src/hardware/devn/mx35/mx35.c:311-319 | a transmit ring with W on the last slot only stands for the empty queue |
| `FecTransmit.EngineTakes` | src/hardware/devn/mx35/transmit.c:205-254 | wherever the engine finds R set, there is an untransmitted descriptor of an accepted frame with that frame's buffer, length and last flag, and with the flag for the CRC |
| `FecTransmit.PartGrows` | src/hardware/devn/mx35/transmit.c:210-235 | writing a fragment, with R for all but the first, leaves everything the engine can reach unchanged |
| `FecTransmit.PartCloses` | src/hardware/devn/mx35/transmit.c:247-249 | flagging the last of several fragments touches only the unpublished frame |
| `FecTransmit.PartPublished` | src/hardware/devn/mx35/transmit.c:247-253 | setting R on the first descriptor last hands over the whole frame at once |
| `FecTransmit.SlotReclaimed` | src/hardware/devn/mx35/transmit.c:104-112 | clearing a finished descriptor, W kept on the last slot, advances the ring by one |
| `FecTransmit.PacketStored` | src/hardware/devn/mx35/transmit.c:240-242 | the packet is stored at the slot of its first descriptor, which held none |
| `FecTransmit.PacketRemoved` | src/hardware/devn/mx35/transmit.c:127-142 | the packet found at the consumer index is the one the oldest descriptor belongs to |
| `FecTransmit.QueuedUpdate` | src/hardware/devn/mx35/transmit.c:127-140 | tx_pkts_queued follows the number of slots holding a packet |
| `FecTransmit.LastSlot` | src/hardware/devn/mx35/transmit.c:247-252 | the last descriptor is the first one only for a single fragment |
| `FecTransmit.Ring.EngineOne` | src/hardware/devn/mx35/transmit.c:205-254 | the DMA engine transmits exactly the next accepted fragment and clears only its R flag |
| `FecTransmit.Ring.Engine` | src/hardware/devn/mx35/transmit.c:205-254 | any number of engine steps moves nothing but the engine, and stops at the first descriptor without R |
| `FecTransmit.Ring.TransmitsWholeFrames` | src/hardware/devn/mx35/transmit.c:205-254 | at every moment, also inside a call, the wire is whole accepted frames and a beginning of the next |
| `FecTransmit.Ring.FreeNotReady` | src/hardware/devn/mx35/transmit.c:214-226 | after the space check the next free descriptor is never ready, so the failure branch of the loop is dead |
| `FecTransmit.Ring.WriteFragment` | src/hardware/devn/mx35/transmit.c:210-235 | one round of the loop adds one fragment to the unpublished frame, in every interleaving with the engine |
| `FecTransmit.Ring.WriteFragments` | src/hardware/devn/mx35/transmit.c:205-238 | all fragments lie in consecutive slots, each with its own physical address and its length modulo 65536, tx_q_len counts them, and none is visible to the engine |
| `FecTransmit.Ring.StorePacket` | src/hardware/devn/mx35/transmit.c:240-242 | tx_pktq, tx_pkts_queued and tx_pidx afterwards |
| `FecTransmit.Ring.StoreEmpty` | src/hardware/devn/mx35/transmit.c:205-253 | a packet without fragments takes the slot of the producer index, with no descriptor to start |
| `FecTransmit.Ring.FlagLast` | src/hardware/devn/mx35/transmit.c:247-249 | L goes to the final fragment while the engine runs on |
| `FecTransmit.Ring.Publish` | src/hardware/devn/mx35/transmit.c:247-253 | the frame joins the queue as one event |
| `FecTransmit.Ring.Transmit` | src/hardware/devn/mx35/transmit.c:204-254 | the critical section after the space check adds exactly one accepted packet |
| `FecTransmit.Ring.Submit` | src/hardware/devn/mx35/transmit.c:185-257 | a packet is accepted, or refused only when ring plus fragments leave no free slot after reaping; with eight descriptors in the ring it reaps up to eight, fewer only if the engine has not finished the next, with less it reaps none; nothing else is submitted; one without fragments is stored and stops at the null start descriptor |
| `FecTransmit.Ring.Refuse` | src/hardware/devn/mx35/transmit.c:190-202 | a refused packet goes back by tx_done, a refused copy is released |
| `FecTransmit.Ring.Send` | src/hardware/devn/mx35/transmit.c:162-258 | every outcome: accepted as itself with up to eight fragments, as a copy with more, refused, not copied for want of memory or above 1536 bytes, or stopped at a null start descriptor, with exactly the matching events and return code; the last if and only if the packet has no fragment |
| `FecTransmit.Ring.Defrag` | src/hardware/devn/mx35/transmit.c:29-81 | a copy is made exactly when the fragments fit in 1536 bytes and memory is there, holds their concatenation, and the original is returned in either case |
| `FecTransmit.TotalLength` | src/hardware/devn/mx35/transmit.c:43-50 | the measured length is the length of the concatenation |
| `FecTransmit.CopyFragments` | src/hardware/devn/mx35/transmit.c:62-74 | the copy is the concatenation of the fragments |
| `FecTransmit.FragmentsMakeFrame` | src/hardware/devn/mx35/transmit.c:208-253 | written fragments with the last one flagged are the packet's frame |
| `FecTransmit.Ring.ClearStatus` | src/hardware/devn/mx35/transmit.c:104-112 | the oldest descriptor leaves the ring, W stays at the last slot |
| `FecTransmit.Ring.Release` | src/hardware/devn/mx35/transmit.c:127-140 | exactly the packet of the oldest descriptor is returned, or its copy freed, and counted off |
| `FecTransmit.Ring.Reclaim` | src/hardware/devn/mx35/transmit.c:104-142 | one reaping round is exactly one Reap event; tx_q_len and tx_cidx follow |
| `FecTransmit.Ring.ReapOne` | src/hardware/devn/mx35/transmit.c:101-146 | a descriptor is reclaimed unless the engine has not finished it |
| `FecTransmit.Ring.ReapPackets` | src/hardware/devn/mx35/transmit.c:87-149 | descriptors are reclaimed oldest first, at most max_reap of them; it stops early only at one not finished |
| `FecTransmit.Ring.DownloadComplete` | src/hardware/devn/mx35/transmit.c:314-321 | everything the engine had finished is reaped |
| `FecTransmit.Ring.RingState` | src/hardware/devn/mx35/transmit.c:87-149 | tx_q_len is the distance from tx_cidx to tx_pidx, at most N - 1; slots outside the queue are clear, W is on the last slot only, tx_pkts_queued counts the packets |
| `FecTransmit.Ring.SlotsDiffer` | src/hardware/devn/mx35/transmit.c:96-146 | tx_pidx equals tx_cidx exactly when the ring is empty |
| `FecTransmit.Ring.EmptyRing` | src/hardware/devn/mx35/transmit.c:96-98 | an empty ring holds no packet, so the early exit never skips one |
| `FecTransmit.Ring.HeadReady` | src/hardware/devn/mx35/transmit.c:104-108 | the oldest descriptor has R exactly while the engine has not finished it |
| `FecReceive.Receiver.InitList` | src/hardware/devn/mx35/mx35.c:280-309 | slot i is armed with packet i and its buffer, the free list empty, if every allocation succeeds; on a failure exactly the slots before it are armed and an error is returned |
| `FecReceive.Receiver.Accounted` | src/hardware/devn/mx35/receive.c:54-171 | packets allocated are those in the ring, free, upstream, released, and one for each errored frame; num_rx_free stays at most N |
| `FecReceive.Receiver.NoneLost` | src/hardware/devn/mx35/receive.c:130-145 | no packet has been lost if and only if no frame with an error has been handled |
| `FecReceive.Receiver.OneLost` | src/hardware/devn/mx35/receive.c:130-145 | after a single frame, with an error, one packet is lost |
| `FecReceive.Receiver.EngineOwnsBuffer` | src/hardware/devn/mx35/receive.c:29-48 | at every moment a buffer the engine may write belongs to a packet in that slot and not on the free list; no packet that is not released shares it |
| `FecReceive.Receiver.HandledInOrder` | src/hardware/devn/mx35/receive.c:100-170 | frames are handled in order of arrival, each once; exactly those with errors are not offered; those taken upstream are exactly the packets that went up, in order. Each frame offered, taken or refused, goes up in the packet it was received in, with its own bytes and a framelen 4 below the received length, or 2^32 + length - 4 for a length below 4; no other calls are made |
| `FecReceive.CallsInOrder` | src/hardware/devn/mx35/receive.c:147-168 | frame by frame the calls are ion_add_done and then tx_up for an offered frame, with the packet, the bytes and a framelen 4 below the received length (wrapped below 4), a failed ion_add_done alone, or none for an errored frame |
| `FecReceive.OfferedIsHandled` | src/hardware/devn/mx35/receive.c:147-168 | every tx_up is for a frame that was handled, with that frame's packet, bytes and length |
| `FecReceive.DeliveredIsTaken` | src/hardware/devn/mx35/receive.c:147-168 | the deliveries in the log of calls are the frames that were taken, in order |
| `FecReceive.TallyTotal` | src/hardware/devn/mx35/receive.c:54-171 | every packet is in exactly one kind of place |
| `FecReceive.EngineFills` | src/hardware/devn/mx35/receive.c:102-107 | the engine fills the armed slot it stands on, into the buffer of that slot's packet |
| `FecReceive.StoredFill` | src/hardware/devn/mx35/receive.c:102-107 | a frame goes into the buffer of the slot's own packet; frames waiting in other slots, and packets in the driver's hands, keep their bytes |
| `FecReceive.SlotOpens` | src/hardware/devn/mx35/receive.c:126-128 | taking the packet out of its slot opens that slot only |
| `FecReceive.StoredOpen` | src/hardware/devn/mx35/receive.c:126-128 | the packet taken out of the slot holds the oldest frame not yet handled |
| `FecReceive.SlotRefilled` | src/hardware/devn/mx35/receive.c:37-37 | a packet in hand put into the open slot is in that slot and nowhere else |
| `FecReceive.SlotArmed` | src/hardware/devn/mx35/receive.c:38-45 | with E stored last the slot is armed with its own packet's buffer |
| `FecReceive.FreePushed` | src/hardware/devn/mx35/receive.c:62-65 | the free list stays free of repeats and in step with its count when a packet is pushed |
| `FecReceive.FreePopped` | src/hardware/devn/mx35/receive.c:110-115 | the free list stays free of repeats and in step with its count when a packet is popped |
| `FecReceive.Receiver.EngineOne` | src/hardware/devn/mx35/receive.c:102-107 | a received frame is stored into the buffer of the packet in that slot |
| `FecReceive.Receiver.ReceiveComplete` | src/hardware/devn/mx35/receive.c:54-84 | the packet goes onto the free list while there is room, else it is released |
| `FecReceive.Receiver.TakePacket` | src/hardware/devn/mx35/receive.c:109-124 | a packet comes off the free list, or is allocated; failure only with an empty list and no memory |
| `FecReceive.Receiver.Advertise` | src/hardware/devn/mx35/mx35.c:603-668 | an advertisement takes its packet off the free list, or allocates one, and leaves ring and ownership intact |
| `FecReceive.Receiver.World` | src/hardware/devn/mx35/receive.c:90-172 | engine, upstream threads and the advertiser, in any order and number, keep ring, free list and ownership, and the bytes of packets in the driver's hands |
| `FecReceive.Receiver.OpenHead` | src/hardware/devn/mx35/receive.c:126-128 | the delivered packet is taken out, holding the oldest frame, and rx_cidx advances |
| `FecReceive.Receiver.FillSlot` | src/hardware/devn/mx35/receive.c:39-44 | buffer and length of the open slot, in every interleaving |
| `FecReceive.Receiver.ArmSlot` | src/hardware/devn/mx35/receive.c:40-45 | E is set only when buffer and packet agree |
| `FecReceive.Receiver.AddPkt` | src/hardware/devn/mx35/receive.c:29-48 | this packet ends up in the slot, armed, and no other packet moves |
| `FecReceive.Receiver.DropFrame` | src/hardware/devn/mx35/receive.c:130-145 | the slot is armed again with the errored frame's own packet, and the replacement is lost |
| `FecReceive.Receiver.PassFrame` | src/hardware/devn/mx35/receive.c:147-169 | the frame's packet is offered with the frame's bytes and a framelen 4 below the received length, wrapped in 32 bits below 4, or ion_add_done fails; the slot is armed with the replacement; nothing is lost |
| `FecReceive.Receiver.HandleFrame` | src/hardware/devn/mx35/receive.c:100-170 | exactly the oldest delivered frame is handled, in the packet of its slot; the slot then holds the same packet if the descriptor had an error bit, else the replacement; exactly in the first case one more packet is lost |
| `FecReceive.Receiver.Receive` | src/hardware/devn/mx35/receive.c:90-172 | frames are handled until none is delivered, or until no packet can be had, which is reported |
| `FecReceive.Receiver.HeadEmpty` | src/hardware/devn/mx35/receive.c:102-107 | an armed descriptor at rx_cidx means every delivered frame has been handled |
| `MmcCsd.SdFieldPositions` | src/hardware/devb/mmcsd/mmcsd.c:313-347 | decoded fields are the register bits at the positions of the SD specification, section 5.3 |
| `MmcCsd.Version1Positions` | src/hardware/devb/mmcsd/mmcsd.c:326-335 | C_SIZE and C_SIZE_MULT of a version 1 CSD are bits 73..62 and 49..47 |
| `MmcCsd.Version2Positions` | src/hardware/devb/mmcsd/mmcsd.c:326-335 | C_SIZE of a version 2 CSD is bits 69..48 |
| `MmcCsd.StructureDecides` | src/hardware/devb/mmcsd/mmcsd.c:326-335 | bits 127..126 decide which layout is read |
| `MmcCsd.MmcFieldPositions` | src/hardware/devb/mmcsd/mmcsd.c:232-276 | the fields the MMC decoder extracts, CSD_STRUCTURE and CCC among them, are the register bits at their positions |
| `MmcCsd.SdGeometry` | src/hardware/devb/mmcsd/mmcsd.c:313-347 | for every response, the capacity of the decoded SD register is the specification's formula over the register bits |
| `MmcCsd.MmcGeometry` | src/hardware/devb/mmcsd/mmcsd.c:232-276 | likewise for every decoded MMC register |
| `MmcCsd.ReadCapacity` | src/hardware/devb/mmcsd/sim_mmc.c:258-286 | (last block + 1) * block size is exactly the capacity, in 32-bit words, also when the block count wraps; the block size is READ_BL_LEN's, but 512 if that is larger or the card is of version 2 |
| `MmcCsd.SdCapacity` | src/hardware/devb/mmcsd/sim_mmc.c:258-286 | for every response of an SD card, decoding and READ CAPACITY together report exactly the capacity that the register bits stand for, in blocks of 2^READ_BL_LEN or of 512 bytes |
| `MmcCsd.MmcCapacity` | src/hardware/devb/mmcsd/sim_mmc.c:258-286 | likewise for every response of an MMC card |
| `MmcCsd.CapacityFormula` | src/hardware/devb/mmcsd/sim_mmc.c:258-274 | the capacity is that of the SD specification, sections 5.3.2 and 5.3.3 |
| `MmcCsd.BlocksExact` | src/hardware/devb/mmcsd/sim_mmc.c:276-282 | the blocks reported make up the capacity, and there are 1 to 2^32 of them |
| `MmcCsd.ProductsExact` | src/hardware/devb/mmcsd/sim_mmc.c:276-282 | the intermediate products stay below 2^32 and are exact |
| `MmcCsd.AddressesFit` | src/hardware/devb/mmcsd/mmcsd.c:83-84 | all byte addresses fit in 32 bits if and only if the capacity is at most 4 GiB |
| `MmcCsd.SpecifiedCardsFit` | src/hardware/devb/mmcsd/mmcsd.c:83-84 | version 1 cards with block lengths up to 2^11 always fit |
| `MmcCsd.LongBlocksOverflow` | src/hardware/devb/mmcsd/mmcsd.c:83-84 | a block length of 2^12 admits a capacity whose addresses wrap |
| `MmcCsd.TranSpeed` | src/hardware/devb/mmcsd/mmcsd.c:358-361 | every code stands for at most 800 MHz, so the product fits a signed int |
| `MmcCsd.SpeedCodes` | src/hardware/devb/mmcsd/mmcsd.c:28-30 | every code stands for the rate the SD specification gives it: 100 kbit/s times a power of ten times the multiplier in tenths; reserved units for 0 |
| `MmcIdentifier.Identifier.CardIdent` | src/hardware/devb/mmcsd/mmcsd.c:866-934 | one interrupt in any stage is the transition function; CMD2 goes out only for an error-free answer with bit 31, and in the power-up stages for every such answer, else CMD55 or CMD1 again |
| `MmcIdentifier.Identifier.Identify` | src/hardware/devb/mmcsd/mmcsd.c:866-934 | a whole identification is a run of the transition function; whatever the card answers: set-up commands in order, addressed ones only to the address the card has published, ACMDs prefixed by CMD55, the capacity and write-protect flags as the card told them; from a counter of 0 at most 2023 commands, and high speed earned |
| `MmcIdentRuns.NextSteps` | src/hardware/devb/mmcsd/mmcsd.c:866-934 | every interrupt in every stage follows an edge of the protocol graph or sends nothing |
| `MmcIdentRuns.StepSpends` | src/hardware/devb/mmcsd/mmcsd.c:866-934 | each command is paid for from a budget that every successful interrupt but the idle one in GO_IDLE lowers |
| `MmcIdentRuns.RunTerminates` | src/hardware/devb/mmcsd/mmcsd.c:459-636 | under every sequence of answers an identification ends, within its budget of commands and interrupts |
| `MmcIdentRuns.CommandsBounded` | src/hardware/devb/mmcsd/mmcsd.c:459-636 | from START with the counter at 0, at most 2023 commands |
| `MmcIdentRuns.RunKeepsAppCommands` | src/hardware/devb/mmcsd/mmcsd.c:435-456 | in every run ACMD41, ACMD51 and ACMD6 directly follow CMD55, and SWITCH never does |
| `MmcIdentRuns.EdgeKeepsLast` | src/hardware/devb/mmcsd/mmcsd.c:521-596 | on each edge of the protocol graph CMD55 precedes its command, or does not, as it must |
| `MmcIdentRuns.RunKeepsSetup` | src/hardware/devb/mmcsd/mmcsd.c:638-704 | CMD2, CMD3, CMD10, CMD9, CMD7, CMD13 are sent in this order, each at most once |
| `MmcIdentRuns.HighSpeedIsEarned` | src/hardware/devb/mmcsd/mmcsd.c:765-824 | the clock is set with the high-speed flag only after host, card and command class 10 were seen and then function 1 was selected |
| `MmcIdentRuns.StepHighSpeed` | src/hardware/devb/mmcsd/mmcsd.c:363-376 | how one interrupt may touch the flag, the stage SWITCH_MODE and the clock |
| `MmcIdentRuns.RunLearns` | src/hardware/devb/mmcsd/mmcsd.c:459-704 | after any identification the high-capacity flag is set if and only if an answer to ACMD41 had the capacity bit, and the write-protect flag if and only if the CSD had a write-protect bit, or they were set before and it began with the counter off 0 |
| `MmcIdentRuns.FlagsAreTheCards` | src/hardware/devb/mmcsd/mmcsd.c:459-489 | the flags are the card's own, however often identifications have been cut short before |
| `MmcIdentRuns.RunKeepsCleared` | src/hardware/devb/mmcsd/mmcsd.c:464-484 | the static counter is off 0 only while both flags are clear |
| `MmcIdentRuns.StartClears` | src/hardware/devb/mmcsd/mmcsd.c:464-467 | the first step of an identification leaves both flags clear, also when it fails |
| `MmcIdentRuns.StepLearns` | src/hardware/devb/mmcsd/mmcsd.c:459-704 | each interrupt changes these flags only in those ways |
| `MmcIdentRuns.RunToCard` | src/hardware/devb/mmcsd/mmcsd.c:648-704 | in every identification CMD10, CMD9, CMD7 and CMD13 are sent only after the card has answered CMD3, and carry the address published there |
| `MmcIdentRuns.RunPublishes` | src/hardware/devb/mmcsd/mmcsd.c:648-661 | past CMD3, the address in use is one the card has published in this identification |
| `MmcIdentRuns.StepToCard` | src/hardware/devb/mmcsd/mmcsd.c:648-704 | an interrupt in any stage sends an addressed command only with the address in use |
| `MmcIdentValues.CidAfterPowerUp` | src/hardware/devb/mmcsd/mmcsd.c:491-596 | in every identification CMD2 is sent only at an error-free answer of 0x80000000 or more to ACMD41 or CMD1 |
| `MmcIdentValues.PowerUpIsHeard` | src/hardware/devb/mmcsd/mmcsd.c:491-596 | and every such answer is followed by CMD2, one below by CMD55 or by CMD1 with 0x00ff8000; an error, or more than a thousand steps, ends the identification |
| `MmcIdentValues.VersionFromCard` | src/hardware/devb/mmcsd/mmcsd.c:619-636 | in every identification: version 1 if and only if CMD8 times out, 2 if its answer ends in 0x1AA in 13 bits, any other answer ends it; MMC if the card powers up on CMD1; no other interrupt changes the version |
| `MmcIdentValues.WindowAsked` | src/hardware/devb/mmcsd/mmcsd.c:521-571 | every ACMD41 sent: directly after CMD8 and CMD55 it asks for no voltages, later for 0x00ff8000, with bit 30 if and only if the card is of version 2 |
| `MmcIdentValues.FlagsFromCard` | src/hardware/devb/mmcsd/mmcsd.c:459-704 | interrupt by interrupt: high capacity by bit 30 of an answer to ACMD41, write protected by bit 13 or 12 of the answer to CMD9, the address from the upper half of the answer to CMD3, the register from the answer to CMD9 in the layout of the card's version; nothing else changes them but the first step |
| `MmcIdentValues.AddressFromCard` | src/hardware/devb/mmcsd/mmcsd.c:648-704 | every CMD10, CMD9, CMD7 and CMD13 carries the upper 16 bits of an error-free answer to CMD3 earlier in the run |
| `MmcIdentValues.AfterSetup` | src/hardware/devb/mmcsd/mmcsd.c:638-836 | an error-free answer to CMD2, CMD3, CMD10, CMD9 or CMD7 is followed by CMD3, CMD10, CMD9, CMD7 or CMD13, with the card's address; an error ends the identification |
| `MmcIdentValues.BusFromHost` | src/hardware/devb/mmcsd/mmcsd.c:393-457 | after CMD13 the bus has one line for an MMC card, else the forced width, or four lines or one as the host has them; then CMD16 for an MMC card, CMD55 with the card's address for an SD card |
| `MmcIdentValues.BusKept` | src/hardware/devb/mmcsd/mmcsd.c:393-457 | no other interrupt changes the bus width |
| `MmcIdentValues.ClockFromCard` | src/hardware/devb/mmcsd/mmcsd.c:363-415 | the clock is set exactly when CMD16 is sent, for blocks of 512 bytes: to the forced rate, else to 50 MHz in high-speed mode for an SD card that has switched, else to the rate of its register |
| `MmcIdentValues.AfterBusWidth` | src/hardware/devb/mmcsd/mmcsd.c:850-864 | after ACMD6 the SCR is asked for unless high speed is off, the host has no PIO or no block sizes; then CMD16 |
| `MmcIdentValues.AfterScr` | src/hardware/devb/mmcsd/mmcsd.c:721-762 | after ACMD51 the modes are queried with CMD6 if SD_SPEC is above 0 and the host can set up the reply, else CMD16 follows |
| `MmcIdentValues.AfterModeQuery` | src/hardware/devb/mmcsd/mmcsd.c:765-807 | the switch is asked for if and only if the card reports high speed, has command class 10, and the host has it |
| `MmcIdentValues.AfterSwitch` | src/hardware/devb/mmcsd/mmcsd.c:809-824 | the high-speed flag is set if and only if the answer selects function 1, or it was set |
| `MmcIdentValues.AfterBlockLength` | src/hardware/devb/mmcsd/mmcsd.c:866-934 | the answer to CMD16 completes the identification, unless it is an error |
| `MmcIdentValues.RunOpens` | src/hardware/devb/mmcsd/mmcsd.c:459-617 | every identification begins with CMD0 four times and CMD8 with 0x1AA, as far as it gets |
| `MmcIdentValues.AppRound` | src/hardware/devb/mmcsd/mmcsd.c:521-571 | in the SD power-up stage CMD55 is followed by CMD55 or ACMD41 in turn; by CMD0 and the MMC stage when the first one of a version 1 card times out; by nothing after an error or a thousand steps |
| `MmcIdentValues.EarlyAnswer` | src/hardware/devb/mmcsd/mmcsd.c:459-617 | CMD0 goes out while a card is there and powers up; when the last has ended, CMD8 |
| `MmcIdentValues.FirstQuery` | src/hardware/devb/mmcsd/mmcsd.c:491-519 | the MMC stage begins with CMD1 that asks for no voltages |
| `MmcIdentValues.AppAnswer` | src/hardware/devb/mmcsd/mmcsd.c:706-848 | CMD55 with the card's address is followed by ACMD6 for four lines, or by ACMD51 when the host can set up the reply |
| `MmcIdentValues.StepPushPull` | src/hardware/devb/mmcsd/mmcsd.c:464-657 | push-pull mode is on from the first step, off from the fallback to MMC cards, and on again from the answer to CMD3 |
| `MmcIdentValues.CommandsKnown` | src/hardware/devb/mmcsd/mmcsd.c:459-864 | no identification sends any other command, or these with other arguments |
| `MmcIdentValues.RunWaits` | src/hardware/devb/mmcsd/mmcsd.c:866-934 | in every run the stage tells which command was sent last |
| `MmcTrace.StopInBetween` | src/hardware/devb/mmcsd/sim_mmc.c:621-637 | in a log the monitor accepts, a multi-block command is followed by an error-free CMD12, or the failure of the request, before the next data command or completion |
| `MmcTrace.StopOrFailure` | src/hardware/devb/mmcsd/sim_mmc.c:621-715 | the event directly after such a command is CMD12 or the failure of its request, and after the failure no CMD12 comes |
| `MmcTrace.StopsBounded` | src/hardware/devb/mmcsd/sim_mmc.c:677-686 | never more than seven CMD12s in a row |
| `MmcTrace.RangeJoin` | src/hardware/devb/mmcsd/sim_mmc.c:361-363 | block ranges continued where they left off join, also across 2^32 |
| `MmcScatter.Gather` | src/hardware/devb/mmcsd/sim_mmc.c:412-434 | the bounce buffer gets the concatenation of the pieces, refused exactly when longer than 65536 bytes, checked before each copy |
| `MmcScatter.Scatter` | src/hardware/devb/mmcsd/sim_mmc.c:341-352 | memory afterwards is the pieces filled in order from the buffer |
| `MmcScatter.ScatterExact` | src/hardware/devb/mmcsd/sim_mmc.c:341-352 | when no byte is listed twice, the list then describes exactly the buffer |
| `MmcScatter.ScatteredElsewhere` | src/hardware/devb/mmcsd/sim_mmc.c:341-352 | bytes outside the list keep their values |
| `MmcScatter.ScatterGathered` | src/hardware/devb/mmcsd/sim_mmc.c:341-434 | scattering what was gathered changes nothing |
| `MmcJobs.FollowsCovers` | src/hardware/devb/mmcsd/sim_mmc.c:361-363 | data commands that follow each other cover consecutive blocks, once each, ascending |
| `MmcJobs.FollowsAt` | src/hardware/devb/mmcsd/sim_mmc.c:361-363 | each data command of a request is the one for its blocks, at the place the commands before it have left off |
| `MmcJobs.CompletedCovers` | src/hardware/devb/mmcsd/sim_mmc.c:332-366 | a READ or WRITE reported complete has had exactly its bytes transferred, in consecutive blocks of the size in use; with the card's block size in use, those are exactly the card's blocks it asks for |
| `MmcJobs.ReachedCounted` | src/hardware/devb/mmcsd/mmcsd.c:83-84 | with the card's block size in use, the blocks of the card that the commands' arguments address are the ones the driver counts |
| `MmcJobs.DmaAddresses` | src/hardware/devb/mmcsd/sim_mmc.c:361-434 | every DMA command of a request, completed or not, addresses the bounce buffer for a list, else the caller's physical address, given or translated, plus the bytes of the blocks before it |
| `MmcJobs.OpcodesSent` | src/hardware/devb/mmcsd/mmcsd.c:55-88 | every data command of a READ is CMD17 or CMD18, of a WRITE CMD24 or CMD25; CMD18 or CMD25 exactly when it is not one block (with no block size known, when it is any); those are what CMD12 is owed for; each goes to the next block |
| `MmcJobs.AddressedRight` | src/hardware/devb/mmcsd/mmcsd.c:83-84 | command i of a request addresses the place on the card where its bytes belong, counted from the bytes of the commands before it, if and only if the block size in use is the card's, or, block addressed, it is the first command, or, byte addressed, the request begins at byte address 0 by both sizes |
| `MmcJobs.NumberedRight` | src/hardware/devb/mmcsd/sim_mmc.c:361-363 | on a block-addressed card, a command after the first is right if and only if the block size in use is the card's |
| `MmcJobs.BytewiseRight` | src/hardware/devb/mmcsd/mmcsd.c:83-84 | on a byte-addressed card, every command is right if and only if the request's first block is |
| `MmcJobs.AddressedExactly` | src/hardware/devb/mmcsd/mmcsd.c:83-84 | on a byte-addressed card of at most 4 GiB, with its block size in use, the argument for a block of the card is exactly its byte address, without wrapping; with another size, or none, only requests that begin at block 0 are right |
| `MmcJobs.WrittenToZero` | src/hardware/devb/mmcsd/mmcsd.c:83-84 | with no block size reported, a write to block 5 of a byte-addressed card goes to address 0 |
| `MmcJobs.WrittenAstray` | src/hardware/devb/mmcsd/mmcsd.c:83-84 | a write to block 5 of a card of 512-byte blocks goes to byte 1280 when READ CAPACITY was last answered for a card with READ_BL_LEN 8 |
| `MmcJobs.ChunkAstray` | src/hardware/devb/mmcsd/sim_mmc.c:361-363 | after a card with READ_BL_LEN 8, the second chunk of 512 bytes of a DMA read from a high-capacity card goes to block 2, its buffer is at the bytes of block 1 |
| `MmcCsd.SameWrapped` | src/hardware/devb/mmcsd/mmcsd.c:83-84 | a block's byte addresses by two block sizes are the same in 32 bits only if both are 0 |
| `MmcJobs.SizeKnown` | src/hardware/devb/mmcsd/sim_mmc.c:282-286 | a block size is known if and only if a READ CAPACITY has completed |
| `MmcJobs.UnharmedIff` | src/hardware/devb/mmcsd/sim_mmc.c:284-363 | a transfer neither traps nor is misaddressed, in any of its commands, if and only if, for DMA, a READ CAPACITY completed before it, and the last one was for a card of the same block size, or the transfer is a single command by block number, or begins at byte address 0 |
| `MmcJobs.NextChunk` | src/hardware/devb/mmcsd/sim_mmc.c:361-363 | offset and block number stay in step after every chunk, in 32 bits |
| `MmcJobs.WholeBlocks` | src/hardware/devb/mmcsd/sim_mmc.c:276-284 | any number of the controller's 512-byte blocks is a whole number of the driver's, whatever READ CAPACITY has reported |
| `MmcJobs.MovedMore` | src/hardware/devb/mmcsd/sim_mmc.c:483-494 | PIO progress: pieces before cur_sg and then offset bytes, in order and without repeats |
| `MmcJobs.MovedPiece` | src/hardware/devb/mmcsd/sim_mmc.c:485-490 | the end of a piece is the beginning of the next, or -1 at the end of the list |
| `MmcJobs.LastPiece` | src/hardware/devb/mmcsd/sim_mmc.c:479-496 | the round of the loop that moves nothing, or ends the list, leaves the end reached if and only if the list does not end in two empty pieces |
| `MmcJobs.StuckPieces` | src/hardware/devb/mmcsd/sim_mmc.c:479-496 | pieces of 512, 0 and 0 bytes: all is moved and the offset is not -1 |
| `MmcIo.Engine.EachOnce` | src/hardware/devb/mmcsd/sim_mmc.c:585-619 | every request is posted once, in order, never while in progress, or is in hand or queued; all completed ones are fulfilled: READ CAPACITY answered with the exact capacity, READ and WRITE with exactly their bytes, in consecutive blocks of the size in use (the card's blocks under the condition of CardCovered), to or from the buffer of the request, writes never while the write-protect flag is set |
| `MmcIo.Engine.NexusBusy` | src/hardware/devb/mmcsd/sim_mmc.c:741-778 | between pulses a request in hand is in progress with state DATA or IDENT, and DATA implies a request |
| `MmcIo.Engine.StopsHonoured` | src/hardware/devb/mmcsd/sim_mmc.c:621-637 | over the whole life of the engine, a multi-block transfer is ended by CMD12, or by the failure of its request, before the next command or completion |
| `MmcIo.Engine.StopOrFails` | src/hardware/devb/mmcsd/sim_mmc.c:621-715 | over the whole life of the engine, the event directly after a multi-block command is CMD12 or the failure of its request, and after the failure no CMD12 comes |
| `MmcIo.Engine.ErrorUnstopped` | src/hardware/devb/mmcsd/sim_mmc.c:696-701 | an error or card interrupt while CMD12 is pending fails the request, and over any pulses that follow CMD12 is never sent for it |
| `MmcIo.Engine.FewStops` | src/hardware/devb/mmcsd/sim_mmc.c:677-686 | at no time more than seven CMD12s in a row |
| `MmcIo.Engine.EverySendAccounted` | src/hardware/devb/mmcsd/mmcsd.c:55-88 | every data command on the bus belongs to a posted request or to the one in hand |
| `MmcIo.Engine.BusCommands` | src/hardware/devb/mmcsd/mmcsd.c:55-88 | in every run every data command on the bus belongs to a READ and is CMD17 or CMD18, or to a WRITE and is CMD24 or CMD25; CMD18 or CMD25 exactly when it is not one block, by DMA after a READ CAPACITY exactly for more than one |
| `MmcIo.Engine.CapacityFirst` | src/hardware/devb/mmcsd/sim_mmc.c:284-363 | over the whole life of the engine, cards coming and going: a transfer that has reached the controller is neither trapped nor misaddressed in any of its commands if and only if, for DMA, a READ CAPACITY completed before it, and the last one was answered for a card of the same block size, or, block addressed, it is a single command, or, byte addressed, it begins at byte address 0 |
| `MmcIo.Engine.CardCovered` | src/hardware/devb/mmcsd/sim_mmc.c:332-366 | in every run, a completed transfer has had exactly the card's blocks it asks for, if the last READ CAPACITY was answered for a card of the same block size |
| `MmcIo.Engine.CrashIff` | src/hardware/devb/mmcsd/sim_mmc.c:361-363 | with DMA, the driver divides by zero if and only if some transfer reached the controller before any READ CAPACITY had completed |
| `MmcIo.Engine.SizeAfterCapacity` | src/hardware/devb/mmcsd/sim_mmc.c:284-284 | between pulses the block size is above 0 if and only if a READ CAPACITY has completed |
| `MmcIo.Engine.CardDecides` | src/hardware/devb/mmcsd/sim_mmc.c:549-553 | in every run, however often identifications were cut short: no CMD24 and no CMD25 when the identification begun last saw a write-protect bit; data arguments are block numbers if and only if an answer in it to ACMD41 had the capacity bit. One that has had no answer yet has cleared both flags, and says nothing about the card |
| `MmcJobs.FlagsHeard` | src/hardware/devb/mmcsd/mmcsd.c:464-704 | both flags are set if and only if the identification begun last has heard so from a card |
| `MmcIo.Engine.HistoryOk` | src/hardware/devb/mmcsd/sim_mmc.c:332-443 | all data commands of every request, finished or not, are those of its job on the card identified; only the last request can have trapped |
| `MmcIo.Engine.constructor` | src/hardware/devb/mmcsd/sim_mmc.c:781-796 | the idle engine, without card and without block size, satisfies everything claimed between pulses |
| `MmcIo.Engine.SendRwCmd` | src/hardware/devb/mmcsd/mmcsd.c:55-88 | CMD17 or CMD24 for exactly the block size in use, else CMD18 or CMD25, with the block number or the byte address as argument, for the next blocks and the buffer given, and the stop state that goes with it; nothing if the controller does not take it |
| `MmcIo.Engine.DmaXfer` | src/hardware/devb/mmcsd/mmcsd.c:102-112 | as much as the controller takes, in one command |
| `MmcIo.Engine.PioXfer` | src/hardware/devb/mmcsd/mmcsd.c:90-100 | all in one command, or nothing |
| `MmcIo.Engine.StopXfer` | src/hardware/devb/mmcsd/mmcsd.c:114-117 | CMD12, only where one is due |
| `MmcIo.Engine.DmaChunk` | src/hardware/devb/mmcsd/sim_mmc.c:361-365 | each chunk continues the job; a refused chunk fails the request; the driver traps if and only if the command went out and no block size is known |
| `MmcIo.Engine.Advance` | src/hardware/devb/mmcsd/sim_mmc.c:361-363 | offset and block number after a chunk are those of the blocks asked for so far |
| `MmcIo.Engine.FinishDma` | src/hardware/devb/mmcsd/sim_mmc.c:341-358 | at the end of a read the caller's pieces hold the buffer's bytes |
| `MmcIo.Engine.DmaRw` | src/hardware/devb/mmcsd/sim_mmc.c:332-366 | complete exactly when all bytes are through, else one chunk further or failed |
| `MmcIo.Engine.DmaBuffer` | src/hardware/devb/mmcsd/sim_mmc.c:412-434 | the address is the bounce buffer for a list, else the caller's, physical or translated; the bounce buffer holds what a write gathers; refused exactly for lists above 65536 bytes |
| `MmcIo.Engine.DmaInitiate` | src/hardware/devb/mmcsd/sim_mmc.c:402-443 | a transfer from that address is under way, complete, failed or trapped; state DATA exactly in the first case |
| `MmcIo.SumOf` | src/hardware/devb/mmcsd/sim_mmc.c:383-391 | the sum of the piece lengths is the length of the list |
| `MmcIo.Engine.PioBuffer` | src/hardware/devb/mmcsd/sim_mmc.c:383-393 | length and start of a PIO transfer |
| `MmcIo.Engine.PioInitiate` | src/hardware/devb/mmcsd/sim_mmc.c:368-400 | a PIO transfer is under way or has failed, never complete at once; state DATA exactly in the first case |
| `MmcIo.Engine.PioPieces` | src/hardware/devb/mmcsd/sim_mmc.c:479-496 | the loop over a list keeps PIO progress, whatever pio_done moves; when it moves the last byte, offset is -1 if and only if the list does not end in two empty pieces; it stops short only in an unfinished piece or behind an empty one |
| `MmcIo.Engine.PioWhole` | src/hardware/devb/mmcsd/sim_mmc.c:498-507 | the loop over a single buffer keeps PIO progress; offset is -1 if and only if all bytes are moved |
| `MmcIo.Engine.PioStop` | src/hardware/devb/mmcsd/sim_mmc.c:445-467 | CMD12 if one is pending, or failure if it is not taken, else completion, in the direction that ends here only |
| `MmcIo.Engine.PioRw` | src/hardware/devb/mmcsd/sim_mmc.c:469-511 | the interrupt that moves the last byte ends a read, by CMD12 or completion, if and only if the list does not end in two empty pieces; a write ends at the interrupt after it; nothing else ends a transfer |
| `MmcIo.Engine.DmaIrq` | src/hardware/devb/mmcsd/sim_mmc.c:621-637 | a pending CMD12 goes first; then the next chunk, or the end |
| `MmcIo.Engine.StopRetry` | src/hardware/devb/mmcsd/sim_mmc.c:677-686 | a failed CMD12 is repeated, the seventh failure fails the request |
| `MmcIo.Engine.StopComplete` | src/hardware/devb/mmcsd/sim_mmc.c:687-695 | after CMD12 a PIO transfer is complete, a DMA transfer goes on |
| `MmcIo.Engine.DataIrq` | src/hardware/devb/mmcsd/sim_mmc.c:673-715 | every combination of status bits in state DATA |
| `MmcIo.Engine.ReadCapacity` | src/hardware/devb/mmcsd/sim_mmc.c:234-290 | the reply describes the exact capacity and is what is posted; its block size is used from then on |
| `MmcIo.Engine.IoCmds` | src/hardware/devb/mmcsd/sim_mmc.c:514-583 | a request waits for identification, is answered, or is under way; write protection and missing media fail it; only READ and WRITE touch the bus |
| `MmcIo.Engine.TestUnitReady` | src/hardware/devb/mmcsd/sim_mmc.c:114-130 | complete if and only if the card was ready and is still there; one found gone goes through the media check |
| `MmcIo.Engine.StartTransfer` | src/hardware/devb/mmcsd/sim_mmc.c:549-577 | a READ or WRITE is refused without touching the bus when the card is absent or protected or the callout is missing; else it is under way, complete or failed |
| `MmcIo.Engine.Begin` | src/hardware/devb/mmcsd/sim_mmc.c:596-612 | SCSI requests are interpreted, device controls complete, unknown function codes fail |
| `MmcIo.Engine.StartCcb` | src/hardware/devb/mmcsd/sim_mmc.c:585-619 | one request is taken from the queue when none is in hand |
| `MmcIo.Engine.Post` | src/hardware/devb/mmcsd/sim_mmc.c:615-618 | the request is posted with its final status |
| `MmcIo.Engine.IdentDone` | src/hardware/devb/mmcsd/sim_mmc.c:644-653 | a waiting request is carried out once the card is ready |
| `MmcIo.Engine.IdentBroken` | src/hardware/devb/mmcsd/sim_mmc.c:654-669 | a failed identification leaves the engine idle and fails the request that waited |
| `MmcIo.Engine.IdentIrq` | src/hardware/devb/mmcsd/sim_mmc.c:639-671 | one more answer is added to the identification's run; it goes on, ends with the card ready, or fails the waiting request, as the run's outcome says |
| `MmcIo.Engine.MediaCheck` | src/hardware/devb/mmcsd/sim_mmc.c:717-739 | a card that has gone is not ready, one seen for the first time is announced, and the control thread is told once per change |
| `MmcIo.Engine.CardIrq` | src/hardware/devb/mmcsd/sim_mmc.c:750-753 | a card interrupt fails the request in hand, in any state |
| `MmcIo.Engine.Handle` | src/hardware/devb/mmcsd/sim_mmc.c:750-767 | by state; a card interrupt, or an error during a transfer, fails the request in hand; a trap only when a waiting request is started |
| `MmcIo.Engine.TransferIrq` | src/hardware/devb/mmcsd/sim_mmc.c:759-761 | an interrupt in state DATA keeps the transfer in order, and never traps |
| `MmcIo.Engine.ProcessInterrupt` | src/hardware/devb/mmcsd/sim_mmc.c:741-778 | a finished request is posted once and the state goes to IDLE; otherwise it stays in hand. With CMD12 pending: it goes out, unless the controller does not take it, if and only if there is no card bit and no error, and the data has ended well: by DMA data done and dma_done succeeds, by PIO the transfer's direction ends; a card bit, an error, or a DMA failure fails the request without it |
| `MmcIo.Engine.Pulse` | src/hardware/devb/mmcsd/sim_mmc.c:781-825 | one pulse of any kind keeps all of this, or the driver has stopped in a division by zero, with everything claimed about the requests so far |
| `MmcIo.Engine.PulseHandler` | src/hardware/devb/mmcsd/sim_mmc.c:781-825 | any number of pulses of any kind in any order keeps all of this, up to such a stop |
| `Smc9118Encoder.DecodeEncode` | src/hardware/devn/smc9118/transmit.c:62-110 | decoding the words written for a packet gives its bytes back, for any fragments that fit and any alignments, with both command words taken apart into their fields; FIRST_SEG and LAST_SEG only where they belong |
| `Smc9118Encoder.PacketRoundTrip` | src/hardware/devn/smc9118/transmit.c:62-110 | for all memory contents and whatever follows, the chip reads back the packet's bytes and its plain length if and only if every fragment and the packet length fit in their fields, whatever their width below the first flag |
| `Smc9118Encoder.FragmentBytes` | src/hardware/devn/smc9118/transmit.c:80-108 | skipping the start offset and taking the buffer size gives the fragment's bytes |
| `Smc9118Encoder.FragmentWords` | src/hardware/devn/smc9118/transmit.c:62-110 | every word of a fragment in numbers: length, bit 13 on the first, bits 31 and 12 on the last, the offset from bit 16 on; the packet length; the data words low byte first, with zeros before the beginning |
| `Smc9118Encoder.CommandRoundTrip` | src/hardware/devn/smc9118/transmit.c:66-88 | the command word means what it was made from if and only if the length fits in its field |
| `Smc9118Encoder.LengthRoundTrip` | src/hardware/devn/smc9118/transmit.c:88-88 | command B, a bare length, means that length and no other option if and only if it fits in its field |
| `Smc9118Encoder.LongPacket` | src/hardware/devn/smc9118/transmit.c:62-110 | a packet with a fragment that does not fit is read short, or not at all, for some memory contents |
| `Smc9118Encoder.LongBuffer` | src/hardware/devn/smc9118/transmit.c:66-108 | a fragment that does not fit is read as a shorter one, and reading does not get past it |
| `Smc9118Encoder.LongBufferMisread` | src/hardware/devn/smc9118/transmit.c:66-88 | a length of 4096 reads as a last segment of length 0, however wide the field |
| `Smc9118Encoder.SpaceEnough` | src/hardware/devn/smc9118/transmit.c:50-52 | all words of a packet take at most framelen + 16 * tot_iov bytes, whatever the alignments |
| `Smc9118Queue.DecodeOutput` | src/hardware/devn/smc9118/transmit.c:62-110 | the words of any number of packets decode to those packets' frames and lengths in order |
| `Smc9118Queue.Device.ChipReadsFrames` | src/hardware/devn/smc9118/transmit.c:47-116 | everything ever written to the FIFO is exactly the frames of the packets sent, with their lengths |
| `Smc9118Queue.Device.LeaveInOrder` | src/hardware/devn/smc9118/transmit.c:47-116 | packets leave in arrival order, and each is handed to tx_done exactly once, or its sender is about to |
| `Smc9118Queue.Device.FirstWord` | src/hardware/devn/smc9118/transmit.c:91-100 | the shifted word has zeros up to the start and then the bytes |
| `Smc9118Queue.Device.SegmentCommand` | src/hardware/devn/smc9118/transmit.c:66-88 | the chip reads length, flags and start offset back from the command word if and only if the length fits in its field; then the word is the length, with bit 13 on the first, bits 31 and 12 on the last fragment, and the offset from bit 16 on |
| `Smc9118Queue.Device.SendData` | src/hardware/devn/smc9118/transmit.c:82-108 | the data words of a fragment, and no more of them than there is room |
| `Smc9118Queue.Device.SendFragment` | src/hardware/devn/smc9118/transmit.c:64-110 | command words and data words |
| `Smc9118Queue.Device.SendPacket` | src/hardware/devn/smc9118/transmit.c:62-112 | all fragments of a packet fit after the check before the loop, and are written in order |
| `Smc9118Queue.Device.Pop` | src/hardware/devn/smc9118/transmit.c:54-58 | the head leaves a well-formed list, and the tail with it when it was the last |
| `Smc9118Queue.Device.SendHead` | src/hardware/devn/smc9118/transmit.c:47-112 | the head packet goes out whole |
| `Smc9118Queue.Device.SendAll` | src/hardware/devn/smc9118/transmit.c:33-122 | packets go out while the FIFO has room, with other threads appending, sending and flushing around every tx_done |
| `Smc9118Queue.Device.Append` | src/hardware/devn/smc9118/transmit.c:135-143 | a chain joins the list and ntail is its last node |
| `Smc9118Queue.Device.LinkedJoin` | src/hardware/devn/smc9118/transmit.c:135-143 | two lists linked end to start are one list without a cycle |
| `Smc9118Queue.Device.Queue` | src/hardware/devn/smc9118/transmit.c:135-143 | the chain's packets arrive behind all others |
| `Smc9118Queue.Device.SendPackets` | src/hardware/devn/smc9118/transmit.c:124-149 | control packets go straight back; data packets are queued and sent |
| `Smc9118Queue.Device.Flush` | src/hardware/devn/smc9118/smc.c:111-129 | the queue is empty afterwards and its packets have been handed to tx_done one by one, oldest first |
| `TouchFilter.ReportsMoveSlowly` | src/hardware/devi/mc13892/touch.c:785-871 | within a touch of any length a report moves at most 96 per axis from the one before, whatever is rejected in between |
| `TouchFilter.RunKeeps` | src/hardware/devi/mc13892/touch.c:785-871 | over any samples the two entries of an axis stay within 96 of each other and within the range of the readings |
| `TouchFilter.StepKeeps` | src/hardware/devi/mc13892/touch.c:785-871 | each sample keeps this, and an accepted report is within the range of the readings |
| `TouchFilter.NewestIsReported` | src/hardware/devi/mc13892/touch.c:857-866 | the entry written last is the last report of the touch |
| `TouchFilter.FirstReport` | src/hardware/devi/mc13892/touch.c:829-836 | in every run the first report of a touch is, on each axis, half the sum of its two readings, rounded down, and fills all four entries |
| `TouchFilter.LaterReport` | src/hardware/devi/mc13892/touch.c:837-866 | in every run a later report is, on each axis, a quarter of the sum of its readings and that axis's entries, rounded down, and replaces the entry that is due |
| `TouchFilter.ReleaseRepeats` | src/hardware/devi/mc13892/touch.c:784-799 | a release repeats what was passed on before and lifts the pen |
| `TouchFilter.RejectedPasses` | src/hardware/devi/mc13892/touch.c:801-855 | any other sample changes nothing in the filter and passes on sums up to the first spread above 24 |
| `TouchFilter.AverageClose` | src/hardware/devi/mc13892/touch.c:838-864 | a new entry is within 96 of both old ones |
| `TouchFilter.StillFingerSettles` | src/hardware/devi/mc13892/touch.c:857-866 | a resting finger is reported at its position or one below after eighteen samples |
| `TouchFilter.StillRun` | src/hardware/devi/mc13892/touch.c:857-866 | the filter goes on accepting a resting finger and follows it on both axes |
| `TouchFilter.HeldNear` | src/hardware/devi/mc13892/touch.c:857-864 | two readings halve the distance to the position |
| `TouchFilter.RejectedOutOfRange` | src/hardware/devi/mc13892/touch.c:814-828 | the first sample of a touch, rejected for its y readings, passes on an x twice as large as any reading |
| `TouchFilter.PassedInRange` | src/hardware/devi/mc13892/touch.c:785-871 | what is passed on for a sample is in the range of the readings if and only if the sample was accepted, or was a release after coordinates in range, or left sums or old values in range behind |
| `TouchFilter.RunInRange` | src/hardware/devi/mc13892/touch.c:880-917 | over any run, everything passed on is in range if and only if every rejected sample leaves coordinates in range behind |
| `TouchFilter.Filter.ProcessData` | src/hardware/devi/mc13892/touch.c:773-871 | result code, coordinates and filter state in every case. Accepted with the pen up: half the sum of the two readings, rounded down, on each axis, and in all four entries; with the pen down: a quarter of the sum of readings and entries of the axis, in place of the entry that is due; accepted exactly with spreads up to 24 and, pen down, sums up to 192 from the entries'; rejected samples leave the filter alone and may leave a sum of two readings behind; a release repeats the coordinates before |
| `TouchFilter.Filter.Polls` | src/hardware/devi/mc13892/touch.c:880-917 | any number of polls follow the filter's run and pass on, sample by sample, the coordinates of the specification, accepted, rejected or released |
| `ImageDownload.DownloadEncoded` | src/hardware/ipl/lib/image_download_8250.c:148-202 | an image split into records of 1 to 256 bytes with consecutive 7-bit sequence numbers, after any junk, arrives whole and returns 0, and nothing is sent back |
| `ImageDownload.LoadedIsEncoded` | src/hardware/ipl/lib/image_download_8250.c:148-202 | a download succeeds only for such an input, and stores exactly its payloads |
| `ImageDownload.WrongSequence` | src/hardware/ipl/lib/image_download_8250.c:187-192 | a wrong sequence number aborts with exactly the earlier payloads, and 0x88, 2 goes back |
| `ImageDownload.WrongCommand` | src/hardware/ipl/lib/image_download_8250.c:159-173 | any other command aborts, and 0x88, 3 goes back |
| `ImageDownload.RecordsMany` | src/hardware/ipl/lib/image_download_8250.c:154-202 | any number of records are stored in order, whatever follows |
| `ImageDownload.RecordAt` | src/hardware/ipl/lib/image_download_8250.c:154-202 | record k of an image is 0x81, a sequence number that counts on modulo 128, a checksum, the payload length less one, the address and the payload |
| `ImageDownload.SkipsJunk` | src/hardware/ipl/lib/image_download_8250.c:148-152 | bytes before the start byte are skipped |
| `ImageDownload.StoredAt` | src/hardware/ipl/lib/image_download_8250.c:198-201 | the image is at its addresses and nothing else has changed |
| `ImageDownload.Downloader.AwaitStart` | src/hardware/ipl/lib/image_download_8250.c:148-152 | the wait ends at the first start byte |
| `ImageDownload.Downloader.ReadHeader` | src/hardware/ipl/lib/image_download_8250.c:176-185 | the seven header bytes after the command |
| `ImageDownload.Downloader.ReadPayload` | src/hardware/ipl/lib/image_download_8250.c:198-201 | nbytes + 1 bytes are stored one behind the other |
| `ImageDownload.Downloader.DataRecord` | src/hardware/ipl/lib/image_download_8250.c:176-202 | a record out of sequence aborts, another is stored behind the image so far |
| `ImageDownload.Downloader.Image8250` | src/hardware/ipl/lib/image_download_8250.c:125-203 | return code, memory and input left are those of the specification; an abort sends 0x88 and its reason, and nothing else is sent |

## Left out

- Register mapping, interrupt attachment, threads and channels, option parsing, logging, statistics, PHY management: plumbing around the engines.
- Network buffers are two-level lists (buffers of fragments); the FEC model has them flattened to one list of fragments, the SMC9118 model keeps both levels.
- FecTransmit.Ring.Send: leaves out the transmit error counters read with the interrupt status.
- FecTransmit.Ring.constructor: the ring size is at least 16, as option parsing clamps it.
- FecReceive.Receiver.ReceiveComplete: models where the packet goes, not the fields of its header that are reset.
- The DMA engine of the FEC is modelled by the descriptors it reads and writes; a receive buffer is what its start address holds; cache maintenance is not modelled.
- MmcIdentifier.Identifier.CardIdent: leaves out CID parsing, the reply buffers of data commands beyond the fields the driver looks at, and the chipset's own actions in its callouts.
- MmcIo.Engine.IoCmds: INQUIRY, MODE SENSE, START/STOP and SYNCHRONIZE are answered at once, completed or failed, without the contents of their replies. The flag for a changed medium is never set by the driver.
- MmcIo.Engine.StartCcb: no request is aborted.
- MmcIo.Engine.BeginIdent: the control thread acts only while no request is in hand.
- MmcIo.Engine.CardGone: likewise only while no request is in hand.
- MmcIo.Engine.DataIrq: buffer-ready interrupts are raised in PIO mode only, as src/hardware/devb/mmcsd/sim_mmc.h:240-241 says.
- MmcIo.Engine.TransferIrq: buffer-ready interrupts in PIO mode only, as for DataIrq.
- MmcIo.Engine.Handle: buffer-ready interrupts in PIO mode only, as for DataIrq.
- MmcIo.Engine.ProcessInterrupt: buffer-ready interrupts in PIO mode only, as for DataIrq. A chipset's interrupt callout reports status bits; that some chipsets also change the engine's state or the write-protect flag there is not modelled.
- MmcIo.Engine.ErrorUnstopped: buffer-ready interrupts in PIO mode only, as for DataIrq.
- MmcIo.Engine.PioDone: the bytes PIO moves are modelled by their addresses, in the order they are moved; their values pass through the controller's data port.
- MmcIo.Engine.Setup: the setup callouts take whole blocks of 512 bytes, at most as many bytes as asked for. Requests are shorter than 2 GiB, the range of the driver's signed lengths.
- Smc9118Queue.Device.SendAll: the bytes of a packet do not change while it is queued; the broadcast and multicast counters are left out.
- SMC9118 receive, multicast filters, CAN, graphics, I2C divisors, flash probing: not modelled.
- TouchFilter.Filter.Polls: timers, interrupts and the conversion itself are left out; a sample is what the conversion returns, and the uninitialised coordinates it is processed with are a parameter.
- ImageDownload.Downloader.Image8250: the UART set-up is left out, the input is a finite stream whose end means waiting for ever, and addresses do not wrap at 2^32.
