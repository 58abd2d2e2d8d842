# Verified model of the rear-view MPU-to-MCU data path

The program on the MPU talks to a microcontroller over SPI and a UART. This project models the layers of
that conversation, from the checksum to the clients, and three self-contained algorithms of the same
repository, and proves what each layer owes the next.

| module | what it models |
|---|---|
| `Bits`, `LittleEndian`, `Options` | words as bounded naturals, with and, or, exclusive-or and complement proved bit by bit; words as bytes; optional values |
| `Crc` | the nibble-table CRC-16 and the bit-at-a-time register it stands for |
| `MemCtrl` | the exclusive-or byte swap and the big-endian field accesses built on it |
| `Frame` | command, payload, padding, and the check both ends make |
| `LineBurst` | burst errors in the bit order of the SPI line, and how the check answers them |
| `WireReach`, `CountBurst` | the exact reach of the check, as the host judges replies and as a receiver of the layout judges writes |
| `SpiReg` | a register transaction over an abstract bus, with its buffers, locks and return codes |
| `BusLock` | the thread mutex and the file lock as a transition system of processes and threads |
| `RemoteRing` | the MCU's end of a ring buffer, running concurrently with the host |
| `Records` | the sixteen-bit length arithmetic of the ring operations |
| `RingRuns` | every interleaving of ring operations with the MCU, as a state machine |
| `RegWrCb` | the host's two-transaction ring operations, each of which is a run of that machine |
| `BurnProtocol` | the firmware burn as an automaton over visible actions, and what holds of all its traces |
| `BurnMcu` | the burn code itself, proved to produce only legal traces |
| `Watchdog` | the feed counter with its 0xff sentinel |
| `CanEcho` | the CAN echo loop over two rings |
| `Rfc1321`, `Md5` | the digest of RFC 1321 and the C code that computes it with rotating variables |
| `Md5Vector` | the published digest of "abc", worked out operation by operation |
| `UList` | the circular doubly linked list, on the heap |
| `ArgSpec`, `ArgOwn` | a pure option parser over the original arguments, and when each option gets the value written for it |
| `ArgFlags` | what counters, bit flags, values, callbacks and plain arguments come to, stated on whole lines |
| `ArgParse` | the in-place parser, which refines the pure one |

`dafny verify dfyconfig.toml` checks everything.

## Conventions

**Faults.** Every bus access may fail. Which do, and how, is an input, indexed by the number of the access: a
handle's `plan` for the file lock, start byte, transfers and acknowledges, a ring's `plan` for its transactions, and
`replies` for the registers and the file a burn meets. Every operation counts its accesses, and its contract says
which were made and that the code it returns is that of the access that failed; so a failure is never made up, and
where none fails the operation completes. A ring transaction may also take effect and still be reported failed, because
only its acknowledge or its reply was lost (`Unanswered`); `repliesMayVanish` says whether a ring's plan has such
transactions. Claims of exact delivery need a plan without them, or no lost reply in the run at hand.

**Concurrency.** Before each register transaction the MCU may move any amount of data at its own end.
`RingRuns` is the state machine of all interleavings. `RegWrCb` proves of each reading and writing operation
that its effect is one call of that machine (`RingRuns.IsCall`), byte operations at a granularity of one, and
`RingRuns.CallContinues` that calls made one after another are a run; so what holds of all runs holds of the code.

**Integers.** Bytes, 16-bit and 32-bit words are bounded naturals and every truncation of the code is
written out. Fields of the frame are sequences of bytes.

**Unbounded loops.** A loop of the source that ends only when the MCU says so takes a number of turns as a
parameter (`polls`, `tries`, `calls`); the contracts hold for every such number.

**In-place code.** Where the source changes buffers, nodes, counters or argv, the model does so too, and is
proved against a function on values; the properties of those functions are the lemmas.

## What the code does against its description

- A burn can report success although the MCU never took FINISH_TRANSFER. `BurnProtocol.FalseZero` says when, for
  all traces: exactly when the erase is refused with error code 0, or BURN_ERROR at a full ring carries error code
  0, or the seventh failure on a chunk is a full ring with a healthy status (`ret` then still holds the successful
  status read), or EXIT_BURN is reached after a FINISH_TRANSFER write that failed. And it can report success although
  the MCU never named FINISH_BURN, the mode its header gives for completion: `BurnProtocol.UnfinishedZero` adds every
  other verdict with error code 0, BURN_ERROR included. Each of these is reached.
- The partition check takes the count of a short read for a partition: a firmware file of one byte passes for
  partition A and one of two bytes for B. `BurnMcu.PartPasses` says exactly when the check passes.
- The results of the ring clean and of the FINISH_TRANSFER write are ignored, and a `read` error is taken as
  the end of the file. `BurnMcu.Burner.Burn` carries the first and the last as conditions of exact delivery.
- A 16-bit CRC invites the claim that all bursts of 16 bits are detected. That holds in the register's own bit
  order, least significant bit of each byte first, but SpiReg_Init selects most-significant-bit-first transfers.
  A reply with a burst of n bits on the line is never taken by the host for other data if and only if n is at most 10
  (`WireReach.ReplyReach`): 0x01, 0xC1 and 0xC0 flipped in three neighbouring bytes pass for every frame. If the burst
  touches the CRC field, the bound is 11 (`WireReach.ReplyFieldReach`).
- The same bounds hold for writes if the count in the header arrives as sent (`WireReach.RequestReach`,
  `RequestFieldReach`). The count itself has no such protection: a receiver that splits the payload by the count it
  received can take a write with one flipped bit for a shorter write, so that no burst length at all is safe
  (`CountBurst.OpenCountReach`, with the example in `CountBurst.CountEscapes`).
- Byte counts of record transfers are cut to 16 bits. The count on the line equals the records reported exactly
  below 64 KiB (`Records.WholeRecords`). The ring stays on record boundaries exactly when the count cannot wrap,
  or the record size divides or is a multiple of 65536 (`RingRuns.BoundariesExactly`): always for the 16-byte
  records of this program (`RingRuns.SixteenAlways`), not for 5462 records of 12 bytes (`RingRuns.TwelveMisaligns`).
- A pending option value outlives its word when a flag is given one with `=`, and also, with unknown options
  ignored, when a bundle is abandoned at an unknown letter (`ArgSpec.WordPending`). A later long option that wants a
  value takes it (`ArgSpec.StaleValueMisleads`, `ArgOwn.UnknownLetterMisleads`); a short one overwrites it
  (`ArgOwn.PendingOverwritten`). Every option gets its own value, and every argument the role it was written for,
  exactly when no long option meets such a value, which can be read off the words beforehand (`ArgOwn.OwnExactly`).
- 254 lost watchdog writes in a row can hide a delivered feed; 253 cannot: `Watchdog.LossLimit`.
- The advice to peek and then drop is sound: a failed `RegWrCb.Peep` never removes data, whereas a failed
  read can (`RingRuns.LostReplyDropsData`).

## Model

| member | source | states |
|---|---|---|
| Crc.Crc16 | src/general/crc_check.c:22-34 | the table loop returns the CRC of section 6.2.2 of the MODBUS serial line guide for every start value, message and length |
| Crc.EntryIsShift4 | src/general/crc_check.c:17-20 | each of the sixteen table entries is its index shifted four times through the polynomial register |
| Crc.NibblePair | src/general/crc_check.c:28-32 | the two look-ups made for one byte equal eight single shifts |
| Crc.Chain | src/spi_reg.c:193-204 | continuing from the CRC of one part over the next is the CRC of both, which justifies header-then-data chaining |
| Crc.BitSerial | src/general/crc_check.c:28-32 | the byte-wise register is the bit-serial one run over the message bits in register order, each byte least significant bit first |
| Crc.Bijective | src/general/crc_check.c:22-34 | for a fixed message the CRC permutes the start values; the inverse runs the register backwards |
| Crc.Parity | src/general/crc_check.c:22-34 | the parity of the result is the parity of the start value plus that of all message bits |
| Crc.Syndrome | src/general/crc_check.c:22-34 | which errors escape: two streams share a CRC if and only if their difference alone leaves a zero register at zero |
| Crc.RegisterBurstDetected | src/general/crc_check.c:22-34 | messages that differ only within 16 consecutive bits in register order, at any bit offset, never share a CRC |
| Crc.RegisterBurstLimit | src/general/crc_check.c:22-34 | in register order a burst length is always detected if and only if it is at most 16 bits |
| Crc.AdjacentBytes | src/general/crc_check.c:22-34 | two adjacent bytes in any context are determined by the CRC |
| MemCtrl.ByteOrderChange | src/general/inc/memctrl.h:66-73 | the exclusive-or loop reverses exactly the named bytes, for every length, and touches no other |
| MemCtrl.SwapByXor | src/general/inc/memctrl.h:66-73 | the three exclusive-or assignments exchange two bytes |
| MemCtrl.StoreBig16 | src/general/inc/memctrl.h:146-150 | on either host order the field ends up most significant byte first and its surroundings unchanged |
| MemCtrl.LoadBig16 | src/general/inc/memctrl.h:159-163 | on either host order a field stored so is read back as its value |
| Frame.PaddedLenMinimal | src/spi_reg.c:143-146 | the padded length is the least multiple of 8 holding data and CRC, and fits the 1024-byte buffers if and only if the count is at most 1022 |
| Frame.WireLayout | src/spi_reg.c:188-211 | the bytes of both transfers in numbers: opcode 3 or 6, address and count most significant byte first, 0xff fill, and the CRC of header and data started at 0xffff |
| Frame.RoundTrip | src/spi_reg.c:188-211 | a receiver of the documented layout recovers opcode, address, length and data from what a write emits |
| Frame.FramesInjective | src/spi_reg.c:188-211 | two requests emit the same pair of transfers if and only if they are the same request |
| Frame.AddressBound | src/spi_reg.c:132-164 | no reply passes the check for two different register addresses, so one computed for another is refused |
| Frame.HeadersShare | src/spi_reg.c:132-135 | which headers of the same count share a CRC: those whose addresses, bytes swapped, differ by what the difference of their opcodes leaves in a clear register |
| Frame.FrameMistaken | src/spi_reg.c:132-164 | a frame consistent under another opcode and address passes as a reply to a read if and only if the two headers share a CRC so |
| Frame.CommandBound | src/spi_reg.c:132-164 | a frame consistent with another opcode at the same address and count is refused as a reply to a read |
| Frame.CheckedIsEven | src/spi_reg.c:153-159 | a consistent header, data and CRC field hold an even number of one bits |
| Frame.OddErrorRejected | src/spi_reg.c:153-164 | an odd number of flipped bits anywhere in header, data and CRC field is always rejected |
| Frame.CorruptionAccepted | src/spi_reg.c:153-164 | which corruptions pass: exactly those whose difference in the covered bytes, fed alone, equals the difference of the field |
| Frame.RegisterBurstRejected | src/spi_reg.c:153-164 | a burst of up to 16 bits in register order within header and data, or any change confined to the field, is rejected |
| Frame.BoundaryBurstAccepted | src/spi_reg.c:153-164 | two bytes changed across the border of data and field that pass the check of every consistent frame |
| LineBurst.FeedIsFeedDiff | src/general/crc_check.c:28-32 | the register fed with the difference of two messages, computed cell by cell |
| LineBurst.LineBurstRejected | src/spi_reg.c:234-260 | with each byte sent most significant bit first and the count taken as sent, every burst of up to 10 line bits in header, data and field fails the check, and of 11 if it touches the field |
| LineBurst.EscapingBurst | src/spi_reg.c:153-164 | an 11-bit line burst over any three neighbouring covered bytes that passes for every frame |
| LineBurst.EscapingBorderBurst | src/spi_reg.c:153-164 | a 12-bit line burst across the border of data and field that passes for every consistent frame |
| WireReach.ReplyReach | src/spi_reg.c:147-164 | the host never takes a good reply with a burst of n line bits for other data if and only if n is at most 10, for all addresses, counts and data |
| WireReach.ReplyFieldReach | src/spi_reg.c:147-164 | when the burst touches the CRC field, the host always refuses the reply if and only if n is at most 11 |
| WireReach.RequestReach | src/spi_reg.c:188-213 | for all writes received with their count intact, every burst of n line bits over both transfers that touches header, data or field is refused by a receiver of the layout if and only if n is at most 10 |
| WireReach.RequestFieldReach | src/spi_reg.c:188-213 | the same for bursts that touch the field, if and only if n is at most 11 |
| CountBurst.CountEscapes | src/spi_reg.c:188-193 | one flipped bit of the count turns a write of five bytes into an accepted write of the first four |
| CountBurst.OpenCountReach | src/spi_reg.c:188-193 | with the count free to change, every burst of n line bits is refused by such a receiver if and only if n is 0 |
| SpiReg.SpiRegHandle.BuildCommand | src/spi_reg.c:188-193 | the transmit buffer holds the padded command and fill bytes, and the CRC returned is that of its header |
| SpiReg.SpiRegHandle.OpenCommand | src/spi_reg.c:130-142 | start byte, command and acknowledge happen in order; every step before the first failure succeeded, that step was attempted and failed, and none after it was attempted; the code is -2 for a missing acknowledge and else the transfer's own |
| SpiReg.SpiRegHandle.CloseCommand | src/spi_reg.c:147-151 | payload or reply and its acknowledge, likewise; the receive buffer holds what the MCU drove |
| SpiReg.SpiRegHandle.BuildPayload | src/spi_reg.c:205-211 | the transmit buffer holds data, CRC and fill bytes up to the padded length |
| SpiReg.SpiRegHandle.AcceptReply | src/spi_reg.c:153-164 | returns 0 and copies the data if and only if the CRC field agrees, else -3 with the caller's buffer untouched |
| SpiReg.Read | src/spi_reg.c:114-170 | a refused file lock is its own code with nothing on the line; otherwise start, command, acknowledge, reply and acknowledge happen in this order up to the first that fails, with that step's code; when none fails the exchange completes, and returns 0 or -3 by the check on the bytes the MCU drove; the caller's buffer changes only on 0; the locks go through the steps of one call and none is held afterwards |
| SpiReg.Write | src/spi_reg.c:172-222 | the same for command and payload: 0 if and only if both went out, each acknowledged, which is so whenever no step fails |
| BusLock.InvStep | src/spi_reg.c:123-128 | every lock step keeps the ownership of mutexes and file lock consistent with where each thread stands |
| BusLock.MutualExclusion | src/spi_reg.c:123-128 | for any set of processes and threads at most one thread overall is in a transaction, in every reachable state |
| BusLock.SwappedOrderFails | src/spi_reg.c:180-185 | with the file lock outside the mutex, a reachable state has two threads in transactions |
| BusLock.ExclusionNeedsOrder | src/spi_reg.c:180-185 | exclusion holds in every reachable state if and only if the mutex encloses the file lock |
| BusLock.NoDeadlock | src/spi_reg.c:166-168 | from every reachable state every thread can still enter a transaction, within six steps |
| BusLock.ThreadsCall | src/spi_reg.c:123-168 | in every run each thread's steps are those of complete transactions one after the other and part of a last one |
| RemoteRing.Ring.ReadReg | src/include/regwr_cb.h:23-30 | what a read of each ring register returns and removes while the MCU runs, by the outcome planned for it; one longer than the queue fails without effect |
| RemoteRing.Ring.WriteReg | src/include/regwr_cb.h:23-30 | what a write to each ring register enqueues, drops or clears, by the outcome planned for it; one larger than the room, or a drop larger than the queue, fails without effect |
| RegWrCb.Size | src/regwr_cb.c:40-46 | one transaction; fails with its code if and only if it does, and otherwise gives the number of bytes queued; only the MCU moves data |
| RegWrCb.FreeSize | src/regwr_cb.c:54-60 | the same of the room left |
| RegWrCb.Read | src/regwr_cb.c:70-80 | one query and, unless it answers 0, one transfer; a negative answer is the code of the last of them, which failed; otherwise both worked and the answer is the lesser of the 16-bit request and the size seen, at least what was queued before; delivers exactly the next bytes of the stream; a failed call drops nothing, or exactly the length asked for if its transfer took effect unanswered; the whole call is one call of the interleaving machine |
| RegWrCb.GranRead | src/regwr_cb.c:92-104 | the same for records: the count and 16-bit byte length the code uses, with no transfer if and only if the count is 0 |
| RegWrCb.Write | src/regwr_cb.c:115-125 | the same transactions and codes against the room; never overruns the ring; appends exactly a prefix of the data as long as the answer, nothing when the call failed unheard, and the prefix asked for when it took effect unanswered; the whole call is one call of the interleaving machine |
| RegWrCb.GranWrite | src/regwr_cb.c:137-149 | the same for records: the count and 16-bit byte length the code uses |
| RegWrCb.Clean | src/regwr_cb.c:157-163 | one transaction, whose code is returned; the ring is emptied if and only if it is heard |
| RegWrCb.ReadAir | src/regwr_cb.c:172-182 | the same transactions and codes as a read; drops exactly the number of bytes returned from the front, nothing when unheard, and the length asked for when unanswered |
| RegWrCb.Peep | src/regwr_cb.c:187-204 | the same transactions and codes as a read; delivers the front of the ring and removes nothing, on success and on every kind of failure |
| RegWrCb.PeepThenReadAir | src/regwr_cb.c:172-204 | when both succeed, the bytes removed are exactly those delivered, by the same length rule as one read; a failed peek removes nothing; a failure is that of the last transaction made |
| Records.GranFits | src/regwr_cb.c:97-101 | the records asked for, and the truncated byte count, never exceed the size answered |
| Records.WholeRecords | src/regwr_cb.c:93-101 | the byte count equals count times granularity for every answer of the ring if and only if the 16-bit request times the granularity is below 65536 |
| RingRuns.InvStep | src/regwr_cb.c:70-149 | every step of host or MCU, lost replies included, keeps the last size answer a lower bound of what may be transferred and conserves the history |
| RingRuns.NeverOverruns | src/regwr_cb.c:70-149 | in no interleaving does a host transfer exceed what the ring then holds or has room for |
| RingRuns.ReadsInOrder | src/regwr_cb.c:70-104 | while no reply is lost, what the host has read is a prefix of what the MCU produced and the rest is still queued |
| RingRuns.WritesInOrder | src/regwr_cb.c:115-149 | while no reply is lost, what the MCU consumed is a prefix of what the host wrote and the rest is still queued |
| RingRuns.LossAccounting | src/regwr_cb.c:70-149 | in every run the host's view and its end of the ring differ by exactly the bytes of lost replies, and agree if and only if there are none |
| RingRuns.LostReplyDropsData | src/regwr_cb.c:187-189 | one lost reply to a read suffices to lose data |
| RingRuns.RecordBoundaries | src/regwr_cb.c:92-149 | while every request keeps boundaries, the host's end of the ring always stands between two records, lost replies included |
| RingRuns.MisalignedRun | src/regwr_cb.c:93-101 | for every other request a run that leaves the host's end inside a record |
| RingRuns.BoundariesExactly | src/regwr_cb.c:92-149 | all runs keep record boundaries if and only if the 16-bit request times the granularity is below 65536, or the granularity divides 65536, is a multiple of it, or exceeds every ring |
| RingRuns.SixteenAlways | src/rearview_mcu.c:199-226 | records of sixteen bytes keep their boundaries in every run, whatever is asked for |
| RingRuns.TwelveMisaligns | src/regwr_cb.c:93-101 | requests for 5462 records of twelve bytes can end inside one |
| Records.SixteenAndTwelve | src/regwr_cb.c:93-101 | the arithmetic condition holds of sixteen bytes for every count and fails of twelve at 5462 |
| RingRuns.CallContinues | src/regwr_cb.c:70-149 | calls made one after another are a run of the interleaving machine |
| BurnProtocol.PrefixLegal | src/rearview_mcu.c:69-164 | every prefix of a legal burn trace is legal and nothing follows a return |
| BurnProtocol.AcceptedIsPrefix | src/rearview_mcu.c:108-136 | while failed writes enqueue nothing, the bytes the ring took are at every step a prefix of the firmware read so far |
| BurnProtocol.FinishMeansAll | src/rearview_mcu.c:108-140 | when FINISH_TRANSFER is written the ring took everything read, once and in order, if and only if no write reported failed had put data in |
| BurnProtocol.AttemptsBounded | src/rearview_mcu.c:112-135 | a chunk of r bytes is attempted at most r + 6 times, whatever the replies |
| BurnProtocol.ChunkLimit | src/rearview_mcu.c:108-111 | the firmware is read at most 512 bytes at a time |
| BurnProtocol.CommandLanguage | src/rearview_mcu.c:243-287 | the burn_mode values written are an optional 0xff and then 8 alone, or a prefix of 2, 4, 5, 8 |
| BurnProtocol.ForcedSkipsGoto | src/rearview_mcu.c:294-325 | a forced burn never writes APP_GOTO_BOOTLOADER |
| BurnProtocol.GotoExactly | src/rearview_mcu.c:243-263 | an unforced burn writes APP_GOTO_BOOTLOADER if and only if its first reading of the information register names another partition than the bootloader |
| BurnProtocol.EraseFollowsWaitBurn | src/rearview_mcu.c:263-286 | START_ERASE directly follows an observed WAIT_BURN, through a matching image part exactly when the target is partition A or B |
| BurnProtocol.DataWindow | src/rearview_mcu.c:79-140 | image data flows only after an observed ERASE_OK, after START_BURN and before FINISH_TRANSFER |
| BurnProtocol.TransferInOrder | src/rearview_mcu.c:93-140 | data and FINISH_TRANSFER come only after START_BURN was taken, the ring cleaned and the file opened, one directly after the other; FINISH_TRANSFER directly follows a read that found the end of the file or failed |
| BurnProtocol.ReturnCode | src/rearview_mcu.c:79-164 | what every finished burn returns, read off its last two events: the code of the access that failed, the negated parameter of the verdict, -1 for a wrong mode or partition, or 0, and after the seventh failure on a chunk that failure's code |
| BurnProtocol.FalseZero | src/rearview_mcu.c:79-163 | a burn never returns a positive number; it returns 0 without an acknowledged FINISH_TRANSFER if and only if one of four reply patterns ends the trace, and every other 0 follows EXIT_BURN |
| BurnProtocol.UnfinishedZero | src/rearview_mcu.c:79-163 | a burn returns 0 without FINISH_BURN as the verdict before EXIT_BURN if and only if the erase, BURN_ERROR or full-ring pattern ends the trace, or EXIT_BURN after another verdict |
| BurnProtocol.UnfinishedZeroReached | src/rearview_mcu.c:138-160 | at every end of file, an acknowledged FINISH_TRANSFER and any other verdict with code 0 end it with 0 |
| BurnProtocol.FinishAttempted | src/rearview_mcu.c:138-160 | a returned 0 follows an attempt at FINISH_TRANSFER if and only if the last act was the EXIT_BURN write |
| BurnProtocol.EraseZeroReached | src/rearview_mcu.c:85-91 | every erase verdict other than ERASE_OK with error code 0 ends a burn with 0 |
| BurnProtocol.BurnErrorZeroReached | src/rearview_mcu.c:121-130 | from every point of the transfer, a full ring and BURN_ERROR with error code 0 end it with 0 |
| BurnProtocol.UntakenZeroReached | src/rearview_mcu.c:138-160 | at every end of file, a failing FINISH_TRANSFER write and any later verdict end it with 0 |
| BurnProtocol.GivesUpWithZero | src/rearview_mcu.c:121-134 | from every point of the transfer a ring that stays full makes the burn return 0 with data unsent and no FINISH_TRANSFER |
| BurnProtocol.SendingReachable | src/rearview_mcu.c:79-117 | every possible first chunk does get to be sent, so the statements about sending are not empty |
| BurnMcu.PartPasses | src/rearview_mcu.c:44-67 | the image passes for partition A or B if and only if a full 4096-byte head carries the mark and names it, or the read came back with just that many bytes |
| BurnMcu.TinyFilePasses | src/rearview_mcu.c:55-59 | a file of one byte passes for partition A and one of two bytes for B |
| BurnMcu.Burner.SendChunk | src/rearview_mcu.c:115-135 | terminates for every sequence of replies, with the whole chunk taken or the burn over |
| BurnMcu.Burner.SendFile | src/rearview_mcu.c:108-136 | leaves the loop normally only with everything read delivered to the ring behind what the clean left there |
| BurnMcu.Burner.AwaitVerdict | src/rearview_mcu.c:143-163 | polls the status without touching the image; gives no result only after exactly `polls` more events, each a successful status that names FINISH_TRANSFER, and otherwise the protocol's code |
| BurnMcu.Burner.Burn | src/rearview_mcu.c:69-164 | produces only legal traces in which every reply is the one given and every ring result that of the ring's own transactions; gives no result only as above; once FINISH_TRANSFER is sent and the whole file was read, the ring's history is exactly the file if and only if the clean left nothing and no failed write had put data in; so it is when reads worked, replies are not lost and the clean succeeded |
| BurnMcu.Burner.BurnNormally | src/rearview_mcu.c:243-287 | the same from the information register on, with the return code of the protocol |
| BurnMcu.Burner.BurnForced | src/rearview_mcu.c:294-325 | the same for the forced burn; it also gives no result after exactly `tries` readings of the information register, none of which succeeded and named the bootloader |
| Watchdog.Host.WdogFeed | src/rearview_mcu.c:368-380 | one feed changes copy and register as the pure step, and returns 0 if and only if its write was delivered and acknowledged |
| Watchdog.Host.FeedAll | src/rearview_mcu.c:368-380 | any number of feeds with any faults is the run of pure steps |
| Watchdog.FaultFree | src/rearview_mcu.c:368-380 | n fault-free feeds advance the register by n modulo 256 in spite of the sentinel |
| Watchdog.DeliveredFeedChanges | src/rearview_mcu.c:368-380 | with at most 253 writes lost in a row, and any reads failing, every delivered feed after a delivered one changes the register |
| Watchdog.LossLimit | src/rearview_mcu.c:368-380 | a number of tolerated losses has that property if and only if it is at most 253 |
| CanEcho.ReceiveBlock | src/rearview_mcu.c:223-226 | for every count, returns whole records from the front of the receive ring, at least as many as were waiting or asked for; a negative answer is the code of its last transaction; a failure takes data only if a reply was lost |
| CanEcho.SendBlock | src/rearview_mcu.c:199-202 | for every count, appends whole records from the front of the array, at least as many as had room or were asked for; a negative answer is the code of its last transaction; a failure appends data only if a reply was lost |
| CanEcho.Resend | src/run.c:440-450 | the inner loop sends a growing prefix of the block, each record once, however many calls fail; each call makes one or two transactions, and while none fails the first sends as much as the ring has room for |
| CanEcho.EchoTest | src/run.c:415-453 | after exactly `calls` ring operations, one or two transactions each, the records sent are a prefix of those received, at most 60 behind, both whole records, and the counter is their number modulo 2^32; while no transaction fails, the first block is as large, and as much of it is sent, as the rings allow |
| Bits.AndBit | src/general/md5.c:110 | a bit of the and of a and b is set if and only if it is set in both |
| Bits.OrBit | src/general/md5.c:110 | a bit of the or of a and b is set if and only if it is set in either |
| Bits.XorBit | src/general/md5.c:116 | a bit of their exclusive-or is set if and only if it is set in exactly one |
| Rfc1321.FSelects | src/general/md5.c:110 | each bit of F is that of y where x is set and that of z elsewhere |
| Rfc1321.GHIBits | src/general/md5.c:113-119 | each bit of G, H and I by those of x, y and z |
| Rfc1321.GIsF | src/general/md5.c:113 | G(x, y, z) is F(z, x, y) |
| Rfc1321.RotateInverse | src/general/md5.c:37 | rotating on by the complement undoes a rotation |
| Rfc1321.OpInverse | src/general/md5.c:126 | each register operation has an explicit inverse |
| Rfc1321.OperationsInverse | src/general/md5.c:107-129 | for a fixed block any number of operations permutes the four registers, with an explicit inverse |
| Rfc1321.PaddingMinimal | src/general/md5.c:78-90 | the padded message is the least whole number of 64-byte blocks that holds message, marker and length |
| Rfc1321.PaddingInjective | src/general/md5.c:78-90 | two messages are padded alike if and only if they are equal |
| Md5.LeftRotateIsRotate | src/general/md5.c:37 | the shift-and-or macro is a circular shift for every amount it is used with |
| Md5.ToInt32IsFromLe | src/general/md5.c:47-53 | the or-ed shifted bytes are the little-endian word |
| Md5.ToBytes | src/general/md5.c:39-45 | writes exactly the word's four little-endian bytes |
| Md5.LengthField | src/general/md5.c:87-90 | the two words written are the bit length modulo 2^64 |
| Md5.Prepare | src/general/md5.c:78-90 | the buffer built is the padded message of sections 3.1 and 3.2 of RFC 1321 |
| Md5.IndexMatches | src/general/md5.c:109-121 | the computed word index is the one section 3.4 lists for each of the 64 operations |
| Md5.ShiftMatches | src/general/md5.c:31-34 | the flat shift table holds the amount section 3.4 lists for each operation |
| Md5.Step | src/general/md5.c:109-127 | one loop body computes the operation of section 3.4 and rotates the variables |
| Md5.RotatedStep | src/general/md5.c:123-127 | the fixed variables after a step are the published registers in ABCD, DABC, CDAB, BCDA order |
| Md5.Loop | src/general/md5.c:107-129 | 64 loop bodies are the 64 published operations |
| Md5.AllChunks | src/general/md5.c:94-137 | the outer loop covers exactly the padded message, block by block |
| Md5.Md5 | src/general/md5.c:55-147 | writes the digest of sections 3.1 to 3.5 of RFC 1321 of every message, and only those 16 bytes |
| Md5Vector.InitialBytes | src/general/md5.c:68-71 | the registers start as the bytes 01 23 45 67, 89 ab cd ef, fe dc ba 98, 76 54 32 10 |
| Md5Vector.DigestOfAbc | src/general/md5.c:55-147 | the digest of "abc" is 900150983cd24fb0d6963f7d28e17f72, as appendix A.5 of RFC 1321 lists, by all 64 operations on their published constants |
| UList.LinksInverse | src/general/inc/ulist.h:45-47 | in every list next and prev are mutually inverse and stay within it |
| UList.MembersUnique | src/general/inc/ulist.h:45-47 | the links of a list determine its members and their order |
| UList.InitListHead | src/general/inc/ulist.h:54-56 | makes an empty list |
| UList.AddBetween | src/general/inc/ulist.h:64-72 | inserts between two neighbours of any ring |
| UList.ListAdd | src/general/inc/ulist.h:82-85 | prepends |
| UList.ListAddTail | src/general/inc/ulist.h:95-98 | appends |
| UList.DelBetween | src/general/inc/ulist.h:107-111 | closes the ring over one node, whose own links stay |
| UList.ListDel | src/general/inc/ulist.h:118-123 | removes the member at any place and clears its links |
| UList.ListDelInit | src/general/inc/ulist.h:129-133 | removes the member and leaves it an empty list |
| UList.ListMove | src/general/inc/ulist.h:140-145 | takes a member from one list to the front of another |
| UList.ListMoveWithin | src/general/inc/ulist.h:140-145 | takes a member to the front of its own list |
| UList.ListMoveTail | src/general/inc/ulist.h:152-157 | takes a member from one list to the back of another |
| UList.ListMoveTailWithin | src/general/inc/ulist.h:152-157 | takes a member to the back of its own list |
| UList.ListEmpty | src/general/inc/ulist.h:163-166 | true if and only if the list has no members |
| UList.ListSplice | src/general/inc/ulist.h:168-191 | prepends all members of the other list, whose head keeps its old links |
| UList.ListSpliceInit | src/general/inc/ulist.h:200-207 | prepends all members of the other list, which becomes empty |
| UList.ForEachSafe | src/general/inc/ulist.h:241-243 | a body that deletes each chosen entry at its own visit still visits every original member once, in order, and the members left are the others |
| ArgSpec.ParseRoles | src/general/argparse.c:229-279 | no argument has a role its place on the line does not earn: positionals look like arguments, a value follows its option word, a tail follows `--` or the stop |
| ArgSpec.BundleIsSeparate | src/general/argparse.c:240-258 | bundled flags give the same values, returned arguments and exits as the same flags one by one |
| ArgSpec.WordPending | src/general/argparse.c:148-197 | an option word leaves a value pending if and only if its bundle is abandoned with text left (an unknown letter, or a flag whose callback reports -2), or a long option takes none and one was given with `=` or already pending |
| ArgOwn.OwnExactly | src/general/argparse.c:229-279 | for every line that parses, every argument has the role and every option the value written for it (its `=` text, bundle remainder or next argument) if and only if, reading the words from the left, no long option that needs an argument meets a pending value |
| ArgOwn.RolesExactly | src/general/argparse.c:229-279 | every argument has exactly the role its words give it; it is an option value if and only if the word before it needs one and takes none that is pending |
| ArgOwn.QuietLine | src/general/argparse.c:229-279 | a line none of whose words would leave a value pending has no such meeting |
| ArgOwn.PendingOverwritten | src/general/argparse.c:239-245 | a line on which a value stays pending and every option still gets its own |
| ArgOwn.WordOwn | src/general/argparse.c:240-265 | a word that does not meet a pending value it would take carries out its own options, and uses the next argument if and only if that is written for it |
| ArgOwn.UnknownLetterMisleads | src/general/argparse.c:148-158 | a command line without `=` on which an unknown bundle becomes another option's value |
| ArgSpec.StaleValueMisleads | src/general/argparse.c:189-193 | a command line on which a value given to a flag becomes another option's |
| ArgFlags.TryLongExactly | src/general/argparse.c:163-193 | the words an option answers to: its name, alone or with `=` and a value, and for negatable flags that after `no-`, unless the name is itself a prefix of the word |
| ArgFlags.FirstThatAnswers | src/general/argparse.c:160-197 | the option found is the first of the table that answers to the word |
| ArgFlags.FirstWithLetter | src/general/argparse.c:148-158 | and the first with the letter |
| ArgFlags.CounterLine | src/general/argparse.c:57-66 | a line of `--x` and `--no-x` leaves a counter at the greatest of its start plus their difference and their difference counted from 0 after any of them, and does nothing else |
| ArgFlags.OnThenOff | src/general/argparse.c:57-66 | `--x` then `--no-x` restore every counter that is not negative, and with it the whole outcome |
| ArgFlags.OffCountsDown | src/general/argparse.c:57-66 | `--no-x` counts a set flag down by one and leaves none below 0 |
| ArgFlags.LetterIsName | src/general/argparse.c:148-158 | a letter does what its option's name does, when nothing is pending |
| ArgFlags.BitLine | src/general/argparse.c:67-73 | after a line of `--x` and `--no-x` a bit option has all bits of its data on, or all off, as the last word says, and each other bit of the 32 as before |
| ArgFlags.ValueForms | src/general/argparse.c:74-115 | a value after `=` and one in the next argument do the same: stored if it reads as the option's type says; a value out of range or malformed, and a missing one, end the process |
| ArgFlags.CallbackWord | src/general/argparse.c:121-125 | an option without a value of its own goes on, ends the process or counts as unknown as its callback says |
| ArgFlags.UnknownWord | src/general/argparse.c:273-279 | a word that names no option ends the process, or is dropped where unknown options are ignored |
| ArgFlags.PlainWordKept | src/general/argparse.c:231-237 | an empty argument, a single dash, or one without a leading dash is kept in its place, or ends parsing with everything after it kept |
| ArgFlags.TerminatorKeepsRest | src/general/argparse.c:258-263 | `--` is dropped and everything after it kept |
| ArgParse.PrefixCmp | src/general/argparse.c:25-34 | returns 0 if and only if the second string is a prefix of the first |
| ArgParse.MoveDown | src/general/argparse.c:282-283 | the overlapping move to a lower place is correct |
| ArgParse.Parser.GetValue | src/general/argparse.c:49-126 | converts and stores as the pure function, advancing past a value exactly when it uses the next argument, then calls back |
| ArgParse.Parser.ShortOpt | src/general/argparse.c:148-158 | takes one option, the first with that letter, off the pending text |
| ArgParse.Parser.ShortBundle | src/general/argparse.c:240-258 | works a whole bundle off as the pure parser does |
| ArgParse.Parser.TryOption | src/general/argparse.c:163-193 | one table entry matches a long word exactly as the pure parser says, negation and `=` included |
| ArgParse.Parser.LongOpt | src/general/argparse.c:160-197 | finds and carries out the first matching long option |
| ArgParse.Parser.KeepHere | src/general/argparse.c:231-237 | keeping an argument never overwrites one still to be read |
| ArgParse.Parser.Scan | src/general/argparse.c:229-279 | the loop refines the pure parse of the original arguments, up to an exit or the tail |
| ArgParse.Parser.ParseAll | src/general/argparse.c:220-287 | the vector returned is the positionals in order followed by the tail, NULL-terminated, with no option or option value in it; values and exits are those of the pure parser |

## Left out

- Device and OS calls (`ioctl`, `termios`, `poll`, `open`, `read`, `usleep`, opening and closing of handles): each is an abstract step that may fail.
- MCU firmware: only its register contract, as a bounded queue and a status register with arbitrary answers.
- SpiReg.Read: counts above 1022, which overrun the 1024-byte buffers, are excluded; the burn and CAN paths send at most 960 bytes.
- SpiReg.Write: counts above 1022, as for reading.
- SpiReg.SpiRegHandle.GotoStartCmd: the UART bytes behind a start and its acknowledge are one outcome, and a failure of the unlocking `flock` is not modelled.
- RegWrCb.Size: a size register outside the range of a C `int` is excluded by a ring capacity of at most 2^31 - 1.
- BurnMcu.Burner.BurnForced: that the bootloader ever answers, and that the final status ever changes, depends on the MCU; only what holds on exit, or still holds while waiting, is stated.
- BurnMcu.Burner.GetBurnFirmwarePart: a file that cannot be opened and a read that fails are one negative answer, as both are to the caller.
- WireReach.RequestReach: the MCU's own receiver is not shown; `Frame.Decode` stands for one that follows the documented layout, with fill bytes unchecked, and the acknowledges of the two transfers play no part in it.
- LineBurst.LineBurstRejected: judges header, data and field at the count as sent; what a receiver makes of a changed count is stated in `CountBurst`.
- RegWrCb.ReadAir: not carried to the interleaving machine, whose transfers deliver what they remove; the same for the peek.
- CanEcho.EchoTest: stated for rings whose failed transfers have no effect; with lost replies the loop can drop or repeat records, which `RingRuns.LossAccounting` measures.
- Watchdog.Host.WdogFeed: no other writer of the counter, so the configuration call that also writes it is not included.
- Md5.Md5: `size_t` does not wrap and allocation does not fail; the sine table is stated as published, and held to it by one published digest, not derived from sines.
- UList: the macros that iterate without a saved successor, and those that step from a node to its enclosing structure.
- ArgParse.Parser.ParseAll: `argc` is at least 1, callbacks report a code or exit but do not change the parser, flag counters do not overflow, and number conversion is a parameter.
- `argparse_usage`, option-table warnings, logging, log rotation and all display code.
- Mode selection in `src/main.c` and the single-register wrappers of `src/rearview_mcu.c`: one-branch facts.
- Time: timeouts, delays and the floating-point CAN timestamps.
