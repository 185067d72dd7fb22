# Verified models of the AnalogX firmware's algorithmic code

AnalogX is a small CAN sensor board. Its firmware is thin; the code with something to prove is in the
libraries it is built from and in its own protocol. This project models nine components in Dafny and proves,
for all inputs, all runs or all interleavings, what each of them is for.

`dafny verify dfyconfig.toml` verifies everything.

## Components

- **Software CRC** (`Gf2Poly`, `Words`, `CrcSpec`, `CrcDetection`, `CrcBursts`, `CrcTablePath`, `CrcTables`,
  `CrcConfigs`, `CrcDriver`). A 32-bit word is the set of its one-bit positions, so that the register is literally a
  polynomial over GF(2). The driver object refines the register functions; these compute remainders; the
  shipped tables are proved entry by entry.
- **SCSI target over a RAM disk** (`Bswap`, `RamDisk`, `Scsi`, `ScsiTarget`, `ScsiRuns`). Objects with the
  source's fields, refining a map from block addresses to blocks. An access outside the storage is an
  outcome of its own (`Fault`) with an exact condition.
- **IRQ-storm message chain** (`IrqStorm`, `IrqStormOrder`, `IrqStormRuns`, `IrqStormSystem`, `IrqStormSweep`). A state machine
  whose steps are the uninterruptible pieces of the code, for any number of threads and any mailbox size. Running
  numbers and visited threads are history that the program does not have.
- **Number printing** (`Numerals`, `NumToA`, `Decimals`, `FloatToA`, `Singles`, `FloatRounding`). In-place methods
  on a character array against numerals and a parser. A `float` is a real number with 24 significant bits; the one
  operation of `modp_ftoa` that rounds gives any nearest such number.
- **Triple buffer** (`TriBuf`). The handler object, and a producer and a consumer around it as interleaved steps.
- **Shell** (`ShellEditor`, `ShellTokens`, `Shell`). Line editor with its echo on a terminal, in-place
  tokenizer, dispatch and whole sessions.
- **Bootloader client** (`Bootloader`, `Loader`, `LoaderRuns`). The client against a device that takes one
  byte at a time and examines every complement and checksum (section 3 of ST AN3155).
- **Memory tester** (`MemTest`). Generator objects and the two passes, with arbitrary changes of the memory in between.
- **CAN provisioning** (`CanBoard`, `CanBus`). One board's firmware object, and any number of boards and other nodes on one bus.
- `Basics` has what several of these need.

## Where the code does not do what one would expect

Each of these is proved in the members named.

- A CRC notices every one-byte change if and only if the polynomial has a term at or below x^(poly_size-8);
  that it is odd is sufficient, not necessary (`CrcDetection.DetectsExactly`). For bursts it is both
  (`CrcBursts.BurstsExactly`).
- The capacity check of the SCSI target and of the RAM disk adds in 32 bits: a request whose end wraps around
  into the disk is let through (`Scsi.RefusedExactly`, `RamDisk.Disk.OverflowIs`).
- READ CAPACITY reports a wrong last address on an empty device (`Scsi.CapacityReads`).
- The sense data have an additional length of 8 where the 18 bytes sent need 10 (`Scsi.SenseLengthShort`).
- A worker of the IRQ storm writes `saturated` in a step of its own, so the flag can be behind a failed post and can be
  set after it was cleared. It is right if and only if it is cleared while no worker is about to write it, which is
  what the pause of the test loop is for (`IrqStormRuns.ClearExactly`, `IrqStormRuns.SaturatedExactly`).
- In `modp_ftoa` a tie that reaches 10^prec does not carry into the whole part: the float closest to 0.95 with one place
  prints 0.1, because its product with 10 rounds to 9.5 (`FloatRounding.PrintedNearest`, `FloatRounding.TieExample`,
  `FloatToA.TextExactly`).
- The triple buffer's consumer can go back to an older frame when a publication falls between the end of its wait and
  its swap, also if both are under one lock and the wait blocked (`TriBufProtocol.LateSwapExactly`,
  `TriBufProtocol.StaleRun`); `tribufIsReadyI` says ready while a consumer waits (`TriBufProtocol.IsReadyExactly`).
- An erase in a full line of the shell takes back a character that was typed earlier (`ShellEditor.ErasedExactly`).
- A write frame of the bootloader client is accepted only for blocks of exactly 256 bytes, which is why it always pads
  (`Loader.CommandInterface.CmdWriteMemory`); for an empty image it writes one block of 0xFF.
- The memory tester's callback is told the low 32 bits of a 64-bit cell (`MemTest.ReportedWantExactly`).
- A configuration frame without data provisions a board and leaves its rate (`CanBus.RunConfigured`); a rate of 0 is
  accepted, although the sampling loop divides by it (`CanBus.ZeroRateExactly`, `CanBus.ZeroRateRun`).

## Model

| member | source | states |
|---|---|---|
| `CrcSpec.BitStepRemainder` | firmware/ChibiOS/community/os/various/crcsw.c:314-322 | one turn of the bit loop multiplies the low poly_size bits by x modulo the generator, whatever garbage stands above them |
| `CrcSpec.ByteStepRemainder` | firmware/ChibiOS/community/os/various/crcsw.c:303-323 | a byte step multiplies by x^8 and brings the byte in at x^poly_size, modulo the generator |
| `CrcSpec.MessageBits` | firmware/ChibiOS/community/os/various/crcsw.c:303-312 | the message polynomial from the bytes alone: bit e of byte i of n stands at x^(8(n-1-i)+e), or with reflect_data at x^(8(n-1-i)+7-e), and there is nothing else |
| `CrcSpec.MessageUnique` | firmware/ChibiOS/community/os/various/crcsw.c:303-312 | bytes have one such polynomial only |
| `CrcSpec.RegisterIsRemainder` | firmware/ChibiOS/community/os/various/crcsw.c:296-325 | for every size 8..32, polynomial, initial register and message, the low bits of the never masked register are the remainder of I·x^(8L) + M·x^poly_size over GF(2) |
| `CrcSpec.CrcIsRemainder` | firmware/ChibiOS/community/os/various/crcsw.c:296-333 | the returned CRC bit by bit, from the bytes, for both settings of reflect_data: coefficients of that (unique) remainder, mirrored if asked, plus the final value, and nothing beyond poly_size bits |
| `CrcDetection.ReturnedInjective` | firmware/ChibiOS/community/os/various/crcsw.c:327-333 | reflection, final xor and mask lose nothing of the low bits, and depend on nothing else |
| `CrcDetection.SameCrc` | firmware/ChibiOS/community/os/various/crcsw.c:301-333 | two messages of equal length have the same CRC exactly when the generator divides the difference of the messages |
| `CrcDetection.ChangeMissed` | firmware/ChibiOS/community/os/various/crcsw.c:301-333 | without a term of the polynomial at or below x^(poly_size-8) there is a one-byte message with the CRC of another one |
| `CrcDetection.DetectsExactly` | firmware/ChibiOS/community/os/various/crcsw.c:301-333 | every change of a single byte changes the CRC if and only if the polynomial has a term at or below x^(poly_size-8) |
| `CrcDetection.OddPolynomialDetects` | firmware/ChibiOS/community/os/various/crcsw.c:301-333 | in particular every odd polynomial of size 8..32 notices every change of a single byte |
| `CrcBursts.BurstDetected` | firmware/ChibiOS/community/os/various/crcsw.c:301-333 | with an odd polynomial two messages whose difference lies within poly_size bits, anywhere, have different CRCs |
| `CrcBursts.BurstMissed` | firmware/ChibiOS/community/os/various/crcsw.c:301-333 | with an even polynomial there is such a burst that is missed |
| `CrcBursts.BurstsExactly` | firmware/ChibiOS/community/os/various/crcsw.c:301-333 | every burst of up to poly_size bits is noticed if and only if the polynomial is odd |
| `CrcTablePath.EightSteps` | firmware/ChibiOS/community/os/various/crcsw.c:287-291 | eight steps of the mirrored division are one table look-up and a shift by eight |
| `CrcTablePath.TableRegister` | firmware/ChibiOS/community/os/various/crcsw.c:286-293 | after every byte sequence the table register is the mirror image of the low bits of the division register |
| `CrcTablePath.TablePathAgrees` | firmware/ChibiOS/community/os/various/crcsw.c:282-334 | with a table for the mirrored polynomial the table path returns what the programmable path returns |
| `CrcTables.Crc32Entry` | firmware/ChibiOS/community/os/various/crcsw.c:42-107 | each of the 256 entries of the shipped CRC-32 table is its index divided for eight steps |
| `CrcTables.Crc32Mirrored` | firmware/ChibiOS/community/os/various/crcsw.c:157-165 | the shipped CRC-32 configuration meets the conditions under which both paths agree (the CRC of section 8 of RFC 1952) |
| `CrcTables.Crc32Agrees` | firmware/ChibiOS/community/os/various/crcsw.c:157-165 | CRC-32: both paths return the same value for every byte sequence |
| `CrcTables.Crc16Entry` | firmware/ChibiOS/community/os/various/crcsw.c:111-144 | each of the 256 entries of the shipped CRC-16 table is its index divided for eight steps |
| `CrcTables.Crc16Mirrored` | firmware/ChibiOS/community/os/various/crcsw.c:169-177 | the shipped CRC-16 configuration meets the same conditions |
| `CrcTables.Crc16Agrees` | firmware/ChibiOS/community/os/various/crcsw.c:169-177 | CRC-16: both paths return the same value for every byte sequence |
| `CrcConfigs.Crc32Detects` | firmware/ChibiOS/community/os/various/crcsw.c:157-165 | the shipped CRC-32 configuration, with its table, notices every change of a single byte |
| `CrcConfigs.Crc16Detects` | firmware/ChibiOS/community/os/various/crcsw.c:169-177 | the shipped CRC-16 configuration, with its table, notices every change of a single byte |
| `CrcConfigs.Crc32DetectsBursts` | firmware/ChibiOS/community/os/various/crcsw.c:157-165 | the shipped CRC-32 configuration, with its table, notices every burst of up to 32 bits |
| `CrcConfigs.Crc16DetectsBursts` | firmware/ChibiOS/community/os/various/crcsw.c:169-177 | the shipped CRC-16 configuration, with its table, notices every burst of up to 16 bits |
| `CrcConfigs.Crc32Parameters` | firmware/ChibiOS/community/os/various/crcsw.c:157-165 | size, generator, initial and final value of the shipped CRC-32, by their exponents |
| `CrcConfigs.Crc16Parameters` | firmware/ChibiOS/community/os/various/crcsw.c:169-177 | the same for CRC-16 |
| `CrcConfigs.Crc32Computes` | firmware/ChibiOS/community/os/various/crcsw.c:157-165 | the shipped CRC-32, from its table, bit by bit from the bytes and the literal generator: the mirrored and complemented remainder (section 8 of RFC 1952) |
| `CrcConfigs.Crc16Computes` | firmware/ChibiOS/community/os/various/crcsw.c:169-177 | the shipped CRC-16 in the same way: the mirrored remainder |
| `CrcDriver.Reflect` | firmware/ChibiOS/community/os/various/crcsw.c:189-204 | the bit loop mirrors the low nBits bits and clears the others |
| `CrcDriver.Driver.Reset` | firmware/ChibiOS/community/os/various/crcsw.c:269-271 | the register becomes the initial value |
| `CrcDriver.Driver.Calc` | firmware/ChibiOS/community/os/various/crcsw.c:282-334 | register and returned value after any buffer; reflection and final xor are not stored |
| `CrcDriver.Driver.CalcTable` | firmware/ChibiOS/community/os/various/crcsw.c:286-293 | the byte loop of the table path against the register function |
| `CrcDriver.Driver.CalcBits` | firmware/ChibiOS/community/os/various/crcsw.c:301-325 | the byte and bit loops of the programmable path against the register function |
| `CrcDriver.Driver.DivideByte` | firmware/ChibiOS/community/os/various/crcsw.c:314-322 | the bit loop is eight division steps |
| `CrcDriver.RegisterConcat` | firmware/ChibiOS/community/os/various/crcsw.c:282-334 | feeding a buffer in two calls leaves the register of one call, on both paths |
| `CrcDriver.Driver.CalcPieces` | firmware/ChibiOS/community/os/various/crcsw.c:269-334 | after a reset, calls over any split of a buffer end with the CRC of the whole buffer |
| `Bswap.SwapBytes` | firmware/ChibiOS/community/os/various/bswap.h:185-193 | the in-place loop reverses the bytes of a buffer of any length |
| `Bswap.Swap16Reverses` | firmware/ChibiOS/community/os/various/bswap.h:33-35 | the shift-and-mask macro reverses the bytes of a word, so that a little-endian load then reads big-endian |
| `Bswap.Swap32Reverses` | firmware/ChibiOS/community/os/various/bswap.h:36-40 | the same for 32 bits |
| `Bswap.LoadStore` | firmware/ChibiOS/community/os/various/bswap.h:113-150 | loading the bytes of a stored word gives the word back |
| `RamDisk.Disk.OverflowIs` | firmware/ChibiOS/community/os/various/ramdisk.c:50-52 | the 32-bit check refuses or wraps around exactly on the requests that leave the disk, never both |
| `RamDisk.BlocksReplaced` | firmware/ChibiOS/community/os/various/ramdisk.c:100-112 | overwriting a byte range of whole blocks replaces those blocks and no other |
| `RamDisk.BlocksCopied` | firmware/ChibiOS/community/os/various/ramdisk.c:85-98 | a byte range of whole blocks is those blocks in order |
| `RamDisk.Disk.Read` | firmware/ChibiOS/community/os/various/ramdisk.c:85-98 | failure, undefined access and success each have their exact condition; on success the buffer holds the requested blocks and nothing behind them is touched |
| `RamDisk.Disk.Write` | firmware/ChibiOS/community/os/various/ramdisk.c:100-112 | the same for writing: the addressed blocks are replaced and all others stay |
| `RamDisk.Disk.CopyInto` | firmware/ChibiOS/community/os/various/ramdisk.c:106-110 | the bytes are copied into the storage and nothing else changes |
| `RamDisk.Disk.constructor` | firmware/ChibiOS/community/os/various/ramdisk.c:184-198 | a started disk is ready, with the given storage and geometry |
| `RamDisk.Disk.ProtectedIs` | firmware/ChibiOS/community/os/various/ramdisk.c:59-67 | a started disk is protected exactly when it was started read-only |
| `RamDisk.Disk.Connect` | firmware/ChibiOS/community/os/various/ramdisk.c:69-75 | the state becomes ready |
| `RamDisk.Disk.Disconnect` | firmware/ChibiOS/community/os/various/ramdisk.c:77-83 | the state becomes stopped |
| `Scsi.Decode` | firmware/ChibiOS/community/os/various/lib_scsi.c:65-78 | swapping the loaded words gives the big-endian address (bytes 2-5) and count (bytes 7-8) of SBC-3 |
| `Scsi.RequestedIs` | firmware/ChibiOS/community/os/various/lib_scsi.c:65-78 | the address and count of a command byte by byte |
| `Scsi.SenseData` | firmware/ChibiOS/community/os/various/lib_scsi.c:90-101 | key, code and qualifier stand where the fixed format of section 4.5.3 of SPC-3 has them, and the rest is well-formed |
| `Scsi.SenseLengthShort` | firmware/ChibiOS/community/os/various/lib_scsi.c:90-101 | the additional length is 8 and not the 10 that the bytes sent would need |
| `Scsi.CapacityReads` | firmware/ChibiOS/community/os/various/lib_scsi.c:299-311 | the host reads the block size, and the block count exactly when there is a block |
| `Scsi.FormatCapacitiesReads` | firmware/ChibiOS/community/os/various/lib_scsi.c:254-287 | what the host reads from the reply to READ FORMAT CAPACITIES: 12 bytes with list length 8, block count, descriptor type 2 and block size modulo 2^16 |
| `Scsi.RefusedExactly` | firmware/ChibiOS/community/os/various/lib_scsi.c:325-339 | a request is refused exactly when it passes the reported capacity, unless its 32-bit end wraps around into the disk; that is the exact exception |
| `Scsi.WrongAcceptance` | firmware/ChibiOS/community/os/various/lib_scsi.c:325-339 | one block at the highest address is such an exception on every device |
| `ScsiTarget.Target.SetSense` | firmware/ChibiOS/community/os/various/lib_scsi.c:90-101 | the whole sense buffer |
| `ScsiTarget.Target.TransmitData` | firmware/ChibiOS/community/os/various/lib_scsi.c:127-139 | success means everything was sent; failure means a positive residue equal to the number of unsent bytes |
| `ScsiTarget.Target.Inquiry` | firmware/ChibiOS/community/os/various/lib_scsi.c:176-188 | refused exactly for the two bits and the page field the code looks at, otherwise the response is sent |
| `ScsiTarget.Target.RequestSense` | firmware/ChibiOS/community/os/various/lib_scsi.c:200-215 | refused exactly when the partly initialised word or the length differs, otherwise clear sense data is sent |
| `ScsiTarget.Target.ModeSense6` | firmware/ChibiOS/community/os/various/lib_scsi.c:227-242 | the write-protect bit shows the state of the disk |
| `ScsiTarget.Target.ReadFormatCapacities` | firmware/ChibiOS/community/os/various/lib_scsi.c:254-287 | the reply to each allocation length |
| `ScsiTarget.Target.ReadCapacity10` | firmware/ChibiOS/community/os/various/lib_scsi.c:299-311 | the reply, or a residue |
| `ScsiTarget.Target.DataOverflow` | firmware/ChibiOS/community/os/various/lib_scsi.c:325-339 | refusal and sense exactly on a 32-bit sum above the block count |
| `ScsiTarget.Target.ReadBlock` | firmware/ChibiOS/community/os/various/lib_scsi.c:367-371 | one block goes from the disk through the buffer to the host |
| `ScsiTarget.Target.WriteBlock` | firmware/ChibiOS/community/os/various/lib_scsi.c:372-376 | one block goes from the host through the buffer to the disk |
| `ScsiTarget.Target.ReadBlocks` | firmware/ChibiOS/community/os/various/lib_scsi.c:366-371 | the transfer loop sends the addressed blocks in order through the one-block buffer |
| `ScsiTarget.Target.WriteBlocks` | firmware/ChibiOS/community/os/various/lib_scsi.c:366-376 | the transfer loop replaces the addressed blocks by what was received, and no other |
| `ScsiTarget.Target.DataReadWrite10` | firmware/ChibiOS/community/os/various/lib_scsi.c:351-380 | exact conditions of refusal, undefined access and success, and the transfer itself as an operation on blocks |
| `ScsiTarget.Target.ExecControl` | firmware/ChibiOS/community/os/various/lib_scsi.c:399-449 | the commands that move no blocks: reply, refusal or residue |
| `ScsiTarget.Target.ExecCmd` | firmware/ChibiOS/community/os/various/lib_scsi.c:399-449 | after every command the sense is well-formed with key GOOD or ILLEGAL REQUEST and the code of the command, the latter exactly on the listed commands; a failure is an illegal request or leaves a positive residue that is the unsent count; only WRITE (10) changes the disk |
| `ScsiRuns.LastWriteWins` | firmware/ChibiOS/community/os/various/lib_scsi.c:351-380 | after any run of requests every block holds its last write, or what it held before |
| `ScsiRuns.AnswerIs` | firmware/ChibiOS/community/os/various/lib_scsi.c:366-371 | a read at any point of a run answers with the last writes |
| `ScsiRuns.RequestKind` | firmware/ChibiOS/community/os/various/lib_scsi.c:399-449 | what a command comes to: nothing exactly when it is illegal, otherwise its transfer or its reply |
| `ScsiRuns.TransferCodes` | firmware/ChibiOS/community/os/various/lib_scsi.c:399-449 | what every operation code, as a number, comes to |
| `ScsiRuns.Step` | firmware/ChibiOS/community/os/various/lib_scsi.c:399-449 | one command of a run does its request on disk and wire, and ends with the outcome and the sense of it |
| `ScsiRuns.Run` | firmware/ChibiOS/community/os/various/lib_scsi.c:399-449 | over every run of commands, refused ones included, the disk and everything the host receives are those of the map from addresses to blocks; refused commands fail as ILLEGAL REQUEST and change nothing, all others succeed with clear sense |
| `IrqStormOrder.StepKeeps` | firmware/ChibiOS/testhal/common/irq_storm.c:84-167 | every step of every interleaving keeps mailbox bounds, conservation and order of each direction |
| `IrqStormOrder.RunKeeps` | firmware/ChibiOS/testhal/common/irq_storm.c:84-167 | so does every run |
| `IrqStormRuns.CountLaw` | firmware/ChibiOS/testhal/common/irq_storm.c:124-167 | accepted injections = queued + held + retired + dropped in transit |
| `IrqStormRuns.RetiredInOrder` | firmware/ChibiOS/testhal/common/irq_storm.c:124-137 | messages of one direction retire in injection order |
| `IrqStormRuns.RunAccepts` | firmware/ChibiOS/testhal/common/irq_storm.c:124-167 | exactly the injections that find room are accepted, and exactly the re-sent messages that find none are dropped |
| `IrqStormRuns.StepRoutes` | firmware/ChibiOS/testhal/common/irq_storm.c:118-137 | every message has been fetched by exactly the threads before it, in order; retired ones by all, dropped ones by some |
| `IrqStormRuns.StepPunctual` | firmware/ChibiOS/testhal/common/irq_storm.c:127-129 | no step loses a failure; and no step but a clear under a pending write sets the flag without one |
| `IrqStormRuns.StepFails` | firmware/ChibiOS/testhal/common/irq_storm.c:127-129 | what each step does to the record of failed posts, from the mailboxes alone |
| `IrqStormRuns.FailedExactly` | firmware/ChibiOS/testhal/common/irq_storm.c:127-166 | the record stands after a run exactly when some post of the run found its mailbox full since the last clear |
| `IrqStormRuns.SaturatedExactly` | firmware/ChibiOS/testhal/common/irq_storm.c:124-166 | in every run from the start in which the flag is cleared only while no worker is about to write it: it never stands unless a post of the run found its mailbox full since the clear, and it is exact in every state in which no worker is about to write it |
| `IrqStormRuns.ClearExactly` | firmware/ChibiOS/testhal/common/irq_storm.c:232 | after a clear the flag stands only for failures since then, whatever happens until the next clear, if and only if no worker was about to write it when it was cleared |
| `IrqStormRuns.LateFlag` | firmware/ChibiOS/testhal/common/irq_storm.c:127-129 | a worker that is about to write the flag when it is cleared sets it again without any failure |
| `IrqStormRuns.FlagTooLate` | firmware/ChibiOS/testhal/common/irq_storm.c:127-129 | a run in which a post has failed and the flag is not set yet |
| `IrqStormRuns.FlagAfterClear` | firmware/ChibiOS/testhal/common/irq_storm.c:229-233 | a run in which the flag is set although no post has failed since it was cleared |
| `IrqStormRuns.StepWorks` | firmware/ChibiOS/testhal/common/irq_storm.c:95-138 | every worker step strictly decreases the remaining work |
| `IrqStormRuns.DrainBound` | firmware/ChibiOS/testhal/common/irq_storm.c:246-248 | with the timers stopped no schedule of the workers is longer than the remaining work |
| `IrqStormRuns.Drained` | firmware/ChibiOS/testhal/common/irq_storm.c:260-261 | where no worker can go on, all mailboxes are empty and every accepted message is retired or was dropped |
| `IrqStormRuns.DrainedExactly` | firmware/ChibiOS/testhal/common/irq_storm.c:260-261 | in every such run, where the workers have come to rest the flag is exact and nothing is left in the chain |
| `IrqStormRuns.EveryRun` | firmware/ChibiOS/testhal/common/irq_storm.c:84-167 | all of this for every number of threads, every mailbox size and every interleaving |
| `IrqStormSystem.System.constructor` | firmware/ChibiOS/testhal/common/irq_storm.c:187-197 | empty mailboxes and waiting workers |
| `IrqStormSystem.System.Post` | firmware/ChibiOS/testhal/common/irq_storm.c:127 | a post without waiting succeeds exactly when the mailbox has room |
| `IrqStormSystem.System.Gpt1Callback` | firmware/ChibiOS/testhal/common/irq_storm.c:144-153 | the interrupt is the injection step at thread 0 |
| `IrqStormSystem.System.Gpt2Callback` | firmware/ChibiOS/testhal/common/irq_storm.c:158-167 | the interrupt is the injection step at the last thread |
| `IrqStormSystem.System.WorkerFetch` | firmware/ChibiOS/testhal/common/irq_storm.c:98 | the fetch step |
| `IrqStormSystem.System.WorkerForward` | firmware/ChibiOS/testhal/common/irq_storm.c:118-137 | the re-send, drop or retire step; the unsigned target of thread 0 is past the end |
| `IrqStormSystem.System.WorkerFlag` | firmware/ChibiOS/testhal/common/irq_storm.c:128-129 | the flag is written in a step of its own |
| `IrqStormSystem.System.ClearSaturated` | firmware/ChibiOS/testhal/common/irq_storm.c:232 | the clearing step |
| `IrqStormSweep.ExecIsRun` | firmware/ChibiOS/testhal/common/irq_storm.c:243-248 | a stretch of interrupts and worker steps is a run of the chain without clears |
| `IrqStormSweep.Storm` | firmware/ChibiOS/testhal/common/irq_storm.c:239-248 | the timers and the scheduler take the steps of a stretch on the shared variables |
| `IrqStormSweep.ScheduleSteps` | firmware/ChibiOS/testhal/common/irq_storm.c:237 | each interval is shorter than the one before by a tenth of it, rounded up, and the last is 2 |
| `IrqStormSweep.Iteration` | firmware/ChibiOS/testhal/common/irq_storm.c:231-259 | the flag is cleared and read after the stretch of every interval; the threshold is the first, hence largest, interval after which it is set, 0 if none |
| `IrqStormSweep.ThresholdRight` | firmware/ChibiOS/testhal/common/irq_storm.c:231-259 | if no worker was about to write the flag when it was cleared, a threshold means that a post of the iteration's run found its mailbox full, and exactly that if none is about to write the flag when it is read |
| `IrqStormSweep.Sweep` | firmware/ChibiOS/testhal/common/irq_storm.c:228-265 | the iterations in order, each from where the pause of the one before ends; the worst value is the largest threshold |
| `IrqStormSweep.SweepRight` | firmware/ChibiOS/testhal/common/irq_storm.c:228-265 | from the start, if every pause lets the workers come to rest, every clear is taken in time and every threshold stands for a failed post of its iteration |
| `Numerals.DigitsParse` | firmware/util/modp_numtoa.c:57-59 | the numeral of a number parses back to it, in every base |
| `Numerals.DigitsCanonical` | firmware/util/modp_numtoa.c:57-59 | a numeral has no redundant zero in front |
| `NumToA.StrReverse` | firmware/util/modp_numtoa.c:44-49 | the swap loop reverses the range and leaves the rest |
| `NumToA.PutDigits` | firmware/util/modp_numtoa.c:57-59 | the digit loop writes the numeral backwards and nothing else |
| `NumToA.SignedDecimal` | firmware/util/modp_numtoa.c:57-64 | the common body of the decimal conversions |
| `NumToA.Finish` | firmware/util/modp_numtoa.c:60-64 | sign, terminator and reversal leave the signed numeral as a C string |
| `NumToA.Uitoa10` | firmware/util/modp_numtoa.c:67-76 | the buffer holds the decimal numeral of the value (also `modp_ultoa10`) |
| `NumToA.Itoa10` | firmware/util/modp_numtoa.c:51-65 | sign and numeral, parsing back to the value, for every value above the smallest |
| `NumToA.Ltoa10` | firmware/util/modp_numtoa.c:78-98 | the same for 64 bits |
| `NumToA.TableEntry` | firmware/util/modp_numtoa.c:327 | the symmetric table holds the digit of a remainder of either sign |
| `NumToA.TruncRemainder` | firmware/util/modp_numtoa.c:325-327 | truncating division works on the magnitude, and its signed remainder indexes the table within 0..70 |
| `NumToA.PutSignedDigits` | firmware/util/modp_numtoa.c:324-331 | the digit loop of any base writes the numeral of the magnitude backwards, and the last dividend has the sign |
| `NumToA.ItoaX` | firmware/util/modp_numtoa.c:313-339 | every 32-bit number including the smallest and every base 2..36: optional minus sign, canonical numeral, parses back; nothing is written past 34 characters; other bases give the empty string |
| `Decimals.PaddedParse` | firmware/util/modp_numtoa.c:201-202 | zeros in front do not change a numeral's value |
| `Decimals.TrimmedFraction` | firmware/util/modp_numtoa.c:112-127 | trailing zeros do not change a fraction's value |
| `FloatToA.TrimLeadingZeros` | firmware/util/modp_numtoa.c:112-127 | exactly the leading zeros up to the one before the point or the end become NUL |
| `FloatToA.DropsTrailing` | firmware/util/modp_numtoa.c:112-127 | on a reversed fraction these are its trailing zeros, all but one digit |
| `FloatToA.PutZeros` | firmware/util/modp_numtoa.c:201-202 | zeros for the digits that fall short of the precision |
| `FloatToA.PutFraction` | firmware/util/modp_numtoa.c:195-204 | reversed fraction digits, padded to the precision, and the point |
| `FloatToA.TrimAndReverse` | firmware/util/modp_numtoa.c:217-218 | the trimmed zeros end up as NULs behind the text |
| `FloatToA.PrintParts` | firmware/util/modp_numtoa.c:194-218 | the in-place pipeline prints sign, whole part, point and the fraction without trailing zeros, keeping one digit |
| `FloatToA.TextValue` | firmware/util/modp_numtoa.c:194-218 | the number that the text stands for, for every whole part, fraction and precision |
| `FloatToA.TextExactly` | firmware/util/modp_numtoa.c:194-218 | the text stands for ±(whole + frac/10^prec) if and only if frac < 10^prec |
| `FloatToA.TextTrimmed` | firmware/util/modp_numtoa.c:112-127 | the text ends in a 0 only right behind the point, and has no point at precision 0 |
| `Singles.FractionSingle` | firmware/util/modp_numtoa.c:154-155 | the fraction of a float is a float: the subtraction of the whole part is exact |
| `Singles.ProductBelow` | firmware/util/modp_numtoa.c:155 | whatever nearest float the product rounds to, it stays below 10^prec |
| `FloatRounding.ProductRounded` | firmware/util/modp_numtoa.c:154-156 | the same for the product of the conversion; at precision 0 it is the fraction itself |
| `FloatRounding.PrintedNearest` | firmware/util/modp_numtoa.c:154-193 | the printed number is within half a unit of the last place of whole + tmp/10^prec if and only if tmp is not 10^prec - 1/2 |
| `FloatRounding.TieMissed` | firmware/util/modp_numtoa.c:166-170 | in that case the fraction is printed as .1 |
| `FloatRounding.NoTieFromSeven` | firmware/util/modp_numtoa.c:155-170 | with seven places or more no float is 10^prec - 1/2, so that it does not occur |
| `FloatRounding.PrintedExact` | firmware/util/modp_numtoa.c:154-193 | a whole product is printed exactly |
| `FloatRounding.TieGoesEven` | firmware/util/modp_numtoa.c:166-170 | a product halfway between two fractions goes to the even one, except that 0.5 goes to 1; the whole part stays |
| `FloatRounding.WholeTieGoesEven` | firmware/util/modp_numtoa.c:184-193 | at precision 0 a half goes to the even whole number |
| `FloatRounding.TiePrinted` | firmware/util/modp_numtoa.c:166-219 | what is printed for a product halfway between two fractions, above 1 and not rolled over, is the even fraction |
| `FloatRounding.TieEvenExamples` | firmware/util/modp_numtoa.c:166-193 | 0.25 with one place is 0.2, and 2.5 without any is 2 |
| `FloatRounding.SingleError` | firmware/util/modp_numtoa.c:154-193 | for every float the printed number is at most half a unit and the rounding of the product away from the value, unless the rounded product is 10^prec - 1/2 |
| `FloatRounding.TieProduct` | firmware/util/modp_numtoa.c:155 | the float closest to 0.95 times 10 rounds to 9.5 |
| `FloatRounding.TieExample` | firmware/util/modp_numtoa.c:166-170 | so that this float is printed with one place as 0.1 |
| `FloatRounding.Ftoa` | firmware/util/modp_numtoa.c:129-219 | the whole conversion of every float but ±2^31, for every way to round the product: clamped precision, placeholder above the threshold, otherwise the text of the rounded value |
| `TriBuf.Handler.constructor` | firmware/ChibiOS/community/os/various/tribuf.c:62-72 | front, back and orphan as given, and no signal |
| `TriBuf.Handler.SwapFront` | firmware/ChibiOS/community/os/various/tribuf.c:107-116 | front and orphan are exchanged |
| `TriBuf.Handler.SwapBack` | firmware/ChibiOS/community/os/various/tribuf.c:172-188 | back and orphan are exchanged, and a count below 1 is raised, waking a waiter |
| `TriBuf.Handler.StartWait` | firmware/ChibiOS/community/os/various/tribuf.h:110-116 | the count is lowered; the caller blocks exactly when there was no signal |
| `TriBuf.Handler.EndWait` | firmware/ChibiOS/community/os/various/tribuf.h:110-116 | a wait that times out gives its place back |
| `TriBuf.Handler.IsReady` | firmware/ChibiOS/community/os/various/tribuf.h:84-94 | ready is shown for every count but zero |
| `TriBufProtocol.RunSafe` | firmware/ChibiOS/community/os/various/tribuf.c:62-188 | in every interleaving, with swaps of the front after a wait or without one, the three pointers are a permutation of the buffers, so that producer and consumer never share one, and the count stays between -1 and 1 |
| `TriBufProtocol.FrontKept` | firmware/ChibiOS/community/os/various/tribuf.c:107-116 | what the consumer reads does not change until it swaps |
| `TriBufProtocol.RunTracked` | firmware/ChibiOS/community/os/various/tribuf.c:62-188 | in every interleaving the frames taken are strictly newer each time if and only if a publication precedes every take since the one before |
| `TriBufProtocol.AtomicRun` | firmware/ChibiOS/community/os/various/tribuf.c:62-188 | if the consumer waits before it swaps and no publication falls in between, the signal is up exactly when the orphan is newer, and every frame taken is strictly newer |
| `TriBufProtocol.EveryRun` | firmware/ChibiOS/community/os/various/tribuf.c:62-188 | all of this from the initial handler with any three different buffers |
| `TriBufProtocol.LateSwapExactly` | firmware/ChibiOS/community/os/various/tribuf.h:110-170 | after k publications between the end of a wait and the swap the signal is right again exactly when k is 0 |
| `TriBufProtocol.StaleRun` | firmware/ChibiOS/community/os/various/tribuf.h:110-170 | a run in which the consumer goes back to an older frame |
| `TriBufProtocol.IsReadyExactly` | firmware/ChibiOS/community/os/various/tribuf.h:84-94 | the ready query is right exactly when no consumer waits |
| `ShellEditor.GetLine` | firmware/ChibiOS/os/various/shell.c:268-301 | for every input and size the line is that of a bounded stack editor of capacity size-1, the rest of the buffer is untouched, exactly the keys up to the end of the line are read, and the echo is known byte for byte |
| `ShellEditor.EchoShows` | firmware/ChibiOS/os/various/shell.c:280-299 | after every key the echo, shown by a terminal behind any prompt, displays exactly the text in the buffer, with blanks after the cursor |
| `ShellEditor.KeyIs` | firmware/ChibiOS/os/various/shell.c:276-299 | what each key does, by its code |
| `ShellEditor.LineIs` | firmware/ChibiOS/os/various/shell.c:274-293 | the first return ends a line if no CTRL-D comes before it; CTRL-D and the end of the input log out |
| `ShellEditor.LineShown` | firmware/ChibiOS/os/various/shell.c:289-293 | at the end of the line prompt and text stay in the row above and the cursor is in an empty row |
| `ShellEditor.LogoutShown` | firmware/ChibiOS/os/various/shell.c:276-279 | CTRL-D shows as ^D behind the text |
| `ShellEditor.EditedTyped` | firmware/ChibiOS/os/various/shell.c:294-299 | only visible characters get into a line |
| `ShellEditor.EditedPrefix` | firmware/ChibiOS/os/various/shell.c:294-299 | without erasing, the line is what was typed, cut off at the capacity |
| `ShellEditor.ErasedExactly` | firmware/ChibiOS/os/various/shell.c:280-299 | an erase takes back the character before it if and only if that character found room |
| `ShellTokens.WordsAreRuns` | firmware/ChibiOS/os/various/shell.c:37-52 | the words are exactly the longest delimiter-free runs of the line, from left to right |
| `ShellTokens.DelimiterIs` | firmware/ChibiOS/os/various/shell.c:151-154 | the delimiters are blank and tabulator |
| `ShellTokens.Span` | firmware/ChibiOS/os/various/shell.c:46 | the first index without a delimiter |
| `ShellTokens.Break` | firmware/ChibiOS/os/various/shell.c:47 | the first delimiter before the terminator, or none |
| `ShellTokens.Strtok` | firmware/ChibiOS/os/various/shell.c:37-52 | each call returns the next word, cuts it off in place with one NUL and changes nothing else; the null pointer comes exactly at the end |
| `Shell.NextWord` | firmware/ChibiOS/os/various/shell.c:154 | one more call keeps the words that are already cut off intact in memory |
| `Shell.ParseLine` | firmware/ChibiOS/os/various/shell.c:151-162 | command and arguments point at the words; args is null-terminated within its bounds; a command with more than SHELL_MAX_ARGUMENTS arguments is dropped; every word is a C string in the buffer at the end |
| `Shell.FindCommand` | firmware/ChibiOS/os/various/shell.c:118-129 | the first command of that name, or none |
| `Shell.Choose` | firmware/ChibiOS/os/various/shell.c:163-186 | exit and help first, then the local table, then the user's |
| `Shell.CommandDecides` | firmware/ChibiOS/os/various/shell.c:163-186 | exactly when each action is taken, by the names: the user's table counts only for names that are none of exit, help, info and systime |
| `Shell.BuiltInFirst` | firmware/ChibiOS/os/various/shell.c:182-183 | no table of the user changes what the built-in names do |
| `Shell.ActionDecides` | firmware/ChibiOS/os/various/shell.c:154-161 | no words, no action; more than four arguments are refused whatever the command |
| `Shell.Arguments` | firmware/ChibiOS/os/various/shell.c:160 | the strings behind the argument pointers are the words |
| `Shell.Execute` | firmware/ChibiOS/os/various/shell.c:151-187 | the action of a line is that of its words |
| `Shell.ShellThread` | firmware/ChibiOS/os/various/shell.c:145-188 | the actions of the thread are those of the session specified line by line, until exit or logout |
| `Shell.TypedWords` | firmware/ChibiOS/os/various/shell.c:145-188 | words typed with spaces and a return are executed as those words, for every list of words that fits in the line |
| `Bootloader.ComplementAccepted` | firmware/stm32loader.py:112-115 | a command byte and its control byte pass the device's complement test |
| `Bootloader.XorComplement` | firmware/stm32loader.py:114 | the control byte is 255 minus the byte |
| `Loader.EncodeAddr` | firmware/stm32loader.py:154-160 | the low 32 bits of the address, big-endian, and the checksum the device expects |
| `Loader.CommandInterface.WaitForAsk` | firmware/stm32loader.py:75-91 | acknowledge, refusal, unknown answer or timeout |
| `Loader.CommandInterface.CmdGeneric` | firmware/stm32loader.py:112-115 | memory commands are accepted by the device, others are refused |
| `Loader.CommandInterface.SendAddress` | firmware/stm32loader.py:167-168 | the address frame is accepted exactly when the low 32 bits are an address of the device |
| `Loader.CommandInterface.SendCount` | firmware/stm32loader.py:169-172 | the length frame is accepted exactly when the range is within the memory, and is followed by the bytes |
| `Loader.CommandInterface.CmdReadMemory` | firmware/stm32loader.py:163-175 | the bytes of the device, exactly when they are all in its memory; a length of 0 leaves 256 bytes unread; the bytes on the wire are 0x11, 0xEE, address frame, length and its complement |
| `Loader.CommandInterface.CmdWriteMemory` | firmware/stm32loader.py:187-205 | the frame is accepted if and only if the block has exactly 256 bytes within the device's memory; otherwise nothing changes, and an empty block times out; the bytes on the wire are 0x31, 0xCE, address frame, length, data and checksum |
| `Loader.CommandInterface.SendBlock` | firmware/stm32loader.py:194-202 | length, data and checksum, and the answer to them |
| `Loader.CommandInterface.ReadMemory` | firmware/stm32loader.py:292-312 | reading in blocks, for every address and length; a length of 0 leaves 256 bytes unread |
| `Loader.CommandInterface.WriteMemory` | firmware/stm32loader.py:314-335 | writing in blocks, for every address and image, up to the first block that does not fit |
| `Loader.PaddedImage` | firmware/stm32loader.py:335 | the image followed by 0xFF up to a whole number of blocks; an empty image becomes one block |
| `LoaderRuns.ProgramsExactly` | firmware/stm32loader.py:314-335 | below 2^32 the write succeeds exactly when the padded image is within the memory, and then the memory is the image in place and nothing else has changed |
| `LoaderRuns.ReadoutExactly` | firmware/stm32loader.py:292-312 | below 2^32 reading gives exactly the addressed bytes, exactly when they are within the memory |
| `LoaderRuns.ImageReadBack` | firmware/stm32loader.py:292-335 | reading as many bytes as were written gives the image |
| `LoaderRuns.WriteAndVerify` | firmware/stm32loader.py:452-460 | for every image writing and verifying reports success with the padded image in place, exactly when it fits; an empty one leaves 256 bytes unread |
| `MemTest.Generator.Init` | firmware/ChibiOS/community/os/various/memtest.cpp:35-37 | the pattern is the seed; the random generator restarts its sequence |
| `MemTest.Generator.Shift` | firmware/ChibiOS/community/os/various/memtest.cpp:50-52 | the pattern is doubled modulo 2^width, and 0 becomes 1 |
| `MemTest.Generator.Get` | firmware/ChibiOS/community/os/various/memtest.cpp:47-150 | value and next state of each of the five generators |
| `MemTest.Fill` | firmware/ChibiOS/community/os/various/memtest.cpp:172-175 | cell i gets the i-th value of the generator |
| `MemTest.Compare` | firmware/ChibiOS/community/os/various/memtest.cpp:177-186 | with a callback, silent exactly when no cell has changed; otherwise one report, for the lowest changed cell, with the low 32 bits of what was found and expected |
| `MemTest.Sequential` | firmware/ChibiOS/community/os/various/memtest.cpp:165-187 | the same for both passes, whatever becomes of the memory between them, for every generator, seed and size |
| `MemTest.WalkingOneCell` | firmware/ChibiOS/community/os/various/memtest.cpp:46-55 | cell i of the walking one is 1 << (i mod width) |
| `MemTest.WalkingZeroCell` | firmware/ChibiOS/community/os/various/memtest.cpp:66-75 | cell i of the walking zero is its complement |
| `MemTest.OwnAddressCell` | firmware/ChibiOS/community/os/various/memtest.cpp:86-91 | cell i is the seed plus i modulo 2^width |
| `MemTest.OwnAddressDistinct` | firmware/ChibiOS/community/os/various/memtest.cpp:201-205 | two cells get the same value exactly when they are a multiple of 2^width apart |
| `MemTest.MovingInvCell` | firmware/ChibiOS/community/os/various/memtest.cpp:102-107 | seed and complement alternate |
| `MemTest.MovingInvRandCell` | firmware/ChibiOS/community/os/various/memtest.cpp:121-150 | each draw of the sequence (two numbers in 64-bit cells) is followed by its complement |
| `MemTest.ReportedWantExactly` | firmware/ChibiOS/community/os/various/memtest.cpp:182-183 | the expected value reported is the right one exactly when it fits in 32 bits |
| `MemTest.MovingInversionZero` | firmware/ChibiOS/community/os/various/memtest.cpp:207-215 | the two passes, with seed 0 and with its complement |
| `MemTest.InversionFinds` | firmware/ChibiOS/community/os/various/memtest.cpp:207-215 | a cell that loses all zeros or all ones is reported by one of the two passes, there or at a lower cell |
| `MemTest.InversionTypes` | firmware/ChibiOS/community/os/various/memtest.cpp:109-114 | each inversion test names itself in its report, in every cell and both passes |
| `MemTest.OtherTypes` | firmware/ChibiOS/community/os/various/memtest.cpp:57-155 | the type that each of the other tests reports |
| `MemTest.DrawWide` | firmware/ChibiOS/community/os/various/memtest.cpp:133-143 | a cell of 64 bits has the first number drawn in its high half and the second in its low half |
| `MemTest.DrawNarrow` | firmware/ChibiOS/community/os/various/memtest.cpp:133-136 | a smaller cell has the low bits of the number drawn |
| `CanBoard.Firmware.constructor` | firmware/system_CAN.c:101-115 | the base address from the two jumpers |
| `CanBoard.BaseAddresses` | firmware/system_CAN.c:108-112 | the four base addresses as numbers |
| `CanBoard.Firmware.SetConfigGroup1` | firmware/analogx_api.c:48-57 | the rate changes only if the frame has a byte |
| `CanBoard.Firmware.DispatchCanRx` | firmware/system_CAN.c:126-142 | exactly the identifier base+3 is handled, by unsigned difference; it provisions the board even without data |
| `CanBoard.Firmware.SendAnnouncement` | firmware/analogx_api.c:69-84 | the announcement frame, with the base as extended identifier |
| `CanBoard.Firmware.ReceiveAll` | firmware/system_CAN.c:180-184 | all waiting frames are dispatched in order |
| `CanBoard.Firmware.CanWorker` | firmware/system_CAN.c:150-187 | start-up announcement, then one event after the other |
| `CanBus.OwnNeverConfigures` | firmware/system_CAN.c:126-142 | no frame that a board sends configures any board, whatever the jumpers |
| `CanBus.ConfiguresOne` | firmware/system_CAN.c:126-142 | a configuration is for two boards at once exactly when their jumpers are the same |
| `CanBus.ConfigurationIds` | firmware/system_CAN.c:130-134 | the four configuration identifiers as numbers |
| `CanBus.FramesAre` | firmware/analogx_api.c:69-84 | announcement, statistics and sensor frames byte by byte |
| `CanBus.StepKeeps` | firmware/system_CAN.c:126-187 | every step of every interleaving of boards and other nodes keeps the invariant of the bus |
| `CanBus.RunConfigured` | firmware/system_CAN.c:126-187 | in every run a board is provisioned exactly when it has read a frame with its configuration identifier, and its rate is what those frames say |
| `CanBus.RateIsLast` | firmware/analogx_api.c:48-67 | the rate is the first byte of the last such frame that has one |
| `CanBus.RateIsDefault` | firmware/analogx_api.c:29 | without such a frame the rate is the default |
| `CanBus.EveryRun` | firmware/system_CAN.c:101-187 | from power-up with any jumpers, in every run: provisioning, rate and the outside origin of the provisioning frame |
| `CanBus.ZeroRateExactly` | firmware/system_ADC.c:137 | the rate that the sampling loop divides by is 0 if and only if the last frame that sets it starts with a 0, in every run |
| `CanBus.ZeroRateRun` | firmware/system_ADC.c:137 | one frame is enough for that |
| `CanBus.ProvisionedFromOutside` | firmware/system_CAN.c:138-141 | a provisioned board was provisioned by a frame of a node that is no board of this kind |
| `CanBus.QuietAfter` | firmware/system_CAN.c:172-179 | once started and provisioned, a board never announces itself again |
| `CanBus.AnnouncedExactly` | firmware/system_CAN.c:170-187 | after the start-up announcement a worker sends one for every wait in vain before the first configuration, and no other |

## Left out

- Hardware and RTOS code (`main.c`, `system_ADC.c` beyond its broadcast, board files, HAL drivers, bit timing, watchdog, logging): drivers, semaphores, mailboxes, transports and the serial port are small specified objects here.
- CRC polynomial sizes below 8 and above 32, for which the source shifts by undefined amounts, and builds without the programmable path, in which the final mask is not defined.
- `BSWAP_64`/`bswap_64` and big-endian targets: they would only repeat the 32-bit argument; the byte loop is proved for every length.
- A stopped RAM disk behind the SCSI target: the target then uses block information that nothing has written.
- ScsiRuns.Run: over a transport that moves everything it is asked to, and without transfers whose end wraps around into the disk, which leave the storage (`Fault`); a short transfer inside the block loop is not reported by the source, and only the untouched blocks are stated for it (in `ScsiTarget.Target.DataReadWrite10`).
- REQUEST SENSE after a failure: the source clears the sense before it dispatches, so an earlier failure is never reported; the byte of `tmp` that is not written is a parameter.
- IRQ-storm thread termination, delays inside the threads and the `cnt`/pad toggle; which interrupts and worker steps happen during an interval or a pause is a parameter of the sweep.
- FloatRounding.Ftoa: exponents of `float` have no limits, infinities and NaN are not modelled, and ±2^31, which has no `int` whole part, is not an input; which of two nearest floats a product rounds to is left open.
- `modp_dtoa`, which has the same text as `modp_ftoa` with other types.
- NumToA.Itoa10: not for the smallest number, whose negation overflows in the source.
- NumToA.Ltoa10: not for the smallest number, whose negation overflows in the source.
- The triple buffer build without waiting, in which `ready` is never cleared, and several consumers on one handler.
- Shell output other than the echo (prompts, messages, listings), commands that read from the channel themselves, and targets with signed characters.
- Other loader commands (erase, protect, go), the progress bar, options and serial-port handling of `stm32loader.py`; a device that drops bytes.
- LoaderRuns.WriteAndVerify: for an image that ends below 2^32, as the device's addresses do; `Loader.CommandInterface.WriteMemory` is for every address.
- `memtest_run` and its masks: a list of calls.
- CAN arbitration, transmission failures and filters: a frame sent is on the bus, and a board may lose any frame it has not read.
- `chprintf`, `evtimer.c`, `bitmap.c`, `syscalls.c`, demo programs and configuration headers: plumbing that would only add easy members.
