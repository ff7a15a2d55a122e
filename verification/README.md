# Verified model of the debug bridge and the boot monitor

The system on chip in this repository is debugged over JTAG by a host program
(`soc/sw/adv_jtag_bridge`) and boots into a small monitor (`soc/sw/orpmon`).  This project models
their hardest parts, together with the debug hardware the host talks to
(`soc/rtl/adv_debug_sys`), and proves what those parts are for.  `dafny verify dfyconfig.toml`
checks all of it.

Words are their 32 bits, least significant first; a scan chain is a list of devices with
instruction and data registers, clocked one TCK at a time by pins TMS, TDI and TRST.

**Checks.** `Bits`, `ShiftRegister` and `Crc` are the words and the CRC-32 shift register in its
renderings: bit by bit, by table, by word and by byte.  `Legacy` is the older interface's
most-significant-bit-first rendering and its retry loop.

**Scan chain.** `Tap` is the 16-state controller of IEEE Std 1149.1; `Scan` a whole chain clock by
clock; `DebugUnit` the debug hardware, its burst state machine included (`adbg_top.v`,
`adbg_wb_module.v`).  `ChainLaws`, `UnitLaws` and `DataLaws` say what runs of clocks do.
`ChainCommands` is the driver's streams, reset and instruction scan; `Enumerate` and `Configure`
find the devices and measure the chain; `DebugCommands` and `AdvDbg` are the single operations on
the debug unit with their cached selections, and `CpuControl` those on the processors' status.

**Bursts.** `Transfers` is what the host means and what can befall it; `ReadRun` and `WriteRun` are
the transfers word by word, as pure functions of memory, faults, bus answers and chain.
`ReadEngine`, `WriteEngine` and `BurstLine` are the hardware's side of a burst and what lies between
it and the host; `BurstRead` and `BurstWrite` are the host's loops with all their retries, proved
down to single clocks to come to exactly those functions.  A bus transfer still in progress when a
burst ends goes on while the host restarts, by an exact count of clocks.  `ReadLaws`, `SlowReads`,
`LostReads`, `KeptNoise`, `WriteLaws` and `LostWrites` say when success means that the words were
moved, `StaleFlags` when a transfer stays within its words; `RoundTrip` writes and reads back.

**Cable.** `Mpsse`, `Placing` and `Ft2232` split streams into FT2232 commands and buffer them both
ways; the operations at the end meet the contract that `ChainCommands` asks of a cable.

**Remote server.** `Framing` is the packet format of the GDB Remote Serial Protocol ("Debugging
with GDB", appendix GDB Remote Serial Protocol, section Overview), `Matchpoints` the chained hash
table, `Breakpoints` traps laid over memory.

**Monitor.** `Flash` places, inserts and deletes flash images; `TxRing` is the Ethernet transmit
ring shared with hardware; `Printf` and `Numerals` are the printer and the number reader.

## Conventions

- Code that updates state is a class or a method on arrays.  Its `ensures` tie the new state to a
  function of the old one, and lemmas prove what that function is for.
- The faults of a transfer are a finite list: for each data word clean, noise (a mask over its
  bits) or an error the adapter reports; and for each bus transfer how long it takes and whether
  it fails.  A retry counter that the burst command resets bounds nothing, so transfers end because
  faults do.
- Bus delays are counted in TCKs, from the request to the clock at which the module sees the answer.
  `gap` is the time from the end of a burst given up to the next burst command's effect, 79 clocks
  plus the chain's instruction bits plus two for every device before the target
  (`AdvDbg.RestartClocks`).
- The bus unit accesses aligned words: it drops the address bits below the word size
  (adbg_wb_biu.v:175-290), and so does the model (`DebugUnit.Lane`).

## What the proofs found

- `tap_set_ir` is right if shifts by 32 or more give 0; if they wrap, instruction bits are lost
  exactly as `PackedIrCorrectIff` says (chain_commands.c:206).
- A burst command of 65536 words or more changes its own address (`BurstDecodesIff`;
  adv_dbg_commands.c:298-325).
- Enumeration stops early at a device with manufacturer field 0x3f (`CompleteIff`).  `temp_manuf_code`
  (chain_commands.c:349, 390-397) is never initialised and is compared as a whole: on a cable that
  does not clear it, such as the FT2232's, the end of the chain is seen only if its upper 21 bits
  happen to be clear; otherwise 1024 devices are reported (`EnumeratedIff`, `WordKept`).
- Every burst command clears the retry counter, so burst retries are always granted
  (adv_dbg_commands.c:319, 460-485 of chain_commands.c).
- The error register keeps the first failure until it is written.  A word in front of the one it
  names can fail unnoticed, and a read can then succeed over it (`LostRun`, `LateRun`).  This needs
  two failing transfers (`FailuresIff`), and on a clean cable devices behind the target that span a
  word (`CleanCableIff`).
- A bus transfer that outlives its burst until the host has started again keeps the bus unit from
  taking the new request, and what it brings is read as the first word of the new burst, with
  success (adbg_wb_biu.v:247, 260; `SwappedRun`, `StaleRun`).  One device and two words that take
  102 and 150 clocks are enough (`SwappedPair`).
- The first bit of a write burst resets the bus unit (adbg_wb_module.v:722): a good word still being
  written when the host has started again is dropped, and the transfer succeeds (`DroppedIff`; for
  4-byte words on a lone device with 4 instruction bits, one that takes 124 clocks or more).
- The check word covers the last burst only: noise on a word before a reported error of the same
  burst is kept (`KeptIff`).
- A transfer whose start is not a multiple of the word size moves other bytes than its addresses say
  (`AlignedIff`).
- After too many bus errors the transfer returns with the error still registered (`ReadGivesUp`,
  `WriteGivesUp`), and the next transfer starts with it.  It computes an index from the old address
  (adv_dbg_commands.c:534, 731): a byte transfer that starts a little above that address reads memory
  below its start to below the buffer (`ReadsBelow`), or writes what lies below the buffer to memory
  below its start (`WritesBelow`).  Transfers stay within their words if and only if the register is
  clear or names one of them (`ReadStaysIff`, `WriteStaysIff`).
- Behind 100 or more devices the host never sees the first word in time (`AnnouncedInTimeIff`).
- A written word whose bus transfer fails late, while or after the next word comes in, is lost and the
  transfer still succeeds (`LostIff`, `InTimeIff`).
- A reported cable error on a written word that also came too early ends the transfer with an error
  instead of a retry and leaves the unit in the middle of a burst (`HalfwayIff`;
  adv_dbg_commands.c:657-663 passes over the clearing of `err` at 689, and 624 then returns it).
- The FT2232 driver stores exactly the bits read and keeps the rest of the caller's variable.
  `status` and `crc_match` in adbg_wb_burst_write (adv_dbg_commands.c:558, 566) are tested as a
  whole but never cleared, so a busy bus or a failed check is noticed only if they happen to start
  out clear (`BitSeenIff`), and the status of a processor comes back with stray bits above the two
  read (dbg_api.c:508-526, `CpuReadCtrl`).  cable_common_read_stream clears its result first.
- cable_ft2232_read_packed_bits shifts by a negative count when a packet of fewer than 8 bits crosses
  a byte of the buffer (`ShiftsUpIff`).  Its callers never ask for that, and the requires of
  `ReadPackedBits` exclude it.
- The placement search accepts any size for the first image (`InsertionSoundIff`).
- Deleting from a full table reads one entry past both arrays (load.c:465-468): `DelImage` takes
  what lies there as its parameter `beyond`, and its contract does not depend on it.
- A packet sent to a receiver that is ready for it is delivered if and only if its escaped body is
  at most 279 characters long (`DeliveredIff`), while the server announces 281 (rsp-server.c:2256)
  and its comment wants room for 281 (rsp-server.c:82-88).  A receiver that waits for checksum
  digits takes the start mark for one (`FrameMissed`).
- Two breakpoints in one word leave a trap behind when they are removed in the order they were set
  (`TrapLeft`, `RestoresIff`): the second keeps the first one's trap as its original instruction.

## Model

| member | source | states |
|---|---|---|
| `ShiftRegister.FoldLinear` | soc/sw/adv_jtag_bridge/adv_dbg_commands.c:54-68 | the check register is linear over GF(2) in contents and input together, whatever the polynomial |
| `ShiftRegister.FoldPreload` | soc/sw/orpmon/cmds/memory.c:135-150 | up to 32 data bits may be exclusive-ored into the register at once instead of shifted through it: why a table works |
| `ShiftRegister.FoldSelf` | soc/sw/adv_jtag_bridge/adv_dbg_commands.c:703-716 | shifting in the register's own contents empties it |
| `ShiftRegister.WindowChangesCheck` | soc/sw/adv_jtag_bridge/adv_dbg_commands.c:54-68 | two streams that differ only inside at most 32 consecutive bits end in different check words, from any start value |
| `ShiftRegister.DetectsWindowIff` | soc/sw/adv_jtag_bridge/adv_dbg_commands.c:54-68 | for any polynomial with the top tap set, windows of n bits are always detected if and only if n is at most 32 |
| `ShiftRegister.FoldMirror` | soc/sw/adv_jtag_bridge/legacy_dbg_commands.c:53-58 | on every bit sequence a register that shifts up is the bit reversal of one that shifts down with the mirrored polynomial |
| `ShiftRegister.FoldUpSelf` | soc/sw/adv_jtag_bridge/legacy_dbg_commands.c:179-181 | sending the running register, most significant bit first, empties it |
| `Crc.HardwareAgrees` | soc/rtl/adv_debug_sys/Hardware/adv_dbg_if/rtl/verilog/adbg_crc32.v:61-117 | the hardware's per-bit register equations are the driver's step |
| `Crc.AdbgComputeCrc` | soc/sw/adv_jtag_bridge/adv_dbg_commands.c:54-68 | the loop over the masked bits is the fold of the stream's low bits into the register |
| `Crc.WindowDetection` | soc/sw/adv_jtag_bridge/adv_dbg_commands.c:54-68 | for the driver's own polynomial: a change of n consecutive bits is always detected if and only if n is at most 32 |
| `Crc.BuildTable` | soc/sw/orpmon/cmds/memory.c:135-150 | entry i of the table is what eight zero bits do to a register holding i |
| `Crc.LookupStep` | soc/sw/orpmon/cmds/memory.c:135-150 | one table lookup does exactly the work of the eight bits of a byte |
| `Crc.Crc32` | soc/sw/orpmon/cmds/memory.c:135-150 | the table-driven loop returns the driver's register, complemented before and after, over the bytes' bits |
| `Crc.MonitorCrcComposes` | soc/sw/orpmon/cmds/memory.c:135-150 | checking a buffer piece by piece equals checking it whole |
| `Crc.WordsAndBytesAgree` | soc/sw/adv_jtag_bridge/adv_dbg_commands.c:456-459 | the burst check made word by word (1 to 4 bytes of each) and byte by byte over the same little-endian buffer gives the same check word, from any start value |
| `Legacy.LegacyCrcCalcTaps` | soc/sw/adv_jtag_bridge/legacy_dbg_commands.c:53-58 | the legacy register's 28-bit masks do reach every tap: it is a plain shift-up step |
| `Legacy.LegacyIsMirrored` | soc/sw/adv_jtag_bridge/legacy_dbg_commands.c:53-58 | the legacy register is the bit reversal of the current one after every bit sequence |
| `Legacy.LegacyDriver.WriteStream` | soc/sw/adv_jtag_bridge/legacy_dbg_commands.c:61-104 | the low bits go on the wire most significant first and the running check is folded over exactly those wire bits |
| `Legacy.LegacyDriver.ReadStream` | soc/sw/adv_jtag_bridge/legacy_dbg_commands.c:107-162 | the word returned holds the bits read, first one on top; the read check folds exactly them |
| `Legacy.FrameChecks` | soc/sw/adv_jtag_bridge/legacy_dbg_commands.c:168-207 | a module-select frame followed by its check word leaves the hardware's register empty |
| `Legacy.FrameNames` | soc/sw/adv_jtag_bridge/legacy_dbg_commands.c:168-187 | a frame is a 1, the four digits of the module number with the highest first, 32 check bits and 36 zeros |
| `Legacy.CrcMatchesIff` | soc/sw/adv_jtag_bridge/legacy_dbg_commands.c:183-193 | the driver accepts a reply if and only if its last 32 bits are the current interface's register over the bits before |
| `Legacy.DamagedReplyRejected` | soc/sw/adv_jtag_bridge/legacy_dbg_commands.c:183-193 | an accepted reply with at most 32 consecutive data bits changed is never accepted |
| `Legacy.LegacyDriver.SelectScan` | soc/sw/adv_jtag_bridge/legacy_dbg_commands.c:176-187 | one scan puts the frame on the wire; the two values compared afterwards agree exactly when the reply checks |
| `Legacy.LegacyDriver.SetChain` | soc/sw/adv_jtag_bridge/legacy_dbg_commands.c:168-207 | scans are made until a reply has both a matching check word and a status of four zeros, or the retries left are used up, for every sequence of replies and every count of retries used before; the error returned says which of the two the last reply lacks; how many scans, and the cached selection |
| `Flash.BubbleSort` | soc/sw/orpmon/cmds/load.c:338-347 | sorts by key in place; keys and values are rearranged by one permutation, equal keys keep their order |
| `Flash.Monitor.SortImages` | soc/sw/orpmon/cmds/load.c:327-347 | the parallel arrays hold start and rounded end of every image, in address order |
| `Flash.MeasureGaps` | soc/sw/orpmon/cmds/load.c:353-364 | free and st_addr hold length and start of every free range, in 32-bit arithmetic that never wraps |
| `Flash.NeighboursBoundGaps` | soc/sw/orpmon/cmds/load.c:353-364 | every range between sorted neighbours is a maximal free range |
| `Flash.GapIndex` | soc/sw/orpmon/cmds/load.c:353-364 | and there are no other maximal free ranges |
| `Flash.FirstFitIsBest` | soc/sw/orpmon/cmds/load.c:371-389 | the first sufficient entry of the ranges sorted by length is the smallest gap that holds the size, the lowest of that length |
| `Flash.Monitor.GetGoodAddr` | soc/sw/orpmon/cmds/load.c:303-393 | full table, empty table, best gap, or 0 exactly when no gap fits |
| `Flash.PlacementIsFree` | soc/sw/orpmon/cmds/load.c:302-393 | an image placed at the answer stays in the area and meets no other image's blocks |
| `Flash.Monitor.PrepareImgData` | soc/sw/orpmon/cmds/load.c:395-431 | insertion at the asked position, order and contents of all others kept; the table stays sound if and only if the insertion was refused, was not the first, or fits the area |
| `Flash.InsertedWhere` | soc/sw/orpmon/cmds/load.c:404-427 | where an image comes to stand: as the number asked for if there are as many before it, else last |
| `Flash.Monitor.DelImage` | soc/sw/orpmon/cmds/load.c:434-473 | removes one image and keeps order and contents of all others, whatever lies behind the full arrays |
| `Flash.RemovedWhere` | soc/sw/orpmon/cmds/load.c:462-470 | which image goes: the one asked for, or the last if there is none such |
| `Flash.Monitor.DelAllImages` | soc/sw/orpmon/cmds/load.c:445-453 | empties the table and clears every entry |
| `Flash.InsertKeepsApart` | soc/sw/orpmon/cmds/load.c:420-427 | inserting a free image anywhere keeps all images disjoint |
| `Flash.InsertionSoundIff` | soc/sw/orpmon/cmds/load.c:317-318 | exactly when an insertion leaves the table sound: a first image larger than the area is accepted |
| `Flash.RemovalKeepsValid` | soc/sw/orpmon/cmds/load.c:465-470 | removal keeps the table sound |
| `Flash.RunKeepsValid` | soc/sw/orpmon/cmds/load.c:395-473 | in every state of every run from the empty table the images are block-aligned, in the area and share no block |
| `Tap.ResetNears` | soc/rtl/adv_debug_sys/Hardware/jtag/tap/rtl/verilog/tap_top.v:205-300 | every clock with TMS high brings the 16-state controller one nearer to reset, which is at most 5 away |
| `ChainLaws.ResetReachesIdle` | soc/sw/adv_jtag_bridge/chain_commands.c:122-144 | the reset sequence ends in Run-Test/Idle with the reset instruction in every device, from any state, with or without TRST |
| `ChainLaws.AfterBoard` | soc/sw/adv_jtag_bridge/chain_commands.c:122-330 | no run of clocks whatever changes the devices on the chain |
| `ChainLaws.ShiftIrStream` | soc/sw/adv_jtag_bridge/chain_commands.c:216-222 | shifting a stream leaves its last bits in the concatenated instruction registers |
| `ChainLaws.IrScanTargets` | soc/sw/adv_jtag_bridge/chain_commands.c:181-229 | for any chain and target position the wanted stream leaves the instruction in the target and BYPASS in every other device |
| `ChainLaws.ShiftLineStream` | soc/sw/adv_jtag_bridge/chain_commands.c:343-428 | outside the debug instruction all data registers act as one line: what comes out and what stays is the old contents followed by the input |
| `ChainCommands.Host.TapReset` | soc/sw/adv_jtag_bridge/chain_commands.c:122-144 | the clocks sent, and both selection caches forgotten |
| `ChainCommands.Host.TapSetShiftDr` | soc/sw/adv_jtag_bridge/chain_commands.c:233-242 | the clocks sent |
| `ChainCommands.Host.TapExitToIdle` | soc/sw/adv_jtag_bridge/chain_commands.c:246-254 | the clocks sent |
| `ChainCommands.Host.PackInstruction` | soc/sw/adv_jtag_bridge/chain_commands.c:188-210 | the words packed in place hold the instruction among ones, also where it straddles two words |
| `ChainCommands.PackedIrCorrectIff` | soc/sw/adv_jtag_bridge/chain_commands.c:206-206 | the packed stream is the wanted one if and only if over-wide shifts give 0, or no mask is that wide, or nothing is lost |
| `ChainCommands.Host.TapSetIr` | soc/sw/adv_jtag_bridge/chain_commands.c:181-229 | the clocks of one instruction scan with the packed stream; the module selection is forgotten |
| `Configure.DeliveredIff` | soc/sw/adv_jtag_bridge/chain_commands.c:181-229 | every other device is bypassed in any case; the target gets the instruction if and only if packing keeps it |
| `ChainCommands.Host.JtagWriteStream` | soc/sw/adv_jtag_bridge/chain_commands.c:276-295 | the clocks: the data, and with set_TMS one more bit for every device before the target, TMS on the last |
| `ChainCommands.Host.PushPrefix` | soc/sw/adv_jtag_bridge/chain_commands.c:288-292 | the bits that push data through the devices before the target |
| `ChainCommands.Host.JtagReadWriteStream` | soc/sw/adv_jtag_bridge/chain_commands.c:300-330 | the clocks, and which of the bits read are returned |
| `DataLaws.ShiftDebugStream` | soc/sw/adv_jtag_bridge/chain_commands.c:276-330 | what a shifted stream does to target, neighbours and output: the neighbours delay it by one bit each |
| `DataLaws.EnterDebugScan` | soc/sw/adv_jtag_bridge/chain_commands.c:233-242 | every bypass register captures 0, the selected module presents its register |
| `DataLaws.DataScan` | soc/sw/adv_jtag_bridge/chain_commands.c:276-295 | a whole data scan delivers its stream, delayed by the devices before the target, and comes back to Run-Test/Idle |
| `DataLaws.WriteLands` | soc/sw/adv_jtag_bridge/chain_commands.c:276-295 | with one bit more for each device before the target, exactly the data bits end in the target's last positions |
| `DataLaws.ReadCaptures` | soc/sw/adv_jtag_bridge/chain_commands.c:300-330 | behind one bit for each device after the target, exactly the first bits the target captured are returned |
| `Enumerate.ResetLine` | soc/sw/adv_jtag_bridge/chain_commands.c:343-371 | after a reset a data scan reads every device's code or bypass bit in chain order |
| `Enumerate.JtagEnumerateChain` | soc/sw/adv_jtag_bridge/chain_commands.c:343-428 | the codes returned, for any earlier contents of the two words read into: those of the chain in order, all ones for BYPASS, up to the first that looks like the end mark or MAX_DEVICES, if the bits above the manufacturer field start or are made clear; else MAX_DEVICES entries, the codes with those bits mixed in, the probe, and all ones; the TAP ends in Run-Test/Idle |
| `Enumerate.CompleteIff` | soc/sw/adv_jtag_bridge/chain_commands.c:381-402 | through a variable that is clear, the list is complete if and only if none of the first MAX_DEVICES devices has the manufacturer field 0x3f |
| `Enumerate.EnumeratedIff` | soc/sw/adv_jtag_bridge/chain_commands.c:349-402 | and through one that is not, if and only if there are MAX_DEVICES devices or more and every code has the stray bits set already: the end mark is never seen |
| `Configure.GetIrSize` | soc/sw/adv_jtag_bridge/adv_jtag_bridge.c:453-478 | command line over description file, -1 (an error) without either |
| `Configure.IrSizeIs` | soc/sw/adv_jtag_bridge/adv_jtag_bridge.c:453-478 | the last length given for a device on the command line wins over the file, which is used without one |
| `Configure.MeasureChain` | soc/sw/adv_jtag_bridge/adv_jtag_bridge.c:170-201 | which outcome, and for success the instruction length and the bits and devices on either side of the target |
| `Configure.TotalIsIrLength` | soc/sw/adv_jtag_bridge/adv_jtag_bridge.c:183-195 | correct lengths add up to the actual registers around the target |
| `Configure.MeasuredIsConfigured` | soc/sw/adv_jtag_bridge/adv_jtag_bridge.c:170-201 | measured against a chain that is as described, all five numbers are right |
| `Configure.JtagGetIdcode` | soc/sw/adv_jtag_bridge/chain_commands.c:432-452 | on a measured chain the target's identification code comes back through its instruction; the TAP ends in Run-Test/Idle |
| `Configure.ConfigureChain` | soc/sw/adv_jtag_bridge/adv_jtag_bridge.c:123-257 | which outcome; on a chain as described and enumerated through a variable that is clear the numbers are right, the code read again is the one enumerated, and the debug unit ends up selected if and only if packing keeps its instruction, which is the one given, else for manufacturer 0x49 the one in the USER1 file and for any other the one in the debug file |
| `Configure.DebugCmdIs` | soc/sw/adv_jtag_bridge/adv_jtag_bridge.c:482-513 | which instruction selects the debug unit, from the command line and the two files |
| `Configure.SelectingIff` | soc/sw/adv_jtag_bridge/chain_commands.c:147-174 | the debug unit is selected exactly when its instruction was delivered |
| `DebugCommands.SelectDecodes` | soc/sw/adv_jtag_bridge/adv_dbg_commands.c:75-105 | the hardware decodes a packed module selection to the module meant |
| `DebugCommands.RegisterDecodes` | soc/sw/adv_jtag_bridge/adv_dbg_commands.c:112-168 | and a packed register command to opcode, register and data meant |
| `DebugCommands.NopDecodes` | soc/sw/adv_jtag_bridge/adv_dbg_commands.c:236-289 | a no-operation is one |
| `DebugCommands.BurstDecodesIff` | soc/sw/adv_jtag_bridge/adv_dbg_commands.c:298-325 | opcode always; address and length if and only if the length is below 65536 |
| `AdvDbg.Debugger.SelectModule` | soc/sw/adv_jtag_bridge/adv_dbg_commands.c:75-105 | keeps the invariant of the session; the module is selected in hardware; nothing is sent when the cache says so already |
| `AdvDbg.Debugger.SelectCtrlReg` | soc/sw/adv_jtag_bridge/adv_dbg_commands.c:112-168 | keeps the invariant; the register is selected in hardware; contents of all modules are unchanged |
| `AdvDbg.Debugger.CtrlWrite` | soc/sw/adv_jtag_bridge/adv_dbg_commands.c:180-230 | keeps the invariant; the register holds what was written; nothing else in any module changes |
| `AdvDbg.Debugger.CtrlRead` | soc/sw/adv_jtag_bridge/adv_dbg_commands.c:236-289 | keeps the invariant; returns the register's first bits; nothing in any module changes |
| `CpuControl.CpuWriteCtrl` | soc/sw/adv_jtag_bridge/dbg_api.c:471-500 | the lowest two bits given end in bits 0 (stall) and 1 (reset) of the processor's status register; nothing else in any module changes |
| `CpuControl.CpuReadCtrl` | soc/sw/adv_jtag_bridge/dbg_api.c:506-540 | they come back; the bits above them are 0 only if the cable clears the word read into |
| `CpuControl.WriteAndReadCtrl` | soc/sw/adv_jtag_bridge/dbg_api.c:471-540 | what was written is what is read |
| `AdvDbg.Debugger.BurstCommand` | soc/sw/adv_jtag_bridge/adv_dbg_commands.c:298-325 | the module selected is left about to run the burst, with address and length intact if the length fits; retry counter reset |
| `AdvDbg.Debugger.RetryDo` | soc/sw/adv_jtag_bridge/chain_commands.c:460-485 | granted if and only if the allowance is not used up; from any TAP state the debug unit is selected again and the caches forgotten, and the invariant holds again |
| `ReadEngine.SendWord` | soc/rtl/adv_debug_sys/Hardware/adv_dbg_if/rtl/verilog/adbg_wb_module.v:678-704 | a word goes out lowest bit first and into the check word |
| `ReadEngine.SendCrc` | soc/rtl/adv_debug_sys/Hardware/adv_dbg_if/rtl/verilog/adbg_wb_module.v:706-712 | then the check word goes out |
| `ReadEngine.LoadStep` | soc/rtl/adv_debug_sys/Hardware/adv_dbg_if/rtl/verilog/adbg_wb_module.v:658-676 | a word announced is loaded, its failure registered with its address unless one is registered, and the next one asked for |
| `ReadEngine.ReadUnit` | soc/rtl/adv_debug_sys/Hardware/adv_dbg_if/rtl/verilog/adbg_top.v:221-389 | the unit shows what its selected module shows and disturbs no other module |
| `UnitLaws.TransferRunsOn` | soc/rtl/adv_debug_sys/Hardware/adv_dbg_if/rtl/verilog/adbg_wb_biu.v:245-275 | whatever module and TAP do, a bus transfer in progress goes on by one clock and takes no new request; only the first bit behind the start bit of a write burst ends it |
| `BurstLine.ReadBehind` | soc/sw/adv_jtag_bridge/adv_dbg_commands.c:462-508 | what the host reads through any number of devices is the module's output |
| `BurstLine.LagRuns` | soc/sw/adv_jtag_bridge/adv_dbg_commands.c:415-416 | bypass bits before the first status bit look like a slower bus |
| `BurstLine.EnterBurstScan` | soc/sw/adv_jtag_bridge/adv_dbg_commands.c:412-413 | a module told to read a burst is at its first word when the scan begins |
| `BurstLine.EndBurstScan` | soc/sw/adv_jtag_bridge/adv_dbg_commands.c:512-514 | leaving the scan ends the burst |
| `BurstLine.ResetAborts` | soc/sw/adv_jtag_bridge/adv_dbg_commands.c:474-480 | a reset in mid-burst passes Update-DR and so ends the burst, at an exact clock; a bus transfer in progress goes on |
| `Transfers.BusAccess` | soc/rtl/adv_debug_sys/Hardware/adv_dbg_if/rtl/verilog/adbg_wb_biu.v:175-255 | a bus write as later reads of its size see it, for any two addresses: the unit drops the address bits below the size |
| `Transfers.AlignedIff` | soc/rtl/adv_debug_sys/Hardware/adv_dbg_if/rtl/verilog/adbg_wb_biu.v:175-290 | for every memory, a transfer moves the bytes its addresses name if and only if its start is a multiple of the word size |
| `Transfers.DamagedBurstRejected` | soc/sw/adv_jtag_bridge/adv_dbg_commands.c:516-523 | a burst whose only damage lies within 32 consecutive data bits is never accepted |
| `ReadLaws.RunSucceeds` | soc/sw/adv_jtag_bridge/adv_dbg_commands.c:390-550 | of every successful read, for all faults, answers, delays, chains and error registers: all words are in; each holds, up to noise, what a bus transfer brought, unless that failed the memory's word it was for; only the first word of the last burst can be another transfer's, and none of that burst failed; the last burst with its noise has the memory's check word |
| `ReadLaws.OneFailureIsRepaired` | soc/sw/adv_jtag_bridge/adv_dbg_commands.c:390-550 | if at most one bus transfer fails, counting a failure registered before, no word of a successful read comes from a failed transfer, whatever the cable, the delays and the chain |
| `ReadLaws.RunOwn` | soc/sw/adv_jtag_bridge/adv_dbg_commands.c:390-550 | if no bus transfer takes longer than the host takes to start again, every word of the buffer comes from a transfer for that word |
| `SlowReads.PromptReads` | soc/sw/adv_jtag_bridge/adv_dbg_commands.c:390-550 | with such transfers, at most one failing and no silent noise, every successful read is right, whatever errors are reported and from any idle or punctual start |
| `LostReads.FailuresIff` | soc/sw/adv_jtag_bridge/adv_dbg_commands.c:472-545 | for all memories, answers with at most `failures` failures and `n` clocks each, faults without silent noise and numbers of devices, every successful read is right, if and only if there is one word only, or failures <= 1 and no transfer can outlive its burst until the host starts again: n <= gap, or two words and the exact bound on what is left of the second |
| `LostReads.CleanCableIff` | soc/sw/adv_jtag_bridge/adv_dbg_commands.c:472-481 | on a clean cable, however many transfers fail, every successful read is right for all memories and answers of at most n clocks if and only if there is one word only, or no burst can time out (n + post <= 100), or post + 2 < 8 * size and a burst that times out leaves nothing in progress when the host starts again |
| `LostReads.SwappedRun` | soc/sw/adv_jtag_bridge/adv_dbg_commands.c:472-481 | without any failure or fault: the host gives up just as the first word comes in, the transfer for the second outlives the restart, and the second word is returned as the first, with success; for all waits in the exact range |
| `LostReads.SwappedPair` | soc/rtl/adv_debug_sys/Hardware/adv_dbg_if/rtl/verilog/adbg_wb_biu.v:245-275 | for one, on a lone device with 4 instruction bits: two 4-byte words that take 102 and 150 clocks |
| `LostReads.StaleRun` | soc/sw/adv_jtag_bridge/adv_dbg_commands.c:472-481 | on a clean cable and a bus that answers at once from then on, a good transfer that outlives its burst is taken for the word the next one starts with, with success |
| `LostReads.SecondRun` | soc/sw/adv_jtag_bridge/adv_dbg_commands.c:492-501 | the same after a reported error, if the second word takes longer than the restart |
| `LostReads.ThirdRun` | soc/sw/adv_jtag_bridge/adv_dbg_commands.c:492-501 | or the third is asked for at the last moment |
| `LostReads.LateRun` | soc/sw/adv_jtag_bridge/adv_dbg_commands.c:472-481 | behind many devices: two timeouts, two failures, success with the first word not read |
| `LostReads.LostRun` | soc/sw/adv_jtag_bridge/adv_dbg_commands.c:492-501 | on any chain: two reported errors, two failures, success with the first word not read |
| `KeptNoise.KeptIff` | soc/sw/adv_jtag_bridge/adv_dbg_commands.c:393-523 | of noise on one word sent and a reported error on another, the noise stays in the buffer of the successful read if and only if the error strikes a later word of the same burst |
| `BurstRead.CoastIs` | soc/rtl/adv_debug_sys/Hardware/adv_dbg_if/rtl/verilog/adbg_wb_module.v:482-712 | a burst given up after any number of clocks: exactly which further words the module asks for, what its bus shows and has in progress and which error it has registered |
| `BurstRead.Burster.AwaitWord` | soc/sw/adv_jtag_bridge/adv_dbg_commands.c:465-482 | gives up if and only if the word takes 100 clocks or more; how many clocks have passed either way |
| `BurstRead.Burster.TakeWord` | soc/sw/adv_jtag_bridge/adv_dbg_commands.c:488-501 | the word comes in with what the next fault does to it |
| `BurstRead.Burster.ReadWord` | soc/sw/adv_jtag_bridge/adv_dbg_commands.c:465-508 | timed out, lost or read, and the exact state of module, check word and bus in each case |
| `BurstRead.Burster.ReadWords` | soc/sw/adv_jtag_bridge/adv_dbg_commands.c:463-508 | the loop from any word comes to exactly what the word-by-word run says: where and why it stops, buffer, check words, faults left |
| `BurstRead.Burster.FinishRead` | soc/sw/adv_jtag_bridge/adv_dbg_commands.c:511-514 | the module's check word is read and the session's invariant holds again |
| `BurstRead.Burster.AbortRead` | soc/sw/adv_jtag_bridge/adv_dbg_commands.c:474-480 | a burst given up in the middle: always granted, since the burst command reset the counter; the invariant holds again, with the bus as the burst left it |
| `BurstRead.Burster.Accept` | soc/sw/adv_jtag_bridge/adv_dbg_commands.c:516-524 | accepted if and only if host and module have the same check word |
| `BurstRead.Burster.CheckBus` | soc/sw/adv_jtag_bridge/adv_dbg_commands.c:527-546 | a bus error is noticed if and only if one is registered; the address read and the index the host computes from it, wrapped as in 32-bit arithmetic; the register is cleared |
| `BurstRead.Burster.CheckRead` | soc/sw/adv_jtag_bridge/adv_dbg_commands.c:527-546 | the host goes on with a word of the transfer if and only if the register names one, and then with just that word |
| `BurstRead.FollowsIff` | soc/sw/adv_jtag_bridge/adv_dbg_commands.c:532-534 | the wrapped subtraction and division lead to a burst for words of the transfer, or for words below it in both memories, if and only if the register names one of these |
| `BurstRead.Burster.ReadBurst` | soc/sw/adv_jtag_bridge/adv_dbg_commands.c:393-524 | one burst from any word and any state of the bus, for every list of faults and answers and any number of devices, is exactly the word-by-word burst |
| `BurstRead.Burster.WbBurstRead` | soc/sw/adv_jtag_bridge/adv_dbg_commands.c:332-550 | the whole transfer is exactly the word-by-word run for all faults, answers, chains, error registers and transfers in progress at the start: outcome, buffer, registers; so on an idle bus with no silent noise, at most one failing transfer and none slower than the restart, success means data[base + k] is memory[start + k * size] for every k |
| `BurstRead.AnnouncedInTimeIff` | soc/sw/adv_jtag_bridge/adv_dbg_commands.c:468-481 | the first word is announced in time if and only if devices behind the target plus bus clocks are fewer than the polls allowed |
| `WriteEngine.WriteWord` | soc/rtl/adv_debug_sys/Hardware/adv_dbg_if/rtl/verilog/adbg_wb_module.v:731-757 | a word shifted in is the word the module holds, and is folded into its check word |
| `WriteEngine.EndingUpdate` | soc/rtl/adv_debug_sys/Hardware/adv_dbg_if/rtl/verilog/adbg_wb_module.v:771-793 | the end of the scan brings the module to rest and, after the check, looks at the last transfer; one in progress goes on |
| `BurstWrite.DirectShift` | soc/sw/adv_jtag_bridge/adv_dbg_commands.c:652-656 | with no other device the unit takes what the host sends, clock by clock |
| `BurstWrite.TakeChain` | soc/sw/adv_jtag_bridge/adv_dbg_commands.c:652-656 | word and status bit: the status is 1 if and only if the bus is ready, and what the module then does |
| `BurstWrite.Writer.SendWord` | soc/sw/adv_jtag_bridge/adv_dbg_commands.c:643-693 | ready if and only if the bus is done with the word before; the exact state of memory, bus and registers either way |
| `BurstWrite.FinishChain` | soc/sw/adv_jtag_bridge/adv_dbg_commands.c:703-714 | the match bit read is 1 if and only if the check word sent is the module's; the module is then at rest |
| `BurstWrite.FlowEnds` | soc/sw/adv_jtag_bridge/adv_dbg_commands.c:703-714 | what the end of a burst leaves: the last word's failure in the error register if the bus reported it within 35 clocks, and the transfer in progress |
| `BurstWrite.Writer.WriteWords` | soc/sw/adv_jtag_bridge/adv_dbg_commands.c:640-696 | the loop from any word comes to exactly what the word-by-word run says |
| `BurstWrite.Writer.WriteBurst` | soc/sw/adv_jtag_bridge/adv_dbg_commands.c:618-721 | one burst from any word, for every list of faults and answers, is exactly the word-by-word burst: a word is in memory once the bus is done with it, and a transfer still in progress when the next burst begins is dropped |
| `BurstWrite.Writer.CheckWrite` | soc/sw/adv_jtag_bridge/adv_dbg_commands.c:724-742 | a bus error is noticed if and only if one is registered; the host goes on with a word of the transfer if and only if it names one |
| `BurstWrite.Writer.WbBurstWrite` | soc/sw/adv_jtag_bridge/adv_dbg_commands.c:553-746 | the whole transfer is exactly the word-by-word run for all faults, answers, error registers and transfers in progress at the start: outcome, memory, registers; nothing outside the words changes, nor below them unless the error register named a word there; with no silent noise, no error registered and prompt transfers success means every word is in memory |
| `WriteLaws.RunOutside` | soc/sw/adv_jtag_bridge/adv_dbg_commands.c:553-746 | no byte outside the words of a transfer, and those below that a stale error register leads to, changes, now or when the bus is done, whatever happens and whatever the outcome |
| `WriteLaws.InTimeIsWritten` | soc/sw/adv_jtag_bridge/adv_dbg_commands.c:618-746 | with no silent noise, every failing bus transfer over before the next word is in and every other before the host can have started again, a successful write has written every word, for all reported errors and delays |
| `LostWrites.InTimeIff` | soc/sw/adv_jtag_bridge/adv_dbg_commands.c:652-746 | and these bounds are exact: for all memories, data, reports and answers whose failures take fewer than n and others fewer than m clocks every successful write has written every word, if and only if n is at most 8 * size, or 35 for a single word, and m at most 8 * size + 9 + gap unless there is one word only |
| `LostWrites.DroppedIff` | soc/rtl/adv_debug_sys/Hardware/adv_dbg_if/rtl/verilog/adbg_wb_module.v:722-729 | of a write in which only word k is slow, taking w clocks without an error: it reports success, all other words are written, and word k is written if no word follows it or w < 8 * size + 9 + gap, else left as it was |
| `LostWrites.LostIff` | soc/sw/adv_jtag_bridge/adv_dbg_commands.c:652-746 | of a write in which only word k fails, after w clocks: it reports success, all other words are written, and word k is written if w < 8 * size (35 for the last word), else left as it was |
| `LostWrites.HalfwayIff` | soc/sw/adv_jtag_bridge/adv_dbg_commands.c:624-693 | a reported error on word a when the word before takes w clocks ends the transfer with an error, in the middle of a burst, if and only if w >= 8 * size; otherwise the transfer succeeds |
| `RoundTrip.WriteAndRead` | soc/sw/adv_jtag_bridge/adv_dbg_commands.c:332-746 | a burst write and a burst read one after the other: if both succeed, nothing was silently spoilt, no error was registered, and the bus failed at most once and in time and never took longer than the restart or 104 clocks, the buffer read back is the buffer written, for word sizes 1, 2 and 4, aligned or not |
| `StaleFlags.ReadGivesUp` | soc/sw/adv_jtag_bridge/adv_dbg_commands.c:536-540 | a read whose one word fails n times succeeds if and only if n is at most the errors allowed, and else returns with the error still registered |
| `StaleFlags.WriteGivesUp` | soc/sw/adv_jtag_bridge/adv_dbg_commands.c:733-737 | the same of a write |
| `StaleFlags.ReadsBelow` | soc/sw/adv_jtag_bridge/adv_dbg_commands.c:527-546 | a read of bytes that finds the error of a byte d below its start: it succeeds, with memory below start stored below the buffer |
| `StaleFlags.WritesBelow` | soc/sw/adv_jtag_bridge/adv_dbg_commands.c:724-742 | a write of bytes that finds one: it succeeds, with memory below start overwritten from below the buffer |
| `StaleFlags.ReadStaysIff` | soc/sw/adv_jtag_bridge/adv_dbg_commands.c:527-546 | a read stays within its own words, for all answers, faults and chains, if and only if the error register is clear or names one of them |
| `StaleFlags.WriteStaysIff` | soc/sw/adv_jtag_bridge/adv_dbg_commands.c:724-742 | a write stays within its own words, for all answers, faults and data, if and only if the error register is clear or names one of them |
| `Framing.Connection.SendFrame` | soc/sw/adv_jtag_bridge/rsp-server.c:1004-1037 | what is put on the line is the frame of the body: escapes, checksum, digits |
| `Framing.Connection.PutPacket` | soc/sw/adv_jtag_bridge/rsp-server.c:997-1048 | one frame is sent for each character the client answers, none of which but the last is a '+', and one more if it stops answering; exactly those characters are consumed |
| `Framing.EscapedIsClean` | soc/sw/adv_jtag_bridge/rsp-server.c:1017-1031 | no start or end mark or run-length mark survives escaping |
| `Framing.EscapeTable` | soc/sw/adv_jtag_bridge/rsp-server.c:1017-1031 | which four characters are escaped, and what stands for each |
| `Framing.Connection.GetPacket` | soc/sw/adv_jtag_bridge/rsp-server.c:1095-1211 | the loops over the line are the receiver automaton: result, buffer, what is left unread, acknowledgements |
| `Framing.ReceiveFrame` | soc/sw/adv_jtag_bridge/rsp-server.c:1095-1211 | a frame that fits is accepted from wherever the receiver is when it starts |
| `Framing.ReceiveNoise` | soc/sw/adv_jtag_bridge/rsp-server.c:1110-1161 | characters before a frame either end the receipt within themselves or leave it, with their acknowledgements, to what follows |
| `Framing.FrameMissed` | soc/sw/adv_jtag_bridge/rsp-server.c:1168-1186 | a frame whose start mark is taken for a checksum digit is not received |
| `Framing.ReceivedWasFramed` | soc/sw/adv_jtag_bridge/rsp-server.c:1095-1211 | conversely every packet delivered was framed on the line, fits the buffer and has a matching checksum |
| `Framing.DeliveredIff` | soc/sw/adv_jtag_bridge/rsp-server.c:1095-1211 | behind any characters whatever, a frame is received as sent if and only if they leave the receiver before a packet or in a body and the escaped body is at most GDB_BUF_MAX - 2 long; the acknowledgements are theirs and then one '+' |
| `Framing.OneCharacterDetected` | soc/sw/adv_jtag_bridge/rsp-server.c:1168-1200 | changing any one body character changes the checksum |
| `Framing.HexHexChar` | soc/sw/adv_jtag_bridge/rsp-server.c:1507-1514 | reading a digit undoes writing it |
| `Framing.HexTable` | soc/sw/adv_jtag_bridge/rsp-server.c:1507-1514 | digits are those of hexadecimal, written in lower case and read in both |
| `Framing.HexOnly` | soc/sw/adv_jtag_bridge/rsp-server.c:1507-1514 | and no other character is read as one |
| `Framing.FrameChecksum` | soc/sw/adv_jtag_bridge/rsp-server.c:1004-1037 | a frame ends with the sum of the characters between its marks modulo 256 in two digits |
| `Framing.RspUnescape` | soc/sw/adv_jtag_bridge/rsp-server.c:1322-1348 | in place: the front of the buffer becomes the unescaped data, the rest past the end is untouched |
| `Framing.UnescapeEscape` | soc/sw/adv_jtag_bridge/rsp-server.c:1322-1348 | unescaping undoes escaping, whatever lies behind |
| `Framing.EndToEnd` | soc/sw/adv_jtag_bridge/rsp-server.c:1095-1348 | escape, frame, noise that leaves the receiver ready, receive, unescape gives the body back |
| `Matchpoints.Table.Lookup` | soc/sw/adv_jtag_bridge/rsp-server.c:1422-1440 | finds exactly what the map holds |
| `Matchpoints.Table.Add` | soc/sw/adv_jtag_bridge/rsp-server.c:1382-1408 | adds if absent, never overwrites; every other lookup unchanged |
| `Matchpoints.Table.Delete` | soc/sw/adv_jtag_bridge/rsp-server.c:1462-1494 | unlinks exactly the entry of the key; every other lookup unchanged |
| `Matchpoints.Table.Unlink` | soc/sw/adv_jtag_bridge/rsp-server.c:1469-1486 | relinking one chain around an entry removes exactly that key |
| `Matchpoints.FindPush` | soc/sw/adv_jtag_bridge/rsp-server.c:1398-1406 | an entry put at the head of its bucket adds exactly its key |
| `Matchpoints.FindWithout` | soc/sw/adv_jtag_bridge/rsp-server.c:1462-1494 | a chain without one entry loses exactly its key |
| `Breakpoints.Server.InsertMatchpoint` | soc/sw/adv_jtag_bridge/rsp-server.c:2757-2819 | reply, table and memory after setting a matchpoint |
| `Breakpoints.Server.RemoveMatchpoint` | soc/sw/adv_jtag_bridge/rsp-server.c:2674-2743 | reply, table and memory after clearing one |
| `Breakpoints.InsertKeeps` | soc/sw/adv_jtag_bridge/rsp-server.c:2785-2790 | setting a breakpoint keeps memory the original with traps in exactly the kept words, duplicates included, if no two addresses share a word |
| `Breakpoints.RemoveKeeps` | soc/sw/adv_jtag_bridge/rsp-server.c:2703-2713 | so does clearing one |
| `Breakpoints.RunKeepsOverlay` | soc/sw/adv_jtag_bridge/rsp-server.c:2674-2819 | so does every run of requests at such addresses |
| `Breakpoints.TrapLeft` | soc/sw/adv_jtag_bridge/rsp-server.c:2674-2819 | at any two addresses in one word, setting both and clearing them in that order leaves a trap with no breakpoint |
| `Breakpoints.RestoresIff` | soc/sw/adv_jtag_bridge/rsp-server.c:2674-2819 | removing all breakpoints restores every program after every run at a set of addresses, if and only if no two of them are in one word |
| `TxRing.Transmitter.EthGetTxBuf` | soc/sw/orpmon/drivers/eth.c:174-195 | hands out a buffer no one else has, or none exactly when all eight are out or queued; the packets queued stay as they are |
| `TxRing.Transmitter.EthSend` | soc/sw/orpmon/drivers/eth.c:198-210 | queues the packet, address and length, last, its status clear; buffers come back in any order |
| `TxRing.Transmitter.HardwareSends` | soc/sw/orpmon/drivers/eth.c:40-56 | the hardware clears READY on the oldest packet and goes round the ring by the wrap bit |
| `TxRing.NoAlias` | soc/sw/orpmon/drivers/eth.c:174-210 | a buffer with the user is in no READY descriptor |
| `TxRing.TakeKeeps` | soc/sw/orpmon/drivers/eth.c:186-193 | handing out keeps the buffers a partition of the pool |
| `TxRing.PutKeeps` | soc/sw/orpmon/drivers/eth.c:198-210 | sending keeps it, and appends address and length to the hardware's queue |
| `TxRing.SentKeeps` | soc/sw/orpmon/drivers/eth.c:183-184 | so does the hardware finishing |
| `Numerals.DigitsValue` | soc/sw/orpmon/common/cprintf.c:626-652 | printed digits have the value printed, no leading zero |
| `Numerals.Strtoul` | soc/sw/orpmon/common/support.c:62-115 | the loops compute the number read and where reading stopped, prefixes, spaces and bad digits included |
| `Numerals.ReadsDecimal` | soc/sw/orpmon/common/support.c:62-115 | decimal digits are read back whatever follows that is no digit |
| `Numerals.ReadsPrefixed` | soc/sw/orpmon/common/support.c:80-91 | so are hexadecimal digits behind 0x or 0X in base 0 |
| `Numerals.ReadsOctal` | soc/sw/orpmon/common/support.c:80-91 | octal digits behind a 0 in base 0 |
| `Numerals.ReadsPadded` | soc/sw/orpmon/common/support.c:62-115 | hexadecimal digits behind any number of zeros in base 16 |
| `Numerals.ReadsAnyBase` | soc/sw/orpmon/common/support.c:62-115 | digits of any base from 2 to 36 behind any blanks are read as their value modulo 2^32, up to what is no digit |
| `Numerals.ReadsHexadecimal` | soc/sw/orpmon/common/support.c:72-78 | in base 16 so are hexadecimal digits behind 0x or 0X and any blanks |
| `Numerals.ReadsNothing` | soc/sw/orpmon/common/support.c:62-115 | without digits the result is 0 and reading ends where it began, or behind the 0 of a prefix |
| `Printf.ParseSpec` | soc/sw/orpmon/common/cprintf.c:361-440 | flags, width and precision loops read the specification |
| `Printf.WriteDigits` | soc/sw/orpmon/common/cprintf.c:619-659 | digits are written backwards into the buffer and never reach its start |
| `Printf.Console.Pad` | soc/sw/orpmon/common/cprintf.c:241-250 | chunked padding emits exactly the number asked for |
| `Printf.Console.PrintField` | soc/sw/orpmon/common/cprintf.c:687-765 | sign, prefix, zeros, text and blanks in their order; the length returned is what was emitted |
| `Printf.Console.Printf` | soc/sw/orpmon/common/cprintf.c:252-774 | emits exactly the output its format means; the return value is its length |
| `Printf.ParseSpelled` | soc/sw/orpmon/common/cprintf.c:361-440 | a specification spelled with any flags, width, precision and size is read as that |
| `Printf.WidthFromArgument` | soc/sw/orpmon/common/cprintf.c:375-386 | a width given as an argument is as if spelled, a negative one behind '-' |
| `Printf.PrecisionFromArgument` | soc/sw/orpmon/common/cprintf.c:390-396 | so is a precision, a negative one as none |
| `Printf.PrintsSigned` | soc/sw/orpmon/common/cprintf.c:446-463 | %d, %i and %D print the signed number, of 16 or 32 bits: its sign or the one asked for, and its decimal digits, in any width and precision, set left, right or filled with zeros |
| `Printf.PrintsInt` | soc/sw/orpmon/common/cprintf.c:446-463 | %d alone prints the decimal digits behind a '-' if negative |
| `Printf.PrintsUnsigned` | soc/sw/orpmon/common/cprintf.c:541-608 | %u, %U, %x, %X, %o and %O print the unsigned number in their base, with the prefix asked for, in any width and precision |
| `Printf.PrintsPointer` | soc/sw/orpmon/common/cprintf.c:550-564 | %p prints 0x and hexadecimal digits |
| `Printf.PrintsText` | soc/sw/orpmon/common/cprintf.c:565-585 | %s prints a text, cut at the precision, and (null) for a null pointer |
| `Printf.PrintsCharacter` | soc/sw/orpmon/common/cprintf.c:441-445 | %c prints one character, and any other character behind % itself |
| `Printf.PrintsNothing` | soc/sw/orpmon/common/cprintf.c:530-541 | %n prints nothing |
| `Printf.PrintsItself` | soc/sw/orpmon/common/cprintf.c:346-350 | text without % prints itself |
| `Printf.PrintsDecimal` | soc/sw/orpmon/common/cprintf.c:252-774 | %lu prints the decimal digits |
| `Printf.PrintsAlternate` | soc/sw/orpmon/common/cprintf.c:600-635 | %#lx, %#lX and %#lo print a prefix that names the base, but for 0 |
| `Printf.PrintsPadded` | soc/sw/orpmon/common/cprintf.c:706-711 | %0<w>lx pads with zeros to w digits |
| `Printf.PrintedIsRead` | soc/sw/orpmon/common/support.c:62-115 | strtoul gives back every 32-bit number printed in these five ways and stops at the terminator |
| `Printf.ParseIp` | soc/sw/orpmon/common/common.c:95-106 | the address the steps of the parser come to |
| `Printf.IpNeedsDots` | soc/sw/orpmon/common/common.c:95-106 | whatever is not read as 0 has three dots |
| `Printf.PrintedIpIsRead` | soc/sw/orpmon/common/common.c:95-106 | reading an address undoes printing it in dotted decimal, the parts modulo 256 |
| `Mpsse.PinsAppend` | soc/sw/adv_jtag_bridge/cable_ft2232.c:316-361 | whole commands clock the chain one after the other |
| `Mpsse.AnswersAppend` | soc/sw/adv_jtag_bridge/cable_ft2232.c:316-361 | and their answers follow each other |
| `Mpsse.BytesCommandDoes` | soc/sw/adv_jtag_bridge/cable_ft2232.c:545-570 | the byte command sent is one the chip knows, for data out on the falling edge, and decodes to exactly the bits of its bytes, lowest first, TMS low |
| `Mpsse.BitsCommandDoes` | soc/sw/adv_jtag_bridge/cable_ft2232.c:604-635 | a bit command to the low bits of its byte |
| `Mpsse.TmsCommandDoes` | soc/sw/adv_jtag_bridge/cable_ft2232.c:609-641 | a TMS command to one bit with TMS high |
| `Mpsse.PackedBytes` | soc/sw/adv_jtag_bridge/cable_ft2232.c:545-570 | bits answered in bytes are those bytes' bits |
| `Ft2232.UsbConn.Write` | soc/sw/adv_jtag_bridge/cable_ft2232.c:316-361 | buffering loses and reorders nothing: the chain will see the commands after all earlier ones, the answers come after all earlier ones |
| `Ft2232.UsbConn.Flush` | soc/sw/adv_jtag_bridge/cable_ft2232.c:227-275 | flushing changes neither, and leaves nothing unsent |
| `Ft2232.UsbConn.Read` | soc/sw/adv_jtag_bridge/cable_ft2232.c:277-314 | reading takes the next answers, nothing else |
| `Ft2232.Cable.WriteBytes` | soc/sw/adv_jtag_bridge/cable_ft2232.c:530-585 | the chunks together clock exactly the bits of the bytes |
| `Ft2232.Cable.WriteBits` | soc/sw/adv_jtag_bridge/cable_ft2232.c:587-656 | up to eight bits, or one with TMS |
| `Ft2232.Cable.WriteStream` | soc/sw/adv_jtag_bridge/cable_ft2232.c:715-739 | the commands clock exactly the first len bits, lowest first, TMS on the last only, and schedule exactly their answers |
| `Ft2232.Cable.ReadPackedBits` | soc/sw/adv_jtag_bridge/cable_ft2232.c:658-713 | the bits of a packet are stored from the offset on; no other bit of the buffer changes |
| `Ft2232.Cable.ReadStream` | soc/sw/adv_jtag_bridge/cable_ft2232.c:741-762 | bit k clocked in becomes bit k of the buffer, whose other bits stay |
| `Ft2232.Cable.FtdiWriteStream` | soc/sw/adv_jtag_bridge/cable_ft2232.c:853-862 | the cable's contract: when it returns the chain has had the stream |
| `Ft2232.Cable.FtdiReadStream` | soc/sw/adv_jtag_bridge/cable_ft2232.c:864-872 | the cable's contract: the chain gets the stream, the buffer what came out |
| `Ft2232.Cable.FtdiWriteBit` | soc/sw/adv_jtag_bridge/cable_ft2232.c:818-833 | one clock |
| `Ft2232.Cable.FtdiReadWriteBit` | soc/sw/adv_jtag_bridge/cable_ft2232.c:835-851 | one clock; the bit read replaces the lowest bit of the caller's byte only |
| `Ft2232.BitSeenIff` | soc/sw/adv_jtag_bridge/adv_dbg_commands.c:553-568 | a caller that tests the whole variable sees the bit read if and only if it is set or the other bits were clear before |
| `Ft2232.WordKept` | soc/sw/adv_jtag_bridge/cable_ft2232.c:658-713 | a word read into holds the bits read and above them what it held before |
| `Ft2232.ShiftsUpIff` | soc/sw/adv_jtag_bridge/cable_ft2232.c:690-702 | the shift counts of read_packed_bits are never negative if and only if the packet lies within one byte of the buffer |
| `Ft2232.WordsOnCable` | soc/sw/adv_jtag_bridge/cable_ft2232.c:853-872 | for the driver's word array cast to bytes, the clocks sent are those of the word stream the host's commands send |
| `Ft2232.StreamBothWays` | soc/sw/adv_jtag_bridge/chain_commands.c:300-330 | a stream the host sends and the same words sent through this cable take the chain through the same states and bring the same bits |
| `Placing.MovedBit` | soc/sw/adv_jtag_bridge/cable_ft2232.c:690-702 | the masks and shifts move one bit and keep the others |

## Left out

- BurstRead.Burster.WbBurstRead: Wishbone module only; the CPU modules count addresses in words
  while the driver's retry counts in bytes, so a partial retry there goes on at the wrong register.
  Word sizes 1, 2 and 4; fewer than 65536 words; fewer than 100 devices behind the target
  (`AnnouncedInTimeIff` shows why).  Cable faults hit data words; commands, status bits, check words
  and register reads are clean.  The host's memory is an array of words in which the buffer starts at
  `base`, not packed bytes.
- BurstRead.Burster.CheckRead: a stale error register can also lead to an index past the last word, as
  it does for words of 2 and 4 bytes from any address below the start.  The driver then sends a burst
  command with a negative length and no words.  That burst is not followed: the outcome is `Astray`.
- BurstWrite.Writer.WbBurstWrite: like WbBurstRead, and no other device on the chain: the path for
  several devices counts statuses from the last restart but words from the start.  `status` and
  `crc_match` hold exactly the bit read.  What the bus unit shows as read data does not change by
  writes.
- UnitLaws.TransferRunsOn: the synchronisers between the two clocks are not modelled: ready, error and
  data of a bus transfer come together.
- AdvDbg.Debugger.RetryDo: the cable reports no error during the reset and the instruction scan.
- AdvDbg.Debugger.SelectModule: does not model the error codes of a failing cable, which pass
  through unchanged.
- AdvDbg.Debugger.CtrlWrite: at most 47 data bits, so that command and data fit the input register
  of 53, and at least 2 bits for the CPU modules, whose register takes 2.
- AdvDbg.Debugger.CtrlRead: at most the register's 33 bits.
- CpuControl.CpuWriteCtrl: a processor that stalls itself, at a breakpoint say, is not modelled.
- ChainCommands.Host.TapSetIr: instruction lengths of 1 to 32 bits, as `ir` is one word, and an
  instruction buffer that, once allocated, fits the chain: the source allocates it once.
- Configure.ConfigureChain: description files are maps from identification code to length and
  commands; a device that is not reachable by them ends configuration as the source's exit does.
- Enumerate.JtagEnumerateChain: identification codes have their lowest bit set, as IEEE Std 1149.1
  demands, and the chain has just been reset, as its caller does.  Growth of the result array is
  not modelled.
- Crc.AdbgComputeCrc: at most 32 bits, the width of its argument.
- Legacy.LegacyDriver.WriteStream: at most 32 bits, the width of its argument.
- Legacy.LegacyDriver.ReadStream: at most 32 bits, the width of its result, sending zeros as every
  caller does.
- Flash.Monitor.GetGoodAddr: does not say what is found in a table whose images already overlap or
  leave the area.
- Flash.RunKeepsValid: assumes a first image no larger than the area; `InsertionSoundIff` says what
  happens otherwise.
- Printf.Console.Printf: no floating point; %n prints nothing and its store is not modelled; the
  format holds no terminator, and missing arguments, which C leaves open, read as 0 or (null).
- Framing.Connection.GetPacket: characters are bytes already received; a closed connection is the
  end of the input.
- Framing.Connection.PutPacket: a refusal is any answer but '+', as in the source.
- Breakpoints.Server.InsertMatchpoint: the request is already parsed; sscanf is not modelled.  The
  target memory is read and written without error, through the current debug interface.
- Matchpoints.Table.Add: allocation succeeds.
- TxRing.Transmitter.EthSend: buffers passed in were handed out before; the driver does not check.
- Ft2232.Cable.WriteBits: at most 8 bits, or one with TMS, which is all its callers ask for.
- Ft2232.Cable.ReadPackedBits: packets of fewer than 8 bits come one at a time and within one byte,
  as its callers do.
- Mpsse.BytesCommandDoes: opcodes for other clock edges and for reading alone are not followed.
- Ft2232.UsbConn.Flush: the device answers in full and TMS is low between commands.
- Ft2232.Cable.FtdiWriteBit: TRST is not driven by this cable.
- The high-speed variant of the bursts (ADBG_OPT_HISPEED), the Altera virtual JTAG and Xilinx BSCAN
  paths, and burst transfers of the legacy interface.
- The other cables: USB Blaster, DLC9, parallel port, sockets to a simulator.
- Error returns of malloc and realloc, and calls of exit.
- BSDL file search and parsing; command line parsing.
- Sockets, poll, pipes and the poller thread of the remote server; its register and memory packets.
- Ethernet receive, TFTP, and the network stack of the monitor.
- Flash programming, keyboard, disk, screen and UART drivers; benchmarks and test programs.
