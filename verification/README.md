# A verification model of xc3sprog

xc3sprog programs FPGAs, CPLDs, PROMs and SPI flashes over JTAG. This project models the layers of
that program in Dafny, together with the hardware they drive, and proves what the layers promise
each other and what they achieve on the hardware.

From the bottom up:

- `Bits`, `HexText`, `Flash`, `Pages`: bit strings packed into bytes, hexadecimal text, NOR cells
  (programming only clears bits), and memories made of pages.
- `Tap`, `ScanChain`: the hardware of IEEE Std 1149.1-2001. The 16-state TAP controller (clause 6.1),
  and a chain of devices, each with an instruction register, a bypass register (clause 10), a device
  identification register (clause 12) and data registers. One clock captures, shifts or updates and
  then steps the state.
- `IoBase`: the TMS buffer and the chunked shifts of `iobase.cpp` over the bit-bang cable of
  `iogpiodpi.cpp`, the reference that the other cables refine. `Stream()` is every clock the callers
  asked for: those already sent and those waiting as TMS bits.
- `Jtag`: the class of `jtag.cpp`. Its methods are specified by what they append to the stream, and
  its invariant says that the shadow TAP state is where the stream takes the hardware.
  `ChainTheorems` proves what those clocks do to a whole chain of devices; `UserRegister` puts both
  together for one exchange with a user register.
- `Mpsse`, `IoFtdi`: the command interpreter of the FTDI chips (the MPSSE commands of FTDI's
  application note AN_108) and the encoder of `ioftdi.cpp`. `IoXpc`: the CPLD of the Xilinx platform cable and the external
  mode of `ioxpc.cpp`.
- `Xc95x`, `SpiFlash`, `Xcf`, `PromSplit`: the programming algorithms of `progalgxc95x.cpp`,
  `progalgspiflash.cpp` and `progalgxcf.cpp`, and the loop of `xc3sprog.cpp` that spreads one file
  over several PROMs, each erased, programmed, verified or read by the algorithm of `Xcf`.
- `Mcs`, `BitFiles`: the Intel hexadecimal format (General Record Format, Extended Linear Address
  Record, Data Record and End of File Record of the Hexadecimal Object File Format Specification,
  Revision A) as `bitfile.cpp` writes and reads it, and the image class itself.
  `Jedec`: the JEDEC parser and printer (the QF, L and C fields of JESD3-C) with the fuse map.
  `FuseMap`: the permutation between CoolRunner-II fuses and image bits.

Objects that the program updates in place are classes whose methods are tied to specification
functions; the theorems are lemmas about those functions. `dafny verify dfyconfig.toml` checks
everything.

## What the code does not do

Several promises hold only under a condition. Each is proved in both directions:

- A read over the XPC cable arrives intact exactly when it has at most 8191 bits
  (`IoXpc.ReadArrivesExactlyWhen`).
- Chain detection finds every device exactly when none has an all-ones code and there are at most
  1000 (`ChainTheorems.AllDetectableExactlyWhen`); a full chain of exactly 1000 is found too.
- An XC95X JEDEC file reads back with result 0 exactly when it has fuses and they end on a row of the
  device; an empty map gives result 3 (`Jedec.JedRoundTrip`). Its checksum survives exactly when the padding
  bits of the last byte are zero (`Jedec.ChecksumSurvivesExactlyWhen`); a map that `setLength` has grown to a
  count off a byte boundary is a case where they are not (`Jedec.GrownMapLosesChecksum`). An XC2C map of a
  multiple of 64 fuses always loses it: the reader ends with 0, which is right exactly when the sum is 0
  (`Jedec.SaveThenRead`).
- The MCS or IHEX file of an image that is not empty reads back exactly when the number of bytes is not 15
  modulo 16 and at most 3053917287, the largest for which half the length of the text fits the 32-bit size
  that the reader computes (`Mcs.ReadsBackExactlyWhen`). For an empty image nothing is written
  (`BitFiles.BitFile.SaveAs`).
- Reading, verifying and programming an SPI flash all round the offset down to the start of its page
  (`progalgspiflash.cpp:836`, `901` and `1070`), and the offset comes unchecked from the command line. For
  a part, an offset and a length, whatever flash and file hold: a read returns exactly the bytes from the
  offset on just when the offset is on a page and the range lies in the flash
  (`SpiFlash.ReadExactlyWhen`); after programming without an error the file is at the offset under the
  same condition (`SpiFlash.ProgramExactlyWhen`); a verification result of 0 means exactly that the file
  is there when, besides, the length is a whole number of pages or at most one page
  (`SpiFlash.VerifyCompleteExactlyWhen`); and equal contents never fail just when the offset is on a page
  (`SpiFlash.EqualNeverFails`). Starts beyond the flash are refused. With pages of 256 bytes all four go
  wrong from byte 1 on (`SpiFlash.OffsetOneIsMisplaced`).
- For other lengths SPI verification never compares some bytes of the page before the last
  (`SpiFlash.VerifyExactlyWhen`), and there is a file that differs and verifies
  (`SpiFlash.HiddenDifference`, at a 256-byte page size in `SpiFlash.PartialPageHidesDifference`).
- Files spread over several PROMs are taken from the right place exactly when the range starts on a
  PROM boundary (`PromSplit.IndexedExactlyWhen`).
- A read of a single PROM ignores the requested length: it returns the range asked for exactly when that
  starts on a block and ends with the PROM (`PromSplit.SingleReadExactlyWhen`,
  `PromSplit.MisalignedReadRefused`). A write to an erased single PROM leaves exactly the range
  programmed, whatever the file, exactly when it starts on a block (`PromSplit.SingleWriteExactlyWhen`).

Where comments and code differ, the code is followed: `flow_array_read` calls its last read that of
the security fuses, but it sends the address of the last row again, so the reply is that row.

## Model

| member | source | states |
|---|---|---|
| Tap.RouteArrives | jtag.cpp:227-449 | from every known state `setTapState` reaches its target, and its TMS bits walk the automaton there |
| Tap.RouteLength | jtag.cpp:227-449 | the route has exactly the number of clocks of an independent distance table |
| Tap.RouteIsShortest | jtag.cpp:227-449 | no TMS sequence that reaches the target is shorter |
| Tap.RouteResetsExactlyWhen | jtag.cpp:227-449 | a route enters Test-Logic-Reset if and only if it ends there, from another state, or has to leave a Select state through it |
| Tap.FiveOnesReset | jtag.cpp:468-475 | five clocks at TMS high reset the controller from every state |
| ScanChain.ShiftLaw | iogpiodpi.cpp:80-111 | one clock in a shift state: TDO followed by the new chain register is the old register followed by TDI |
| ScanChain.ScanLaw | iogpiodpi.cpp:80-111 | a whole scan: what comes out followed by the final register is the register followed by what went in |
| ScanChain.RunValid | iogpiodpi.cpp:146-152 | every clock sequence keeps all registers of every device at their lengths |
| ScanChain.StageIsSlice | jtag.cpp:205-222 | a device's stage is a fixed slice of the chain register, at the total length of the devices nearer TDO |
| HexText.HexDigitsRead | bitfile.cpp:185-187 | hexadecimal digits are read in both cases, and nothing else is |
| Bits.PackBits | iogpiodpi.cpp:92-107 | the bits of packed bytes are the bits that were packed |
| IoBase.GatherStep | iogpiodpi.cpp:92-107 | one more TDO bit lengthens the byte under way or completes it; at the end the bytes are the packed bits |
| IoBase.OffersNext | iogpiodpi.cpp:92-104 | shifting and fetching bytes puts exactly bit i of the buffer on TDI at clock i |
| IoBase.SetAppends | iobase.cpp:62-69 | setting the next bit of a zeroed buffer appends it and leaves the rest zero |
| IoBase.IOBase.TxrxBlock | iogpiodpi.cpp:80-111 | clocks the bits with TMS high on the last one only when asked, and returns the packed TDO bits |
| IoBase.IOBase.TxTms | iogpiodpi.cpp:113-125 | clocks exactly the TMS bits of the pattern in order |
| IoBase.IOBase.SetTms | iobase.cpp:62-69 | one TMS clock is added to the stream, across automatic flushes |
| IoBase.IOBase.FlushTms | iobase.cpp:54-60 | a flush sends all that waits and changes nothing in the stream |
| IoBase.IOBase.ShiftTdiTdo | iobase.cpp:71-78 | the data clocks follow everything asked for before, and TDO is what the chain answers to exactly those clocks |
| IoBase.IOBase.Shift | iobase.cpp:92-104 | exactly `length` copies of one bit, TMS high on the last only when asked, over any number of chunks |
| Jtag.LeadIsLeast | jtag.cpp:141-149 | the extra clocks for alignment are the least that make leading and trailing bits a multiple of the alignment |
| Jtag.AlignedLead | jtag.cpp:144-149 | the loop that finds them ends, with that value |
| Jtag.ApproachArrives | jtag.cpp:227-449 | navigation from a known or unknown shadow state ends in the target and leaves TMS low before data |
| Jtag.TmsWasLow | jtag.cpp:152-175 | whenever the hardware is in a shift state by the stream, the last TMS bit was low |
| Jtag.Jtag.SetTapState | jtag.cpp:227-449 | the stream grows by the route and the extra clocks; shadow and hardware state agree afterwards |
| Jtag.Jtag.NextTapState | jtag.cpp:453-466 | in a shift state the shadow state follows TMS, elsewhere the controller is reset |
| Jtag.Jtag.TapTestLogicReset | jtag.cpp:468-475 | five TMS ones, after which the shadow state is right from any hardware state |
| Jtag.Jtag.CycleTck | jtag.cpp:119-126 | n clocks at TMS low that stay in a state that TMS low keeps |
| Jtag.Jtag.SelectDevice | jtag.cpp:110-117 | the device, or none if it does not exist |
| Jtag.Jtag.SetDeviceIrLength | jtag.cpp:128-133 | one length changes, or nothing |
| Jtag.Jtag.ShiftDr | jtag.cpp:135-195 | the clocks of a data register scan: approach, leading bits once, data, trailing bits and exit only at the end; TDO is the chain's answer during the data |
| Jtag.Jtag.ShiftIr | jtag.cpp:197-225 | the clocks of an instruction scan with ones for every other device; TDO is the chain's answer during the instruction |
| Jtag.Jtag.ReadIdcode | jtag.cpp:60-62 | one 32-bit word of the chain as a number, shifting in zeros |
| Jtag.Jtag.ListDevices | jtag.cpp:60-78 | exactly the codes up to the first zero or all-ones word, at most 1000, the latest first |
| Jtag.Jtag.GetChain | jtag.cpp:50-83 | detection runs on the first call or on demand; otherwise nothing is clocked |
| ChainTheorems.ShiftIrAddressesOne | jtag.cpp:197-225 | after `shiftIR` the selected device holds exactly the instruction, every other one holds ones, and TDO was the captured status |
| ChainTheorems.ShiftDrAddressesOne | jtag.cpp:135-195 | with the others in bypass, a scan leaves the data in the selected register at Update-DR, returns its captured value, and changes no instruction and no other register |
| ChainTheorems.PiecesAreOneScan | jtag.cpp:135-195 | a scan in any non-empty pieces has the same clocks as one scan of the whole |
| ChainTheorems.PiecesReadOneScan | jtag.cpp:135-195 | and the pieces' TDO bits joined are those of the whole |
| ChainTheorems.DetectEntered | jtag.cpp:54-55 | reset and navigation put the identification codes of all devices into the chain register |
| ChainTheorems.DetectionIsExact | jtag.cpp:50-83 | detection finds the codes from TDO on, stopping at the first all-ones code, at the limit or on the shifted-in zeros |
| ChainTheorems.AllDetectableExactlyWhen | jtag.cpp:60-78 | it finds all devices if and only if no code is all ones and there are at most as many as the limit |
| ChainTheorems.FirstGetChain | jtag.cpp:50-83 | a first `getChain` returns the number of devices, with each device's code in the order from TDI, if and only if there are at most 1000 and no code is 0xffffffff |
| ChainTheorems.DevicesListed | jtag.cpp:60-78 | then `devices[i]` has the code of the i-th device from TDI |
| UserRegister.ExchangeOnChain | jtag.cpp:135-225 | for any instruction with a register: an instruction scan and a scan of that register on a whole chain leave the data in it, change no other register, and return the status and the captured value |
| UserRegister.XcUser | progalgspiflash.cpp:802-807 | the same through `Jtag`, from any ready state: TDO is the register's captured value |
| Mpsse.ExecuteAppend | ioftdi.cpp:710-785 | a command stream may be cut anywhere: the interpreter waits for the rest of a command |
| Mpsse.ByteRunIs | ioftdi.cpp:433-475 | a byte command clocks its bytes, least significant bit first, at the TMS level left before, and answers with the packed TDO bits |
| Mpsse.BitRunIs | ioftdi.cpp:488-499 | a bit command clocks up to eight bits and answers with a byte whose top bits are the TDO bits |
| Mpsse.MsbFirst | ioftdi.cpp:436-437 | what the bit order flag of a command is for: without it the bits of a byte go out from the top |
| Mpsse.TmsRunIs | ioftdi.cpp:500-513 | a TMS command clocks up to seven TMS bits with TDI at its bit 7 |
| IoFtdi.RealignedIs | ioftdi.cpp:514-539 | moving the left-over bits down and inserting the bit read with TMS gives exactly the packed TDO bits |
| IoFtdi.IOFtdi.MpsseAddCmd | ioftdi.cpp:710-728 | commands keep their order across automatic sends |
| IoFtdi.IOFtdi.MpsseSend | ioftdi.cpp:730-785 | everything buffered reaches the chip, which has executed exactly that |
| IoFtdi.IOFtdi.AddBytes | ioftdi.cpp:465-478 | the command bytes of a transfer of whole bytes, number by number, and what the chip makes of them: the bytes are clocked least significant bit first |
| IoFtdi.IOFtdi.AddBits | ioftdi.cpp:488-499 | the same for the bits of an incomplete byte |
| IoFtdi.IOFtdi.AddTms | ioftdi.cpp:500-513 | the same for TMS bits |
| IoFtdi.IOFtdi.TxTms | ioftdi.cpp:542-566 | the six-bit TMS groups add exactly the bits of the pattern to the clocks asked for |
| IoFtdi.IOFtdi.TxrxChunks | ioftdi.cpp:425-457 | chunks of 4093 bytes clock and return the leading whole bytes |
| IoFtdi.IOFtdi.TxrxTail | ioftdi.cpp:488-539 | the left-over bits and the last bit with its TMS level complete the transfer and the TDO bytes |
| IoFtdi.IOFtdi.TxrxBlock | ioftdi.cpp:418-540 | for every length with a TDI or a TDO buffer, after clocks that left TMS low, the same clocks are added as by the bit-bang cable, its TDI bits where there is a TDI buffer (without one each cable drives its own level), and the TDO bytes of those clocks |
| IoXpc.RequestedRuns | ioxpc.cpp:502-531 | replaying the requested changes clocks exactly the bits, and samples TDO exactly for reads |
| IoXpc.Extends | ioxpc.cpp:502-531 | one more change in the packed buffer leaves the earlier ones as they are |
| IoXpc.AnswerBit | ioxpc.cpp:319-367 | where a bit of the last partial word is in the CPLD's answer |
| IoXpc.AnswerWords | ioxpc.cpp:319-367 | the full 32-bit words of the answer are the packed bits |
| IoXpc.ExtTransfer.AddBit | ioxpc.cpp:502-531 | a change is appended inside the buffer; only real bits of reads are counted |
| IoXpc.IOXpc.DoTransfer | ioxpc.cpp:427-498 | the collected bits are clocked, the TDO bits stored, and the collection is empty again |
| IoXpc.IOXpc.TxrxBlock | ioxpc.cpp:536-616 | the clocks, TMS levels and buffered TDI bits of the bit-bang cable for every length (TDI low without a buffer); no request is a multiple of four changes; up to 8191 bits what is read is the packed TDO bits, in front of what the buffer held |
| IoXpc.IOXpc.TxTms | ioxpc.cpp:619-680 | exactly the TMS bits of the pattern |
| IoXpc.ShortReadArrives | ioxpc.cpp:536-616 | up to 8191 bits the caller's buffer is the packed TDO bits |
| IoXpc.LongReadDropsBit | ioxpc.cpp:451-496 | beyond that, bit 8191 of the result is always zero |
| IoXpc.ReadArrivesExactlyWhen | ioxpc.cpp:451-496 | every read of a length arrives if and only if the length is at most 8191 bits |
| Flash.BurnErased | progalgspiflash.cpp:1132-1139 | programming an erased cell stores the data |
| Flash.BurnBlank | progalgxcf.cpp:227-234 | programming ones changes nothing |
| Xc95x.PreambleOf | progalgxc95x.cpp:123-160 | the row for which the device wants preamble 3 is the last of its sector |
| Xc95x.AddressesDiffer | progalgxc95x.cpp:139-142 | no two rows have the same address |
| Xc95x.TotalFuses | progalgxc95x.cpp:355-357 | the rows of 8 and 6 bits add up to 108*108 fuses for each register byte |
| Xc95x.RowRoundTrip | progalgxc95x.cpp:142-157 | the bytes made from the fuses of a row carry exactly those fuses |
| Xc95x.ProgramThenRead | progalgxc95x.cpp:117-261 | after programming an erased device, what is read is the file, and verification passes |
| Xc95x.VerifiedExactlyWhen | progalgxc95x.cpp:272-352 | verification returns 0 if and only if the file has all fuses and every row of the device carries its fuses |
| Xc95x.ProgAlgXC95X.LoadRow | progalgxc95x.cpp:142-157 | the bytes of a row, or the exception where the file ends |
| Xc95x.ProgAlgXC95X.CommitSector | progalgxc95x.cpp:169-191 | up to 32 polls; failure means that none confirmed |
| Xc95x.ProgAlgXC95X.FlowArrayProgram | progalgxc95x.cpp:117-199 | which rows have been programmed with what when it succeeds, fails on a sector or throws; all other rows unchanged |
| Xc95x.ProgAlgXC95X.FlowArrayRead | progalgxc95x.cpp:202-269 | the replies, one row late, fill the map with exactly the fuses of the device |
| Xc95x.ProgAlgXC95X.ArrayRead | progalgxc95x.cpp:355-361 | the same into a map made to the device's size |
| Xc95x.ProgAlgXC95X.FlowArrayVerify | progalgxc95x.cpp:272-352 | the result of comparing all fuses of the device with the file in order |
| Jedec.JedRoundTrip | jedecfile.cpp:379-400 | what `readFile` makes of a printed file: the fuses and their count always, the result 0 if and only if the map is not empty and, for XC95X, ends on a row |
| Jedec.BoundaryIs | jedecfile.cpp:490-524 | the printer's counters have just ended a row exactly at the device's row boundaries |
| Jedec.HexDigitsTaken | jedecfile.cpp:160-186 | which characters the checksum field takes for a digit: the letter test masks with 0x5f |
| Jedec.ParseHex4 | jedecfile.cpp:160-186 | the checksum field reads back as printed |
| Jedec.ParseFuseHeader | jedecfile.cpp:188-209 | a list header leaves the parser at the fuse number printed |
| Jedec.ByteSumIsWeighted | jedecfile.cpp:591-599 | the sum over the bytes is the one the format defines: fuse i counts 2^(i mod 8) |
| Jedec.ChecksumSurvivesExactlyWhen | jedecfile.cpp:591-599 | the printed checksum is that of the fuses, and of the map read back, if and only if the padding bits are zero |
| Jedec.CountedOnce | jedecfile.cpp:286-348 | a pin count is taken from its field; a second pin or fuse count ends the reading with code 2 |
| Jedec.TwoFuseFile | jedecfile.cpp:475-561 | the whole text of an XC2C map of two fuses, character by character |
| Jedec.SaveThenRead | jedecfile.cpp:402-561 | printing and reading a map: count, fuses and checksum, with the exact conditions for both families and for XC2C counts that are a multiple of 64 |
| Jedec.GrownMapLosesChecksum | jedecfile.cpp:564-579 | a map grown to a count off a byte boundary has ones in its padding, so its checksum does not survive |
| Jedec.JedecFile.SetFuse | jedecfile.cpp:50-63 | one fuse changes, or nothing outside the map |
| Jedec.JedecFile.GetFuse | jedecfile.cpp:39-48 | the fuse, or the exception |
| Jedec.JedecFile.SetLength | jedecfile.cpp:564-579 | a longer map has all fuses and the padding set, a shorter one keeps its first fuses |
| Jedec.JedecFile.CalcChecksum | jedecfile.cpp:591-599 | the sum of all bytes in 16 bits |
| Jedec.JedecFile.StepChar | jedecfile.cpp:96-359 | one character in place does what the state machine says |
| Jedec.JedecFile.ReadFile | jedecfile.cpp:379-400 | the whole text through the state machine, and the result code |
| Jedec.JedecFile.SaveAsJed | jedecfile.cpp:475-561 | the printed text is that of the specification, with the map's checksum |
| Jedec.JedecFile.PrintRows | jedecfile.cpp:482-525 | the XC95X lists: 8 or 6 fuses a group, a list a row |
| Jedec.JedecFile.PrintLists | jedecfile.cpp:546-557 | the XC2C lists of 64 |
| SpiFlash.PageArrives | progalgspiflash.cpp:809-823 | a page number that fits 16 bits after scaling comes out of the address bytes as it went in |
| SpiFlash.SmallDevicesFit | progalgspiflash.cpp:809-823 | on devices of at most 2^24 bytes with pages of 256, 512 or 1024 bytes all do |
| SpiFlash.Page2Padd | progalgspiflash.cpp:809-823 | the three address bytes; the command byte is kept |
| SpiFlash.EraseDone | progalgspiflash.cpp:1096-1122 | erasing a newly entered sector blanks exactly its pages and touches no page written before |
| SpiFlash.ProgramDone | progalgspiflash.cpp:1132-1139 | programming a page of an erased sector extends what has been written by that page's data |
| SpiFlash.WritingEnds | progalgspiflash.cpp:1092-1153 | afterwards the range is the file, the rest of its sectors blank, and every other byte unchanged |
| SpiFlash.ErasedOnceFirst | progalgspiflash.cpp:1092-1122 | each touched sector is erased exactly once, before any of its pages is programmed, and no other sector is |
| SpiFlash.ProgAlgSPIFlash.Wait | progalgspiflash.cpp:986-1018 | status bytes are read up to the first without the busy bit; reaching the limit is a failure, even if the last one has it clear |
| SpiFlash.ProgAlgSPIFlash.SpiXfer | progalgspiflash.cpp:727-800 | a transfer returns the reply to the previous command |
| SpiFlash.ProgAlgSPIFlash.SectorEraseAndProgram | progalgspiflash.cpp:1053-1160 | the early refusals, the final contents and the exact sequence of erases and programs; after a time-out, how far it came, and that at least 50 status bytes came back |
| SpiFlash.ProgAlgSPIFlash.Read | progalgspiflash.cpp:829-883 | the image starts with the bytes of the flash in the range, and is all of the range when that lies in the flash |
| SpiFlash.ReadFromPageExactlyWhen | progalgspiflash.cpp:829-883 | counted from the start of the offset's page, every result is the whole range if and only if that lies in the flash |
| SpiFlash.ReadExactlyWhen | progalgspiflash.cpp:829-883 | for a part, every read of whatever it holds returns exactly the bytes from the offset on if and only if the offset is on a page and the range lies in the flash |
| SpiFlash.ProgAlgSPIFlash.Verify | progalgspiflash.cpp:887-974 | the number of pages that compare unequal over the length the code compares, at most six |
| SpiFlash.VerifyExactlyWhen | progalgspiflash.cpp:925-964 | no bad page if and only if flash and file agree on every byte that is compared |
| SpiFlash.VerifyFromPageExactlyWhen | progalgspiflash.cpp:887-974 | from a page on, for a length in the flash, `verify` returns 0 just for equal contents, whatever the file, if and only if the length is a whole number of pages or at most one page |
| SpiFlash.VerifyCompleteExactlyWhen | progalgspiflash.cpp:887-974 | for a part, an offset and a length, `verify` returns 0 just when the file is at that offset, whatever file and flash, if and only if the offset is on a page, the range lies in the flash and the length is as above, or the start lies beyond the flash |
| SpiFlash.BlindExactlyWhen | progalgspiflash.cpp:925-964 | some byte is never compared if and only if a partial page follows a whole one |
| SpiFlash.HiddenDifference | progalgspiflash.cpp:925-964 | in every flash and for every such length, a file that differs and verifies |
| SpiFlash.EqualNeverFails | progalgspiflash.cpp:887-974 | for a part, an offset and a length in the flash, every file that is at the offset gives 0 if and only if the offset is on a page |
| SpiFlash.ProgramExactlyWhen | progalgspiflash.cpp:1053-1160 | for a part, after every run without an error the file is at the offset, if and only if the offset is on a page and the range lies in the flash, or the start lies beyond the flash |
| SpiFlash.OffsetOneIsMisplaced | progalgspiflash.cpp:829-974 | from byte 1 on with 256-byte pages: a read gives other bytes, a file of one page that is not there verifies, a byte that is there fails, and a programmed page is not there |
| SpiFlash.WholePagesSeen | progalgspiflash.cpp:925-964 | for a whole number of pages every byte is compared |
| SpiFlash.PartialPageHidesDifference | progalgspiflash.cpp:925-964 | with 256-byte pages, a file of 300 bytes that differs from the flash and verifies |
| SpiFlash.ProgramThenVerify | progalgspiflash.cpp:887-974 | what was programmed reads back and verifies |
| Xcf.RangeFits | progalgxcf.cpp:170-196 | an accepted request lies in the PROM, in whole blocks |
| Xcf.RequestInBits | progalgxcf.cpp:170-196 | alignment check, bounds check and clipping in 32-bit bit counts decide as in bytes |
| Xcf.ProgramThenRead | progalgxcf.cpp:165-431 | on erased blocks the data reads back, the last block ends in ones, and other blocks are unchanged |
| Xcf.BurntSpace | progalgxcf.cpp:165-290 | over the whole array, programming burns the data into its range and leaves all other bytes alone |
| Xcf.ProgAlgXCF.Poll | progalgxcf.cpp:249-268 | status bytes are read up to the first with the done bit, at most as many as allowed |
| Xcf.ProgAlgXCF.Erase | progalgxcf.cpp:98-163 | a protected device is left alone with code 1; otherwise every block is blank after code 0, which an optimized device has to confirm in 32 polls |
| Xcf.ProgAlgXCF.LoadBlock | progalgxcf.cpp:222-234 | a partial block in two scans fills the register with the data and ones |
| Xcf.ProgAlgXCF.Program | progalgxcf.cpp:165-290 | the refusals, and which blocks hold what after success or after a block that did not confirm in 28 polls |
| Xcf.ProgAlgXCF.Read | progalgxcf.cpp:369-439 | the image is the clipped range of the PROM |
| Xcf.ProgAlgXCF.Verify | progalgxcf.cpp:292-367 | 0 if and only if PROM and file agree on the clipped range |
| PromSplit.IndexedExactlyWhen | xc3sprog.cpp:1194-1211 | every PROM's part comes from its own place in the file if and only if the range starts on a PROM boundary |
| PromSplit.PieceFits | xc3sprog.cpp:1158-1211 | on a boundary a piece starts at the start of its PROM, fits it and lies in the range |
| PromSplit.PiecesAreFile | xc3sprog.cpp:1152-1211 | the pieces in the order of the PROMs join to exactly the file data asked for |
| PromSplit.ProgramXcf | xc3sprog.cpp:1123-1233 | refusals; otherwise every PROM has what the action leaves in it, or one PROM was not erased, or programmed only as far as `Xcf` says from blank or earlier contents; those before it are done and those after it untouched |
| PromSplit.EraseAndWriteParts | xc3sprog.cpp:1212-1228 | after action w on several PROMs, each used PROM holds its piece and then ones, and each other PROM is unchanged |
| PromSplit.EraseAndWriteGivesFile | xc3sprog.cpp:1212-1228 | after action w the range of the joined contents is the file data |
| PromSplit.WriteBurnsRange | xc3sprog.cpp:1221-1228 | after action W the joined contents have the data burnt into the range and nothing else changed |
| PromSplit.SeveralNeverRefuse | xc3sprog.cpp:1212-1227 | of several PROMs none refuses its piece: a run stops only because a PROM could not be erased, or with code 1 from programming |
| PromSplit.RunPart | xc3sprog.cpp:1212-1229 | erase, program and verify of one PROM in the order of the action; a failed erase ends it, and after a good one the PROM has what programming a blank one gives, with its code; the verdict does not count |
| PromSplit.ReadXcf | xc3sprog.cpp:1131-1233 | for several PROMs the file is exactly the range of the joined contents; a single PROM is read as `Xcf` reads it, with the length request as the loop leaves it |
| PromSplit.SingleWriteExactlyWhen | xc3sprog.cpp:1152-1228 | on an erased single PROM exactly the range is programmed, whatever the file, if and only if it starts on a block |
| PromSplit.SingleReadExactlyWhen | xc3sprog.cpp:1131-1193 | a single PROM is read over exactly the range asked for if and only if that starts on a block and ends with the PROM |
| PromSplit.MisalignedReadRefused | progalgxcf.cpp:374-379 | a PROM of four blocks: a read from byte 1 to its end is refused |
| Mcs.RecordFrom | bitfile.cpp:453-465 | the checksum that the writer takes from a record's text is the one of its bytes |
| Mcs.RecordSumsToZero | bitfile.cpp:453-465 | the bytes of a record and the checksum byte it ends with add up to 0 modulo 256 |
| Mcs.AcceptedExactlyWhen | bitfile.cpp:178-288 | a data or address record is accepted if and only if it is complete, has room and all its bytes add up to 0 modulo 256; code 3 otherwise; its data go to its address in the 64 KiB the reader is in, and an address record moves the upper half |
| Mcs.OneByteFile | bitfile.cpp:562-602 | the whole text of an image of one zero byte, character by character |
| Mcs.ReadAddressRecord | bitfile.cpp:246-260 | the record at a 64 KiB boundary leaves the reader's address where it is |
| Mcs.ReadDataRecord | bitfile.cpp:200-215 | a data record stores its bytes, or overruns a buffer without room |
| Mcs.ReadShortRecord | bitfile.cpp:584-587 | the record of a 15-byte tail has no defined result: its 16th byte is the checksum, and the checksum compared is an unset variable |
| Mcs.ReadsBackExactlyWhen | bitfile.cpp:165-291 | the bytes read back if and only if their number is not 15 modulo 16 and at most 3053917287 |
| Mcs.RoomExactlyWhen | bitfile.cpp:170-178 | the reader's 32-bit buffer size has room for the bytes if and only if there are at most 3053917287 |
| Mcs.ChunksLength | bitfile.cpp:562-602 | the length of the text for n bytes |
| Bits.ReverseTwice | bitfile.cpp:306-309 | the bit reversal table is its own inverse |
| Mcs.ClippedIsBlank | bitfile.cpp:474-479 | clipping drops only 0xff bytes and leaves none at the end |
| Mcs.SaveThenRead | bitfile.cpp:293-316 | saving and reading an image in either style, with the exact condition |
| BitFiles.BitFile.SetLength | bitfile.cpp:404-410 | an image of the size, all ones |
| BitFiles.BitFile.SetBit | bitfile.cpp:627-642 | one bit changes, or the exception |
| BitFiles.BitFile.Clip | bitfile.cpp:474-477 | the loop finds the length without trailing 0xff bytes |
| BitFiles.BitFile.SaveAs | bitfile.cpp:467-606 | what is saved, and the length returned |
| BitFiles.BitFile.WriteRecords | bitfile.cpp:562-602 | the byte-by-byte writer produces the records of the format |
| BitFiles.BitFile.StoreData | bitfile.cpp:206-214 | the data bytes of a record in place |
| BitFiles.BitFile.ReadLine | bitfile.cpp:178-288 | one record in place does what the specification says |
| BitFiles.BitFile.ReadMcsFile | bitfile.cpp:165-291 | the whole text, with every result code |
| BitFiles.BitFile.ReadFile | bitfile.cpp:293-316 | the image with its bits in the right order |
| FuseMap.EveryBitOnce | mapfile_xc2c.cpp:180-187 | each entry of each block stands for one bit of the image and for one map cell |
| FuseMap.EveryBitHasPlace | mapfile_xc2c.cpp:180-187 | and each bit has such an entry |
| FuseMap.RoundTrip | mapfile_xc2c.cpp:176-218 | to the image and back, in any map: every fuse that has a bit comes back, as set if the file did not have it |
| FuseMap.RoundTripExactlyWhen | mapfile_xc2c.cpp:176-218 | a map with bits for exactly the first fuses gives back the whole file if and only if the file has that many |
| FuseMap.WrittenByPlace | mapfile_xc2c.cpp:176-196 | bit (i + 1) * size - j - 1 of the image is the fuse that cell j * num + i of the map names, 0 for -1 and 1 for any other number |
| FuseMap.ReadByPlace | mapfile_xc2c.cpp:198-218 | the fuse that cell j * num + i names gets bit (i + 1) * size - j - 1, unless another cell names it too |
| FuseMap.MapFile.Jedecfile2Bitfile | mapfile_xc2c.cpp:176-196 | the image has exactly the fuses' bits at the places of their map cells, 0 for transfer bits and 1 elsewhere |
| FuseMap.MapFile.Bitfile2Jedecfile | mapfile_xc2c.cpp:198-218 | every fuse in the map gets the value of one of its bits, of its only bit where no fuse has two; the count is the highest one plus one; the exception exactly for an entry out of range or an image that is too small |

## Left out

- USB, libftdi, FTD2XX, gpiod and parallel port calls, device opening and retries: a cable is a clock step that returns TDO.
- Sleeps, timers, progress output and debug logs.
- Caller buffers for TDO: transfers return the bytes, so a TDO buffer that overlaps the TDI buffer is not modelled. For the XPC cable, whose result depends on what the buffer held, its contents are a parameter.
- `IOFtdi::Usleep`, the internal mode of `IOXPC`, `IOFX2`, `IODebug`, `IOParport`.
- The XPC CPLD: its answer is modelled for the requests the program sends, with unspecified filling bits.
- Jtag.Jtag.ShiftDr: needs at least one bit, and no navigation between the pieces of a split scan, as the code does.
- Jtag.Jtag.CycleTck: only in states that TMS low keeps.
- Jtag.Jtag.GetChain: a second detection keeps the devices found before behind the new ones, as the code does; the theorem about positions is for the first one.
- `ProgAlgXC95X` erase, blank check, enable and disable, and the XC9500 status protocol: whether the device confirms a sector is its choice.
- Xc95x.ProgAlgXC95X.StatusScan: any status; the history counts confirmations only.
- SPI flash detection, AT45 and SST programming, bulk erase, and the bridge in the FPGA: one transfer is one exchange, up to the reply to the command before. The payload behind a read command is whatever follows the header in memory, which the flash ignores.
- SpiFlash.ProgAlgSPIFlash.Read: what stands behind the bytes of the flash when a range runs out of it while its length alone fits; the code does not clip it.
- SpiFlash.ProgAlgSPIFlash.SectorEraseAndProgram: an explicit length beyond the file makes the code read behind its buffer; the contract asks for a length within the file. Devices whose page numbers do not fit 16 bits are excluded by `Sound`.
- Xcf.ProgAlgXCF.Erase: what the device captures and answers is its choice; an erase that it does not confirm leaves no promise about the blocks. The serial erase of XC18V parts and the enable sequence are not modelled.
- Xcf.ProgAlgXCF.Program: an explicit length within the file, as for the SPI flash. The same holds for its `Verify`.
- PromSplit.ProgramXcf: for several PROMs the range has to start on a PROM boundary; elsewhere the loop takes data from in front of its buffer. A PROM whose erase fails has no promise beyond its size.
- Jedec.JedecFile.StepChar: the header date and the note strings that some states store.
- Jedec.JedecFile.ReadFile: the date, device and version strings.
- JEDEC: the device name that selects the family, the JED_XC95 branch, the N fields' contents and the date in the header, which is any line of text.
- Mcs.ReadText: records of types 2, 3 and 5, and lines with characters other than digits where digits belong, have one outcome, `Irregular`, instead of what the code makes of them.
- BIT, BIN, HEX and HEXRAW files, SREC files, AVR fuse files.
- FuseMap.MapFile.Bitfile2Jedecfile: which bit wins where a fuse has two.
- Jedec.JedecFile.SaveAsJed: the family is a parameter, without the JED_XC95 branch; for fuse counts below 2^31, which the signed format prints as they are.
- IoFtdi.IOFtdi.TxrxBlock: a transfer with neither a TDI nor a TDO buffer is left out; the command it would send has no direction.
- IoFtdi.IOFtdi.MpsseSend: the exception on a short write.
- `Mpsse`: the chip executes the data and TMS commands with the edges that the program uses, in both bit orders, and the one that has answers sent; it answers all others as unknown. How pins, clock and loopback are set up is not modelled.
- IoXpc.IOXpc.DoTransfer: a USB request that fails.
- SpiFlash.ProgAlgSPIFlash.SpiXfer: the magic header, the length field and the bit order of the bridge.
- BitFiles.BitFile.ReadLine: records of types 2, 3 and 5, as in `Mcs`; the same holds for `ReadMcsFile`.
- BitFiles.BitFile.SaveAs: an explicit length beyond the image, which makes the code read behind it.
- ChainTheorems.ShiftIrAddressesOne: from outside the instruction column and back to Run-Test/Idle, which is how all algorithms here use it.
- ChainTheorems.ShiftDrAddressesOne: from and back to Run-Test/Idle.
- Reading map files (`readmap`): the map is a parameter.
- XMEGA PDI, the XC3S configuration flow, XCFP and XC2C programming, command lines, device and cable lists, shell scripts.
