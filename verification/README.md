# LabWired tooling, modelled and proved in Dafny

This project models the hard logic in LabWired's own tooling: the scripts that build and check the RV1103 boot images,
the serial bootloader and the host program that feeds it, the firmware's view of the simulated clock, the programs that
turn many test runs into one verdict, and the generators of debug descriptors and ROM images. `dafny verify
dfyconfig.toml` checks all of it.

| module | what it covers |
|---|---|
| `FdtTree`, `FdtBlob` | the devicetree blob walk of `validate_dtb`, against trees flattened as in sections 5.2, 5.4 and 5.5 of the Devicetree Specification v0.4 |
| `Cpio`, `CpioRoundTrip`, `CpioAccepted`, `CpioCanonical`, `CpioImages` | the newc emitters, the parser, the validator, which bytes are accepted and which of those are emitted, and the images built with them |
| `PosixPath`, `HeaderLinks` | archive paths, the lexical collapse of link targets, and POSIX resolution as its reference |
| `BoundedTar` | the physical accounting of a TAR stream |
| `Crc16`, `Xmodem`, `Bootloader`, `Transfer`, `SerialLink` | the CRC, the XMODEM-1K framing, the bootloader's receive loop, the two ends together, and the retry loop over a faulty link |
| `SimClock` | the 64-bit clock read through two 32-bit words |
| `ShardRun`, `ShardVerdict`, `WorkspaceVerdict` | dealing the test targets to shards, judging them, and the one verdict over all shards |
| `FleetVerdict` | grading a fleet of boards and sketches |
| `SvdRegisters`, `YamlScalar` | flattening nested register arrays, and writing YAML scalars |
| `RomImage` | filling in the copy sources of a boot ROM image |
| `AckDigests` | stamping digests into the validation manifest |
| `Prelude`, `Text` | shared definitions |

Imperative code is modelled by methods with loops (an array updated in place for the ROM image), each proved equal to a
specification function; the claims about the code are lemmas about those functions, against references that do not
mention the code: trees and the chains of names that lead to their nodes, walks of a file system, polynomial division,
index paths, what was observed of each test target. The constants of formats and limits are written out in the claims. Bytes are
integers below 256, or `bv8` where the CRC works on bits. Errors are values of small datatypes.

Where the code and its own comments differ, the model follows the code:

- The devicetree walk takes properties after child nodes and children with empty names, which the specification does not
  allow; `FdtTree.BlockAccepted` gives the exact set it takes and `FdtTree.ConformingIsAcceptable` shows that everything
  the specification allows is in it.
- `parse_newc` reads numbers with Python's `int(..., 16)`, which takes more spellings than eight hex digits, and it does
  not look at the order of names. `CpioCanonical.ParsedIsEmitted` says exactly which of the images it takes are those
  that `newc` writes; `CpioRoundTrip.ParserTakesLooseSpelling` and `CpioCanonical.SomePairParses` exhibit others.
- `newc` writes a negative number with a sign and a large one with more than eight digits. `CpioRoundTrip.RoundTrip` says
  exactly which images parse back, and `CpioRoundTrip.WideDevicesCollide` shows two archives with one image. Modes
  outside 32 bits raise in `stat.S_ISDIR`, in the emitter and in the parser.
- `yaml_str` says that a plain scalar cannot look like another type; the code does not test for that, and reading a
  scalar back here is reading its text, before any type is guessed.
- The eight-digit escape of `escaped_scalar` is never reached: every code point above 0xffff is printable.
- A known-red test named `*` collides with the aggregate's own marker for a target that passed
  (`WorkspaceVerdict.StarredTestReportedStale`). The verdict theorems hold for every configuration, and say what decides
  such an entry; the number of shards is part of that.
- The comment on `populate_data_copy_sources` says that the ROM's own copy then lands the real values. The scan can
  overwrite the very table that copy reads (`RomImage.OverwrittenTableCopiesNothing`); `RomImage.TableExact` says exactly
  when an entry survives, and `RomImage.BootExact` exactly which addresses come out right when all do.
- The XMODEM check does not cover the block number beyond its complement, and acknowledgements carry no number, so an
  acknowledgement need not mean that the block is stored. `SerialLink.AcknowledgementExact` says for which arrivals it
  does not, and `SerialLink.TransferExact` which readings lose a block;
  `SerialLink.HeaderDamageDropsBlock` and `SerialLink.StaleAcknowledgementDropsBlock` are runs of either kind.
  `SerialLink.AcknowledgedIsProgrammed` is about links on which neither happens.

## Model

| member | source | states |
|---|---|---|
| `FdtTree.BlockAccepted` | scripts/prepare-rv1103-basket.py:251-273 | For every tree and any NOPs around it, the walk takes the flattened block if and only if no name holds a slash, no node repeats a property and no two nodes have the same path; then its dictionary has, under the path that each chain of names spells, exactly the own properties of the node that the chain leads to, and nothing else |
| `FdtTree.AcceptedIsTree` | scripts/prepare-rv1103-linux.py:190-212 | Any token sequence the walk takes with at least one node recorded is, token for token, one acceptable tree under a single nameless root with only NOPs around it, and the dictionary is that tree's table |
| `FdtTree.ConformingIsAcceptable` | scripts/prepare-rv1103-basket.py:254-259 | Trees that follow the naming rules of the Devicetree Specification are all acceptable: distinct sibling names make the joined paths distinct at every depth |
| `FdtTree.ConformingPaths` | scripts/prepare-rv1103-basket.py:254-259 | In such a tree the path of a node is a slash and the names on the way to it, joined by slashes |
| `FdtTree.RunBody` | scripts/prepare-rv1103-basket.py:252-268 | Inside any open node, a body is walked without fault if and only if it fits what is already recorded, and then adds exactly its own nodes and properties to the innermost open node |
| `FdtBlob.Walk` | scripts/prepare-rv1103-basket.py:251-273 | The byte loop terminates on every block and computes the recursion over positions, faults included |
| `FdtBlob.TakeToken` | scripts/prepare-rv1103-linux.py:192-211 | One turn of that loop: the new nodes, stack and position, the end, or the fault |
| `FdtBlob.WalkRunsTokens` | scripts/prepare-rv1103-basket.py:243-273 | The byte walk succeeds if and only if the bytes spell tokens ending with FDT_END exactly at the block end on which the token walk succeeds with no node open, and then they agree |
| `FdtBlob.TokensEncoded` | scripts/prepare-rv1103-basket.py:243-268 | Tokens encoded at an aligned position, with names and values padded to four bytes, are read back as the same tokens |
| `FdtBlob.ReadDtb` | scripts/prepare-rv1103-linux.py:171-212 | The header checks followed by the walk, as one computation on any bytes |
| `FdtBlob.HeaderRoundTrip` | scripts/prepare-rv1103-linux.py:173-181 | A version-17 header written for any structure and strings block is accepted and yields exactly those two ranges |
| `FdtBlob.ReadHeaderExact` | scripts/prepare-rv1103-linux.py:173-181 | On any bytes the header checks pass if and only if the ten words, the block ranges, the alignments and the zeros of the reservation block are as listed, and they find exactly those parts |
| `FdtBlob.BlobAccepted` | scripts/prepare-rv1103-linux.py:171-212 | The whole blob of a tree reads back if and only if the tree is acceptable, to the dictionary of its nodes by path and their own properties, and is refused otherwise |
| `FdtBlob.ReadBlobIsTree` | scripts/prepare-rv1103-linux.py:171-212 | Any bytes that read to at least one node spell one acceptable tree, and what was read is the dictionary of that tree's nodes by path |
| `PosixPath.JoinedIsCanonical` | scripts/prepare-rv1103-modules.py:97-101 | Joined plain components are a name that `archive_path` gives back unchanged, and its parts are those components |
| `PosixPath.CanonicalIsJoined` | scripts/prepare-rv1103-modules.py:97-101 | Every such name is of that form |
| `PosixPath.ArchivePathCanonical` | scripts/prepare-rv1103-modules.py:97-101 | What `archive_path` returns, it returns again |
| `HeaderLinks.ArchivePathIsWalk` | scripts/prepare-rv1103-modules.py:97-101 | `archive_path` accepts a name if and only if it has no NUL, backslash or `..` and a POSIX walk along it through nothing but directories stays inside and gets somewhere; it returns the place reached |
| `Text.FieldRoundTrip` | scripts/prepare-rv1103-basket.py:158-170 | A number whose hexadecimal spelling, sign included, takes eight characters is read back by Python's `int(..., 16)` |
| `Text.ParseHexExact` | scripts/prepare-rv1103-basket.py:169 | `int(..., 16)` reads a text if and only if it is blanks, a sign, a prefix that an underscore may follow, digits with single underscores between them, and blanks, and reads it as the number spelled |
| `Text.ParsedIsEightWide` | scripts/prepare-rv1103-basket.py:169 | Whatever `int(..., 16)` makes of at most eight characters, blanks, signs, prefixes and underscores included, is such a number |
| `Text.SortedNamesCorrect` | scripts/prepare-rv1103-basket.py:156 | The name order is Python's, lists every name once and is strictly increasing |
| `Cpio.EmitNewc` | scripts/prepare-rv1103-basket.py:154-161 | `newc` on any entries: numbers of any size and sign as Python formats them, the byte bound after every record, and the refusal of names that are not ASCII and of modes that `S_ISDIR` does not take |
| `Cpio.AppendRecord` | scripts/prepare-rv1103-basket.py:157-159 | Padding reckoned on the growing output is the padding of the record by itself |
| `Cpio.DirectoryType` | scripts/prepare-rv1103-basket.py:157 | A mode is a directory's if and only if its fourth hexadecimal digit is four |
| `CpioCanonical.RecordLayout` | scripts/prepare-rv1103-basket.py:156-159 | A record is, in order, `070701`, thirteen eight-digit fields with each value in its place and two links for a directory, the name, a zero, padding, the body and padding |
| `Cpio.RoundUpIsModulo` | scripts/prepare-rv1103-basket.py:177-183 | The parser's alignment step is Python's modulo for positions of either sign |
| `Cpio.ParseNewc` | scripts/prepare-rv1103-basket.py:164-193 | `parse_newc` on any bytes, every refusal included; it terminates though a negative size can move it backwards |
| `CpioAccepted.RecordExact` | scripts/prepare-rv1103-basket.py:168-185 | At any position, negative ones included, the parser reads a record if and only if one is written there: the mark, thirteen fields that spell its numbers, fixed metadata, a terminated ASCII name, zero padding and the body |
| `CpioAccepted.ParseExact` | scripts/prepare-rv1103-basket.py:164-193 | The parser takes exactly the bytes, at most eight mebibytes, that are a chain of at most 64 records under distinct canonical names, each starting where the one before it ends, and a trailer up to the very end; and it returns exactly what those records hold |
| `Cpio.ValidateNewc` | scripts/prepare-rv1103-basket.py:196-198 | `validate_newc`: the parse and the byte comparison |
| `CpioRoundTrip.RecordParsed` | scripts/prepare-rv1103-basket.py:168-185 | An emitted record at any aligned position parses back to its name, fields and body, or is refused exactly for its name |
| `CpioRoundTrip.NewcMeans` | scripts/prepare-rv1103-basket.py:154-161 | The emitter succeeds exactly on ASCII names and 32-bit modes within the byte limit, and writes the sorted records and the trailer |
| `CpioRoundTrip.RoundTrip` | scripts/prepare-rv1103-basket.py:154-193 | An emitted image parses back to its entries if and only if they are at most 64 under good names and their device numbers fit eight characters; if they fit but are too many or ill-named, the parser refuses it |
| `CpioRoundTrip.Parsed8` | scripts/prepare-rv1103-basket.py:169-191 | What the parser returns always fits the fields it was read from |
| `CpioRoundTrip.NewcInjective` | scripts/prepare-rv1103-basket.py:154-161 | Different parseable entry maps whose numbers fit have different images |
| `CpioRoundTrip.WideDevicesCollide` | scripts/prepare-rv1103-basket.py:157-158 | Beyond eight characters they need not: a digit can move from a wide major number to the minor one without any byte of the image changing |
| `CpioRoundTrip.ValidatorExact` | scripts/prepare-rv1103-basket.py:196-198 | The validator accepts exactly the bytes that `newc` writes for parseable entries whose numbers fit |
| `CpioRoundTrip.ParserTakesLooseSpelling` | scripts/prepare-rv1103-basket.py:169-170 | The parser by itself is not exact: an image with a field spelled `+0000001`, which `newc` never writes, parses as the empty archive |
| `CpioCanonical.RecordSpelled` | scripts/prepare-rv1103-basket.py:168-185 | A record that is read at an aligned position, its header spelled in lower-case digits with a minus sign where a number is negative and none on the size, is byte for byte the record the emitter writes for what was read |
| `CpioCanonical.ParsedIsEmitted` | scripts/prepare-rv1103-basket.py:154-193 | Of all the images the parser takes, those that `newc` writes for what was read are exactly the ones with every header so spelled and the names in ascending order |
| `CpioCanonical.ReorderedImageParses` | scripts/prepare-rv1103-basket.py:164-193 | The records of parseable entries in any order parse to the same entries; `newc` writes them if and only if the order is ascending |
| `CpioCanonical.SomePairParses` | scripts/prepare-rv1103-basket.py:164-193 | Two files listed the wrong way round are an image that parses and that `newc` does not write |
| `CpioImages.EmittersAgree` | scripts/prepare-rv1103-linux.py:163-169 | On any table of sound entries the unbounded emitters write what `newc` writes, within the limit, and it parses back; beyond the limit `newc` and the parser refuse |
| `CpioImages.Initramfs` | scripts/prepare-rv1103-linux.py:152-169 | The base image is the canonical image of its entries, and within the limit it parses back to them |
| `CpioImages.ModuleCpio` | scripts/prepare-rv1103-modules.py:311-322 | The module image is built exactly for the two expected modules; it is the canonical image of its entries, and within the limit it parses back to them |
| `CpioImages.BasketArchive` | scripts/prepare-rv1103-basket.py:140-161 | The basket archive is refused only for its size: validation never fails on what `newc` has just written |
| `CpioImages.InitramfsFiles` | scripts/prepare-rv1103-linux.py:152-162 | The base image holds busybox and init, each with its own bytes, at its own path and executable |
| `CpioImages.ModuleFiles` | scripts/prepare-rv1103-modules.py:313-315 | The module image holds each of the two drivers under its own name |
| `CpioImages.BasketFiles` | scripts/prepare-rv1103-basket.py:140-151 | The basket archive holds init, the helper and both drivers, each with its own bytes at its own path |
| `CpioImages.BusyboxRecovered` | scripts/prepare-rv1103-basket.py:321-322 | Parsing a base image within the limit yields the very busybox it was built with |
| `CpioImages.CheckBaseArchive` | scripts/prepare-rv1103-basket.py:321-322 | The strict check accepts exactly the images that the base builder makes, and returns the busybox inside |
| `HeaderLinks.ResolveLexically` | scripts/prepare-rv1103-modules.py:104-120 | `link_target` with its list of parts, every refusal included |
| `HeaderLinks.CheckSelected` | scripts/prepare-rv1103-modules.py:155-160 | The closing loop passes exactly the trees whose recorded ancestors are directories and whose links all have targets |
| `HeaderLinks.CollapseIsWalk` | scripts/prepare-rv1103-modules.py:104-120 | Where the lexical collapse succeeds, a POSIX walk from the same directory meets no link, stays inside, and ends at the collapsed path if it ends |
| `HeaderLinks.LexicalIsPhysical` | scripts/prepare-rv1103-modules.py:155-160 | On an accepted tree, in every file system with exactly the selected links, resolving any link's target never meets another link nor leaves the root, and ends where `link_target` says if it ends |
| `HeaderLinks.LinkTargetExact` | scripts/prepare-rv1103-modules.py:104-120 | With its ancestors checked, any target is accepted if and only if it is not empty, has no NUL or backslash, and the walk is contained in every file system that has exactly the selected links |
| `HeaderLinks.AcceptedIsSound` | scripts/prepare-rv1103-modules.py:155-160 | The tree selected from the members is accepted if and only if what stands above each member is a directory member and every symlink member, unpacked anywhere with exactly the members' links, stays inside |
| `HeaderLinks.ReadHeaders` | scripts/prepare-rv1103-modules.py:123-162 | Succeeds exactly on members that are fine one by one, repeat no path, stay within the limits and whose header members can be unpacked soundly, in terms of the members alone; the result has each header member under its path, as the kind of file it is, and nothing else |
| `HeaderLinks.TakeMember` | scripts/prepare-rv1103-modules.py:134-154 | One member: refused, or added to the selection as the kind of file it is if it belongs to the headers, and otherwise left out |
| `BoundedTar.BoundTar` | scripts/prepare-rv1103-linux.py:59-99 | `bounded_tar` on the expanded stream, with its counters and refusals |
| `BoundedTar.ScanMeans` | scripts/prepare-rv1103-linux.py:72-95 | From any point the scan accepts exactly the streams that decompose into blocks and bodies within what is left of the limits, and its counters are the exact totals |
| `BoundedTar.Conservation` | scripts/prepare-rv1103-linux.py:72-95 | The stream length is 512 times the headers and zero blocks, plus the bodies rounded up to 512 |
| `BoundedTar.AcceptanceExact` | scripts/prepare-rv1103-linux.py:59-99 | For any limits, negative ones included: acceptance if and only if no limit is negative and the stream is aligned, decomposable and within every limit, with an exact report |
| `BoundedTar.DefaultBoundSuffices` | scripts/prepare-rv1103-linux.py:101-106 | The default expanded limit refuses no archive that meets the other limits and has at most 3 times 10240 bytes of zero blocks |
| `BoundedTar.DefaultBoundTight` | scripts/prepare-rv1103-linux.py:101-106 | For any number of members and any totals the default limit leaves exactly the stated room: a stream of one-byte members is taken if and only if its zero blocks fit into three trailers and both totals |
| `BoundedTar.TrailerBudgetIsTight` | scripts/prepare-rv1103-linux.py:101-106 | That allowance is exact: with the other limits at zero, a run of zero blocks is taken if and only if it fits in it |
| `Crc16.Crc16Xmodem` | crates/firmware-mg26-bootloader/bench_xmodem.py:23-29 | The nested loops compute the byte-wise CRC |
| `Crc16.CrcIsFeed` | crates/firmware-mg26-bootloader/src/main.rs:126-139 | The byte-wise CRC is the bit-serial division register fed with the bits of the data |
| `Crc16.CrcIsRemainder` | crates/firmware-mg26-bootloader/bench_xmodem.py:23-29 | The CRC is the remainder of the message followed by sixteen zeros, as a polynomial over two elements, on division by x^16 + x^12 + x^5 + 1 |
| `Crc16.FeedLinear` | crates/firmware-mg26-bootloader/bench_xmodem.py:23-29 | The register is linear in its start and in its input |
| `Crc16.BurstDetected` | crates/firmware-mg26-bootloader/bench_xmodem.py:23-29 | Two different blocks of equal length that differ only within sixteen consecutive bits, anywhere, have different CRCs |
| `Crc16.OddErrorsDetected` | crates/firmware-mg26-bootloader/bench_xmodem.py:23-29 | So have two blocks that differ in an odd number of bits |
| `Crc16.ResidueExact` | crates/firmware-mg26-bootloader/bench_xmodem.py:40-41 | A block followed by two bytes leaves a zero register if and only if the two bytes are its CRC |
| `Xmodem.EncodePackets` | crates/firmware-mg26-bootloader/bench_xmodem.py:32-42 | The packets are the payload's blocks in order, each framed with its number and CRC |
| `Xmodem.BlockNumberIs` | crates/firmware-mg26-bootloader/bench_xmodem.py:37 | Block `i` carries the number `i + 1` modulo 256 |
| `Xmodem.PacketAt` | crates/firmware-mg26-bootloader/bench_xmodem.py:36-41 | Packet `i` is block `i` under that number, at any count of packets |
| `Xmodem.BlocksCarryPayload` | crates/firmware-mg26-bootloader/bench_xmodem.py:33-39 | The blocks in order are the payload followed only by filling, less than a block of it unless the payload is empty |
| `Xmodem.PayloadRecovered` | crates/firmware-mg26-bootloader/bench_xmodem.py:33-39 | Taking the filling off gives the payload back if and only if it does not itself end in a filling byte |
| `Xmodem.PacketResidue` | crates/firmware-mg26-bootloader/bench_xmodem.py:40-41 | Every packet after its three header bytes has CRC zero |
| `Bootloader.ReceiveAndProgram` | crates/firmware-mg26-bootloader/src/main.rs:263-361 | On any timed sequence of bytes and idle periods the receive loop replies and programs as the frame-level machine does on what the line spells |
| `Bootloader.AcceptFrame` | crates/firmware-mg26-bootloader/src/main.rs:336-359 | One frame: refused if it does not pass, acknowledged as a repeat, stored, or given up for want of flash |
| `Bootloader.CopyFrame` | crates/firmware-mg26-bootloader/src/main.rs:349-356 | The copying loop stores the bytes one by one, flushing a full page before the next byte |
| `Transfer.MarksRead` | crates/firmware-mg26-bootloader/src/main.rs:299-335 | What each byte starts, by its code: the end, a cancellation, a frame of 1024 or 128 bytes between two header and two CRC bytes, or nothing |
| `Transfer.PassesExact` | crates/firmware-mg26-bootloader/src/main.rs:336-339 | A frame passes if and only if number and complement add up to 255 and the block with its CRC leaves a zero register |
| `Transfer.RelabelledRefused` | crates/firmware-mg26-bootloader/src/main.rs:336-339 | A frame whose number or complement alone was damaged, in any way, is refused and changes nothing |
| `Transfer.CapacityExact` | crates/firmware-mg26-bootloader/src/main.rs:19-21 | With every page in working order a payload fits if and only if it takes at most 396 pages of 8 KiB |
| `Transfer.StoreExact` | crates/firmware-mg26-bootloader/src/main.rs:273-297 | Bytes are stored if and only if every page they fill exists and can be programmed; then flash and page buffer hold exactly the old content and the new bytes, pages first |
| `Transfer.DueFrame` | crates/firmware-mg26-bootloader/src/main.rs:345-359 | The frame that is due is stored whole and acknowledged, or the device gives up |
| `Transfer.RepeatedFrame` | crates/firmware-mg26-bootloader/src/main.rs:340-344 | The frame taken last is acknowledged again and changes nothing, across the wrap of the block number |
| `Transfer.EndArrives` | crates/firmware-mg26-bootloader/src/main.rs:307-318 | The end mark programs the last page, erased bytes filling it up, or the device gives up |
| `Transfer.WireIsProgrammed` | crates/firmware-mg26-bootloader/bench_xmodem.py:32-42 | The bytes of any payload's packets and the end mark, on a clean line, leave the payload and its filling in flash to the byte with every block acknowledged, if and only if the flash has room and works; otherwise the device gives up |
| `SerialLink.SendPackets` | crates/firmware-mg26-bootloader/bench_xmodem.py:113-131 | The retry loop sends the packets one by one over a given link: at most three attempts at each, only refusals and silence repeated, on only after an acknowledgement, then the end mark |
| `SerialLink.ThreeAttemptsDecide` | crates/firmware-mg26-bootloader/bench_xmodem.py:113-127 | Links that agree on the first three attempts at a block have the same outcome for it |
| `SerialLink.OfferedMany` | crates/firmware-mg26-bootloader/src/main.rs:299-360 | Whatever arrives while a block is on its way, the device has taken the blocks before it, or that one too, or has given up; an acknowledgement means the latter two |
| `SerialLink.AcknowledgedIsProgrammed` | crates/firmware-mg26-bootloader/bench_xmodem.py:113-131 | Over every link that loses, damages, cuts up and repeats, even reading an acknowledgement of the same block late, but does not forge, an acknowledged end mark means that flash holds the payload, its filling and erased bytes, and nothing else |
| `SerialLink.ServiceableLinkSucceeds` | crates/firmware-mg26-bootloader/bench_xmodem.py:113-131 | A payload that fits in working flash gets there when each block gets through within its three attempts |
| `SerialLink.CleanLinkServes` | crates/firmware-mg26-bootloader/bench_xmodem.py:113-131 | The undisturbed link forges nothing and gets every block through, so that both claims apply to it |
| `SerialLink.DamageFails` | crates/firmware-mg26-bootloader/src/main.rs:336-339 | Damage to a block or its CRC within sixteen consecutive bits, or in an odd number of bits, fails the check |
| `SerialLink.BatteredLinkIsSafe` | crates/firmware-mg26-bootloader/bench_xmodem.py:113-131 | So it does over a link whose every arrival is silence, a cancellation, the frame sent, that frame with its number or its complement damaged in any way, or with its block and CRC damaged within sixteen consecutive bits or in an odd number of bits |
| `SerialLink.AcknowledgementExact` | crates/firmware-mg26-bootloader/src/main.rs:299-360 | While a block is due, for any arrival whatever: an acknowledgement means that the block is stored, if and only if the arrival is not a sound frame under the number before, one under the due number with other data and flash to take it, or the end mark |
| `SerialLink.StillExact` | crates/firmware-mg26-bootloader/src/main.rs:299-360 | Once it is stored, an acknowledgement means that nothing else changed, if and only if the arrival is not a sound frame under the next number with flash to take it, or the end mark |
| `SerialLink.TransferExact` | crates/firmware-mg26-bootloader/bench_xmodem.py:113-127 | Over any link whose frames are honest, whatever the sender reads: with every block acknowledged, a device that has not given up holds the padded payload if and only if each acknowledgement that ended a block's attempts came after one sent at that block; what is missed once is never made up, even when the numbers wrap around |
| `SerialLink.HeaderDamageDropsBlock` | crates/firmware-mg26-bootloader/src/main.rs:336-344 | An instance of the first of these: a due block whose number arrives as the previous one is acknowledged and dropped; two flipped bits suffice when the number due is odd |
| `SerialLink.StaleAcknowledgementDropsBlock` | crates/firmware-mg26-bootloader/bench_xmodem.py:113-131 | A run in which no byte is invented or damaged: the first block's acknowledgement comes late, its repetition is acknowledged too, the second acknowledgement is read at the second block, and the sender reports success for an image without that block |
| `SimClock.Read64` | examples/common/labwired_simctl.h:89-100 | Against any monotone 64-bit clock the read ends with the time at the low-word access of the first pass that sees no carry; if the clock moves by less than 2^32 over the six accesses of two passes, there is at most one retry |
| `SimClock.ReadTwice` | examples/common/labwired_simctl.h:111-114 | Successive reads never go back, and go forward if the clock did |
| `ShardRun.RunnableIs` | scripts/ci/workspace_test_shard.py:291-295 | A target is runnable if and only if it was built, is not gated and is in none of the three exclusion lists |
| `ShardRun.NoProblemsMeans` | scripts/ci/workspace_test_shard.py:265-290 | The configuration has no problems if and only if each exclusion and each known-red test names an integration test that was built |
| `ShardRun.DealIsPartition` | scripts/ci/workspace_test_shard.py:298-303 | The slices of all shards together are exactly the runnable targets, each as often as it is listed |
| `ShardRun.DealtTo` | scripts/ci/workspace_test_shard.py:298-303 | The deal itself: runnable target `m` is the `m / count`-th of shard `m % count + 1` |
| `ShardRun.HandSize` | scripts/ci/workspace_test_shard.py:298-303 | and a shard has no others: its slice is as long as the number of its turns |
| `ShardRun.SomeShardRuns` | scripts/ci/workspace_test_shard.py:298-303 | A target is runnable if and only if one of the shards has it |
| `ShardRun.RunShard` | scripts/ci/workspace_test_shard.py:465-539 | The loop over a slice writes its results, hard errors and new red tests |
| `ShardRun.CmdRun` | scripts/ci/workspace_test_shard.py:429-566 | Which report a shard writes: none for a bad configuration, a hard error for a failed build |
| `ShardRun.ReportClean` | scripts/ci/workspace_test_shard.py:527-539 | A report has no hard error and no new red if and only if no target is broken, no failure is unnamed and every failing test is listed |
| `ShardRun.HardErrorsAre` | scripts/ci/workspace_test_shard.py:527-539 | The hard errors of a report are exactly those that the observations of its targets call for |
| `ShardRun.NewRedAre` | scripts/ci/workspace_test_shard.py:527-539 | and so are its new red tests |
| `ShardVerdict.FindReports` | scripts/ci/workspace_test_aggregate.py:53-65 | The reports found and the shard numbers missing |
| `ShardVerdict.FoundIsLastWord` | scripts/ci/workspace_test_aggregate.py:53-65 | A report counts if and only if it is the last file for its shard |
| `ShardVerdict.Aggregate` | scripts/ci/workspace_test_aggregate.py:68-146 | The failures in order and the totals |
| `WorkspaceVerdict.GreenExact` | scripts/ci/workspace_test_aggregate.py:68-146 | For every configuration: no failures if and only if every shard reported, no counting report carries a hard error or new red, every known-red test is seen failing, and none named `*` is followed by a pass of a binary of its name |
| `WorkspaceVerdict.VerdictExact` | scripts/ci/workspace_test_aggregate.py:68-146 | Over any files that deliver the shards' own reports, in terms of targets and what was observed of them: no failures if and only if every shard lives and builds, the configuration names only integration tests that were built, every run counted a test (or has none for a reason the shard accepts) and names its failures, all of them known-red, every known-red test fails in some run, and those named `*` in one after which, in the order of the reports, no binary of that name passes |
| `WorkspaceVerdict.ReportsExact` | scripts/ci/workspace_test_aggregate.py:68-146 | Whatever became of the shards, the aggregate reports exactly what is justified: the lost shards, the hard errors and new red of the runs that were delivered, failed builds, and the known-red tests that no delivered run upholds |
| `WorkspaceVerdict.UploadsDeliver` | scripts/ci/workspace_test_aggregate.py:53-65 | The shards' own report files, one for each, are files that deliver |
| `WorkspaceVerdict.UncontestedVerdict` | scripts/ci/workspace_test_aggregate.py:68-146 | When no known-red test is named `*` while a binary of its name passes, the last clause is not needed |
| `WorkspaceVerdict.ShardCountIrrelevant` | scripts/ci/workspace_test_aggregate.py:68-146 | Then the verdict does not depend on the number of shards, as long as none is lost |
| `WorkspaceVerdict.ResultsOfAll` | scripts/ci/workspace_test_shard.py:465-539 | The results in the reports are those of the runnable targets, neither more nor fewer |
| `WorkspaceVerdict.TotalsConserved` | scripts/ci/workspace_test_aggregate.py:92-101 | The totals are those counted over the observations of the runnable targets, however they were dealt out |
| `WorkspaceVerdict.StarredTestReportedStale` | scripts/ci/workspace_test_aggregate.py:106-111 | Otherwise it can: a run whose one failing test is the one known-red test, named `*`, fails when dealt to one shard, where a binary of that name passes afterwards, and is clean when dealt to two |
| `FleetVerdict.Grade` | scripts/ci/matrix_verdict.py:69-133 | No errors if and only if the sketch list is free of repeats, the rows are boards times sketches exactly once each, every status is a pass or a skip declared for that board, and every board has a pass; and on any rows exactly the errors are raised that they deserve, each for its own reason |
| `FleetVerdict.WholeFleet` | scripts/ci/matrix_verdict.py:111-118 | Within the fleet, the derived count is reached if and only if every cell is there and no sketch is listed twice |
| `SvdRegisters.CollectRegisters` | scripts/gen_debug_schemas.py:185-235 | Registers and clusters in document order, members of every copy shifted by base and stride |
| `SvdRegisters.ExpandRegisters` | scripts/gen_debug_schemas.py:256-283 | Register arrays unrolled at their stride |
| `SvdRegisters.PlainRegister` | scripts/gen_debug_schemas.py:264-269 | A register that is no array is listed once, at its own offset |
| `SvdRegisters.PlainCluster` | scripts/gen_debug_schemas.py:231-233 | The registers of a cluster that is none are listed once each, moved by its base |
| `SvdRegisters.PathIsListed` | scripts/gen_debug_schemas.py:185-283 | At the rank of every index path the flat list has the register it leads to, at the sum of bases, strides and its own offset |
| `SvdRegisters.ListEnumeratesPaths` | scripts/gen_debug_schemas.py:185-283 | The flat list has one place for each index path and none besides, in lexicographic order with outer indices major, at any depth of nesting |
| `YamlScalar.EscapedScalar` | scripts/gen_debug_schemas.py:129-156 | The escaping loop |
| `YamlScalar.EscapesRead` | scripts/gen_debug_schemas.py:129-156 | The inside of an escaped scalar, read by sections 5.7 and 7.3.1 of YAML 1.2.2, is the value if and only if the value has no surrogate; with one it does not read |
| `YamlScalar.EscapedOnLine` | scripts/gen_debug_schemas.py:118-156 | Every emitted character is printable and none ends a line |
| `YamlScalar.ScalarReadsBack` | scripts/gen_debug_schemas.py:159-182 | Whatever style is chosen, the text written reads back as the value if and only if it has no surrogate |
| `YamlScalar.StyleExact` | scripts/gen_debug_schemas.py:159-182 | Double quotes are used if and only if some character may not stand on a line; a value stays plain if and only if it is a plain scalar by section 7.3.3, does not start with `-`, `?` or `:`, and Python would not strip it |
| `YamlScalar.EscapedOnlyIfNeeded` | scripts/gen_debug_schemas.py:129-156 | Between double quotes a character is written as itself if and only if it may stand on a line and is no quote or backslash |
| `YamlScalar.ScalarOnLine` | scripts/gen_debug_schemas.py:159-182 | Whatever style is chosen, the text is one line of allowed characters |
| `RomImage.VmaRead` | scripts/make_esp32s3_rom_bins.py:79-86 | Each byte read is that of the last section covering its address, zero if none does |
| `RomImage.PopulateCopySources` | scripts/make_esp32s3_rom_bins.py:88-112 | The scan in place terminates and leaves the image, of the same length, that the recursion over offsets describes, reading entries from the image as already changed |
| `RomImage.FoundExact` | scripts/make_esp32s3_rom_bins.py:88-112 | The entries of an image are the sixteen-byte candidates at multiples of four, by their little-endian words, that do not begin inside an entry taken before: none is missed and none overlaps |
| `RomImage.CopyExact` | scripts/make_esp32s3_rom_bins.py:102-109 | An entry concerns the image bytes from its source on, as many as its destination has, as far as the image reaches |
| `RomImage.OthersKeep` | scripts/make_esp32s3_rom_bins.py:92-112 | A byte outside the source range of every entry with data keeps its value |
| `RomImage.LastFillWins` | scripts/make_esp32s3_rom_bins.py:92-112 | A byte that entries write ends up as the last of them wants it |
| `RomImage.ScanByte` | scripts/make_esp32s3_rom_bins.py:92-112 | Every byte afterwards: as the last entry to write it wants it, or as it was |
| `RomImage.TableExact` | scripts/make_esp32s3_rom_bins.py:92-112 | A table entry stands in the image afterwards as it was read if and only if what it and later entries write over it is what was there |
| `RomImage.BootExact` | scripts/make_esp32s3_rom_bins.py:62-74 | With its table standing, the ROM's own copy leaves the right byte at an address if and only if the last entry to write the source byte of the last entry for that address put it there, or it was there and none wrote it |
| `RomImage.BootFindsItsData` | scripts/make_esp32s3_rom_bins.py:62-74 | With sources that overlap neither each other nor the table, and zeros where the file has no data, the ROM's own copy, reading its table from the result, puts at every destination the byte the file holds for it |
| `RomImage.EntriesBeforehand` | scripts/make_esp32s3_rom_bins.py:92-112 | When every source with data lies behind its entry, the scan finds exactly the entries that stand in the image before it |
| `RomImage.BootFindsItsDataBeforehand` | scripts/make_esp32s3_rom_bins.py:62-74 | So the same holds under conditions on the image before the run alone |
| `RomImage.OverwrittenTableCopiesNothing` | scripts/make_esp32s3_rom_bins.py:92-112 | An image whose only entry is its own source: the fill destroys the entry and the ROM's copy writes nothing |
| `AckDigests.WriteAckDigests` | scripts/generate_validation_status.py:612-662 | The whole run over the boards |
| `AckDigests.StampBoard` | scripts/generate_validation_status.py:631-660 | The edit for one board: header, end of block, acknowledgement, then overwrite or insert |
| `AckDigests.StripExact` | scripts/generate_validation_status.py:631-660 | Stripping takes off the white space on either side and nothing else |
| `AckDigests.LinesTold` | scripts/generate_validation_status.py:631-660 | Headers, acknowledgements and digests are told by their text, white space around them aside |
| `AckDigests.StampBlockMeans` | scripts/generate_validation_status.py:641-660 | The block's digest line becomes the wanted one, only digest lines change, and a second stamp changes nothing |
| `AckDigests.OtherBlocksKept` | scripts/generate_validation_status.py:630-648 | No other board's block changes |
| `AckDigests.OnlyDigestLinesChange` | scripts/generate_validation_status.py:650-660 | With digest lines left out, the file is line for line what it was |
| `AckDigests.RunStampsItsBoards` | scripts/generate_validation_status.py:612-662 | After the run every board in play carries its own digest under its own acknowledgement, every other block is untouched and no other line has changed |
| `AckDigests.StampsCommute` | scripts/generate_validation_status.py:631-660 | Edits for different boards may be done in either order |
| `AckDigests.SecondRunChangesNothing` | scripts/generate_validation_status.py:612-662 | A second run over the same boards changes nothing |

## Left out

- The simulation engine: CPU, bus and peripheral models, and the command line.
- Downloads, caches, hashes, subprocesses and file access: digests and reports are given values.
- gzip decompression and Python's `tarfile`: `BoundedTar` takes the expanded stream and a function that reads one header block.
- The fixed table of nodes, addresses and phandles that `validate_dtb` compares with after the walk, and pinned sizes and hashes: comparisons with constants.
- The bound on the initrd's end that the basket's `validate_dtb` tests first: a comparison with constants.
- Devicetree padding bytes, which the walk does not inspect: soundness is stated on tokens.
- CpioRoundTrip.NewcInjective: is about device numbers that fit eight characters, because wider ones do collide.
- Serial timing, the knock that starts the bootloader and the closing OK banner: a link is described by what arrives and what is read in each attempt.
- SerialLink.AcknowledgedIsProgrammed: says nothing for a link that forges a passing frame, or an acknowledgement of a block that was not acknowledged; what happens then is for the exact statements beside it.
- The flash controller's registers: whether a page can be erased and programmed is a given function of its address.
- How the test runner's output is parsed, and report texts: observations and reports are records, and failures are constructors.
- WorkspaceVerdict.VerdictExact: assumes that every shard that builds sees the same targets and the same observations.
- Register names in SVD expansion, field positions and `derivedFrom`: offsets, counts and order only.
- Resolution of plain YAML scalars to other types.
- Reading the ELF file's headers: sections are given.
- The 32-bit clock read and single-pass reads, beyond the remarks beside `SimClock.Read64`: word arithmetic.
- RomImage.BootFindsItsData: what the ROM does with a quadruple that is no longer an entry is not modelled.
- Computing model digests and drift in `generate_validation_status.py`: which boards are in play is given by their recorded fields.
- Callgrind and wall-clock scripts, evidence collectors and diagnostic handlers.
