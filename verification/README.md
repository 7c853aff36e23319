# Verified model of the BBC Micro FujiNet client's algorithms

This project models, in Dafny, the self-contained algorithms of the repository and proves what they are for.

- **DFS disc images.** `SsdWriter` is the sector allocator and catalogue writer, `DfsCatalogue` the independent
  catalogue reader and repairer, `SsdAgreement` the two proved against each other, `StableSort` the sort both use.
- **FujiBus device state machines.** `SlotCatalog` (paged sparse catalogue), `HostHistory` (bounded
  most-recently-used history), `DiskServer` (slots aliasing shared growable images), `NetworkServer` (handles,
  sparse writes, chunked reads). The last three are classes over mutable maps; each method is proved equal to a
  step function, and the results over whole runs are proved about that function.
- **BASIC and 6502 client.** `Slip` (framing of RFC 1055, section PROTOCOL), `Checksum` (BASIC and 6502 loops),
  `Link` (a packet built, sent, received and checked), `JsonScan` (16-bit pattern and quoted-string scan),
  `ChunkedRead` (the two chunked stream readers).
- **Transducers and screen arithmetic.** `SevenBit`, `TraceFilter`, `ScreenRing`.

A second group of modules says what these parts do as seen from outside, with every constant and offset written out
and without the functions the models are made of: `SlotCatalogPages`, `SsdBytes`, `DiskReplies`, `NetworkReplies`,
`HostRequests`, `TcpTranscript`, `TraceLines` and `Formats` (packets, frames, READ replies, quoted strings).

`Bytes` holds bytes, 16-bit zero-page words with carry and borrow, the zero-filled overlay of a write into a
bytearray, and a few division facts.

Where the code falls short of its intent, the code is modelled as it is and its exact condition is proved:

- the SLIP receiver stores the raw byte again after unescaping it (`store_char` reloads &79), so it returns the
  packet exactly when the packet has no END and no ESCAPE (`RoundTrip`, `WrittenFollowsIntended`; input:
  `EndComesBackAsCode`), and the checksum misses the change exactly when what the bytes gain cancels out modulo 255
  (`DefectUnnoticed`; input: `DefectSlipsThrough`);
- a changed length byte is missed by the checksum exactly when the bytes it brings in or leaves out make up for it
  modulo 255 (`CorruptionDetected`; input: `LengthChangeSlipsThrough`);
- a catalogue slot reads back exactly when the directory is 1 to 127, the name ends in neither space nor NUL and
  the addresses have 18 bits (`EncodeDecode`, `CatalogueReadsBack`; inputs: `UnreadableFiles`);
- writer and repairer disagree on files that share a start sector unless those were given in the order the repairer
  lists them: empty files ascending by directory and name, the non-empty file after them lowest
  (`RepairLeavesWrittenCatalogue`; input: `EmptyFilesDisagree`);
- slot paging repeats one page for ever when a record does not fit alone, and a page of 256 records cannot state
  its count (`DrainIsLossless`; inputs: `OversizedRecordRepeats`, `FullPageRaises`); a URI limit of 0 in tail mode keeps the whole URI
  (`Cut`);
- every sector write goes to the base image whatever slot it names (`ReadAfterWrite`; input: `WriteToCopyIsLost`),
  and slots 0 and 1 share drive 0 (`DrivesStayMatched`, `DrivesAreSlotsLessOne`; input: `SharedDriveIsLost`);
- `PROCnetwork_read_all` gets a source of up to 701 bytes; from 702 to 720 bytes it stops with 540, and beyond it
  never stops (`ReadAllOutcome`);
- `FNtcp_read_exact_payload` copies nothing out of `rxPacket`, where every chunk lands on the one before: the count is
  right, but the caller finds the bytes counted only when they came as one chunk of at most 280 (`OneChunkReads`,
  `ServerPayload`; input: `SecondChunkOverwrites`);
- a BBC BASIC `FOR` loop runs its body at least once, so the BASIC checksum of a zero length still adds the first
  byte while the 6502 one does not (`LoopsAgree`; input: `LoopsDiffer`);
- the two-peek screen read follows the ring as long as it does not go round twice (`PeeksFollowRing`).

Python's `&`, `|`, `>>` on disjoint fields are written with `%`, `+`, `/`; `ExtraBitsIsOr` and `DirByteIsOr` relate
the sums to bitwise OR. Python's floor division and remainder agree with Dafny's for the positive divisors used.
Text is sequences of bytes (UTF-8 or Latin-1) or code points. `fujinet_tools` is not part of this model: reply
bodies and statuses are modelled, the FujiBus response wrapper is not.

## Model

| member | source | states |
|---|---|---|
| StableSort.SortSorts | scripts/fix_dfs_catalog.py:150 | the sort is ordered and a permutation, for any total preorder |
| StableSort.SortIsStable | scripts/create_ssd.py:341-343 | items with tying keys keep their original order, as Python's sorted promises |
| StableSort.SortListsPairs | scripts/create_ssd.py:341-343 | any relation holds of every two items as sorted if and only if it holds of every two as a stable sort lists them: lower first, ties as given |
| DfsCatalogue.EncodeDecode | scripts/fix_dfs_catalog.py:64-99 | an entry written to a slot reads back as itself if and only if nothing had to be cut or masked |
| DfsCatalogue.DecodeEncoded | scripts/fix_dfs_catalog.py:125-139 | for every entry, what reading back the written slot gives: stripped name, masked directory, numbers modulo 2^18 and 2^10 |
| DfsCatalogue.DecodedIsCanonical | scripts/fix_dfs_catalog.py:66-87 | whatever bytes a slot holds, an entry read from it can be written without loss |
| DfsCatalogue.NumbersRoundTrip | scripts/fix_dfs_catalog.py:84-87 | the bit-packed load, exec, length and start come back modulo their field widths |
| DfsCatalogue.ExtraBitsIsOr | scripts/fix_dfs_catalog.py:107-112 | the sum used for the packed byte is the bitwise OR of the shifted fields |
| DfsCatalogue.DirByteIsOr | scripts/fix_dfs_catalog.py:128 | the attribute byte is the OR of lock bit and directory |
| DfsCatalogue.ParseHeld | scripts/fix_dfs_catalog.py:57-68 | parsing finds exactly the entries in the first slots, skipping blanks, even if the count byte is too large |
| DfsCatalogue.EntryLeIsOrder | scripts/fix_dfs_catalog.py:144-145 | the repair key is a total preorder on entries |
| DfsCatalogue.RepairIsProjection | scripts/fix_dfs_catalog.py:148-151 | for every 512 bytes: the repaired catalogue parses to the sorted permutation of the entries, keeps both headers, and repairing again changes nothing |
| DfsCatalogue.ParseCatalogue | scripts/fix_dfs_catalog.py:50-101 | the loop returns both sectors, the capped count and exactly the present entries; a wrong size fails |
| DfsCatalogue.BuildCatalogue | scripts/fix_dfs_catalog.py:115-141 | the in-place fill equals the layout of headers, encoded slots and zeros |
| DfsCatalogue.FixCatalogueBytes | scripts/fix_dfs_catalog.py:148-151 | the repaired bytes, the entries found, and the entries that parsing the result would find |
| DfsCatalogue.FirstEntriesOnly | scripts/fix_dfs_catalog.py:122 | of more than 31 entries the first 31 are written |
| SsdBytes.SlotSays | scripts/fix_dfs_catalog.py:64-99 | what each of the sixteen bytes of a slot says, for any bytes |
| SsdBytes.ParseSays | scripts/fix_dfs_catalog.py:57-68 | parsing reports, in order, just the first min(count byte / 8, 31) slots whose names are not blank |
| SsdBytes.TextLeIsDictionary | scripts/fix_dfs_catalog.py:144-145 | names are ordered by their first difference |
| SsdBytes.RepairedOrder | scripts/fix_dfs_catalog.py:144-151 | a repaired catalogue lists start sectors downwards, then directories, then names upwards |
| SsdWriter.Allocate | scripts/create_ssd.py:323-334 | first bad name reported; otherwise contiguous placement from sector 2, the end sector and the padded data area |
| SsdWriter.FillSlots | scripts/create_ssd.py:341-359 | one slot per file in catalogue order; fails exactly when a directory does not fit a byte |
| SsdWriter.FillHeader | scripts/create_ssd.py:360-363 | the four header bytes after the title |
| SsdWriter.WriteSsd | scripts/create_ssd.py:304-364 | the image, or the first error in the order the code meets them |
| SsdBytes.WrittenIf | scripts/create_ssd.py:313-358 | an image is written if and only if there are at most 31 files, 2 to 1023 sectors that they fit, an ASCII title, ASCII names of 1 to 7 characters and one-byte directories |
| SsdBytes.RefusedBecause | scripts/create_ssd.py:313-358 | the first thing wrong, in the order the code meets it, is the error |
| SsdBytes.FileStarts | scripts/create_ssd.py:323-334 | every file is catalogued at 2 plus the sectors of the files given before it |
| SsdBytes.CatalogueBytes | scripts/create_ssd.py:341-359 | the sixteen bytes of each catalogued file, and zeros in the slots after them |
| SsdBytes.HeaderBytes | scripts/create_ssd.py:319-363 | the sixteen header bytes: twelve of the title padded with zeros, cycle, count, boot option, disc size |
| SsdBytes.DataBytes | scripts/create_ssd.py:326-364 | the image's size, and in each file's sectors its bytes and then zeros |
| SsdWriter.WriterMatchesRepairer | scripts/create_ssd.py:344-359 | the writer's slot format is the repairer's, for every file |
| SsdWriter.ZeroGapOrder | scripts/create_ssd.py:338-343 | every file ends exactly where the one listed above it starts, the last starts at sector 2, extents are disjoint and end by the last allocated sector, with any mix of empty files |
| SsdWriter.CatalogueReadsBack | scripts/create_ssd.py:341-363 | parsing a written image gives every file's metadata in catalogue order if and only if each file's metadata can survive a slot |
| SsdWriter.UnreadableFiles | scripts/create_ssd.py:347-349 | a directory over 127 and a name ending in a space are written and do not read back |
| SsdWriter.BodiesReadBack | scripts/create_ssd.py:326-334 | each catalogued file's bytes are in the image at its start sector |
| SsdWriter.HeaderReadsBack | scripts/create_ssd.py:319-322 | title, cycle 0, file count, boot option none and disc size read back from the image |
| SsdWriter.SlotReadsBack | scripts/create_ssd.py:346-359 | start sectors and lengths never lose bits on a disc of at most 1023 sectors; the rest reads back exactly for readable metadata |
| SsdAgreement.SlotRewritten | scripts/fix_dfs_catalog.py:66-73 | the repairer rewrites a written slot to itself if and only if its name and directory are stable |
| SsdAgreement.TiesAsListed | scripts/create_ssd.py:341-343 | the writer's sort lists files on one start sector in repair order if and only if the given list had the empty ones ascending and the non-empty one lowest |
| SsdAgreement.RepairLeavesWrittenCatalogue | scripts/fix_dfs_catalog.py:144-151 | a written catalogue is a fixed point of the repair if and only if every file is stable and files sharing a start sector were given in the order the repairer lists them |
| SsdAgreement.DistinctStartsAgree | scripts/create_ssd.py:341-343 | when no file but the last is empty, only name and directory stability matter |
| SsdAgreement.EmptyFilesDisagree | scripts/fix_dfs_catalog.py:144-145 | two empty files on which writer and repairer disagree |
| SlotCatalog.PresenceBit | integration-tests/beebium/fuji_device.py:99-107 | bit r of the bitmap is set if and only if slot lower + r is populated |
| SlotCatalog.EveryPageHasPresence | integration-tests/beebium/fuji_device.py:99-107 | every page carries that bitmap, whatever the cursor |
| SlotCatalog.RecordsOrdered | integration-tests/beebium/fuji_device.py:102-115 | only populated slots in range yield records, ascending |
| SlotCatalog.RecordsComplete | integration-tests/beebium/fuji_device.py:102-115 | no populated slot in range is left out |
| SlotCatalog.NextAdvances | integration-tests/beebium/fuji_device.py:127-130 | a page with records and more to come leads to a strictly later slot where the remaining records start |
| SlotCatalog.DrainIsLossless | integration-tests/beebium/fuji_device.py:117-138 | repeating the request at next_index ends and concatenates to exactly all records, if and only if every record fits alone and they are not one page of 256 |
| SlotCatalog.OversizedRecordRepeats | integration-tests/beebium/fuji_device.py:127-130 | a slot whose record does not fit gets an empty page that names its own cursor |
| SlotCatalog.FullPageRaises | integration-tests/beebium/fuji_device.py:134 | 256 records that all fit make a page whose count raises |
| SlotCatalog.RecordsReadBack | integration-tests/beebium/fuji_device.py:112-126 | unformatted records read back as the slots' indexes, flags and cut URIs |
| SlotCatalog.Collect | integration-tests/beebium/fuji_device.py:99-115 | the first loop builds the bitmap and the tuples from the cursor on |
| SlotCatalog.FillPage | integration-tests/beebium/fuji_device.py:117-132 | the second loop takes whole records until one does not fit, and stops where building one raises |
| SlotCatalog.BuildResponse | integration-tests/beebium/fuji_device.py:90-138 | the whole reply: status 2, a ValueError, or the page and its body bytes, which always fit their fields |
| SlotCatalog.BodyReadsBack | integration-tests/beebium/fuji_device.py:133-135 | a reply body reads back as its page and its formatted flag |
| SlotCatalogPages.PageSays | integration-tests/beebium/fuji_device.py:97-138 | every byte of a page with status 0 from the bytes of the request: the slots listed, each record's index, flags, end or front of the URI and decimal digits, and why it stops |
| SlotCatalogPages.RaisesBecause | integration-tests/beebium/fuji_device.py:122-134 | a ValueError comes of a URI of more than 255 bytes that a limit of 0 does not cut, or of 256 records |
| SlotCatalogPages.TurnedRoundRaises | integration-tests/beebium/fuji_device.py:97-100 | a range turned round by more than 8 raises |
| SlotCatalogPages.BitmapSays | integration-tests/beebium/fuji_device.py:99-107 | each bit of the bitmap, least significant first, unused ones clear |
| HostHistory.HostService.constructor | integration-tests/beebium/fuji_device.py:505-519 | initial hosts are promoted in order |
| HostHistory.HostService.PromoteUri | integration-tests/beebium/fuji_device.py:510-516 | the URI moves to the front and the list is cut to 32, staying duplicate-free |
| HostHistory.HostService.Respond | integration-tests/beebium/fuji_device.py:527-556 | state and status after each request, in every branch |
| HostRequests.Statuses | integration-tests/beebium/fuji_device.py:527-556 | each status comes exactly under its own condition on the request, and any but 0 leaves the state alone |
| HostRequests.SelectPromotes | integration-tests/beebium/fuji_device.py:546-550 | SELECT brings the URI at its index to the front and makes it current |
| HostRequests.DeleteRemoves | integration-tests/beebium/fuji_device.py:551-555 | DELETE takes out the URI at its index and leaves the current host |
| HostRequests.SetWithColon | integration-tests/beebium/fuji_device.py:521-542 | SET of a spec with a colon makes it current and first |
| HostRequests.SetUnderBase | integration-tests/beebium/fuji_device.py:521-542 | any other spec goes under the current host less its final slashes |
| HostRequests.SetCovered | integration-tests/beebium/fuji_device.py:536-542 | every SET request names a spec and every current host has such a base |
| HostRequests.ReadsChangeNothing | integration-tests/beebium/fuji_device.py:532-545 | GET and LIST leave the state alone |
| HostHistory.LiveCharacterised | integration-tests/beebium/fuji_device.py:510-516 | the unbounded reference list: distinct, exactly the URIs promoted and not deleted since, latest promotion first |
| HostHistory.HistoryIsFrontOfLive | integration-tests/beebium/fuji_device.py:510-516 | after any promotions and deletions the history is a front of that list, at most 32, and all of its first 32 without deletions |
| HostHistory.HistoryHolds | integration-tests/beebium/fuji_device.py:510-516 | with deletions too, a URI is in the history if and only if it was promoted and since then neither deleted nor pushed past place 32 of the unbounded list |
| HostHistory.EveryRun | integration-tests/beebium/fuji_device.py:505-558 | both over every run of requests from any initial hosts |
| HostHistory.CurrentIsLastPromoted | integration-tests/beebium/fuji_device.py:510-516 | the current host is the last one promoted; deleting does not change it |
| DiskServer.WriteThenByte | integration-tests/beebium/fuji_device.py:1172-1178 | a growing write changes exactly the bytes it covers of the zero-extended image |
| DiskServer.ReadIsBytes | integration-tests/beebium/fuji_device.py:1294-1303 | a sector read is the zero-extended image's bytes up to the requested count, then zeros |
| DiskServer.ImagesReplay | integration-tests/beebium/fuji_device.py:1244-1311 | over every run each image equals, byte for byte, the replay of the run's writes, creations and reinitialisations |
| DiskServer.BaseReadsReplay | integration-tests/beebium/fuji_device.py:1294-1311 | a full-sector read through any slot holding the base image is that replay |
| DiskServer.ReadAfterWrite | integration-tests/beebium/fuji_device.py:1304-1311 | after a sector write a slot reads the data back if and only if it holds the base image or showed the data already |
| DiskServer.WriteToCopyIsLost | integration-tests/beebium/fuji_device.py:1304-1311 | a sector written to a slot that holds a copy does not read back from it |
| DiskServer.DrivesStayMatched | integration-tests/beebium/fuji_device.py:1244-1265 | mapped drives keep matching mounted slots except when one of slots 0 and 1 is unmounted under the other |
| DiskServer.DrivesAreSlotsLessOne | integration-tests/beebium/fuji_device.py:1244-1265 | over every run, mapped drives are exactly the mounted slots less one if and only if the last effective request on slots 0 or 1 and the last on slot 1 are of a kind; always, while slot 0 is unused |
| DiskServer.SharedDriveIsLost | integration-tests/beebium/fuji_device.py:1244-1265 | slot 1 mounted, slot 0 mounted and unmounted: slot 1 is mounted and drive 0 is not mapped |
| DiskServer.MountLasts | integration-tests/beebium/fuji_device.py:1244-1265 | over every run, from a successful MOUNT until a request for its drive, the slot holds the image found then and the drive lists its URI and mode |
| DiskServer.BaseUriUntilRecreated | integration-tests/beebium/fuji_device.py:1230-1243 | over every run a URI leads to the base image if and only if no CREATE has taken that spelling |
| DiskServer.Responder.constructor | integration-tests/beebium/fuji_device.py:1150-1163 | the image under its URI and last component, copies under the other URIs that alias neither the image nor one another |
| DiskServer.Responder.CreateImage | integration-tests/beebium/fuji_device.py:1230-1243 | a new zero image becomes available under both spellings |
| DiskServer.Responder.MountImage | integration-tests/beebium/fuji_device.py:1244-1260 | slot and drive map to the shared image, or status 5 and no change |
| DiskServer.Responder.UnmountImage | integration-tests/beebium/fuji_device.py:1261-1265 | slot and drive are forgotten |
| DiskServer.Responder.ReinitializeImage | integration-tests/beebium/fuji_device.py:1266-1286 | the slot's image becomes blank in place, seen by every alias, or status 5 |
| DiskServer.Responder.WriteImage | integration-tests/beebium/fuji_device.py:1172-1178 | the base image is written in place whatever slot is named |
| DiskServer.Responder.Respond | integration-tests/beebium/fuji_device.py:1221-1311 | state and reply of every disk command equal the step function's |
| DiskReplies.MountAnswered | integration-tests/beebium/fuji_device.py:1244-1260 | over every run MOUNT is answered 0 exactly when the URI can be mounted, with the size that INFO then gives; otherwise 5, changing nothing |
| DiskReplies.InfoAnswered | integration-tests/beebium/fuji_device.py:1287-1293 | over every run INFO says mounted exactly when the slot's last effective MOUNT or UNMOUNT was a MOUNT, and gives the image's size |
| DiskReplies.UnmountAnswered | integration-tests/beebium/fuji_device.py:1261-1265 | after UNMOUNT, INFO says not mounted |
| DiskReplies.CreateAnswered | integration-tests/beebium/fuji_device.py:1230-1243 | after CREATE each spelling leads to that many zero sectors, at least one |
| DiskReplies.ReinitializeAnswered | integration-tests/beebium/fuji_device.py:1266-1286 | over every run REINITIALIZE is answered 0 exactly for a mounted slot and 400 or 800 sectors of 256; then it and its aliases hold the blank disc; otherwise 5, changing nothing |
| DiskReplies.ReadAnswered | integration-tests/beebium/fuji_device.py:1294-1303 | each of the 256 bytes a sector read gives |
| DiskReplies.WriteAnswered | integration-tests/beebium/fuji_device.py:1304-1311 | the number of bytes given, all of them then in the base image |
| DiskReplies.CreateNames | integration-tests/beebium/fuji_device.py:1230-1243 | the second spelling is under the folder of the served image's URI |
| DiskReplies.LastComponentIs | integration-tests/beebium/fuji_device.py:1157-1160 | the served image's second spelling is what follows the last slash |
| NetworkServer.HandlesInOrder | integration-tests/beebium/fuji_device.py:876-884 | handles are numbered by the OPENs so far and only issued ones are live |
| NetworkServer.HandlesNeverReused | integration-tests/beebium/fuji_device.py:876-884 | an OPEN's handle is fresh and no later OPEN gets it again |
| NetworkServer.OtherHandlesUntouched | integration-tests/beebium/fuji_device.py:872-938 | a request on one handle leaves every other handle as it was |
| NetworkServer.ClosedForGood | integration-tests/beebium/fuji_device.py:934-937 | a closed handle never becomes live again |
| NetworkServer.WrittenIsOverlay | integration-tests/beebium/fuji_device.py:905-914 | over every run a handle's written bytes are the zero-filled overlay of the writes since it was opened |
| NetworkServer.ConsecutiveWritesJoin | integration-tests/beebium/fuji_device.py:910-913 | writes that each start where the last ended concatenate |
| NetworkServer.EchoReadsOverlay | integration-tests/beebium/fuji_device.py:862-870 | an echo read returns the requested window of that overlay and eof exactly at its end |
| NetworkServer.Server.OpenHandle | integration-tests/beebium/fuji_device.py:876-888 | a fresh handle object is entered; the reply raises past 65535 |
| NetworkServer.Server.WriteHandle | integration-tests/beebium/fuji_device.py:905-914 | zero-extend and overwrite in place, or failure on an unknown handle |
| NetworkServer.Server.TranslateHandle | integration-tests/beebium/fuji_device.py:924-933 | the translated value is stored and measured |
| NetworkServer.Server.ReadHandle | integration-tests/beebium/fuji_device.py:889-895 | the chunk and eof of the handle's source; empty and eof when unknown |
| NetworkServer.Server.Respond | integration-tests/beebium/fuji_device.py:872-938 | state and reply of every command equal the step function's |
| NetworkReplies.OpenAnswered | integration-tests/beebium/fuji_device.py:876-888 | the k-th OPEN gets handle 0x1200 + k until that needs more than 16 bits, and is writable unless a plain GET |
| NetworkReplies.OpenThenRead | integration-tests/beebium/fuji_device.py:842-870 | a new connection reads as the page at its URL without the query, or nothing |
| NetworkReplies.TranslateThenRead | integration-tests/beebium/fuji_device.py:853-933 | after TRANSLATE_CONFIGURE, READ gives the selected value; INFO too, except on the echo URL |
| NetworkReplies.WriteThenRead | integration-tests/beebium/fuji_device.py:896-914 | what WRITE answers and which of READ and INFO notice it |
| NetworkReplies.DeadHandle | integration-tests/beebium/fuji_device.py:889-938 | what every request answers on a handle that is not live |
| NetworkReplies.ReadsChangeNothing | integration-tests/beebium/fuji_device.py:889-923 | reads and INFO leave every handle alone |
| Slip.Transmit | bas/bwc/bwc.bas:563-623 | the 16-bit send loop emits END, the escaped packet, END |
| Slip.EscapeHasNoEnd | bas/bwc/bwc.bas:563-585 | escaped bytes never contain END |
| Slip.ReceiveMachine.StoreChar | bas/bwc/bwc.bas:710-729 | stores the raw byte while there is room, fails at capacity, and never writes past it |
| Slip.ReceiveMachine.Accept | bas/bwc/bwc.bas:639-729 | one received byte moves the zero-page machine as the transition function says |
| Slip.Receive | bas/bwc/bwc.bas:639-737 | the length and bytes left for the caller, for every input |
| Slip.RoundTrip | bas/bwc/bwc.bas:683-737 | after noise and extra ENDs a transmitted packet is received, unchanged by the intended machine, and by the written one if and only if it has no END or ESCAPE; a longer one fails |
| Slip.EndComesBackAsCode | bas/bwc/bwc.bas:691-720 | a packet of one END comes back as its escape code from the machine as written |
| Slip.AcceptsExactlyFrames | bas/bwc/bwc.bas:639-708 | the intended machine accepts exactly the inputs that carry a frame, and yields its packet |
| Slip.WrittenFollowsIntended | bas/bwc/bwc.bas:691-720 | on every input the written machine is the intended one with escape codes in place of escaped bytes |
| Formats.WireForm | bas/bwc/bwc.bas:563-623 | C0 around the packet, C0 inside as DB DC and DB as DB DD |
| Formats.WrittenBytes | bas/bwc/bwc.bas:691-720 | what the receiver as written stores for each packet byte |
| Checksum.FnChecksum | bas/bwc/bwc.bas:327-333 | the BASIC loop folds the range, at least one byte |
| Checksum.CalcChecksum | bas/net/net_test_asm.bas:296-330 | the 6502 loop with its two-byte countdown folds exactly the range |
| Checksum.LoopsAgree | bas/net/net_test_asm.bas:300-302 | the two loops agree if and only if the range is not empty or starts with 0 |
| Checksum.LoopsDiffer | bas/bwc/bwc.bas:330-333 | a nonzero first byte and a length of 0 on which the two loops differ |
| Checksum.FoldClosedForm | bas/bwc/bwc.bas:330-333 | the fold is 0 when all bytes are 0 and otherwise ((sum - 1) mod 255) + 1 |
| Checksum.ChangeUnnoticed | bas/bwc/bwc.bas:330-333 | a changed byte goes unnoticed if and only if it swaps 0 and 255 and another byte is nonzero |
| Checksum.BuildFujibusPacket | bas/bwc/bwc.bas:335-344 | header, length and checksum are written around the payload and nothing else changes |
| Checksum.PacketChecksumOk | bas/bwc/bwc.bas:349-356 | compares against the sum with the checksum byte zeroed and leaves the buffer unchanged |
| Checksum.BuiltPacketPasses | bas/bwc/bwc.bas:335-356 | every built packet passes the check whatever follows it in memory |
| Formats.PacketBytes | bas/bwc/bwc.bas:335-344 | every byte of a built packet, the checksum in closed form |
| Formats.CheckIs | bas/bwc/bwc.bas:349-356 | the check compares byte 4 with the closed form of the sum of the others |
| Checksum.CorruptionDetected | bas/bwc/bwc.bas:349-356 | a good packet in memory with any one byte changed still passes if and only if 0 and 255 were swapped outside length and checksum and another summed byte is nonzero, or a length byte changed and the bytes brought in or left out make up for it modulo 255 |
| Checksum.LengthChangeSlipsThrough | bas/bwc/bwc.bas:349-356 | a length of 6 turned into 7 in front of a stale byte that still passes |
| Link.DefectUnnoticed | bas/bwc/bwc.bas:349-356 | a good packet stored by the receive machine as written passes the check if and only if what its bytes gained, with what a changed length brings in, less what its checksum gained is a multiple of 255 |
| Link.EndToEnd | bas/bwc/bwc.bas:335-356 | a good packet, request or reply, framed and sent, reaches the intended receiver unchanged and passes; the receiver as written gets escape codes and accepts them under that condition |
| Link.BuiltPacketIsGood | bas/bwc/bwc.bas:335-344 | requests the client builds are such packets |
| Link.DefectSlipsThrough | bas/bwc/bwc.bas:358-371 | a READ reply whose data byte is received wrong and which still passes every check of the client |
| JsonScan.MatchPattern | bas/chuck/chuck-old.bas:463-516 | carry set if and only if the pattern is there; all reads inside both buffers |
| JsonScan.Search | bas/chuck/chuck-old.bas:334-376 | the first occurrence, or none |
| JsonScan.Skip | bas/chuck/chuck-old.bas:396-413 | pointer and remaining count move by the pattern length |
| JsonScan.ScanValue | bas/chuck/chuck-old.bas:415-461 | the distance to the first quote preceded by an even run of backslashes, or none |
| JsonScan.FindJsonField | bas/chuck/chuck-old.bas:332-461 | position after the first occurrence and value length, or (FFFF, 0) |
| JsonScan.EscapedStringFound | bas/chuck/chuck-old.bas:422-461 | whatever a JSON string contains, the scan of its escaped form ends exactly at its closing quote |
| Formats.ClosingQuote | bas/chuck/chuck-old.bas:422-461 | a quote closes the value exactly when an even run of backslashes ends before it |
| ChunkedRead.ReplyFieldsFound | integration-tests/beebium/fuji_device.py:694-702 | the client finds length, eof, offset and data where the device put them |
| Formats.ReadReplyBytes | integration-tests/beebium/fuji_device.py:694-702 | every byte of a READ reply's body |
| ChunkedRead.JokeClient.AppendReadChunk | bas/chuck/chuck-old.bas:823-831 | appends a chunk that fits in 701 bytes, otherwise refuses and changes nothing |
| ChunkedRead.PassesThatFit | bas/chuck/chuck-old.bas:833-847 | up to 701 bytes: offset equals received length, a prefix is held, eof comes exactly with the last byte |
| ChunkedRead.ReadAllOutcome | bas/chuck/chuck-old.bas:833-847 | whole source up to 701 bytes, 540 bytes up to 720, no end beyond |
| ChunkedRead.JokeClient.OnePass | bas/chuck/chuck-old.bas:838-845 | one request against the network server is one pass |
| ChunkedRead.JokeClient.ReadAll | bas/chuck/chuck-old.bas:833-847 | run against the network server, a prefix is held at the first request not answered OK, or else the loop ends at eof with the source, or its first 540 bytes past 701 |
| ChunkedRead.TcpClient.ReadExactPayload | bas/bwc/bwc.bas:223-245 | for any exchanges the loop ends, the cursor moves by exactly the count returned, the count is within the request, and rxPacket holds what the exchanges stored over one another |
| TcpTranscript.ReadIsLog | bas/bwc/bwc.bas:223-245 | for any device the read is the log of its exchanges up to the first that ends it, from the bytes of rxPacket: what each asks, what it counts, when another follows |
| TcpTranscript.EarlierAreGood | bas/bwc/bwc.bas:279-288 | every exchange but the last was accepted with status 0, 3 or 4, and a status 0 had data and echoed the cursor |
| TcpTranscript.FailureCountsNothing | bas/bwc/bwc.bas:231-239 | an exchange that fails, has another status or echoes anything else counts nothing |
| ChunkedRead.ServerCountIsExact | bas/bwc/bwc.bas:223-245 | against a server that is not always ready the count is all that was asked for, or all there is, if and only if some front of the requests holds a ready one for each 280-byte chunk and never more than the retries running that are not |
| ChunkedRead.ServerReadOutcome | bas/bwc/bwc.bas:223-245 | in every case the count is a full chunk for each one that arrives, the last cut short, and the payload is those chunks stored over one another |
| Formats.BufferSizes | bas/bwc/bwc.bas:7-16 | rxPacket has 321 bytes, 320 of them received into, data from byte 19 |
| ChunkedRead.ServerPayload | bas/bwc/bwc.bas:275-276 | a count of at most 280 comes with its bytes; after more, FNpayload_byte reads the last chunk, behind it what it left of the one before, behind that what was in rxPacket |
| ChunkedRead.OneChunkReads | bas/bwc/bwc.bas:223-245 | the caller finds the bytes counted, whatever they are, if and only if the count is at most one chunk |
| ChunkedRead.SecondChunkOverwrites | bas/bwc/bwc.bas:223-245 | 281 bytes counted, of which the first one read is the last |
| SevenBit.DecodePayload | scripts/edit_tf_convert.py:94-113 | 1000 values below 128 from 875 or more bytes; fewer fail with the count reached |
| SevenBit.ValueBits | scripts/edit_tf_convert.py:102-105 | bit t of value i is bit 7i + t of the byte string |
| SevenBit.UnpackInvertsPack | scripts/edit_tf_convert.py:88-105 | unpacking inverts seven-bit packing and ignores later bytes |
| SevenBit.PackInvertsUnpack | scripts/edit_tf_convert.py:88-105 | packing the values restores the first 875 bytes |
| TraceFilter.RomTagIsPattern | scripts/filter_trace.py:30-36 | the scan finds a tag exactly on the lines the pattern matches |
| TraceFilter.FilterStream | scripts/filter_trace.py:39-102 | the one-pass filter equals the batch collapse of maximal foreign runs |
| TraceFilter.Idempotent | scripts/filter_trace.py:39-102 | filtering twice is filtering once |
| TraceFilter.NeverLonger | scripts/filter_trace.py:39-102 | never more lines out than in |
| TraceLines.FilterShows | scripts/filter_trace.py:39-102 | line by line: all lines of kept ROMs and untagged lines verbatim and in order, others unless they stand between two others, and one ellipsis for each gap |
| TraceLines.Classes | scripts/filter_trace.py:30-30 | the pattern's character classes by code point |
| ScreenRing.BaseIsWholeScreens | scripts/b2-http.py:154-176 | the base is whole screens from the wrap point and base + offset is the aligned start |
| ScreenRing.PeeksFollowRing | scripts/b2-http.py:180-207 | byte k of the joined peeks is at base + ((offset + k) mod size) for every k if and only if the read does not go round twice |
| ScreenRing.RequestsMade | scripts/b2-http.py:162-205 | which one or two requests are made, and when none is |
| ScreenRing.LineFollowsRing | scripts/extract_screen.py:52-61 | a line's bytes follow the ring, and it has all of them if and only if the wrap needs at most one more dump |
| ScreenRing.TextFollowsRing | scripts/extract_screen.py:50-75 | character k of line n is the byte of the dump that many places round from the display's start, or a dot |
| ScreenRing.ExtractScreen | scripts/extract_screen.py:35-86 | the lines printed, or failure on an empty dump |

## Left out

- ChunkedRead.JokeClient.ReadAll: takes a source of at most 720 bytes or some request that is not answered OK, because otherwise the loop never ends, as ReadAllOutcome proves.
- JsonScan.FindJsonField: takes buffers that end by the top of memory; one that runs on into zero page would be overwritten by the search's own counters.
- Checksum.PacketChecksumOk: takes a length field that stays inside the modelled memory.
- SsdWriter.WriteSsd: takes addresses already parsed to integers and contents already read; `parse_hex_address`, file access and a directory of more than one character are not modelled.
- ScreenRing.PeeksFollowRing: the HTTP requests are replaced by the addresses they name.
- ChunkedRead.ServerReadOutcome: takes packets sent while not ready to carry no data, and leaves whether a reply is accepted (device, command, checksum) to the exchange; `Link` has those checks.
- Serial timeouts, OSBYTE and OSWRCH calls, screen restoring and buffer flushing: a received stream is a sequence and a timeout is its end.
- Retry and pause around single requests in the BASIC programs (`FNsend_request_retry`, `PROCpause`).
- Parsing of request payloads into fields for the disk and network responders, and UTF-8 decoding errors.
- HostHistory.HostService.Respond: gives state and status; the bodies of the GET and LIST replies are formatting of that state.
- DiskServer.Responder.Respond: does not model LIST_MOUNTS, whose text is formatting of the drive map.
- Slot catalogue GET, PUT and DELETE and the AppStore branch: plain map updates.
- Page bodies of the fixed test services (they are parameters) and the two translated values.
- The base64 step before the seven-bit unpacker (section 5 of RFC 4648) and the output formatters after it.
- Argument parsing, host file discovery, `.inf` text, `basictool` and `dfstool` paths, emulator control, and the screens of the sample programs.
- The 6502 ROM sources.
