# softeeprom: flash-emulated EEPROM, byte wrapper and serial console

This project models, in Dafny, the core of a small networked controller
firmware for a Stellaris-class microcontroller:

- **The emulated EEPROM engine** (`softeeprom.c`, `softeeprom.h`). It is a
  log-structured store of 16-bit values, keyed by ids `0 .. 126`, laid over a
  ring of NOR-flash pages.
  - Each page carries two status words, a generation stamp and a "used"
    marker. Entries `id << 16 | data` follow them.
  - A write appends an entry at a cursor. A read scans the active page
    backward for the newest entry of the id.
  - A full page is compacted into its ring successor by a swap. A clear
    retires the active page.
  - Init rebuilds the active page and the cursor from the status words
    alone, following a recovery table keyed on the number of active pages.
- **The byte-address wrapper** (`softeeprom_wrapper.c`). It stores byte
  ranges on the engine: byte `a` is the low (even `a`) or high (odd `a`)
  half of id `a / 2`. Lone bytes use read-modify-write. A failing call
  prints an error report and halts.
- **The serial console** (`uartstdio.c`, unbuffered build). `UARTwrite`
  expands `\n` to `\r\n`. `UARTprintf` renders `%c %d %u %x %X %p %s %%`
  with width and fill. `UARTgets` is a line editor with backspace, CR/LF/ESC
  termination and CR-LF pairing. The ring-buffer index arithmetic is also
  covered.
- **The command interpreter** (`command.c`). It splits a line into
  arguments with quotes removed and dispatches on the first keyword of a
  six-entry table. `setip` packs dotted quads and `setmac` packs six hex
  octets into the EEPROM; both then reset the system.

How the model is shaped:

- Flash is a class `Flash.NorFlash` over an `array2<bv32>` of pages by
  words.
  - Erasing a block sets its words to `0xFFFFFFFF`.
  - Programming can only clear bits: the new word is `old & value`.
  - Both may fail, nondeterministically. On failure only the word or block
    concerned may have changed.
- The engine keeps the source's module state as fields of the class
  `SoftEeprom.Engine`: the active page, the cursor and the initialized flag.
  Pages and slots are indices, not addresses.
  - What the engine's methods promise is stated on pure functions of page
    contents in `EepromLog`:
    - `LatestIn` is what a read returns;
    - `Sweep` is what a swap copies.
  - The recovery table is stated the same way in `EepromBoot` and
    `EepromRecovery`: `Recovery` is the plan init follows.
- The wrapper's view of the engine is `Image`, the 256-byte image the
  engine's entries denote.
- The console is a class `UartStdio.Console`.
  - `sent` is everything put on the line.
  - `pending` is the input still to be read.
  - `lastWasCR` is the static flag of `UARTgets`.
- The command interpreter produces a trace of `Effect`s: a print, an EEPROM
  save, an address display, or the reset that ends the trace.

## Model

| member | source | states |
|---|---|---|
| EepromErrors.Code | softeeprom/softeeprom.h:63-131 | every base error code lies in 1..8, below the swap tag, and decodes back to its error |
| EepromErrors.Tagged | softeeprom/softeeprom.h:143 | ORing the swap tag onto a base code sets the tag bit, and masking with 0x7FFF gives the base code back |
| EepromErrors.Decode | softeeprom/softeeprom_wrapper.c:298-327 | the `ulError & 0x7FFF` switch names an error exactly when the base code is one of the eight codes; anything else is "Unidentified" |
| EepromErrors.CodesDistinct | softeeprom/softeeprom.h:63-131 | the eight base codes are pairwise distinct |
| EepromErrors.DecodeTagged | softeeprom/softeeprom.h:113-143 | a swap-tagged code decodes to its base error, and no base code carries the tag |
| EepromErrors.WriteCodeForms | softeeprom/softeeprom.h:76-93 | among Write's results, ERR_PG_ERASE occurs only swap-tagged, and the tag is only ever on ERR_PG_ERASE, ERR_PG_WRITE or ERR_AVAIL_ENTRY |
| Flash.Programmed | softeeprom/softeeprom.c:309-350 | programming a word can only clear bits |
| Flash.ProgrammedIsAnd | softeeprom/softeeprom.c:309-350 | the programmed word is the old word AND the value |
| Flash.NorFlash.EraseBlock | softeeprom/softeeprom.c:246-288 | a successful block erase leaves every word of the block erased, and no word outside the block changes |
| Flash.NorFlash.Program | softeeprom/softeeprom.c:309-350 | success stores old AND value; either way the word only loses bits, and no other word changes |
| EepromLog.DerivedSizes | softeeprom/softeeprom.c:159 | NUM_VECTOR_BITS is a multiple of 8 above NUM_IDS; the least page holds 2 * MAX_SOFTEEPROM_IDS words |
| EepromLog.EntryWord | softeeprom/softeeprom.c:1378 | the entry word (id shifted left 16, ORed with data) gives back its id and its data |
| EepromLog.ErasedId | softeeprom/softeeprom.c:474-484 | an erased slot decodes to id 0xFFFF, which is not a valid id |
| EepromLog.PageStates | softeeprom/softeeprom.c:639-696 | no page is both active and used; an erased page is neither; a stamped page is exactly one of them |
| EepromLog.LatestInMeaning | softeeprom/softeeprom.c:1456-1481 | the backward read scan finds nothing exactly when no entry has the id; otherwise it returns the data of that id's last entry |
| EepromLog.LatestInPrefix | softeeprom/softeeprom.c:1462-1481 | one step of the backward scan: the slot just below the cursor decides if it has the id, otherwise the scan goes on below it |
| EepromLog.LatestAppend | softeeprom/softeeprom.c:1378-1394 | after appending an entry, a read of its id returns its data, and every other id reads as before |
| EepromLog.AppendReads | softeeprom/softeeprom.c:1378-1394 | the same for all ids at once |
| EepromLog.Sweep | softeeprom/softeeprom.c:459-533 | the swap copies at most NUM_VECTOR_BITS entries, fewer by the ids already copied |
| EepromLog.SweepDistinct | softeeprom/softeeprom.c:459-533 | the swap copies at most one entry per id, and never an id whose bit is already set |
| EepromLog.SweepKeepsLatest | softeeprom/softeeprom.c:459-533 | for ids not yet copied, the swap's copy holds the newest value of the full page |
| EepromLog.SwapPreservesReads | softeeprom/softeeprom.c:459-555 | a read of any id on the new page returns what it returned on the full page, and the copy fits in 128 slots |
| EepromLog.SwapReads | softeeprom/softeeprom.c:459-555 | the same for all ids at once |
| EepromBoot.Successor | softeeprom/softeeprom.c:414-416 | the next page in the ring wraps from the last page to page 0 |
| EepromBoot.Predecessor | softeeprom/softeeprom.c:1118-1120 | the previous page in the ring, whose successor is the page itself |
| EepromBoot.PredecessorOfSuccessor | softeeprom/softeeprom.c:414-416 | stepping forward then back returns to the page |
| EepromBoot.CountActivePositive | softeeprom/softeeprom.c:722-735 | the active-page count is nonzero exactly when some page is active |
| EepromBoot.CountUsedPositive | softeeprom/softeeprom.c:767-780 | the used-page count is nonzero exactly when some page is used |
| EepromBoot.FirstActive | softeeprom/softeeprom.c:1102-1111 | the first active page at or after `from`, or the page count when none is |
| EepromBoot.FirstFullActive | softeeprom/softeeprom.c:1226-1247 | the first active page whose last slot is written, or the page count when none is |
| EepromBoot.FirstErasedSlot | softeeprom/softeeprom.c:802-846 | the first erased slot at or after `from`: every slot before it is written; the page end when none is erased |
| EepromBoot.MruAsWrittenMeaning | softeeprom/softeeprom.c:861-908 | the scan as written finds a used page exactly when some used page has a generation above 0; it finds the first page of the greatest generation |
| EepromBoot.MruMeaning | softeeprom/softeeprom.c:861-908 | the corrected scan finds a page exactly when some page is used; it finds the first page of the greatest generation |
| EepromBoot.MruFound | softeeprom/softeeprom.c:861-908 | when the used-page count is nonzero, the corrected scan finds a page |
| EepromBoot.MruAgrees | softeeprom/softeeprom.c:861-908 | whenever the scan as written finds a page, the corrected scan finds the same page |
| EepromBoot.MruAsWrittenMissesGenerationZero | softeeprom/softeeprom.c:1044-1050 | a clear of page 0 with generation 0, interrupted after its first step, leaves one used page that the scan as written does not find |
| EepromRecovery.Recovery | softeeprom/softeeprom.c:988-1304 | init's plan: a boot resumes an active page with the cursor inside it; a resumed swap picks an active page whose last slot is written |
| EepromRecovery.NoActivePlan | softeeprom/softeeprom.c:988-1091 | no active and no used page: start page 0 at generation 0; otherwise restart the successor of the newest used page at its generation + 1 |
| EepromRecovery.NoActiveRecovery | softeeprom/softeeprom.c:988-1091 | with no active page and one newest used page, init restarts that page's successor at the next generation |
| EepromRecovery.NoActiveAsWritten | softeeprom/softeeprom.c:988-1091 | with no active page, the scan as written finds nothing exactly when every used page has generation 0; when it finds a page, the code restarts the same page the model does |
| EepromRecovery.OneActiveFresh | softeeprom/softeeprom.c:1092-1213 | one active page, predecessor not used: boot it at its first erased slot |
| EepromRecovery.OneActiveSteady | softeeprom/softeeprom.c:1092-1213 | one active page, predecessor used with a generation exactly one less: boot it at its first erased slot |
| EepromRecovery.OneActiveStale | softeeprom/softeeprom.c:1092-1213 | one active page, predecessor used with any other generation: re-erase it and stamp the predecessor's generation + 1 |
| EepromRecovery.OneActiveRecovery | softeeprom/softeeprom.c:1092-1213 | the one-active-page case in full: restamp when the predecessor is used with a generation other than one less, boot otherwise |
| EepromRecovery.SteadyBoots | softeeprom/softeeprom.c:1092-1213 | a store in its steady state boots where it left off |
| EepromRecovery.TwoActivePlan | softeeprom/softeeprom.c:1214-1275 | two active pages: resume the swap of the first full one with the cursor at its end, or fail with ERR_TWO_ACTIVE_NO_FULL |
| EepromRecovery.ClearResumesAfterMark | softeeprom/softeeprom.c:1526-1534 | power lost after a clear marks the active page used: init starts the successor afresh at the next generation |
| EepromRecovery.ClearAfterMarkAsWritten | softeeprom/softeeprom.c:875-899 | after a clear marks the active page used, the scan as written finds that page unless its generation is 0 |
| EepromRecovery.ClearResumesDuringErase | softeeprom/softeeprom.c:1536-1550 | power lost while a clear erases the successor: the same |
| EepromRecovery.ClearRecoversDuringStamp | softeeprom/softeeprom.c:1557-1565 | power lost while a clear stamps the successor: boot it empty if the stamp took, otherwise restamp it |
| EepromRecovery.SwapRestartsBeforeStamp | softeeprom/softeeprom.c:417-555 | power lost before a swap stamps the new page: boot the full page with the cursor at its end, so the next write swaps again |
| EepromRecovery.SwapRestartsAfterStamp | softeeprom/softeeprom.c:558-580 | power lost after the stamp, before the full page is marked: two active pages, and init resumes the swap |
| EepromRecovery.SwapBootsAfterMark | softeeprom/softeeprom.c:582-600 | power lost after the full page is marked: boot the new page at its first erased slot |
| SoftEeprom.UShort | softeeprom/softeeprom.c:812 | the unsigned-short truncation is the identity below 0x10000 |
| SoftEeprom.Engine.Entries | softeeprom/softeeprom.c:1456-1481 | the active page's entries from the first slot up to the cursor |
| SoftEeprom.Engine.PageErase | softeeprom/softeeprom.c:246-288 | success leaves the whole page erased; no other page changes |
| SoftEeprom.Engine.PageDataWrite | softeeprom/softeeprom.c:309-350 | success programs the word; the word only loses bits; no other word changes (the read-back loop never runs) |
| SoftEeprom.Engine.ActivePageCount | softeeprom/softeeprom.c:709-741 | the number of active pages, as an unsigned char |
| SoftEeprom.Engine.UsedPageCount | softeeprom/softeeprom.c:754-786 | the number of used pages, as an unsigned char |
| SoftEeprom.Engine.NextAvailEntry | softeeprom/softeeprom.c:802-846 | the first erased slot of the page after its status words |
| SoftEeprom.Engine.MostRecentlyUsedPage | softeeprom/softeeprom.c:861-908 | the corrected most-recently-used page (see Findings) |
| SoftEeprom.Engine.Read | softeeprom/softeeprom.c:1426-1487 | ERR_NOT_INIT before init, ERR_ILLEGAL_ID for id >= 127, outputs untouched on error; otherwise found/data are the id's newest entry, or not found with 0xFFFF |
| SoftEeprom.Engine.PageSwap | softeeprom/softeeprom.c:378-622 | success: the successor page holds the sweep of the full page, stamped generation + 1, and the full page is marked used; an erase or program failure returns the swap-tagged code with page and cursor kept |
| SoftEeprom.Engine.Rebuild | softeeprom/softeeprom.c:417-580 | erase, copy and stamp the new page; only the new page changes |
| SoftEeprom.Engine.CopyLatest | softeeprom/softeeprom.c:459-553 | the new page receives exactly the sweep of the full page, after its status words |
| SoftEeprom.Engine.StampPage | softeeprom/softeeprom.c:555-580 | the new page's first status word is programmed with the stamp |
| SoftEeprom.Engine.MarkUsed | softeeprom/softeeprom.c:582-596 | the full page's second status word becomes 0; nothing else changes |
| SoftEeprom.Engine.SwapFull | softeeprom/softeeprom.c:1359-1373 | a swap on a full page moves to the ring successor and keeps every id's read value and the store's health; the cursor lands just past the copied entries; the old page changes only in its second status word and no other page but the successor changes |
| SoftEeprom.Engine.Write | softeeprom/softeeprom.c:1328-1400 | guards return ERR_NOT_INIT (exactly when uninitialised) or ERR_ILLEGAL_ID (exactly for id >= 127) with no change; success makes a read of the id return the data and every other id read as before; swap-tagged codes only occur on a full page; without a swap only the cursor's slot changes, programmed with the entry, and the cursor advances by one |
| SoftEeprom.Engine.Store | softeeprom/softeeprom.c:1352-1399 | the write past its guards: swap when full, then append; the same read-back law, health and frame as Write, and after a swap the cursor is one past the copied entries |
| SoftEeprom.Engine.Put | softeeprom/softeeprom.c:1373-1397 | the entry of id and data is appended at the cursor and the cursor advances by one; the slot holds exactly that entry word and no other word changes |
| SoftEeprom.Engine.Append | softeeprom/softeeprom.c:1379-1397 | success programs the slot at the cursor and advances it; failure keeps the cursor and the entries; only that slot of the active page can change |
| SoftEeprom.Engine.Clear | softeeprom/softeeprom.c:1509-1584 | ERR_NOT_INIT with no change before init; success marks the old page used, makes its successor active at the next generation, and leaves no entries |
| SoftEeprom.Engine.Retire | softeeprom/softeeprom.c:1526-1560 | mark the active page used, then erase and stamp the successor; the entries stay until the switch |
| SoftEeprom.Engine.StartPage | softeeprom/softeeprom.c:1536-1565 | erase a page and stamp its first status word; no other page changes |
| SoftEeprom.Engine.Init | softeeprom/softeeprom.c:937-1310 | ERR_RANGE with no change when the region leaves the flash; otherwise the outcome the recovery plan names; initialized only on success; a restart leaves a healthy, empty store; success on an intact active page leaves it healthy; only the restarted page changes |
| SoftEeprom.Engine.Recover | softeeprom/softeeprom.c:978-1266 | carries out the plan for the region as it was, changing only the page the plan restarts |
| SoftEeprom.Engine.RecoverNoActive | softeeprom/softeeprom.c:988-1091 | the same when no page is active |
| SoftEeprom.Engine.RecoverOneActive | softeeprom/softeeprom.c:1092-1213 | the same when one page is active |
| SoftEeprom.Engine.RecoverTwoActive | softeeprom/softeeprom.c:1214-1304 | two active pages resume the full one's swap; more than two give ERR_ACTIVE_PG_CNT |
| SoftEeprom.Engine.DecideNoActive | softeeprom/softeeprom.c:988-1091 | the page and generation the no-active case restarts |
| SoftEeprom.Engine.DecideOneActive | softeeprom/softeeprom.c:1092-1213 | the active page, whether to restamp it and with which generation, or the cursor to boot at |
| SoftEeprom.Engine.FirstActivePage | softeeprom/softeeprom.c:1102-1111 | the first active page |
| SoftEeprom.Engine.FirstFullActivePage | softeeprom/softeeprom.c:1226-1247 | the first active page whose last slot is written |
| SoftEeprom.Engine.Restart | softeeprom/softeeprom.c:1044-1091 | erase a page and make it the empty active page at a generation |
| SoftEeprom.Engine.LaidEntries | softeeprom/softeeprom.c:595-600 | after a swap or clear, the entries are exactly those copied, with erased slots after them |
| SoftEeprom.Engine.HealthyAppend | softeeprom/softeeprom.c:1379-1397 | appending a valid entry keeps the store's health |
| SoftEeprom.Engine.HealthyIntact | softeeprom/softeeprom.c:802-845 | a healthy store's cursor is the first erased slot of the active page, as GetNextAvailEntry finds it, and the page is intact |
| SoftEeprom.Engine.IntactHealthy | softeeprom/softeeprom.c:1140-1148 | an intact active page with the cursor at its first erased slot (or full, with its last slot written) is a healthy store |
| SoftEeprom.Engine.ResumedHealthy | softeeprom/softeeprom.c:1092-1213 | booting an intact active page at the cursor GetNextAvailEntry gives leaves a healthy store |
| SoftEepromWrapper.Pack | softeeprom/softeeprom_wrapper.c:112 | an aligned pair packs with d[0] as the low byte and d[1] as the high byte |
| SoftEepromWrapper.SetHi | softeeprom/softeeprom_wrapper.c:87-90 | replaces the high byte of a word and keeps its low byte |
| SoftEepromWrapper.SetLo | softeeprom/softeeprom_wrapper.c:91-94 | replaces the low byte of a word and keeps its high byte |
| SoftEepromWrapper.LanesDetermine | softeeprom/softeeprom_wrapper.c:184-211 | a word is determined by its two byte lanes |
| SoftEepromWrapper.IdFacts | softeeprom/softeeprom_wrapper.c:85 | distinct word indices name distinct engine ids, and an index names a valid id exactly when it is below 127 |
| SoftEepromWrapper.Bytes | softeeprom/softeeprom_wrapper.c:184-211 | two bytes per word |
| SoftEepromWrapper.BytesAt | softeeprom/softeeprom_wrapper.c:184-211 | even byte a is the low half of word a / 2, odd byte a the high half |
| SoftEepromWrapper.Image | softeeprom/softeeprom_wrapper.c:177-221 | 256 bytes: every id's newest value, 0xFFFF when absent, split into lanes |
| SoftEepromWrapper.Overlay | softeeprom/softeeprom_wrapper.c:76-127 | the image with bytes [a, a + n) replaced by the data and every other byte kept |
| SoftEepromWrapper.MergeByte | softeeprom/softeeprom_wrapper.c:79-108 | read-modify-write of one lane changes exactly that byte of the image |
| SoftEepromWrapper.ErasedImage | softeeprom/softeeprom_wrapper.c:169-180 | with no entries, every byte reads 0xFF |
| SoftEepromWrapper.LatestAbsent | softeeprom/softeeprom.c:1347 | ids at or above 127 are never in a healthy log |
| SoftEepromWrapper.FitsLegal | softeeprom/softeeprom_wrapper.c:71 | a range that fits is admitted by the check, and every byte in it belongs to a valid id |
| SoftEepromWrapper.AdmitsOneMore | softeeprom/softeeprom_wrapper.c:71 | the check admits exactly one range end beyond the legal ones, 255 |
| SoftEepromWrapper.LastByteIllegal | softeeprom/softeeprom_wrapper.c:71 | the check admits one byte at 254, which belongs to the illegal id 127 |
| SoftEepromWrapper.ErrorReport | softeeprom/softeeprom_wrapper.c:298-340 | a preamble and the error's line, plus the swap line exactly when the code is swap-tagged |
| SoftEepromWrapper.KindTextDistinct | softeeprom/softeeprom_wrapper.c:298-327 | distinct errors print distinct lines, none of them the swap line |
| SoftEepromWrapper.ReportIdentifies | softeeprom/softeeprom_wrapper.c:298-340 | the printed report determines the decoded error and the swap tag |
| SoftEepromWrapper.Step | softeeprom/softeeprom_wrapper.c:76-127 | each loop pass consumes one or two bytes |
| SoftEepromWrapper.ChunksCount | softeeprom/softeeprom_wrapper.c:76-127 | the loop's pass-by-pass count `Passes` (one engine write each) equals `Chunks`, half the bytes plus one for a ragged start or end |
| SoftEepromWrapper.ChunksNext | softeeprom/softeeprom_wrapper.c:76-127 | a pass from an even address (or the start) adds one to `Chunks` of the bytes written and ends on an even address unless it was the last |
| SoftEepromWrapper.PutWord | softeeprom/softeeprom_wrapper.c:98-122 | an engine write of word j: ERR_ILLEGAL_ID exactly when j >= 127; success replaces word j, failure keeps all words |
| SoftEepromWrapper.WordsAfter | softeeprom/softeeprom.c:1328-1400 | the engine's read-back law turns into a word update of the image |
| SoftEepromWrapper.WriteByte | softeeprom/softeeprom_wrapper.c:79-108 | a lone byte replaces exactly that byte of the image, the other lane kept (0xFF when absent) |
| SoftEepromWrapper.WritePair | softeeprom/softeeprom_wrapper.c:110-126 | an aligned pair replaces exactly those two bytes |
| SoftEepromWrapper.ReadWord | softeeprom/softeeprom_wrapper.c:180 | the engine's read as the wrapper uses it: the found flag is ignored |
| SoftEepromWrapper.Fetch | softeeprom/softeeprom_wrapper.c:180 | the read succeeds exactly when the engine is initialized and the id valid; the data then is the word, otherwise the previous value |
| SoftEepromWrapper.Seen | softeeprom/softeeprom_wrapper.c:180 | the words the wrapper reads back, which make up the image |
| SoftEepromWrapper.Write | softeeprom/softeeprom_wrapper.c:63-144 | ERR_PAGE_RANGE untouched for rejected ranges; otherwise the image gains the bytes written so far; success writes all of them; the last-byte hole halts with ERR_ILLEGAL_ID |
| SoftEepromWrapper.Store | softeeprom/softeeprom_wrapper.c:76-127 | the write loop: stops at the first failing engine write; writes exactly the bytes it reports; the engine writes that succeed are `Chunks` of the bytes written, all `Chunks(addr, size)` on success |
| SoftEepromWrapper.WriteChunk | softeeprom/softeeprom_wrapper.c:79-126 | one loop pass: the next one or two bytes go into the image; the pass is one engine write more of `Chunks` and ends on an even address unless it is the last |
| SoftEepromWrapper.Read | softeeprom/softeeprom_wrapper.c:164-237 | ERR_PAGE_RANGE for rejected ranges; otherwise exactly size bytes; the image bytes when the range fits and the engine is ready; zeros before init; the last-byte hole halts |
| SoftEepromWrapper.Fill | softeeprom/softeeprom_wrapper.c:177-221 | the read loop computes the lane-by-lane reading |
| SoftEepromWrapper.ReadFromLength | softeeprom/softeeprom_wrapper.c:177-221 | the read loop fills exactly n bytes |
| SoftEepromWrapper.ReadFromDead | softeeprom/softeeprom_wrapper.c:177-221 | before init, every byte read is 0 and the result is ERR_NOT_INIT |
| SoftEepromWrapper.ReadFromFits | softeeprom/softeeprom_wrapper.c:177-221 | on a fitting range, the read visits the lanes in order |
| SoftEepromWrapper.ReadFromFitsCode | softeeprom/softeeprom_wrapper.c:177-221 | on a fitting range, the read succeeds |
| SoftEepromWrapper.SpanBytes | softeeprom/softeeprom_wrapper.c:184-211 | the lanes visited are the image slice |
| SoftEepromWrapper.ReadFromLive | softeeprom/softeeprom_wrapper.c:177-221 | on an initialized engine the read returns the image slice, or, on the last-byte hole, ERR_ILLEGAL_ID with the stale low byte |
| SoftEepromWrapper.ReadFromLast | softeeprom/softeeprom_wrapper.c:177-221 | a read ending at byte 254 gets ERR_ILLEGAL_ID, and its last byte is the low byte of word 126 |
| SoftEepromWrapper.ReadFromLastOne | softeeprom/softeeprom_wrapper.c:177-221 | a read of byte 254 alone gets ERR_ILLEGAL_ID and the low byte of the initial data |
| SoftEepromWrapper.Clear | softeeprom/softeeprom_wrapper.c:249-252 | a successful clear leaves every byte reading 0xFF; a failure keeps the image |
| SoftEepromWrapper.Init | softeeprom/softeeprom_wrapper.c:254-278 | the engine's init; a nonzero result halts with its report; an Ok init on an intact active page leaves the engine `Ready` |
| SoftEepromWrapper.WriteThenRead | softeeprom/softeeprom.c:1744-1820 | on a `Ready` engine (as an Ok init on an intact page leaves it), writing a buffer and reading it back returns the buffer, and bytes outside the range keep their values |
| ConsoleFormat.ExpandAppend | app/uartstdio.c:543-563 | newline expansion distributes over concatenation |
| ConsoleFormat.CollapseExpand | app/uartstdio.c:543-563 | removing the inserted CRs recovers the text, so nothing but a CR is added |
| ConsoleFormat.ExpandNewlines | app/uartstdio.c:543-563 | every LF sent is preceded by a CR, and one character is added per newline |
| ConsoleFormat.ExpandPlain | app/uartstdio.c:543-563 | text without a newline goes out unchanged |
| ConsoleFormat.Strlen | app/uartstdio.c:1033-1036 | the length up to the first NUL |
| ConsoleFormat.Repeat | app/uartstdio.c:1045-1052 | n copies of the character |
| ConsoleFormat.HexIsTable | app/uartstdio.c:151 | the digit of value d is `g_pcHex[d]`, lower case |
| ConsoleFormat.Rem | app/uartstdio.c:1190 | the remainder by the base lies below the base |
| ConsoleFormat.BaseArith | app/uartstdio.c:1126-1132 | quotient, remainder and product by the base are the arithmetic ones |
| ConsoleFormat.DigitsRoundTrip | app/uartstdio.c:1188-1191 | the digits read back in the base give the value |
| ConsoleFormat.DigitsForm | app/uartstdio.c:1188-1191 | at least one digit, all digits of the base, and a leading 0 only for the value 0 |
| ConsoleFormat.DigitsAt | app/uartstdio.c:1188-1191 | the digit in position j is `(v / b^j) % b` |
| ConsoleFormat.DigitsLength | app/uartstdio.c:1126-1132 | the digit count is the least k with v < b^k |
| ConsoleFormat.DigitsOfLong | app/uartstdio.c:1126-1132 | a 32-bit value has at most 10 decimal or 8 hex digits |
| ConsoleFormat.GuardExact | app/uartstdio.c:1127-1130 | the divide-back guard holds exactly when `ulIdx * ulBase` does not wrap and does not exceed the value |
| ConsoleFormat.GuardStep | app/uartstdio.c:1127-1130 | the digit-count loop goes on exactly while another digit is needed, and its product never wraps then |
| ConsoleFormat.NumberWidth | app/uartstdio.c:1165-1171 | the output has exactly the width when digits and sign are fewer than the width by less than 15; otherwise no padding |
| ConsoleFormat.NumberLayout | app/uartstdio.c:1138-1191 | the digits come last with no leading zeros; a minus sign comes before zero fill and after space fill |
| ConsoleFormat.NumberAsWritten | app/uartstdio.c:848 | what fits in the 16-character `pcBuf`; None when the conversion would write past it |
| ConsoleFormat.PcBufOverrun | app/uartstdio.c:1165-1171 | `%24u` of 4000000000 writes 24 characters into pcBuf[16] |
| ConsoleFormat.NumberFitsBuffer | app/uartstdio.c:848 | for widths up to 16 the buffer is never overrun and the conversion is the corrected one |
| ConsoleFormat.LiteralEnd | app/uartstdio.c:869-870 | the end of the literal run: no `%` or NUL before it, and it stops at one |
| ConsoleFormat.WidthFrom | app/uartstdio.c:916-946 | the digit run after `%` ends at the first non-digit |
| ConsoleFormat.WidthRun | app/uartstdio.c:916-946 | the width is the decimal value of the run, and the fill is '0' exactly when the run starts with 0 |
| ConsoleFormat.Signed | app/uartstdio.c:988-1007 | a value with the top bit set is negative, and its magnitude is its two's complement |
| ConsoleFormat.Pass | app/uartstdio.c:864-1236 | one pass of the format loop consumes at least one character |
| ConsoleFormat.LiteralCopied | app/uartstdio.c:864-882 | a format with no `%` renders as its text up to the NUL |
| ConsoleFormat.FormatPass | app/uartstdio.c:864-1236 | the format output is the first pass's output followed by the rest's |
| ConsoleFormat.ConversionTable | app/uartstdio.c:951-1233 | `%%` gives `%`; unknown specifiers give ERROR; `%X` and `%p` act like `%x`; `%d` of a positive value acts like `%u`; `%c` sends the low byte; `%s` sends the string padded with spaces to the width; a missing or mistyped argument is undefined |
| ConsoleFormat.NegativeDecimal | app/uartstdio.c:988-1007 | `%d` of a negative value prints a minus sign and the magnitude's digits |
| UartStdio.LineEdit | app/uartstdio.c:675-798 | a completed call stores fewer characters than the buffer holds, none of them a terminator or backspace, and consumes input up to and including the terminator |
| UartStdio.EditBounds | app/uartstdio.c:675-798 | the same from any point of the editing loop |
| UartStdio.PlainLineFrom | app/uartstdio.c:675-798 | typed characters without edits are stored and echoed as they are |
| UartStdio.PlainLine | app/uartstdio.c:675-798 | a plain line that fits is stored, echoed, and leaves bLastWasCR set exactly when it ended in CR |
| UartStdio.RubOut | app/uartstdio.c:705-727 | a backspace after a stored character deletes it and echoes back, blank, back |
| UartStdio.RubOutPlain | app/uartstdio.c:716 | the rub-out echo has no newline to expand |
| UartStdio.LineEndSent | app/uartstdio.c:793 | the final "\r\n" goes out as "\r\r\n" |
| UartStdio.EditShift | app/uartstdio.c:675-798 | editing does not depend on input already consumed |
| UartStdio.CrLfPairing | app/uartstdio.c:734-738 | an LF directly after a CR-ended call is swallowed, and the flag is cleared |
| UartStdio.NoFlagEndsAtLf | app/uartstdio.c:743-758 | without the flag, an LF ends an empty line |
| UartStdio.StaleCarriageReturn | app/uartstdio.c:734-758 | the flag stays set across a line ended by LF, so the next call's leading LF is swallowed |
| UartStdio.RingCount | app/uartstdio.c:213-290 | the count is `(write - read) mod size`, empty exactly when it is 0, full exactly when it is size - 1 |
| UartStdio.Console.constructor | app/uartstdio.c:677 | nothing sent, input pending, bLastWasCR clear |
| UartStdio.Console.Put | app/uartstdio.c:557 | MAP_UARTCharPut appends one character |
| UartStdio.Console.Get | app/uartstdio.c:700 | MAP_UARTCharGet consumes the next input character |
| UartStdio.Console.Write | app/uartstdio.c:531-565 | sends the first len characters with newline expansion and returns len |
| UartStdio.Console.Gets | app/uartstdio.c:601-798 | stores the edited line with its NUL, echoes it and the line end, consumes the input through the terminator, and updates bLastWasCR |
| UartStdio.Console.Printf | app/uartstdio.c:845-1240 | sends the rendered format with newline expansion |
| UartStdio.Console.PrintfStep | app/uartstdio.c:864-1236 | one pass of the format loop |
| UartStdio.Console.SendLiteral | app/uartstdio.c:869-882 | sends the literal run up to `%` or NUL |
| UartStdio.Console.SendConversion | app/uartstdio.c:884-1236 | reads width and fill, then sends the conversion |
| UartStdio.Console.Emit | app/uartstdio.c:951-1233 | sends one conversion |
| UartStdio.Console.EmitNumber | app/uartstdio.c:1126-1198 | sends the number's rendering |
| UartStdio.Console.EmitString | app/uartstdio.c:1023-1057 | sends the string up to its NUL, then spaces up to the width |
| UartStdio.Console.SendSpaces | app/uartstdio.c:1045-1052 | sends pad spaces |
| UartStdio.Console.ScanLiteral | app/uartstdio.c:869-870 | finds the end of the literal run |
| UartStdio.Console.ScanWidth | app/uartstdio.c:916-946 | reads the width digits and the fill |
| UartStdio.Console.StrLen | app/uartstdio.c:1033-1036 | the length of the string up to its NUL |
| UartStdio.Console.Convert | app/uartstdio.c:1126-1198 | the characters it builds are the number's rendering `Number`: the padding, the sign and the digits |
| UartStdio.Console.CountDigits | app/uartstdio.c:1126-1132 | ends with ulIdx = b^(digits - 1) and the residual width count |
| UartStdio.Console.PadOut | app/uartstdio.c:1165-1171 | the fill the residual count calls for |
| UartStdio.Console.EmitDigits | app/uartstdio.c:1188-1191 | the value's digits, most significant first |
| Command.RunEnd | app/command.c:196-216 | the end of the run of non-spaces at p: no space before it, a space or the line end at it |
| Command.UnquoteAll | app/command.c:210-212 | one argument per word |
| Command.WordsShift | app/command.c:180-217 | the words after a point do not depend on what came before it |
| Command.WordsSplit | app/command.c:180-217 | a space separates: the words of `a + " " + b` are those of a followed by those of b |
| Command.WordsSingle | app/command.c:196-216 | a nonempty run of non-spaces is one word |
| Command.WordsJoin | app/command.c:180-217 | words joined by single spaces split back into the same words |
| Command.LeadingSpace | app/command.c:180-193 | leading spaces are skipped |
| Command.WordsShape | app/command.c:196-216 | every word is nonempty, has no space, and is made of the line's characters |
| Command.UnquoteAppend | app/command.c:210-212 | dropping quotes distributes over concatenation |
| Command.UnquoteShape | app/command.c:210-212 | an argument has no quote, and keeps every other character of its word |
| Command.UnquoteAllMember | app/command.c:210-212 | every argument comes from a word |
| Command.UnquotePlain | app/command.c:210-212 | a word without quotes is its own argument |
| Command.QuotedUnquote | app/command.c:210-212 | a quote inside a word is dropped |
| Command.QuoteInside | app/command.c:210-212 | a quote does not split a word |
| Command.FieldsClean | app/command.c:180-217 | no argument holds a space, a quote or a NUL |
| Command.SkipSpaces | app/command.c:180-193 | advances to a non-space or the end without changing the words ahead |
| Command.CopyArg | app/command.c:195-217 | copies the word at start without its quotes and stops at its end |
| Command.Tokenize | app/command.c:179-217 | the arguments are exactly the quote-free words of the line up to its NUL |
| Command.LittleEndian | app/command.c:73-75 | an unsigned long is stored as 4 bytes |
| Command.LittleEndianRoundTrip | app/command.c:73-75 | the 4 bytes read back as the value |
| Command.BitsOctet | app/command.c:54 | an octet's bits are below 256, and zero exactly for 0 |
| Command.PackFields | app/command.c:54 | the packed word's bytes are the four shifted fields |
| Command.PackOctets | app/command.c:54 | for octets, the packed word's bytes from the top are a, b, c, d |
| Command.SavedOctets | app/command.c:73-75 | the bytes saved for a.b.c.d are d, c, b, a |
| Command.PackZero | app/command.c:69 | a quad of octets packs to 0 exactly when it is 0.0.0.0 |
| Command.NegativeOctet | app/command.c:54 | a negative field sign-extends over the higher fields: 10.0.0.-1 packs to 0xFFFFFFFF |
| Command.SetIp | app/command.c:35-87 | resets exactly when there are 3 or 4 arguments and both IP and mask are nonzero; otherwise only the usage line |
| Command.SetIpSaves | app/command.c:69-78 | after the report, IP, mask and gateway (0 when absent) are saved at 6, 10 and 14, then the reset |
| Command.SetMacSaves | app/command.c:89-122 | resets exactly when there are 2 arguments and six hex fields parse; the saved bytes at 0 are the fields' low bytes; otherwise only the usage line |
| Command.SetMac | app/command.c:89-122 | the handler's loop produces that trace |
| Command.ListCommands | app/command.c:159-169 | one "%s: %s" line per table entry, in table order |
| Command.Invoke | app/command.c:232-233 | runs the entry's handler |
| Command.MessagesDistinct | app/command.c:47-239 | the console's fixed messages differ from one another: each usage, report and help line differs from the unknown-command message and the prompt, and those two differ |
| Command.HelpShape | app/command.c:159-169 | help prints only help lines |
| Command.SetIpQuiet | app/command.c:35-87 | setip never prints the unknown-command message or the prompt |
| Command.SetMacQuiet | app/command.c:89-122 | setmac never prints them either |
| Command.RunShape | app/command.c:29-169 | no handler prints them |
| Command.MatchFrom | app/command.c:229-236 | the first entry at or after j whose keyword is the name, or the table size |
| Command.FindCommand | app/command.c:229-236 | the first entry whose keyword is the name, or the table size |
| Command.Answer | app/command.c:229-241 | runs the matched handler, or prints the unknown message for a nonempty line, then the prompt unless the handler reset |
| Command.ParseCmd | app/command.c:171-242 | parseCmd's trace: tokenize, dispatch once, unknown message, prompt |
| Command.KeywordsDistinct | app/command.c:149-157 | each keyword matches only its own entry |
| Command.UnknownCommand | app/command.c:238-239 | the unknown message is printed exactly when no keyword matched and the line was not empty |
| Command.ResetEnds | app/command.c:29-33 | a reset ends the trace; without one the trace ends with the prompt |
| Command.DispatchKeyword | app/command.c:229-236 | a line starting with a keyword runs that entry's handler first, and the unknown message never appears |
| Command.BlankLine | app/command.c:238-241 | a line of spaces prints the unknown message and the prompt; an empty line only the prompt |
| Command.JoinChars | app/command.c:180-217 | a joined line holds only spaces and the words' characters |
| Command.UnquoteAllPlain | app/command.c:210-212 | words without quotes are their own arguments |
| Command.TypedLine | app/command.c:180-217 | words typed with single spaces tokenize back to themselves |
| Command.SetIpTyped | app/command.c:35-87 | the typed line "setip ip nm" resets exactly when both addresses are nonzero; otherwise usage then prompt |
| Command.SetIpReply | app/command.c:229-241 | the setip entry with three arguments gives the handler's trace, plus the prompt when it does not reset |

## Left out

- Flash hardware: FlashErase, FlashProgram, FlashUsecSet, SysCtlClockGet and SysCtlFlashSizeGet are abstract primitives. Failures are nondeterministic. Whether the region ends inside the device's flash is the `inRange` parameter of `Init`.
- The `ASSERT`s of SoftEEPROMInit on alignment and sizes are the requirements of the `Engine` constructor and of `Valid`, not checks.
- Write bursts: PageSwap's burst buffering (softeeprom.c:450-531) is replaced by copies of one entry at a time. The resulting page is the same.
- SoftEeprom.Engine.PageSwap: its ERR_SWAP | ERR_AVAIL_ENTRY return is proved unreachable. At most 128 entries are copied into a page of at least 254 slots.
- SoftEeprom.Engine.PageSwap: it requires every slot of the full page to carry an id below 128. The code indexes its bit vector before its 0xFF test, and an erased slot (id 0xFFFF) would index past it. `Write` passes this on only when the page is full.
- SoftEeprom.Engine.MostRecentlyUsedPage: it computes the corrected scan, not the code as written (see Findings). `EepromBoot.MruAsWritten` models the code.
- EepromRecovery.Recovery: it uses the corrected scan. On a region with no active page whose used pages all have generation 0, it resumes the clear; the code instead dereferences the scan's 0xFFFFFFFF sentinel (softeeprom.c:1044-1050). EepromRecovery.NoActiveAsWritten states exactly when the two differ.
- EepromRecovery.NoActivePlan: it states the corrected plan on a region with no active page whose used pages all have generation 0 (softeeprom.c:1044-1050), where the code reads through the sentinel.
- EepromRecovery.NoActiveRecovery: its premises admit a single used page of generation 0; it states the corrected plan there, where the code reads through the sentinel.
- EepromRecovery.ClearResumesAfterMark: for an interrupted clear of a generation-0 page it states the corrected plan; the code reads through the sentinel there (EepromRecovery.ClearAfterMarkAsWritten, EepromBoot.MruAsWrittenMissesGenerationZero).
- EepromRecovery.ClearResumesDuringErase: the same, for power lost while the clear erases the successor of a generation-0 page.
- SoftEeprom.Engine.Init: it carries out the corrected plan, so on a region with no active page whose used pages all have generation 0 (softeeprom.c:1044-1050) it restarts a page where the code reads through the sentinel.
- SoftEeprom.Engine.Recover: it carries out the corrected plan, so on a region with no active page whose used pages all have generation 0 (softeeprom.c:1044-1050) it restarts a page where the code reads through the sentinel.
- SoftEeprom.Engine.RecoverNoActive: it carries out the corrected plan, so on a region with no active page whose used pages all have generation 0 (softeeprom.c:1044-1050) it restarts a page where the code reads through the sentinel.
- SoftEeprom.Engine.DecideNoActive: it carries out the corrected plan, so on a region with no active page whose used pages all have generation 0 (softeeprom.c:1044-1050) it restarts a page where the code reads through the sentinel.
- SoftEEPROMSelfTest is compiled out. Only its wrapper round trip is kept, as `WriteThenRead`. Its swap half uses ids that Write rejects.
- ERR_PAGE_RANGE: its value is defined in softeeprom_wrapper.h, which is not part of this model. It is the `PageRange` outcome.
- OutputErrorAndQuit: the error report is a list of lines, and the endless loop is the `Halted` outcome.
- SoftEepromWrapper.Write: it requires the engine to be `Ready` (healthy once initialized). The code has no such check. Ready holds after an Ok init that restarts a page (SoftEeprom.Engine.Init), and after an Ok init whose active page is intact (SoftEepromWrapper.Init); a page damaged before boot is not covered. Every successful engine write and clear keeps it, and a failed write halts the wrapper.
- SoftEepromWrapper.WriteThenRead: it requires `Ready` for the same reason, which the self-test's preceding init gives on an intact or restarted page.
- The self-test's use of the wrapper's UARTprintf messages is not modelled. The wrapper's printed prefix is the line `Preamble` returns.
- Buffered UART mode is disabled: UARTStdioIntHandler, UARTPrimeTransmit, UARTFlushTx/Rx and UARTPeek are interrupt-driven and not modelled. The ring-buffer index arithmetic is modelled as pure functions.
- UARTStdioInit is hardware configuration only.
- UartStdio.Console.Gets: it requires a completed line in the pending input. On input that runs out, MAP_UARTCharGet blocks forever.
- ConsoleFormat.ConversionTable: `%c` takes the low byte of the value. The code reads it through a little-endian pointer cast, which is modelled only for that byte order.
- ConsoleFormat.Conversion: it renders numbers by the corrected `Number`, with no 16-character bound. The code builds them in `pcBuf[16]`, which a padded number longer than 16 characters overruns (see Findings); ConsoleFormat.NumberFitsBuffer shows the two agree for every width up to 16.
- UartStdio.Console.Printf: it renders numbers by the corrected `Number`, with no 16-character bound. The code builds them in `pcBuf[16]`, which a padded number longer than 16 characters overruns (see Findings); ConsoleFormat.NumberFitsBuffer shows the two agree for every width up to 16.
- UartStdio.Console.EmitNumber: it renders numbers by the corrected `Number`, with no 16-character bound. The code builds them in `pcBuf[16]`, which a padded number longer than 16 characters overruns (see Findings); ConsoleFormat.NumberFitsBuffer shows the two agree for every width up to 16.
- UartStdio.Console.Convert: it renders numbers by the corrected `Number`, with no 16-character bound. The code builds them in `pcBuf[16]`, which a padded number longer than 16 characters overruns (see Findings); ConsoleFormat.NumberFitsBuffer shows the two agree for every width up to 16.
- UARTprintf's variadic arguments are a list of `Arg`. A missing or mistyped argument makes `Format` undefined (None), which `Printf` excludes by its requirement.
- Command: sscanf is the `Scanner` parameter. It is an abstract partial function from an argument to a dotted quad or six hex fields.
- strcmp is sequence equality.
- Command.Name: the `stale` leftover stands for the buffer's characters up to its NUL, which is all that strcmp compares.
- SysCtlReset never returns; it is the `Reset` effect that ends a trace.
- The lwIP getters (lwIPLocalIPAddrGet, lwIPLocalNetMaskGet, lwIPLocalGWAddrGet, lwIPLocalMACGet) are the `Stack` parameter.
- DisplayIPAddress and the wrapper writes of setip/setmac are effects, not calls into the store.
- Command.ParseCmd: the argument buffers `args[][]` are sequences of sequences.
- Command.ParseCmd: it requires at most 6 arguments of at most 30 characters each. The code does not check either bound.
- Command.ParseCmd: `args` is a local array that is never cleared. On a line with no words, `args[0]` holds whatever the buffer held before, often the previous command's first argument. That content is the `stale` parameter.
- Command.ParseCmd: its `len` parameter is unused in the code and not modelled.
- lwiplib.c, enet_lwip.c and private_mib.c (the network stack, board bring-up and the MIB tables) are not part of this model.

## Findings

| source | as written | input that shows it | evidently intended | confidence | as-written member | corrected member |
|---|---|---|---|---|---|---|
| softeeprom/softeeprom.c:875-899 | the most-recently-used scan accepts only generations strictly above its seed 0 | a clear of page 0 at generation 0 interrupted after marking it used: one used page of generation 0, and no active page | the newest used page is found whenever any page is used; otherwise init dereferences the 0xFFFFFFFF sentinel (softeeprom.c:1044-1050) | not executed | EepromBoot.MruAsWrittenMissesGenerationZero | EepromBoot.MruMeaning |
| softeeprom/softeeprom_wrapper.c:71 | `(usAddress + usSize) / 2 > MAX_SOFTEEPROM_IDS` admits ranges ending at byte 255 | address 254, size 1: admitted, then the engine rejects id 127 with ERR_ILLEGAL_ID and the call halts | ranges must end at or before byte 254, so every byte has a valid id | not executed | SoftEepromWrapper.LastByteIllegal | SoftEepromWrapper.FitsLegal |
| app/uartstdio.c:848 | the numeric conversion writes its padding into `pcBuf[16]` for any width up to 16 more than the digits | `%24u` of 4000000000 writes 24 characters | output never exceeds the buffer (or the buffer holds the widest padded number) | not executed | ConsoleFormat.PcBufOverrun | ConsoleFormat.NumberWidth |
