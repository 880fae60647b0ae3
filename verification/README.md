# Verification of the reader's storage and tooling core

Six parts of the repository, modelled in Dafny together with the properties a maintainer relies on:

1. **The crash-safe PDF bookmark store** (`src/BookmarkStore.cpp`): the file format, the transaction
   (temporary file, read-back, two renames), recovery, loading from a canonical and a legacy store,
   deletion, moving a book's store, and whole sessions of calls, failures and power cuts.
2. **The fixed-Huffman DEFLATE encoder and the PDF writer** (`scripts/generate_pdf_reflow_fixtures.py`),
   against a decoder written from RFC 1951 (sections 3.2.5 and 3.2.6) and RFC 1950 (section 2.2) and a
   table reader following section 7.5.4 of ISO 32000-1.
3. **StarDict word lists** (`scripts/dictionary_tools.py`): both index files, the lookup through them
   against a scan of all bytes, and the merge of dictionaries down to the files it writes.
4. **The log guard** (`scripts/run_qemu_esp32c3.py`): which logs it lets through, and what every such log
   has in common.
5. **The clipping store of books that are not PDFs** (`src/ClippingStore.cpp`): rewriting a file whose
   texts stay on the card.
6. **The string tables** (`scripts/gen_i18n.py`): escaping, line breaking, blobs and flagged offsets,
   against what a C++ compiler and a C-string reader make of them.

Storage is a map from names to bytes with the sequence of all its states. Every operation may fail
without effect; writing may leave any bytes, whatever it reports, until they are read back; a crash stops
the program in any recorded state. Renaming onto an existing name is a precondition violation for the
transaction code, so the proofs show it never asks for it. Path keys are arbitrary functions.

## What does not hold, and exactly when it does

Each of these is a theorem about the code as it is.

- **Loading twice after a crash** changes the list when a legacy record has id 0 or 65535 (every record of
  a version 2 file has 65535): it is repeated exactly if the legacy list holds such a record
  (`LoadCrashIdempotentIff`; `StoppedLoadDoubles` has the card), and every load that goes through passes such a
  state (`LoadShowsOtherListIff`).
- **Deleting a store** removes backup material first. If the canonical store is held by its backup alone
  and a legacy store exists, a crash after the first removal shows the legacy list. Deletion is safe at every
  stopping point exactly if that is not so, or the legacy list adds nothing: it is empty or unreadable, or the
  backup's list is a beginning of it that is complete or has an id on every record, or the 1024 cut-off makes
  the two merges agree (`DeletionSafeIff`, with the concrete case in `DeletionResurrectsStaleRecord`). For the same reason a failed clear leaves memory and card
  apart exactly if the backup alone held the store and is gone (`BookmarkStore.Store.ClearPdfBookmarks`).
- **Moving a book** loses everything when the old path's legacy key is the new path's current key: the
  cleanup deletes the file just written. The copy operation refuses this collision, the move does not. A move
  that writes nothing loses nothing; outside the collision a move that writes keeps every record in every
  state exactly if whatever its first merge leaves out at the 1024-record cut-off is gathered under the same
  identity or stands in the destination's legacy list (`MigratePdfForFilePath`, `MoveSafeIff`). Repeated ids
  can break that without the cap of 64 noticing (`CutOffLosesRecord` has the card); valid ids, distinct in
  the destination's current store, cannot (`DistinctIdsAreUncut`).
- **In a move** the destination's legacy record outranks its current record of the same id, the reverse
  of the order a load uses (`DestinationLegacyOutranksCurrent`).
- **Copy verification** fails for a source with a NaN progress value, which equals nothing, and only then
  (`CopyThenVerify`).
- **A match of length 258** is written with symbol 284 and extra value 31; it still decodes to 258.
- **The sampled dictionary search** misses words exactly if some sampled 16-byte prefix is not above the
  folded word before it (`SampledLookupIff`; `CrowdedIsNotSeparated` shows seventeen such words). The page
  search has the same kind of condition (`PageLookupIff`).
- **A translation** survives escaping exactly if no backslash in it reads as the start of an escape
  (`SurvivesIff`); a forced line break without a space can split an escape, and such a text survives its
  line breaks exactly if none does (`SafeEntryReadsIff`, `ForcedCutBreaks`).

## Reading the project

`Bytes`, `Decimal`, `Wrappers` hold shared vocabulary. Part 1: `Bookmarks` (records and merging),
`BookmarkCodec`, `HalStorage` (card and recovery's view of it), `TransactionParts`, `StoreViews` (what a
load would show; deletion), `BookmarkStore` (the class), `BookmarkMove`, `BookmarkSession`. Part 2: `Bits`,
`DeflateWriter`, `Inflate`, `FixedMatch`, `PeriodicZlib`, `ClassicPdf`. Part 3: `DictionaryIndex`,
`DictionaryLookup`, `DictionaryMerge`, `DictionaryOutput`. Part 4: `GuardLines`, `GuardSpec`,
`GuardTheorems`, `OutputGuard`. Part 5: `ClippingCodec`, `ClippingStore`. Part 6: `CppLiterals`,
`CppLines`, `Translations`.

Code that changes things step by step is modelled as methods and classes with the same loops and fields;
long functions are cut into several methods. Each is proved against a specification function, and the
properties are lemmas about those functions or contracts of the methods.

## Model

| member | source | states |
|---|---|---|
| Bookmarks.MergeBookmarks | src/BookmarkStore.cpp:171-188 | appends exactly the source records no earlier record identifies, up to 1024 |
| Bookmarks.MergeKeepsDestination | src/BookmarkStore.cpp:171-188 | the destination stays in front, unchanged |
| Bookmarks.MergeKeepsSource | src/BookmarkStore.cpp:171-188 | every source record is present, by id if valid, else by value, or was left out at the cut-off; below the cut-off none is |
| Bookmarks.MergeKeepsDistinct | src/BookmarkStore.cpp:171-188 | ids stay valid and distinct |
| Bookmarks.MergeIdempotentIff | src/BookmarkStore.cpp:157-188 | repeating a merge changes nothing exactly if no source id is 0 or 65535 |
| Bookmarks.MergeTwiceDuplicates | src/BookmarkStore.cpp:157-188 | a record with id 65535 is there twice after merging twice |
| Bookmarks.MergeAuthoritativeBookmarks | src/BookmarkStore.cpp:550-567 | replaces the first record of the same identity or appends; refuses beyond 1024 |
| Bookmarks.AuthoritativeMergeFacts | src/BookmarkStore.cpp:550-567 | source wins, every destination identity is kept |
| Bookmarks.AuthoritativeMergeAbsorbs | src/BookmarkStore.cpp:550-567 | repeating the merge changes nothing |
| Bookmarks.ContainsAllBookmarks | src/BookmarkStore.cpp:569-574 | true exactly if every source record occurs field by field, floats compared as floats |
| Bookmarks.CopyThenVerify | src/BookmarkStore.cpp:1268-1357 | after a copy the containment check accepts exactly if no source progress is NaN, and a second copy changes nothing |
| BookmarkCodec.FileRoundTrip | src/BookmarkStore.cpp:772-873 | reading an encoded file of any version gives its list with defaults, asks for a rewrite exactly for old versions, and is refused under another path |
| BookmarkCodec.RewriteIsFixedPoint | src/BookmarkStore.cpp:772-873 | whatever bytes were read, one rewrite in version 5 reads back as the same list and needs no other |
| BookmarkCodec.TruncationRejected | src/BookmarkStore.cpp:812-863 | of all prefixes of an encoded file only the whole is accepted |
| BookmarkCodec.RecordsRoundTrip | src/BookmarkStore.cpp:812-863 | records decode to themselves with the version's defaults, whatever follows |
| BookmarkCodec.ParseExtends | src/BookmarkStore.cpp:772-873 | bytes behind the last record never change what is read |
| HalStorage.PdfBookmarkStoreFilePathForBook | src/BookmarkStore.cpp:126-139 | formatting the path never fails |
| HalStorage.PdfStorePathFits | src/BookmarkStore.cpp:126-139 | the 64-byte buffer holds the path of every 64-bit key |
| HalStorage.RenderInjective | src/BookmarkStore.cpp:24-28 | different keys and artifacts never share a path |
| HalStorage.RecoveredFacts | src/BookmarkStore.cpp:1046-1081 | recovery keeps the authoritative bytes, clears the artifacts, touches nothing else |
| HalStorage.ShowedThenSwitched | src/BookmarkStore.cpp:999-1018 | up to the commit event recovery sees the old bytes and from it on the new |
| TransactionParts.PdfBookmarkAt | src/BookmarkStore.cpp:84-92 | element `i` of the planned list without building it |
| TransactionParts.PdfBookmarkCount | src/BookmarkStore.cpp:94-99 | its length |
| TransactionParts.ReadExpectedBytes | src/BookmarkStore.cpp:59-72 | comparing in chunks of 64 accepts exactly if the file has the bytes at its cursor |
| TransactionParts.ReadExpectedPieces | src/BookmarkStore.cpp:1021-1044 | the same for fields one after the other |
| TransactionParts.WritePieces | src/BookmarkStore.cpp:969-983 | without faults exactly the pieces are appended; nothing else is touched |
| TransactionParts.DeleteBookmarkStorePath | src/BookmarkStore.cpp:190-199 | gone on success, untouched on failure |
| BookmarkStore.Store.VerifyPdfTransaction | src/BookmarkStore.cpp:1021-1044 | true only if the file is the planned payload to the last byte; false has a fault or a difference as its reason |
| BookmarkStore.Store.VerifyRecords | src/BookmarkStore.cpp:1033-1040 | accepts exactly the records of the planned list |
| BookmarkStore.Store.PrepareTransaction | src/BookmarkStore.cpp:937-951 | whatever debris there is, the authoritative bytes stay the same in every state |
| BookmarkStore.Store.StageTransaction | src/BookmarkStore.cpp:953-997 | success leaves the verified payload under the temporary name; only that name is touched |
| BookmarkStore.Store.PromoteTransaction | src/BookmarkStore.cpp:999-1018 | old bytes up to the promoting rename, new bytes from it on |
| BookmarkStore.Store.WritePdfTransaction | src/BookmarkStore.cpp:926-1019 | for any debris and any failures every state shows the old or the new list, switching once, at the promoting rename; true means new, false means old |
| BookmarkStore.Store.RecoverPdfTransaction | src/BookmarkStore.cpp:1046-1081 | keeps the authoritative bytes in every state and cleans up on success |
| BookmarkStore.Store.ReadFromFile | src/BookmarkStore.cpp:772-873 | success is what the bytes decode to; failure leaves the list as it was and has a reason |
| BookmarkStore.Store.ReadRecord | src/BookmarkStore.cpp:814-862 | a record field by field, refused exactly if truncated |
| BookmarkStore.Store.ReadRecords | src/BookmarkStore.cpp:812-863 | reads exactly what the record parser reads |
| BookmarkStore.Store.ReadText | src/BookmarkStore.cpp:801-806 | a string read past the end of the file can be no book path, although its length is never initialised |
| BookmarkStore.Store.LoadPdfForBook | src/BookmarkStore.cpp:348-430 | every state on the way shows the merged list, or it merged once more with the legacy records; success leaves it in memory and alone in the current store; failure leaves the memory |
| BookmarkStore.Store.SettleStores | src/BookmarkStore.cpp:402-421 | rewrite, then deletion of the legacy store, keep the list in every state |
| BookmarkStore.Store.PayloadReadsBack | src/BookmarkStore.cpp:969-983 | the payload a transaction writes loads as the planned list |
| BookmarkStore.Store.AddPdfBookmark | src/BookmarkStore.cpp:625-661 | each result exactly under its condition; memory equals disk before and after; ids stay distinct and valid, at most 64 |
| BookmarkStore.Store.RemovePdfBookmark | src/BookmarkStore.cpp:663-676 | removes the record of that id from memory and disk, or changes neither |
| BookmarkStore.Store.ClearPdfBookmarks | src/BookmarkStore.cpp:678-688 | success empties both; after a failure they differ exactly if the store was held by its backup alone and the backup is gone |
| BookmarkStore.RewriteKeepsList | src/BookmarkStore.cpp:405-415 | writing the merged list while the legacy store is still there keeps the list |
| BookmarkStore.DropLegacyKeepsList | src/BookmarkStore.cpp:417-419 | so does dropping the legacy store at any point |
| StoreViews.LoadCrashIdempotentIff | src/BookmarkStore.cpp:348-430 | merging the legacy list into the loaded list once more changes nothing exactly if every legacy record has an id |
| StoreViews.StoppedLoadDoubles | src/BookmarkStore.cpp:408-424 | a card on which a load stopped between its write and the removal of the legacy store, in a state every successful load passes, leaves the book with the one record twice |
| StoreViews.LoadShowsOtherListIff | src/BookmarkStore.cpp:404-424 | a successful load of a legacy store shows another list in one of its states exactly if some legacy record has no id |
| StoreViews.DeletePdfBookmarkStorePaths | src/BookmarkStore.cpp:201-219 | every state is a prefix of the removals, backups first and the canonical file last; success removes all |
| StoreViews.DeletionNeverResurrects | src/BookmarkStore.cpp:201-219 | with an authoritative canonical store every stopping point shows the merged list, the canonical list or nothing |
| StoreViews.DeletionSafeIff | src/BookmarkStore.cpp:201-219 | that holds at every stopping point exactly if the canonical store is authoritative, there is no separate legacy store, or the legacy list is unreadable, empty, or begun by the backup's list with all of it or only records with ids (or cut off at 1024 alike) |
| StoreViews.FirstRemovalExposesLegacy | src/BookmarkStore.cpp:201-219 | otherwise the first removal leaves the legacy list alone |
| StoreViews.DeletionResurrectsStaleRecord | src/BookmarkStore.cpp:201-219 | a concrete card on which a stale record comes back |
| BookmarkMove.MigratePdfForFilePath | src/BookmarkStore.cpp:1359-1517 | a refused move, and outside one key collision every lossless one, keeps every source and destination record present in the old or the new book in every state; success has them all in the new book and the old one without files; a failure has a fault or a list that cannot be read or written as its reason |
| BookmarkMove.UnderwayIsSafe | src/BookmarkStore.cpp:1359-1517 | a state of a move that writes nothing, or that is lossless, has lost nothing |
| BookmarkMove.MoveSafeIff | src/BookmarkStore.cpp:1359-1517 | every state of a writing move keeps every record exactly if what the cut-off leaves out is gathered or in the destination's legacy list |
| BookmarkMove.PlanKeepsAll | src/BookmarkStore.cpp:1414-1498 | the list a move writes holds every destination record, and every source record exactly if the move is lossless |
| BookmarkMove.DistinctIdsAreUncut | src/BookmarkStore.cpp:1414-1502 | with valid source ids and valid distinct ids in the destination's current store nothing that is written was cut off |
| BookmarkMove.CutOffLosesRecord | src/BookmarkStore.cpp:171-188 | a card whose move is carried out and leaves a record in neither book |
| BookmarkMove.DestinationLegacyOutranksCurrent | src/BookmarkStore.cpp:1469-1493 | on a shared id the destination's legacy record wins |
| BookmarkMove.UnmovedIsSafe | src/BookmarkStore.cpp:1359-1517 | before the destination is written nothing is lost |
| BookmarkMove.MovedIsSafe | src/BookmarkStore.cpp:1359-1517 | after it nothing is lost either, whatever of the source is left |
| BookmarkMove.CleanUp | src/BookmarkStore.cpp:1455-1511 | deleting leftovers keeps every state safe |
| BookmarkSession.Session.Perform | src/BookmarkStore.cpp:625-688 | success is told only for an admissible call and failure only for an inadmissible one or after a fault; then card and memory agree unless a failed clear is pending; a power cut leaves the list from before or the effect of an admissible call |
| BookmarkSession.Session.Restart | src/BookmarkStore.cpp:348-430 | a load, run or cut short, changes nothing; it fails only after a fault or for a list beyond the cap |
| BookmarkSession.Session.Run | src/BookmarkStore.cpp:348-688 | over any run of calls, starts, failures and power cuts: every call on a loaded store is answered or cut short; the card holds exactly the replay of the attempts that took effect, each admissible; calls told to have succeeded did, calls told to have failed did not unless they were clears; distinct valid ids and the cap of 64 are kept; without faults every answer is exact |
| BookmarkSession.LawfulKeepsHealth | src/BookmarkStore.cpp:625-688 | distinct valid ids, terminated texts and the cap of 64 survive every run |
| BookmarkSession.ExactIsIdeal | src/BookmarkStore.cpp:625-688 | a run whose calls were all answered exactly leaves what the admissible calls make of the list |
| BookmarkSession.SettledIsEmpty | src/BookmarkStore.cpp:678-688 | counting an unacknowledged clear as effective empties the replayed list |
| DeflateWriter.BitWriter.Write | scripts/generate_pdf_reflow_fixtures.py:163-169 | appends the low bits of the value, least significant first |
| DeflateWriter.BitWriter.Finish | scripts/generate_pdf_reflow_fixtures.py:171-174 | the bytes are the bits written, padded with fewer than eight zeros |
| DeflateWriter.ReverseBits | scripts/generate_pdf_reflow_fixtures.py:177-182 | writing the result low bits first gives the code high bits first |
| DeflateWriter.WriteFixedSymbol | scripts/generate_pdf_reflow_fixtures.py:185-196 | accepts symbols up to 287 and appends their fixed code |
| FixedMatch.SymbolDecodes | scripts/generate_pdf_reflow_fixtures.py:185-196 | the fixed code is prefix-free: every symbol decodes to itself whatever follows |
| FixedMatch.LengthTableHolds | scripts/generate_pdf_reflow_fixtures.py:200-261 | the length table is RFC 1951's and its first 28 entries cover 3 to 258 without a gap |
| FixedMatch.DistanceTableHolds | scripts/generate_pdf_reflow_fixtures.py:262-325 | the distance table is RFC 1951's and covers 1 to 32768 without a gap |
| FixedMatch.EntryFits | scripts/generate_pdf_reflow_fixtures.py:326-344 | the first entry that reaches a value holds it as base plus extra bits |
| FixedMatch.FindLength | scripts/generate_pdf_reflow_fixtures.py:326-335 | finds an entry exactly for lengths up to 258, one whose base and extra bits give the length back |
| FixedMatch.FindDistance | scripts/generate_pdf_reflow_fixtures.py:336-344 | the same for distances up to 32768 |
| FixedMatch.WriteFixedMatch | scripts/generate_pdf_reflow_fixtures.py:199-344 | refuses exactly lengths over 258 and distances over 32768; everything else decodes, whatever follows, to the match |
| PeriodicZlib.ChecksumOf | scripts/generate_pdf_reflow_fixtures.py:374-378 | the running sums are the closed form of Adler-32 |
| PeriodicZlib.PackedChecksum | scripts/generate_pdf_reflow_fixtures.py:379-379 | both halves fit 32 bits side by side |
| PeriodicZlib.CopyContinues | scripts/generate_pdf_reflow_fixtures.py:363-371 | an overlapping copy continues a periodic sequence |
| PeriodicZlib.WriteBlock | scripts/generate_pdf_reflow_fixtures.py:355-379 | the block inflates to the data and stops at its last bit |
| PeriodicZlib.DeterministicPeriodicZlib | scripts/generate_pdf_reflow_fixtures.py:347-379 | refuses exactly what the two checks refuse; every other stream decodes to the data, header and checksum included |
| ClassicPdf.Pdf.Add | scripts/generate_pdf_reflow_fixtures.py:387-390 | refuses number zero, negative numbers and duplicates |
| ClassicPdf.Pdf.Render | scripts/generate_pdf_reflow_fixtures.py:392-422 | every object stands where its entry says, number zero has the free-list head and gaps the free entry, and the end names the table |
| ClassicPdf.LookUpFinds | scripts/generate_pdf_reflow_fixtures.py:407-414 | a table reader gets each object's offset below 10^10, and nothing for gaps and number zero |
| ClassicPdf.TableEntry | scripts/generate_pdf_reflow_fixtures.py:407-414 | entry `N` is 20 bytes long and stands at 20 N |
| ClassicPdf.PaddedReads | scripts/generate_pdf_reflow_fixtures.py:412-412 | a padded offset reads back and has ten digits below 10^10 |
| ClassicPdf.LayoutHolds | scripts/generate_pdf_reflow_fixtures.py:392-422 | that layout of the whole file |
| DictionaryIndex.BuildOft | scripts/dictionary_tools.py:29-44 | for a well-formed list the table is the starts of entries 32, 64, ... and the total size |
| DictionaryIndex.PageStartsExact | scripts/dictionary_tools.py:29-44 | there are n/32 page starts, the j-th that of entry 32(j+1) |
| DictionaryIndex.BuildCspt | scripts/dictionary_tools.py:59-121 | there are ceil(n/16) rows, the j-th with the position and padded prefix of entry 16 j |
| DictionaryIndex.SamplePage | scripts/dictionary_tools.py:82-111 | a page gives the rows of its first and seventeenth entries, as far as it has them |
| DictionaryIndex.WordEnds | scripts/dictionary_tools.py:36-37 | from an entry's start the next NUL ends its word, for payloads of any length |
| DictionaryLookup.ScanIdx | scripts/dictionary_tools.py:279-351 | for any bytes an answer stands beside that very word; with a list's own tables, separated, it is the answer of the plain scan |
| DictionaryLookup.AnswerIsExact | scripts/dictionary_tools.py:338-351 | wherever the tables send the scan, an answer is an exact match |
| DictionaryLookup.ByteScanIsScan | scripts/dictionary_tools.py:338-351 | scanning the bytes of a list is scanning its entries |
| DictionaryLookup.FindRow | scripts/dictionary_tools.py:299-308 | the binary search ends at the last row whose folded prefix is not above the folded target |
| DictionaryLookup.NarrowBySamples | scripts/dictionary_tools.py:295-317 | the range searched is the block of that row |
| DictionaryLookup.SampledLookupIff | scripts/dictionary_tools.py:294-351 | the sampled search answers every target like the plain scan exactly if each sample is above the word before it |
| DictionaryLookup.UnseparatedMisses | scripts/dictionary_tools.py:294-351 | otherwise the word before the sample is in the list and not found |
| DictionaryLookup.CrowdedIsNotSeparated | scripts/dictionary_tools.py:299-317 | a concrete sorted list the search fails on |
| DictionaryLookup.FindPage | scripts/dictionary_tools.py:319-336 | the walk ends at the last page not above the target |
| DictionaryLookup.PageLookupIff | scripts/dictionary_tools.py:319-351 | the page search answers like the plain scan exactly if each page starts above the word before it |
| DictionaryMerge.ParseItems | scripts/dictionary_tools.py:128-151 | reads exactly the encodings of well-formed lists, each as the list it encodes |
| DictionaryMerge.ListsAreInjective | scripts/dictionary_tools.py:128-151 | no two lists have the same bytes |
| DictionaryMerge.Gather | scripts/dictionary_tools.py:456-457 | the occurrences of each word, by source and then by place |
| DictionaryMerge.OccurrencesExact | scripts/dictionary_tools.py:456-457 | those are exactly the entries with that word |
| DictionaryMerge.SortFacts | scripts/dictionary_tools.py:464-464 | the sort orders, permutes and keeps the order within a word |
| DictionaryMerge.StableSortUnique | scripts/dictionary_tools.py:464-464 | only one list does |
| DictionaryMerge.Define | scripts/dictionary_tools.py:466-476 | each headword gets all its definitions in source order; each entry gets its headword's new number |
| DictionaryMerge.Retarget | scripts/dictionary_tools.py:499-504 | keeps exactly the synonyms that name an entry |
| DictionaryMerge.MergeContent | scripts/dictionary_tools.py:396-511 | unique sorted headwords, joined definitions, stably sorted synonyms |
| DictionaryMerge.SynonymsKeepTheirHeadwords | scripts/dictionary_tools.py:499-505 | each merged synonym points at the headword it named in its own source, and none is missing |
| DictionaryMerge.MergeIsUnique | scripts/dictionary_tools.py:396-511 | nothing about the merged content is left open |
| DictionaryOutput.ParseAllIdx | scripts/dictionary_tools.py:128-138 | an index reads as its entries, or has no reading |
| DictionaryOutput.ParseAllSyn | scripts/dictionary_tools.py:141-151 | the same for synonym files |
| DictionaryOutput.LayOut | scripts/dictionary_tools.py:482-487 | definitions end to end, each at the sum of the sizes before it |
| DictionaryOutput.PackEntries | scripts/dictionary_tools.py:490-494 | entries exactly if every offset and size fits 32 bits |
| DictionaryOutput.SliceIsDefinition | scripts/dictionary_tools.py:482-494 | each entry's slice is its definition; slices tile the output |
| DictionaryOutput.Merge | scripts/dictionary_tools.py:396-511 | the written files read back as a dictionary in which every source word and no other has all its definitions in source order |
| DictionaryOutput.EntriesAnswer | scripts/dictionary_tools.py:466-494 | a plain lookup in them gives the word's joined definitions, or nothing for a word no source has |
| DictionaryOutput.MergedListIsSorted | scripts/dictionary_tools.py:464-464 | with ASCII folding the merged index is ordered as the lookup tables assume |
| DictionaryOutput.LookUpMerged | scripts/dictionary_tools.py:279-351 | with separated samples, looking a word up in the merged files through the tables built for them gives the slice with all its definitions in source order, or nothing for a word no source has |
| GuardLines.FullMarkersAreTheKinds | scripts/run_qemu_esp32c3.py:242-286 | the full list has 25 places and names every acceptance marker |
| GuardTheorems.Lockstep | scripts/run_qemu_esp32c3.py:1055-1101 | boots and announced resets are never more than one apart |
| GuardTheorems.SlowAlways | scripts/run_qemu_esp32c3.py:326-459 | slow records are numbered, their slices strictly increase, all limits hold |
| GuardSpec.ClassesPartition | scripts/run_qemu_esp32c3.py:426-436 | every record counts in exactly one of the three classes |
| GuardTheorems.AtMostThirtyTwo | scripts/run_qemu_esp32c3.py:100-103 | the three class limits imply the total limit |
| GuardSpec.MaxIsAttained | scripts/run_qemu_esp32c3.py:738-749 | the maximum is that of a record, so the search for its kind finds one |
| GuardTheorems.SummaryIsFinal | scripts/run_qemu_esp32c3.py:461-495 | the one summary repeats the true counts, sums and maxima, and no record follows it |
| GuardTheorems.FullInOrder | scripts/run_qemu_esp32c3.py:650-710 | acceptance markers come in the order of the list |
| GuardTheorems.FullRun | scripts/run_qemu_esp32c3.py:242-287 | an accepted full run shows exactly the 25 markers in order, five before its only reset and the rest after the second boot |
| GuardTheorems.OneGeneration | scripts/run_qemu_esp32c3.py:712-803 | one summary, one cancellation and one resumption, all of one generation |
| OutputGuard.Guard.Inspect | scripts/run_qemu_esp32c3.py:318-648 | rejects a line exactly if it does not fit what the log contains so far, and ends exactly at the expected line |
| OutputGuard.Guard.AcceptBoot | scripts/run_qemu_esp32c3.py:1055-1077 | accepts exactly the boot that is due |
| OutputGuard.Guard.ArmReset | scripts/run_qemu_esp32c3.py:1079-1101 | accepts exactly a reset of the current boot that is due |
| OutputGuard.Guard.RecordSlow | scripts/run_qemu_esp32c3.py:337-459 | accepts exactly a record that follows the others within the class limits; the totals stay those of the records |
| OutputGuard.Guard.AcceptSummary | scripts/run_qemu_esp32c3.py:461-495 | accepts exactly the first summary that repeats the totals |
| OutputGuard.Guard.CancelValid | scripts/run_qemu_esp32c3.py:713-785 | accepts exactly a cancellation that agrees with the summary and the records |
| OutputGuard.Guard.ValidateFullMarker | scripts/run_qemu_esp32c3.py:712-1046 | accepts exactly a marker whose values are right for the log |
| OutputGuard.Guard.AdvanceFull | scripts/run_qemu_esp32c3.py:667-710 | accepts exactly the next marker of the list on its own boot |
| OutputGuard.Guard.AcceptTracerMarker | scripts/run_qemu_esp32c3.py:650-710 | remembers exactly whether the markers since the last boot are in order |
| OutputGuard.Monitor | scripts/run_qemu_esp32c3.py:1129-1216 | passes exactly if some beginning of the lines is an accepted log |
| ClippingCodec.FileReads | src/ClippingStore.cpp:521-631 | a written file reads back as exactly the clippings its writer keeps, each with its text |
| ClippingCodec.ExcerptReads | src/ClippingStore.cpp:555-623 | a written record reads back as its fields, its text where it stands |
| ClippingCodec.StandAppend | src/ClippingStore.cpp:678-723 | one record more at the end, its clipping pointing at its text |
| ClippingCodec.ReadTextsInside | src/ClippingStore.cpp:555-623 | whatever the reader accepts, in any version, has its texts inside the file |
| ClippingStore.CopyBytes | src/ClippingStore.cpp:193-206 | copies exactly the bytes at the cursor, or fails |
| ClippingStore.Store.WriteToFile | src/ClippingStore.cpp:633-754 | success: the file reads back as the clippings in memory, each with its old text or the replacement cut to 512 bytes; failure: memory and card as before |
| ClippingStore.Store.SwapIn | src/ClippingStore.cpp:735-748 | the card shows the new file on success and the old one on every failure |
| ClippingStore.Store.TidyUp | src/ClippingStore.cpp:637-647 | restoring and clearing leftovers keeps what the card shows |
| ClippingStore.Store.WriteRecords | src/ClippingStore.cpp:678-723 | the records of all clippings, their texts copied or replaced |
| ClippingStore.Store.ReadFromFile | src/ClippingStore.cpp:521-631 | success is what the bytes decode to; failure has a reason |
| ClippingStore.Store.ReadClipping | src/ClippingStore.cpp:555-623 | one record of any version, refused exactly if truncated or its text too long |
| ClippingStore.Store.ReadClippingText | src/ClippingStore.cpp:469-496 | an answer is always the clipping's own text |
| ClippingStore.Store.AddClipping | src/ClippingStore.cpp:310-344 | adds one excerpt with the given fields, at least one page, the clock in seconds and the title cut to its field, and keeps every other text, or changes nothing |
| ClippingStore.Store.RemoveClippingAt | src/ClippingStore.cpp:436-450 | removes that excerpt and keeps every other text, or changes nothing |
| ClippingStore.Store.StampMissingLayoutSignature | src/ClippingStore.cpp:416-434 | stamps exactly the clippings without a signature and keeps every text |
| CppLiterals.EscapeCppString | scripts/gen_i18n.py:303-360 | the segments for the text after its newlines are replaced |
| CppLiterals.SegmentsDecode | scripts/gen_i18n.py:303-360 | the compiler reads the segments with the separator as the bytes the text stands for; no escape swallows what follows it |
| CppLiterals.SurvivesIff | scripts/gen_i18n.py:303-360 | those are its UTF-8 bytes and a NUL exactly if no backslash in it reads as the start of an escape |
| CppLiterals.NeverLonger | scripts/gen_i18n.py:303-360 | escaping never lengthens a text |
| CppLines.FormatCppStringLiteral | scripts/gen_i18n.py:363-417 | the lines of all segments in order |
| CppLines.FormattedReads | scripts/gen_i18n.py:363-417 | lines cut between escapes only read as the segments |
| CppLines.SpacesCutClean | scripts/gen_i18n.py:383-403 | cutting at the last space never splits an escape of a text without backslashes |
| CppLines.EntryReadsIff | scripts/gen_i18n.py:784-797 | with such cuts an entry compiles to its text and a NUL exactly if the text is safe |
| CppLines.SafeEntryReadsIff | scripts/gen_i18n.py:363-417 | a safe text compiles to itself and a NUL exactly if its cuts lie between escapes |
| CppLines.UncleanWidens | scripts/gen_i18n.py:404-412 | a cut inside an escape leaves a line that is no literal, or one byte too many |
| CppLines.PlainEntryReads | scripts/gen_i18n.py:784-797 | a text without backslashes whose long lines have spaces compiles to itself |
| Translations.EnglishTable | scripts/gen_i18n.py:655-668 | the positions of the entries, refused exactly if the blob exceeds 32767 bytes |
| Translations.OtherTable | scripts/gen_i18n.py:669-684 | a flagged English position exactly for texts equal to the English ones, else the position among the own texts |
| Translations.WriteBlob | scripts/gen_i18n.py:686-692 | the lines of all own texts, or one empty entry |
| Translations.DataIsBlob | scripts/gen_i18n.py:686-692 | the compiled array is the texts, each with its NUL |
| Translations.FlagSet | scripts/gen_i18n.py:675-675 | setting bit 15 never collides with a position |
| Translations.TableNamesText | scripts/gen_i18n.py:642-702 | for every language and key the reader gets the text exactly if it holds no NUL |
| Translations.EnglishTableNamesText | scripts/gen_i18n.py:655-668 | the same for English |
| Translations.WriteLanguages | scripts/gen_i18n.py:642-702 | refuses exactly if some blob outgrows 15 bits; otherwise every key of every language reads back its text, exactly if that holds no NUL |
| Translations.ForcedCutBreaks | scripts/gen_i18n.py:404-412 | a concrete word whose forced cut leaves a line that is no literal |

## Left out

- The CRC and hash functions behind path keys are arbitrary functions; collisions are covered by the theorems.
- Directory creation, logging, and the `exists` checks as separate steps: they change nothing on the card.
- Chunks within one field write are not separate states: until it is read back the file may hold anything.
- Failing memory allocation counts as one more way for an operation to fail.
- Bookmarks of books that are not PDFs, their `/Read` folder heuristics and page-range matching on floats; `progress` is kept as its bit pattern.
- The body of `copyForFilePath` around its merge and check, and `BookMoveDurableFile`, which is not part of this model.
- The PDF branch of the clipping store: its writer omits the layout signature its reader expects, so no round trip holds; its transaction repeats the one proved for bookmarks.
- Crash safety of clipping rewrites: the new file is never read back, so a write is taken at its word.
- ClippingStore.Store.ReadClipping: reads the fields of a record in one piece, because any short field refuses the record alike.
- Book paths are non-empty and without NULs, as every caller passes them.
- Listing the books with bookmarks or clippings, and loading clippings by book path.
- The text of PDF trailers beyond the table and its position; the fixture bodies.
- UTF-8 decoding of dictionary words: a word is its bytes, and `str.lower` is an arbitrary function, so invalid UTF-8 is not rejected by the model.
- Dictionary folders, `.ifo` files and decompression.
- Matching log lines against patterns: a line arrives parsed, with a flag for the failure patterns; the texts of the guard's error messages.
- OutputGuard.Guard.Inspect: does not state the fields after a rejected line, because the run ends there.
- The runner's timeouts, process handling and image bookkeeping.
- YAML parsing, key enumeration, character sets and report tables of the translation generator; quotes and indentation of the generated lines.
