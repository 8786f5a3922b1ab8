# Verified models of the UFFS search index and its measurement tools

UFFS finds files by name on NTFS volumes. This project models, in Dafny 4.11, the parts of it whose correctness is not
visible from any one function, and proves what they promise.

* **The trigram search** (`Postings`, `CsrBuild`, `CsrSearch`, `Overlay`, `DriveIndex`, `Trigram`, `NameSearch`). The
  parallel counting-sort build fills an index from any schedule of its chunks; searching base, delta and tombstones after
  any sequence of journal batches is compared with scanning the current names.
* **The change journal** (`Journal`, `ParentFirst`, `Patch`, `SlotTable`). Records are coalesced into one net change per
  file, reordered so that directories come before what they contain, and applied, each parent looked up at that moment;
  this is compared with applying the records one at a time, for every order in which the map of changes may iterate.
  `SlotTable` is the same on record slots, which is what `DriveIndex` indexes.
* **The parity checker** (`Lines`, `Csv`, `StreamingDiff`, `Verdict`, `LiveSkew`, `GreedyMatching`, `Reconcile`,
  `LeadingComma`). Three tiers decide whether two outputs agree; the streaming diff is compared with multiset difference
  and with a sorted merge, the greedy reconciliation with maximum matching. The line hash `H` and the ordered digest `D`
  are arbitrary functions; statements that need `H` injective on the lines present say so.
* **The sidecar cache** (`Decimal`, `SidecarText`, `SidecarCache`). Any number of checker runs share a baseline and its
  `.parityhash` file while the baseline is rewritten; every interleaving is a sequence of events.
* **The read-order analysis** (`Orders`, `Seek`, `Spearman`), with exact integers and reals.
* **Calendar arithmetic** (`Calendar`): one closed form and two subtraction loops.
* **Lifecycles** (`Benchmark`, `Installer`, `Snapshots`): the environment (what dies, fails, overruns, and when) is an
  arbitrary parameter, so every theorem holds for every pattern of it.
* **Parsers and printers** (`Chunked`, `Csv`, `GroupedUse`): the chunked coding of section 7.1 of RFC 9112, quoted
  comma-separated rows (section 2 of RFC 4180), and the rewriting of grouped imports.

`dafny verify dfyconfig.toml` checks everything. `Seqs` holds the shared sequence vocabulary.

## Properties that do not hold, and exactly when they do

1. *The trigram search finds every matching name.* It finds none when every trigram of the needle is pruned for being
   frequent (`CsrSearch.CommonNeedleFindsNothing`); a record whose name contains the needle is found if and only if some
   trigram of the needle is not pruned (`CsrSearch.FoundIffSomeKeyKept`).
2. *Base and delta together search like a full rebuild.* Creating one file can hide another: a trigram pruned from the
   base but listed in the delta cuts base records out of the intersection (`Overlay.CreateHidesAnotherFile`). Overlay and
   rebuild find the same matches if and only if, where the rebuild can look the needle up, the overlay is not blind or
   the delta answers for every match, and, where it cannot, the overlay is blind and the delta answers for none
   (`Overlay.OverlayIsRebuildIff`; against a full scan `Overlay.OverlayIsScanIff`).
3. *The reconciliation is a maximum matching on quoted rows.* A quoted path that begins with a comma is misread
   (`LiveSkew.QuotedRowWellFormedIff`), and the greedy pairing can then miss a pair (`LeadingComma.GreedyMissesAPair`).
   Over the rows of a set of paths it is always a maximum if and only if the set does not hold both a volatile and a
   stable path that begin with a comma (`LeadingComma.MaximumIffNoClash`).
4. *A cache hit returns the statistics of the current content when identities are never reused for other content.* A
   rewrite between stat and compute stores the new statistics under the old identity
   (`SidecarCache.RewriteDuringComputePoisons`, and with two processes `SidecarCache.SecondProcessGetsWrongHit`). The
   cache can be trusted if and only if it is honest (`SidecarCache.TrustIffHonest`), and computing keeps it so if and
   only if the file then has the statistics of the identity taken before (`SidecarCache.ComputeKeepsTrustIff`).
5. *HOT runs are served from their own drive.* Only if the phases do not begin with HOT or all drives share a source
   (`Benchmark.ServedRightIff`, and `Benchmark.ServedRightFromAnyStartIff` when a daemon may already be running).
6. *Snapshot `k` is never early, and the loop ends.* The counter is cut to 32 bits; the schedule is kept, and every run
   ends, if and only if the total does not exceed 2^32 - 1 intervals (`Snapshots.OnScheduleIff`,
   `Snapshots.AlwaysHaltsIff`).
7. *A stopped broker is restarted.* Not when its image can be neither deleted nor moved aside
   (`Installer.StuckBrokerStaysDown`), and not when the old image is gone and the copy failed
   (`Installer.FailedCopyLeavesBrokerDown`). It runs again if and only if its path could be freed and the image then in
   it starts (`Installer.BrokerRestartedIff`, over a run `Installer.BrokerLeftDownIff`).
8. *One patch of a journal batch is the batch applied record by record.* Name and parent are taken from the last record
   of any kind, so a later record that carries another name renames the file (`Journal.LaterNameWins`); and where a file
   ends in a directory that the batch deletes, or in a circle of new ones, its place depends on the iteration order of a
   hash map (`Patch.UnsureDiffers`). The patch is the replay for every order if and only if every file is coherent and
   its place is settled by the net changes and the one the records give (`Patch.PatchIsReplayIff`). Without the
   reordering even an ordinary batch fails (`Patch.UnorderedLosesParent`).

The design asks that base and delta be identical to a full rebuild for search results
(`crates/uffs-core/src/compact_loader_trigram_oracle_tests.rs:10-13`); where that and the code differ, the model follows the code.
The comment at `crates/uffs-core/src/compact_loader.rs:633-637` says that a drive with an empty table of record numbers
skips every change; the code appends its creates, and so does the model.

## Model

| member | source | states |
|---|---|---|
| `Postings.Deduplicate` | crates/uffs-core/src/trigram.rs:504-530 | the per-name set keeps each trigram once, in order of first appearance, and loses none |
| `Postings.PostingMembers` | crates/uffs-core/src/trigram.rs:96-215 | a posting list ascends and holds exactly the records with the trigram |
| `Postings.KeptOrPruned` | crates/uffs-core/src/trigram.rs:96-215 | a trigram that occurs is either kept or pruned, never both; one that does not occur is neither |
| `Postings.PrunedIff` | crates/uffs-core/src/trigram.rs:150-165 | a trigram is pruned exactly when more than 1024 records, and more than a quarter of them, have it; otherwise it is kept if any has it |
| `CsrBuild.MergeCounts` | crates/uffs-core/src/trigram.rs:96-215 | the merged chunk counters are the number of records with each trigram |
| `CsrBuild.LayOut` | crates/uffs-core/src/trigram.rs:96-215 | the prefix sum gives each kept key a region as long as its posting list |
| `CsrBuild.PlacesDiffer` | crates/uffs-core/src/trigram.rs:363-440 | no two (key, record) pairs are written to the same slot, whichever chunks they belong to |
| `CsrBuild.ScatterRecord` | crates/uffs-core/src/trigram.rs:468-496 | one record writes itself once into the region of each kept trigram and touches no other record's slot |
| `CsrBuild.ScatterChunk` | crates/uffs-core/src/trigram.rs:363-440 | a chunk fills exactly the slots of its records |
| `CsrBuild.AdvanceOffsets` | crates/uffs-core/src/trigram.rs:443-459 | each write position moves by the chunk's count of its key |
| `CsrBuild.WriteStarts` | crates/uffs-core/src/trigram.rs:363-440 | every chunk starts writing where the records before it end |
| `CsrBuild.ScatterPostings` | crates/uffs-core/src/trigram.rs:363-440 | in any schedule of the chunks every slot ends up with its record |
| `CsrBuild.Build` | crates/uffs-core/src/trigram.rs:96-215 | the built index holds exactly the ascending posting lists of the unpruned trigrams, for any schedule |
| `CsrSearch.GetPosting` | crates/uffs-core/src/trigram.rs:245-256 | binary search returns the whole posting list of a kept trigram and nothing for any other |
| `CsrSearch.IntersectInPlace` | crates/uffs-core/src/trigram.rs:320-347 | the buffer's prefix becomes the intersection, in order |
| `CsrSearch.IntersectAll` | crates/uffs-core/src/trigram.rs:258-290 | starting from the shortest list the result is the intersection of all |
| `CsrSearch.Search` | crates/uffs-core/src/trigram.rs:258-290 | the result ascends and is exactly the records on every kept list of the needle, none if no list is kept |
| `CsrSearch.FoundIffSomeKeyKept` | crates/uffs-core/src/trigram.rs:258-290 | a record with all trigrams of the needle is found if and only if one of them is not pruned |
| `CsrSearch.SearchIsScan` | crates/uffs-core/src/trigram.rs:258-290 | filtering the candidates equals scanning all records when some trigram is not pruned |
| `CsrSearch.CommonNeedleFindsNothing` | crates/uffs-core/src/trigram.rs:258-290 | counterexample: above 1024 records that all have the one trigram of the needle, none is found |
| `Overlay.SortedInsertAscends` | crates/uffs-core/src/compact/delta.rs:121-125 | inserting keeps a delta list ascending |
| `Overlay.SortedInsertMembers` | crates/uffs-core/src/compact/delta.rs:121-125 | inserting adds the one index and no other |
| `Overlay.AddRecordAdds` | crates/uffs-core/src/compact/delta.rs:56-67 | a record is listed under exactly its trigrams and all other listings stay |
| `Overlay.TombstoneAllMarks` | crates/uffs-core/src/compact/delta.rs:72-76 | tombstoning marks exactly the stale records and keeps the postings |
| `Overlay.TouchedCounts` | crates/uffs-core/src/compact/delta.rs:56-76 | a batch adds to the pending touches one for every record newly marked stale and one for every re-added slot in use |
| `Overlay.OverlayStep` | crates/uffs-core/src/compact.rs:384-424 | the overlay invariant between base, delta and current records survives every batch that reports its changes |
| `Overlay.MergePostings` | crates/uffs-core/src/compact/delta.rs:185-224 | the merge of two ascending lists is their ascending union |
| `Overlay.OverlaySearch` | crates/uffs-core/src/compact.rs:218-263 | the result ascends and is exactly the overlay candidates |
| `Overlay.CoveredIsFound` | crates/uffs-core/src/compact.rs:218-263 | a matching record known to the delta is always found |
| `Overlay.BaseRecordFoundIff` | crates/uffs-core/src/compact.rs:218-263 | a matching record known to the base only is found if and only if some trigram is unpruned and no pruned one is listed in the delta |
| `Overlay.TombstonedFoundIff` | crates/uffs-core/src/compact.rs:218-263 | a tombstoned record is a candidate exactly when the delta lists it under every trigram of the needle |
| `Overlay.AppendedFoundIff` | crates/uffs-core/src/compact.rs:218-263 | a record newer than the base is one exactly when the delta lists it under some trigram and every other is on no list at all |
| `Overlay.OverlayIsScanIff` | crates/uffs-core/src/compact.rs:218-263 | all matches are found if and only if the needle is not blind or all matches are in the delta |
| `Overlay.OverlayIsRebuildIff` | crates/uffs-core/src/compact.rs:205-263 | overlay and an index rebuilt from the current records find the same matches if and only if: where the rebuild can look the needle up, the overlay is not blind or the delta answers for every match; where it cannot, the overlay is blind and the delta answers for no match |
| `Overlay.CreateHidesAnotherFile` | crates/uffs-core/src/compact.rs:218-263 | counterexample: adding one record makes the search miss another that it found before |
| `DriveIndex.OverlayBatch` | crates/uffs-core/src/compact.rs:397-422 | the loops compute the delta after the batch; slots in use count as touched even when their name is too short for a trigram |
| `DriveIndex.Drive.constructor` | crates/uffs-core/src/compact.rs:297-302 | a fresh drive has a valid index of its names |
| `DriveIndex.Drive.TrigramSearch` | crates/uffs-core/src/compact.rs:218-263 | with and without a delta the result is exactly the candidates |
| `DriveIndex.Drive.CompactBase` | crates/uffs-core/src/compact.rs:297-302 | compaction keeps the table, ends with no delta and a valid index |
| `DriveIndex.Drive.ApplyIndexDelta` | crates/uffs-core/src/compact.rs:384-424 | keeps the index valid for the changed slots; compacts exactly when more than 50,000 touches are pending, else stores exactly the delta after the batch |
| `DriveIndex.Drive.ApplyUsnPatch` | crates/uffs-core/src/compact_loader.rs:638-736 | after any batch of net changes the index is valid, and names and tree are those of applying the changes parents first to the namespace |
| `DriveIndex.Drive.ApplyJournal` | crates/uffs-core/src/compact_loader.rs:638-736 | for any iteration order of the map of changes the drive stays searchable, and where the records agree its names and tree are those of applying the records one at a time |
| `SlotTable.ChangeIsApplied` | crates/uffs-core/src/compact_loader/apply.rs:88-255 | deleting, appending and overwriting slots through the record-number table is deleting and setting entries of the namespace; a deleted directory leaves its files dangling |
| `SlotTable.BatchIsApplied` | crates/uffs-core/src/compact_loader/apply.rs:88-255 | the same for any sequence of changes |
| `SlotTable.BatchIsReported` | crates/uffs-core/src/compact_loader/apply.rs:88-255 | after any sequence of changes the lists of slots to add and slots gone stale report every slot that changed |
| `SlotTable.ChangeReports` | crates/uffs-core/src/compact_loader/apply.rs:88-255 | a delete reports its slot stale, a create of an unmapped number its new slot, an overwrite both, anything else nothing |
| `Journal.AggregateChanges` | crates/uffs-mft/src/usn/mod.rs:330-369 | the map holds, for exactly the files mentioned, the net change of each file's records, with the parent its last record names |
| `Journal.NetParent` | crates/uffs-mft/src/usn/mod.rs:330-369 | a net change carries the parent of the last record of its file |
| `Journal.NetFlags` | crates/uffs-mft/src/usn/mod.rs:330-369 | a net change is a delete when no create or rename follows the last delete, a create when no delete follows the last create, a rename when neither follows the last rename; other kinds override nothing |
| `Journal.NetName` | crates/uffs-mft/src/usn/mod.rs:330-369 | its name is the last one any record carries |
| `Journal.SingleSays` | crates/uffs-mft/src/usn/mod.rs:330-369 | the net change of one record says what the record says |
| `Journal.NetIsReplayIff` | crates/uffs-mft/src/usn/mod.rs:330-369 | for one file, nameless records included: the net change leaves it there or not and named as its records do one at a time, if and only if they are coherent |
| `Journal.LaterNameWins` | crates/uffs-mft/src/usn/mod.rs:330-369 | counterexample: a record of another kind with another name renames a file created in the same batch |
| `Journal.ApplyChanges` | crates/uffs-core/src/compact_loader/apply.rs:88-255 | the dispatch looks each parent up when its change is applied |
| `Journal.EntryIsAfter` | crates/uffs-core/src/compact_loader/apply.rs:88-255 | after any sequence of changes a file has the name of the last change that set it, and the place given by whether its parent was known then and has been deleted since |
| `Journal.ReplayPlaces` | crates/uffs-core/src/compact_loader/apply.rs:88-255 | on records: after a replay a file hangs in the directory that its last named create or rename names exactly when that directory was there then and has not been deleted since; it dangles when deleted since and is unplaced when it was not there; its name is that record's |
| `Journal.ReplayThereIff` | crates/uffs-core/src/compact_loader/apply.rs:88-255 | on records: a file is there after a replay exactly when a named create of it is followed by no delete, or it was there and nothing deletes it |
| `Journal.ReplayLeavesAlone` | crates/uffs-core/src/compact_loader/apply.rs:88-255 | on records: a file that nothing deletes or names keeps its name, and its place unless its directory is deleted |
| `Patch.PatchIsReplayIff` | crates/uffs-core/src/compact_loader.rs:525-736 | for every iteration order: coalescing, reordering and applying leaves names and tree of the replay, if and only if every file is coherent and its place is sure and the one the records give |
| `Patch.SureLinkIsLink` | crates/uffs-core/src/compact_loader.rs:525-736 | in the order computed from any batch, a place that the net changes settle is the place: parents that live on are known, chains of new parents that end come first |
| `Patch.UnsureDiffers` | crates/uffs-core/src/compact_loader.rs:525-736 | a place that they do not settle (the parent is deleted in the batch, or the chain of new parents is a circle) differs between two iteration orders |
| `Patch.OrdinaryPatchIsReplay` | crates/uffs-core/src/compact_loader.rs:525-736 | for a journal of a directory tree whose files end where their last create or rename put them, the patch is the replay in every order |
| `Patch.UnorderedLosesParent` | crates/uffs-core/src/compact_loader.rs:657-664 | counterexample: a file applied before its directory loses its place; the computed order puts the directory first |
| `Patch.ListChanges` | crates/uffs-mft/src/usn/mod.rs:330-369 | aggregation and any iteration of the map list every net change once |
| `ParentFirst.OrderParentFirst` | crates/uffs-core/src/compact_loader.rs:538-600 | the fixpoint loops terminate and compute the order |
| `ParentFirst.OrderIsPermutation` | crates/uffs-core/src/compact_loader.rs:538-600 | every change of the batch is emitted exactly as often as it came, resolvable or not |
| `ParentFirst.OthersKeepTheirOrder` | crates/uffs-core/src/compact_loader.rs:541-547 | changes that need no parent from the batch keep their relative order |
| `ParentFirst.ParentsFirstIff` | crates/uffs-core/src/compact_loader.rs:525-600 | every change comes after a create of its parent if and only if no chain of parents in the batch goes in a circle |
| `ParentFirst.ParentsFirstMeans` | crates/uffs-core/src/compact_loader.rs:525-600 | parents first means, position by position: whatever is created or renamed under a directory the batch creates, and is not its own parent, comes after a create of it |
| `ParentFirst.FoundWheneverPossible` | crates/uffs-core/src/compact_loader.rs:525-600 | if any order of the batch puts parents first, the computed one does |
| `ParentFirst.TreesAreOrdered` | crates/uffs-core/src/compact_loader.rs:533-537 | a batch from a directory tree of any depth is ordered |
| `ParentFirst.GroundedDoesNotWait` | crates/uffs-core/src/compact_loader.rs:538-600 | a change whose chain of parents ends is emitted after the create it needs, whatever else goes in a circle |
| `ParentFirst.SameOrderAsBatch` | crates/uffs-core/src/compact_loader.rs:538-600 | changes that need nothing from the batch, and changes that go in a circle, keep the order of the batch |
| `Trigram.PackIsLexicographic` | crates/uffs-core/src/trigram.rs:297-318 | packing is injective and orders keys as the three codes |
| `Trigram.WindowsAt` | crates/uffs-core/src/trigram.rs:297-318 | the trigrams of a name are its windows of three, one per position |
| `Trigram.KeysOfIff` | crates/uffs-core/src/trigram.rs:297-318 | a key belongs to a name exactly when it packs 16 bits of each of three neighbouring folded characters, the first one highest |
| `Trigram.MatchHasTrigrams` | crates/uffs-core/src/trigram.rs:297-318 | a name that contains the needle after folding has all its trigrams |
| `NameSearch.CollectMatches` | crates/uffs-core/src/search/query/mod.rs:297-350 | the first `limit` candidates that match, in order |
| `NameSearch.ScanMatches` | crates/uffs-core/src/search/query/mod.rs:297-350 | without candidates, the first `limit` records that match |
| `NameSearch.AscendingUnique` | crates/uffs-core/src/search/query/mod.rs:297-350 | ascending lists with the same members are equal, so filtered candidates and scan agree in order as well |
| `NameSearch.SearchCompactDrive` | crates/uffs-core/src/search/query/mod.rs:352-460 | every hit matches; nothing for the empty needle; the first `limit` matches of a scan for short needles, and for longer ones if and only if the index sees the needle or the delta answers for each of those matches |
| `NameSearch.MatchIsFoundIff` | crates/uffs-core/src/compact.rs:218-263 | a matching slot is a candidate if and only if the index sees the needle or the delta answers for the slot |
| `NameSearch.FreshIndexSeesIff` | crates/uffs-core/src/trigram.rs:150-165 | a fresh index sees a needle exactly when one of its trigrams is in at most 1024 names or in at most a quarter of them |
| `NameSearch.MatchesIff` | crates/uffs-core/src/search/query/mod.rs:297-350 | a name matches exactly when, after folding, the needle's characters stand in it one after the other, and it is neither empty nor a dot |
| `NameSearch.PollAndSearch` | crates/uffs-core/src/compact_loader.rs:638-736 | from journal records to results: where the records agree and the needle is seen, the files found are exactly those whose replayed name matches |
| `Lines.FilterDataLines` | scripts/verify_parity.rs:3751-3761 | the data lines, sorted, every copy kept |
| `Lines.NotDataIff` | scripts/verify_parity.rs:3737-3746 | a line is no data exactly when it is blank, or opens after white space with one of the four texts, or with Path and a tab and more than white space behind it |
| `Lines.BeforeIff` | scripts/verify_parity.rs:3751-3761 | lines are ordered by the first character in which they differ, a prefix before what it begins |
| `Lines.LeftoverIsDifference` | scripts/verify_parity.rs:3765-3799 | on sorted lists the two-pointer leftover is the multiset difference |
| `Lines.CheckSortedSubset` | scripts/verify_parity.rs:3765-3799 | the merge returns both multiset differences |
| `StreamingDiff.CountBaseline` | scripts/verify_parity.rs:3583-3693 | pass 1: the count map is the multiset of baseline data-line hashes |
| `StreamingDiff.UseUp` | scripts/verify_parity.rs:3583-3693 | pass 2: what is left in the map and what was overdrawn are the two differences of the hash multisets |
| `StreamingDiff.ComputeStreamingDiff` | scripts/verify_parity.rs:3583-3693 | for every hash: each list is exactly the data lines whose hash occurs more often on that side, all copies, in order; the line counts add up |
| `StreamingDiff.ListedIff` | scripts/verify_parity.rs:3583-3693 | a line is listed exactly when it is a data line and more data lines of its file than of the other have its hash |
| `StreamingDiff.SurplusDisjoint` | scripts/verify_parity.rs:3583-3693 | for every hash: no line and no hash is on both lists |
| `StreamingDiff.SurplusIsDifference` | scripts/verify_parity.rs:3583-3693 | without collisions a line is listed, with all its copies, exactly when it occurs more often on its side |
| `StreamingDiff.CompareWithSortedMerge` | scripts/verify_parity.rs:3583-3799 | without collisions each list is empty exactly when the sorted merge's list on that side is |
| `StreamingDiff.NothingMissing` | scripts/verify_parity.rs:3583-3693 | for every hash: the baseline list is empty if and only if the baseline hashes are a sub-multiset of the Rust hashes |
| `StreamingDiff.InclusionIsNeverReported` | scripts/verify_parity.rs:3583-3693 | for every hash: included data lines are never reported missing |
| `StreamingDiff.EmptyMeansInclusion` | scripts/verify_parity.rs:3583-3693 | without collisions nothing missing means inclusion, and conversely |
| `Verdict.ComputeStreamingStats` | scripts/verify_parity.rs:3429-3466 | one pass computes digest, count, XOR and wrapping sum |
| `Verdict.FingerprintIgnoresOrder` | scripts/verify_parity.rs:3429-3466 | permuted files have the same count, XOR and wrapping 128-bit sum |
| `Verdict.XorBits` | scripts/verify_parity.rs:3429-3466 | the exclusive or is bit by bit |
| `Verdict.FingerprintSays` | scripts/verify_parity.rs:3429-3466 | the count is the number of lines, the sum the sum of their hashes modulo 2^128, and bit k of the XOR the parity of the hashes that have it |
| `Verdict.FingerprintsAgreeIff` | scripts/verify_parity.rs:3552-3556 | fingerprints are equal exactly when line counts, hash sums modulo 2^128 and all bit parities are |
| `Verdict.VerifySingleDrive` | scripts/verify_parity.rs:2177-2290 | the verdict of the three tiers and the number of extra lines; a strict match exactly when the digests agree, a sorted match exactly when they differ and count, sum and bit parities of the line hashes agree |
| `Verdict.VerdictIff` | scripts/verify_parity.rs:2177-2290 | each of the four verdicts exactly, over the hashes of the lines: equal digests; else count, sum and parities agree; else the hashes of the baseline's data lines are included, counting copies; else none |
| `Verdict.VerdictIsComplete` | scripts/verify_parity.rs:2177-2290 | for every hash and digest: identical files match strictly, permuted ones at least sorted, and included data lines are never a mismatch |
| `Verdict.ThirdTierDecidesInclusion` | scripts/verify_parity.rs:2207-2290 | without collisions a superset match means inclusion and a mismatch means none |
| `Csv.SplitCsvFields` | scripts/verify_parity.rs:4223-4242 | the scanning loop returns the raw fields |
| `Csv.SplitIsTheCut` | scripts/verify_parity.rs:4223-4242 | the fields are the one way to cut the line at commas outside quotes: joining gives the line back, and no other cut does |
| `Csv.SplitInjective` | scripts/verify_parity.rs:4223-4242 | different lines have different fields |
| `Csv.FieldsBalance` | scripts/verify_parity.rs:4223-4242 | in every field each comma has an odd number of quotes before it, and in all but the last the quotes pair up |
| `Csv.ParseCsvLine` | scripts/dev/analyze_trial_outputs.rs:46-76 | the peeking loop returns the decoded fields |
| `Csv.ReadersAgree` | scripts/dev/analyze_trial_outputs.rs:46-76 | on every string both readers find the same number of fields, and each decoded field is the unquoting of its raw slice |
| `Csv.UnquoteQuoted` | scripts/dev/analyze_trial_outputs.rs:46-76 | a quoted, escaped part between plain ones stands for its text, and what follows is read on |
| `Csv.UnquoteUnclosed` | scripts/dev/analyze_trial_outputs.rs:46-76 | quotes that are never closed run to the end of the field |
| `Csv.PrintedRowParses` | scripts/windows/check_frs_vs_lcn.rs:555-572 | a printed row of any path, commas and quotes included, and numeric columns parses back to path and numbers |
| `Csv.PrintedRowRaw` | scripts/windows/check_frs_vs_lcn.rs:555-572 | the raw fields of a printed row are the path in quotes with its quotes doubled, and the bare numbers |
| `Csv.EscapeDoubles` | scripts/windows/check_frs_vs_lcn.rs:555-572 | escaping doubles every quote and adds nothing else |
| `LiveSkew.ClassifyLiveSkew` | scripts/verify_parity.rs:3950-3990 | the column loop decides as the comparison of columns; what it calls a directory aggregate differs in columns 3, 4, 7 and 8 only, what it calls accessed-only in column 7 only |
| `LiveSkew.SkewIff` | scripts/verify_parity.rs:3950-3990 | acceptance and reason exactly, by column number: on a volatile path whenever the field counts agree; on a stable file when the rows differ in column 7 alone; on a stable directory when they differ in columns 3, 4, 7 and 8 alone |
| `LiveSkew.VolatileIff` | scripts/verify_parity.rs:3907-3940 | a path is volatile exactly when one of the five parts stands in it, or it ends with one of the fifteen leaves and any number of backslashes, in whatever case |
| `LiveSkew.PathIsInner` | scripts/verify_parity.rs:3950-3990 | the path is the first field without the quotes around it |
| `LiveSkew.ExtractedUpTo` | scripts/verify_parity.rs:4193-4197 | the extracted path ends with the first quote before a comma |
| `LiveSkew.ExtractedWhole` | scripts/verify_parity.rs:4193-4197 | without one the whole line is taken |
| `LiveSkew.AcceptableIsSameClass` | scripts/verify_parity.rs:3950-3990 | on well-formed rows that differ, the pairwise test is equality of skew classes |
| `LiveSkew.QuotedRowWellFormedIff` | scripts/verify_parity.rs:4193-4197 | a quoted row is well formed if and only if its path does not begin with a comma |
| `LeadingComma.PairAccepted` | scripts/verify_parity.rs:3950-4047 | rows of such paths are compared whatever their paths, and the baseline path alone decides |
| `LeadingComma.GreedyMissesAPair` | scripts/verify_parity.rs:3999-4047 | counterexample: one pair tolerated where two could be |
| `LeadingComma.MaximumIffNoClash` | scripts/verify_parity.rs:3950-4047 | over quoted rows of a set of paths the pairing is always maximum if and only if the set does not hold both a volatile and a stable path that begin with a comma |
| `LeadingComma.NotOverAllPaths` | scripts/verify_parity.rs:3950-4047 | over all quoted paths it is not |
| `GreedyMatching.GreedyIsMatching` | scripts/verify_parity.rs:3999-4047 | dropped rows correspond one to one and every pair is acceptable |
| `GreedyMatching.GreedyIsMaximal` | scripts/verify_parity.rs:3999-4047 | no two rows left over are acceptable |
| `GreedyMatching.TakesFirstFree` | scripts/verify_parity.rs:3999-4047 | each baseline row gets the first acceptable Rust row that no earlier one has, and none exactly when there is none |
| `GreedyMatching.SurvivorsShrink` | scripts/verify_parity.rs:4030-4047 | both sides lose exactly the tolerated count |
| `GreedyMatching.NothingLeftToPair` | scripts/verify_parity.rs:3999-4047 | no surviving baseline row and surviving Rust row are acceptable |
| `GreedyMatching.SecondRunIsIdle` | scripts/verify_parity.rs:3999-4047 | a second run tolerates zero and changes nothing |
| `GreedyMatching.SurvivingClasses` | scripts/verify_parity.rs:3999-4047 | what survives is the difference of the class counts on each side, in any order of the rows |
| `GreedyMatching.GreedyCountsClasses` | scripts/verify_parity.rs:3999-4047 | the tolerated count is the sum over classes of the smaller row count |
| `GreedyMatching.GreedyIsMaximum` | scripts/verify_parity.rs:3999-4047 | no pairing of acceptable rows is larger |
| `Reconcile.IndexByPath` | scripts/verify_parity.rs:4003-4010 | the map lists exactly the Rust rows of each path, in order |
| `Reconcile.FindPartner` | scripts/verify_parity.rs:4012-4030 | searching the indexed rows finds the first free acceptable row of all |
| `Reconcile.LiveDiff.ReconcileLiveSkew` | scripts/verify_parity.rs:3999-4047 | the lists become the survivors of the greedy matching and the count its size |
| `Reconcile.LiveToleranceIsOptimal` | scripts/verify_parity.rs:3999-4047 | on any streaming diff with well-formed rows the tolerated count is the class-wise sum of minima and a maximum matching, for every hash |
| `Reconcile.RunLiveDriveParity` | scripts/verify_parity.rs:846-937 | the live verdict order and the number of extra lines left after reconciliation |
| `Reconcile.LiveVerdictByClasses` | scripts/verify_parity.rs:846-937 | past the first two tiers, a live superset match means that every class has enough Rust rows, and conversely |
| `Reconcile.LiveVerdictIff` | scripts/verify_parity.rs:846-937 | a live strict match exactly when the digests agree, a sorted one exactly when they differ and count, sum and parities of the line hashes agree; past both, on well-formed rows, superset match or mismatch by the classes |
| `SidecarText.LoadCachedStats` | scripts/verify_parity.rs:3489-3517 | the line loop reads what the text records for the identity, later lines overriding earlier ones |
| `SidecarText.StoredIsLoaded` | scripts/verify_parity.rs:3489-3532 | a stored text loads as the stored statistics for the stored identity and as nothing for any other |
| `SidecarText.SidecarTextIs` | scripts/verify_parity.rs:3521-3532 | the stored text, word by word and line by line |
| `SidecarText.LineSets` | scripts/verify_parity.rs:3489-3517 | each word at the start of a line sets its field, numbers within 64 or 128 bits |
| `SidecarText.OtherLinesSetNothing` | scripts/verify_parity.rs:3489-3517 | a line with any other word sets nothing |
| `SidecarText.FirstLineWithReturn` | scripts/verify_parity.rs:3489-3517 | a carriage return before the newline is not part of the line |
| `SidecarText.LaterWins` | scripts/verify_parity.rs:3489-3517 | a line appended to any text sets its field anew |
| `Decimal.ParseIff` | scripts/verify_parity.rs:3489-3517 | what reads as a number: an optional plus sign and digits of that value, within the width |
| `SidecarCache.SteadyHitsAreTrue` | scripts/verify_parity.rs:3489-3549 | in every interleaving whose computes read what was statted, every hit has the statistics of the content statted |
| `SidecarCache.TrustIffHonest` | scripts/verify_parity.rs:3489-3549 | no steady continuation gets a wrong hit if and only if the sidecar and all pending results are true |
| `SidecarCache.ComputeKeepsTrustIff` | scripts/verify_parity.rs:3538-3549 | a compute step keeps that if and only if the file then has the statistics of the identity taken |
| `SidecarCache.OtherStepsKeepTrust` | scripts/verify_parity.rs:3489-3549 | rewrites, stats, loads and stores keep it |
| `SidecarCache.StartIsTrustworthy` | scripts/verify_parity.rs:3489-3549 | it holds before anything is stored |
| `SidecarCache.EventChanges` | scripts/verify_parity.rs:3489-3549 | only a rewrite changes the file, and only a store that succeeds the sidecar |
| `SidecarCache.ProcessGoes` | scripts/verify_parity.rs:3538-3549 | a call takes the identity, looks it up, computes from the file as it is then and stores under the identity it took |
| `SidecarCache.RewriteDuringComputePoisons` | scripts/verify_parity.rs:3538-3549 | counterexample: a rewrite during compute and the old file restored give a hit with the other statistics |
| `SidecarCache.SecondProcessGetsWrongHit` | scripts/verify_parity.rs:3538-3549 | counterexample with a second process and no identity coming back |
| `SidecarCache.FreshHitsAreCurrent` | scripts/verify_parity.rs:3489-3549 | in every interleaving whose rewrites bring new identities, a hit while the file is the one statted has the statistics of the current content |
| `SidecarCache.FreshFromStart` | scripts/verify_parity.rs:3489-3549 | the same from an empty cache |
| `SidecarCache.StatsFit` | scripts/verify_parity.rs:3429-3466 | computed statistics fit the widths they are printed and read with |
| `SidecarCache.Baseline.ComputeStreamingStatsCached` | scripts/verify_parity.rs:3538-3549 | alone and with an honest sidecar the answer is that of recomputing, the sidecar stays honest, and the next call hits with the same answer |
| `Orders.SortByKey` | scripts/windows/check_frs_vs_lcn.rs:517-530 | the stable ascending order of all positions |
| `Orders.RanksOf` | scripts/windows/check_frs_vs_lcn.rs:517-530 | the rank map inverts the order |
| `Orders.RanksArePermutation` | scripts/windows/check_frs_vs_lcn.rs:512-541 | ranks are a permutation of 0 to n-1 even with equal keys |
| `Spearman.SquaresAddUp` | scripts/windows/check_frs_vs_lcn.rs:512-541 | the squared differences and the squared deviations from reversal of two rank vectors add up to n(n^2-1)/3 |
| `Spearman.CoefficientRange` | scripts/windows/check_frs_vs_lcn.rs:512-541 | the coefficient lies in [-1, 1], is 1 exactly when the orders agree and -1 exactly when they are reversed |
| `Spearman.CoefficientIsPearson` | scripts/windows/check_frs_vs_lcn.rs:512-541 | it is the Pearson correlation of the ranks |
| `Spearman.SpearmanCorrelation` | scripts/windows/check_frs_vs_lcn.rs:517-541 | the script's sorts, rank maps and sum compute the coefficient |
| `Seek.TotalSeekDistance` | scripts/windows/check_frs_vs_lcn.rs:245-254 | the sum of distances between neighbours |
| `Seek.SeekOfTwo` | scripts/windows/check_frs_vs_lcn.rs:245-254 | a tour of two positions is their distance, of one or none zero |
| `Seek.SeekSplits` | scripts/windows/check_frs_vs_lcn.rs:245-254 | a tour is two tours that meet at any position of it |
| `Seek.NoOrderBeats` | scripts/windows/check_frs_vs_lcn.rs:265-270 | any tour is at least as long as the distance of any two positions on it |
| `Seek.AscendingSeek` | scripts/windows/check_frs_vs_lcn.rs:265-270 | an ascending tour is exactly last minus first |
| `Seek.OracleIsOptimal` | scripts/windows/check_frs_vs_lcn.rs:265-270 | no order of the same positions is shorter than the ascending one |
| `Seek.SeekComparison` | scripts/windows/check_frs_vs_lcn.rs:258-312 | the totals are those of the three orders, the oracle is the spread of the positions, the captured reduction never exceeds the achievable one and equals it exactly for an optimal order |
| `Seek.TotalsAreReadings` | scripts/windows/check_frs_vs_lcn.rs:258-312 | the totals are those of reading every file once by natural index, and by record number, ties in list order |
| `Calendar.DayNumberGrows` | scripts/windows/cold-parity-per-drive.rs:679-707 | of two dates the earlier has the smaller day number, and equal day numbers mean equal dates |
| `Calendar.YearOfEraIsRight` | scripts/verify_parity.rs:2868-2880 | the division formula finds the year of the era a day falls into |
| `Calendar.CivilInvertsDayNumber` | scripts/verify_parity.rs:2868-2880 | for every day count, negative ones included, the closed form is a Gregorian date with that day number |
| `Calendar.CivilIsUnique` | scripts/verify_parity.rs:2868-2880 | no other date has it, and the next day is a later date |
| `Calendar.EpochToYmdHms` | scripts/windows/cold-parity-per-drive.rs:679-707 | the loops give the date of the closed form, and date and time of day recompose the seconds |
| `Calendar.ChronoNow` | scripts/dev/security-audit.rs:944-988 | the loops give the date of the closed form, and the printed minute contains the instant |
| `Benchmark.DrivesAreIsolated` | scripts/windows/benchmark.rs:118-134 | two drives get the same source only through a shared file or the data-directory fallback |
| `Benchmark.SourceOf` | scripts/windows/benchmark.rs:118-134 | the source of a drive, and of ALL, case by case |
| `Benchmark.Harness.BenchRounds` | scripts/windows/benchmark.rs:376-419 | the round loop makes the state the machine describes and times exactly the asked number of rounds of its series |
| `Benchmark.Harness.BenchPhase` | scripts/windows/benchmark.rs:422-467 | set-up and pattern loop likewise |
| `Benchmark.Harness.BenchDrive` | scripts/windows/benchmark.rs:469-479 | the phase loop likewise |
| `Benchmark.Harness.BenchAll` | scripts/windows/benchmark.rs:910-922 | the drive loop likewise, with ALL appended for several drives; the runs it times are the planned ones, in order |
| `Benchmark.LogIsPlan` | scripts/windows/benchmark.rs:343-479 | whatever dies or times out, the new records are, in order, for each drive (and ALL after several) each phase, for each phase each pattern (`*` for COLD and WARM), for each pattern so many rounds |
| `Benchmark.PlanLength` | scripts/windows/benchmark.rs:343-479 | their number: drives times rounds times the start-up phases plus the HOT phases times the patterns |
| `Benchmark.RoundLeaves` | scripts/windows/benchmark.rs:376-419 | after a round: no daemon if it timed out, else the one found by a HOT run, else its own; the cache accordingly |
| `Benchmark.SetUpLeaves` | scripts/windows/benchmark.rs:422-452 | after a set-up: a WARM phase not preceded by COLD has the cache of its own source alone |
| `Benchmark.RunsStartRight` | scripts/windows/benchmark.rs:343-479 | whatever dies before a readiness check, times out or was there before: every COLD run starts with no daemon and no cache, every WARM run with no daemon and the drive's cache, every HOT run with a ready daemon |
| `Benchmark.ServedRightIff` | scripts/windows/benchmark.rs:343-479 | started without a daemon, every HOT run of every execution is served from its own source if and only if nothing is timed, the phases do not begin with HOT, or all drives share a source |
| `Benchmark.ServedRightFromAnyStartIff` | scripts/windows/benchmark.rs:343-479 | from any start, if and only if nothing is timed or the phases do not begin with HOT |
| `Benchmark.HotFirstMeetsOther` | scripts/windows/benchmark.rs:440-452 | counterexample: a drive that begins with HOT is measured against the daemon of another source |
| `Installer.SidecarsAreRecognised` | scripts/dev/install-bins.rs:224-260 | whatever is moved aside is deleted by a later sweep |
| `Installer.SidecarNameIs` | scripts/dev/install-bins.rs:224-236 | the sidecar replaces the extension by old and the number, or appends it to a name without one |
| `Installer.IsSidecarIff` | scripts/dev/install-bins.rs:244-260 | the sweep takes exactly the names that end in .old and digits after something |
| `Installer.Sweep` | scripts/dev/install-bins.rs:244-260 | exactly the sidecars no process holds are deleted |
| `Installer.MovingAsideIsSafe` | scripts/dev/install-bins.rs:224-236 | a file is renamed to an unused name only, and nothing is overwritten or lost |
| `Installer.InUseIff` | scripts/dev/install-bins.rs:147-153 | the early exit is taken if and only if the changed binary can be neither deleted nor moved to any of 64 names |
| `Installer.OutcomeIff` | scripts/dev/install-bins.rs:100-171 | the outcome of every step by what is there and what fails, the 64 sidecar names included |
| `Installer.FilesAfter` | scripts/dev/install-bins.rs:100-171 | the files after every step: unchanged unless the copy is reached; then the old file is deleted or under the first usable sidecar name, and the path holds the build or what the copy left |
| `Installer.BrokerStoppedIff` | scripts/dev/install-bins.rs:131-140 | a step stops the broker exactly when the name without a final .exe is uffs-broker, the build and a file are there, they differ or cannot be compared, and the stop succeeds |
| `Installer.BrokerRestartedIff` | scripts/dev/install-bins.rs:131-170 | a stopped broker runs again if and only if its path could be freed and the image then in it starts |
| `Installer.StuckBrokerStaysDown` | scripts/dev/install-bins.rs:147-153 | counterexample: a locked broker image is stopped and not restarted |
| `Installer.FailedCopyLeavesBrokerDown` | scripts/dev/install-bins.rs:154-170 | counterexample: the old image is deleted, the copy fails, and there is nothing to start |
| `Installer.BrokerLeftDownIff` | scripts/dev/install-bins.rs:100-171 | after a whole run the broker is down if and only if at its last stop the path could not be freed or no image that starts was put in place |
| `Installer.TotalsAreCounts` | scripts/dev/install-bins.rs:100-171 | each counter is the number of binaries with its outcome |
| `Installer.CountersAddUp` | scripts/dev/install-bins.rs:100-171 | installed, unchanged and skipped add up to the named binaries, and nothing is skipped exactly when no step skipped |
| `Installer.EqualOrSkipped` | scripts/dev/install-bins.rs:100-171 | for every pattern of failures each binary ends equal to its build or is counted as skipped; of several with one name, the last |
| `Installer.SecondRunTouchesNothing` | scripts/dev/install-bins.rs:117-130 | after a run that skipped nothing, a second run with distinct names and readable files touches no file, stops no broker and finds every binary unchanged |
| `Installer.OtherFilesStay` | scripts/dev/install-bins.rs:100-171 | files no binary is named after keep their contents |
| `Installer.Installation.RenameAside` | scripts/dev/install-bins.rs:224-236 | the attempt loop takes the first free name that works, or changes nothing |
| `Installer.Installation.InstallBinaries` | scripts/dev/install-bins.rs:100-171 | files and counters after the loop |
| `Snapshots.RunSnapshotLoop` | scripts/dev/long-soak.rs:623-666 | whenever some snapshot is not started, the loop ends, having started exactly the snapshots of the schedule at its clock readings, and reports a failed capture |
| `Snapshots.AlwaysHaltsIff` | scripts/dev/long-soak.rs:623-666 | the loop ends in every run if and only if the total is at most 2^32 - 1 intervals |
| `Snapshots.SlowCapturesHalt` | scripts/dev/long-soak.rs:623-666 | it ends whenever captures take time |
| `Snapshots.StartedWhenDue` | scripts/dev/long-soak.rs:623-666 | a started snapshot is not before its due time and before the end, for all delays and any cancellation |
| `Snapshots.NoDrift` | scripts/dev/long-soak.rs:623-666 | snapshot k is not before k intervals while the counter fits 32 bits |
| `Snapshots.OnScheduleIff` | scripts/dev/long-soak.rs:651-652 | all snapshots of all runs are on schedule if and only if the total is at most 2^32 - 1 intervals |
| `Snapshots.CountBound` | scripts/dev/long-soak.rs:623-666 | then there are at most ceil(total / interval) snapshots |
| `Snapshots.DueIs` | scripts/dev/long-soak.rs:651-652 | due times are the products, the end beyond what a duration holds, and repeat after 2^32 snapshots |
| `Snapshots.StartedOnlyIf` | scripts/dev/long-soak.rs:623-666 | every snapshot up to a started one was started before the end and before a cancellation, and every capture before it succeeded |
| `Snapshots.SleepIsResponsive` | scripts/dev/long-soak.rs:651-666 | a sleep without overrun ends when asked, or within a second of the cancellation |
| `Chunked.DecodeChunked` | scripts/dev/mcp-readiness.rs:254-288 | the loop terminates and decodes as the recursive reading of chunks |
| `Chunked.NextChunk` | scripts/dev/mcp-readiness.rs:254-288 | a turn that continues has used up input |
| `Chunked.EncodingDecodes` | scripts/dev/mcp-readiness.rs:254-288 | for every body, split, hexadecimal spelling, extension and trailer, decoding the encoding gives the body |
| `Chunked.TruncatedDecodes` | scripts/dev/mcp-readiness.rs:254-288 | decoding any prefix of the encoding gives exactly the part of the body received |
| `Chunked.ReceivedGrows` | scripts/dev/mcp-readiness.rs:254-288 | receiving more only extends what is decoded, up to the body |
| `Chunked.TruncatedIsPrefix` | scripts/dev/mcp-readiness.rs:254-288 | a truncated message decodes to a prefix of the body |
| `Chunked.HexRoundTrip` | scripts/dev/mcp-readiness.rs:254-288 | a size printed in hexadecimal, in either case, reads back |
| `Chunked.ParseHexIff` | scripts/dev/mcp-readiness.rs:254-288 | what reads as a size: an optional plus sign and digits whose value fits 64 bits |
| `Chunked.CharsInIff` | scripts/dev/mcp-readiness.rs:254-288 | a number of bytes ends between characters exactly when it is the length of a prefix |
| `Chunked.CrLfIff` | scripts/dev/mcp-readiness.rs:254-288 | a size line ends at the first line end |
| `Chunked.UnreadableStops` | scripts/dev/mcp-readiness.rs:254-288 | a line that is no size ends the decoding |
| `Chunked.InsideAborts` | scripts/dev/mcp-readiness.rs:254-288 | a size that ends inside a character aborts |
| `GroupedUse.JoinedItems` | scripts/dev/remove_reexports_mft.py:141-166 | joining items and splitting the text again gives the items |
| `GroupedUse.GroupItems` | scripts/dev/remove_reexports_mft.py:145-152 | the dictionary holds each submodule's items in order, the rest is kept in order |
| `GroupedUse.ReplaceGroup` | scripts/dev/remove_reexports_mft.py:141-166 | the loops emit the kept group and one statement per submodule in sorted order |
| `GroupedUse.ReplaceShape` | scripts/dev/remove_reexports_mft.py:141-166 | the statements: the items that stay in one group first, then one statement for each submodule some item moves to, in order of name, with its items in order and no braces around a single one |
| `GroupedUse.NothingMoves` | scripts/dev/remove_reexports_mft.py:141-166 | a group of which nothing moves stays as it is |
| `GroupedUse.StripTakesSpace` | scripts/dev/remove_reexports_mft.py:141-166 | stripping removes white space at both ends and nothing else |
| `GroupedUse.JoinSnoc` | scripts/dev/remove_reexports_mft.py:141-166 | items are joined by a comma and a blank |
| `GroupedUse.ReplaceKeepsMeaning` | scripts/dev/remove_reexports_mft.py:135-166 | the emitted statements import each item as often as before, at its submodule if mapped and unchanged otherwise |
| `GroupedUse.RewriteKeepsMeaning` | scripts/dev/remove_reexports_mft.py:135-166 | the same for a whole file of statements |
| `GroupedUse.RewriteIsIdempotent` | scripts/dev/remove_reexports_mft.py:135-166 | rewriting again changes nothing |

## Left out

- Integer widths of indices, counters and offsets (u32, u64, usize, saturation) except where stated: the 128-bit sum, the 64-bit sidecar and chunk sizes, the 32-bit snapshot counter.
- Overflow of `civil_from_days` near the ends of i32.
- Opening, retrying and failing reads of the compared files; a read error ends the source's pass early.
- The SHA-256 and FNV functions, which are parameters.
- Printed reports, samples of tolerated rows, the hardlink check of extra lines, timings.
- A sidecar read while another process is writing it; storing is one step.
- A baseline rewritten during one pass of `compute_streaming_stats`; computing is one step.
- Glob, alternation, whole-word, case-sensitive and path matching, extension and date filters of the search; the extension and children indices and the path lengths kept beside the trigram index.
- How the reason bits of a journal record become its kind; a record has one of six kinds.
- Journal flags for size and metadata and the targeted reads that fill them; hard-link rows, which occupy slots that no record number is mapped to and that no change touches.
- Case folding tables: folding is an arbitrary function of one character code.
- The atomics of the parallel scatter: chunks run one after the other, in any schedule.
- `intra_file_seek_distance`, a sum of gaps between the extents of one file, and the percentages printed from the totals.
- Floating-point rounding: the correlation and the captured share are exact reals and integers.
- A benchmark daemon that dies between the readiness check and the run, or that is running but never becomes ready; searches that fail, and commands that do not take effect.
- The daemon, MCP and watchdog restarts after the install loop; permissions; failures that leave a partly deleted directory.
- Finding import statements in raw source text by regular expression; indentation; statements are given.
- Splitting a UTF-8 character between two chunks: the decoder receives text, so encodings whose chunks are not themselves text do not arise.
- SidecarCache.FreshHitsAreCurrent: says nothing about a hit after the file has moved on, because SecondProcessGetsWrongHit shows that such a hit may be wrong.
