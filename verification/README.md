# A Dafny model of the recovery tool's core

This project models the parts of the undelete tool that decide what a recovered byte is, and proves what they promise.
Five pipelines are covered.

1. **Recovery.** An NTFS runlist, a bitmap and an initialized size become classified extents (`Runlist`, `Extents`;
   `RunlistFields` says what any runlist's bytes mean, holes and oversized fields included), the extents become a
   content plan with no more segments than their bytes require (`Segmenting`, `Plan`), the plan is streamed in bounded
   chunks under unreadable bytes, short writes and cancellation (`Streaming`, `Transfers`, `ZeroRanges`), and the
   result is mapped into readable and zero-filled ranges (`Manifest`). Every stage has a per-byte meaning, "source
   byte p" or "zero, for this reason", and every stage preserves it (`Recovery`). The whole-buffer extractor
   (`Extraction`) is the simple form that the streamer refines. `MftStream` and `MftRecord` cover reading the MFT
   itself, and `Sweep` and `Recoverability` the byte counts behind the score.
2. **Deep carving.** Bitmap, maximal free runs (`Allocation`), admitted regions (`Admission`), chunked signature scan
   (`Carving`, `CarveScan`, `CarveRequest`) with an incremental JPEG validator (`Jpeg`, `JpegValidators`) proved
   against a grammar with its own marker table and headers (`JpegGrammar`), and evidence merged by physical range
   (`EvidenceMerge`). `CarveSpec` says, without any of that machinery, what there is
   to find. `DeepScan` joins them: only bytes of clusters proven free are read, and a scan that calls itself complete
   found every image inside a free run.
3. **Folder scope.** Bounded expansion of the hard-link parent graph (`Namespace`) and the three-valued folder
   question over it (`NamespaceIndex`), sound in both directions and, on a complete view, exact.
4. **Read-only broker.** Message layout (`BrokerMessages`), frames over a queue that may deliver bytes in any pieces
   (`BrokerWire`), the server's step (`BrokerSessions`), and the client in lock step with it (`BrokerClient`).
   `AlignedRead` is the sector rounding below.
5. **Codecs and chains.** The runlist and long-file-name directory printers are inverted by their parsers (`Runlist`,
   `FatDirectory`, `FatShortNames`); allocation tables read back what was packed into them (`FatPacking`) and their
   chains are walked and grouped (`FatChain`); the journal is hash-chained (`Journal`).

Conventions. A source is a fixed byte sequence with a fixed set of unreadable positions; what a best-effort read
*reports* is an arbitrary function, required only not to lie when it is coherent, and recognised as incoherent
otherwise; what it *leaves in the buffer* at unreadable positions is arbitrary too. The streamer's own clearing makes
its output independent of that; the whole-buffer extractor relies on the reader to zero-fill, as the reader's contract
promises (crates/core/src/source.rs:66-68). SHA-256 is an arbitrary function of byte sequences, never assumed
injective. Machine integers are unbounded with the source's 64-bit checks written out. Objects that the source updates
in place are classes; pure code is functions. Methods are specified by functions or predicates on values, and the
lemmas are about those.

Where the code says more or less than its documentation, the model follows the code:

- A byte past the initialized size is a sparse zero exactly when some run maps it (`PastInitialized`); an unmapped one
  is a missing extent (`UnmappedTailIsMissing` is a concrete stream).
- The journal's final hash commits to everything *except* that an empty journal has the same head as a journal whose
  last record hashes to the zero digest (`EmptyException`), and except for the spelling of the job digest, because the
  hash decoder accepts capitals and a plus sign: `SpellingNotCommitted` gives two audited journals with one head and
  different job texts. A text is the one this code writes exactly when it is in lower case (`WrittenIffLower`); given
  one journal in that spelling, another with the same head has the same job texts exactly when its own are in lower
  case too, or two records collide (`SpellingCommitment`).
- `decode_hash` cuts its text at byte positions (crates/restore/src/journal.rs:331-345) and panics when a cut falls
  inside a character. `AuditJournal` says exactly which files make the audit panic rather than return an error.
- The folder question never answers "match" for a record about itself, even where a cycle of links puts it below
  itself (`CompleteIsExact`).
- `plan_aligned_read` refuses in-bounds requests near 2^64 when the sector size does not divide 2^64
  (`OddSectorsRefused`); it covers every in-bounds request exactly when rounding the end up does not overflow
  (`WholeSectorsPlanned`).
- Paths never continue above the root record, even where the root's own name points elsewhere.

## Model

| member | source | states |
|---|---|---|
| Runlist.DecodeRunlist | crates/fs-ntfs/src/runs.rs:15-91 | The decoding loop returns the value, or the error, of the element-by-element specification for every buffer; the rows of `RunlistFields` say what that value is. |
| RunlistFields.SpelledRoundTrip | crates/fs-ntfs/src/runs.rs:15-91 | A list of fields of any sizes, holes anywhere, decodes to each count and to the sum of the moves so far, or fails, exactly as the sums and runs lie in the volume. |
| RunlistFields.DecodesWhatIsSpelled | crates/fs-ntfs/src/runs.rs:15-91 | Any buffer decodes to these runs if and only if it spells fields that mean them. |
| RunlistFields.AnySizesRoundTrip | crates/fs-ntfs/src/runs.rs:46-86 | Counts and signed moves written in any size that holds them, minimal or not, come back; a hole moves nothing. |
| RunlistFields.NoWrap | crates/fs-ntfs/src/runs.rs:58-79 | On volumes of at most 2^63 clusters the cluster number of an accepted element is the sum itself, never cut to 64 bits. |
| Runlist.AcceptedRunsInVolume | crates/fs-ntfs/src/runs.rs:33-86 | Whatever the bytes, accepted runs have positive counts, lie inside the volume, and total no more than it. |
| Runlist.SignExtendToLE | crates/fs-ntfs/src/runs.rs:58-70 | The n bytes of a signed delta read back as that delta if and only if it fits n bytes with their sign bit. |
| Runlist.EncodeRunlist | crates/fixture-builder/src/ntfs.rs:542-573 | The printing loop produces the specified bytes: minimal lengths, signed deltas, terminator. |
| Runlist.RunlistRoundTrip | crates/fixture-builder/src/ntfs.rs:542-573 | Decoding an encoded runlist gives the same runs exactly when they lie in the volume. |
| Allocation.BitmapRoundTrip | crates/fs-common/src/lib.rs:169-176 | A bitmap written from flags, lowest bit first, answers exactly those flags and nothing past them. |
| Allocation.KnownIsRetained | crates/fs-common/src/lib.rs:143-177 | A cluster's state is known exactly below the known count; missing bitmap bytes never mean free. |
| Allocation.FreeClusterRuns.Next | crates/fs-common/src/lib.rs:95-117 | Each call returns the next maximal run of present-and-clear bits, or there is none left. |
| Allocation.CollectFreeRuns | crates/fs-common/src/lib.rs:152-160 | Draining the iterator yields exactly the maximal free runs, once each, in order. |
| Allocation.FreeRunsUnique | crates/fs-common/src/lib.rs:152-160 | A bitmap has one such list, so what is said of it is said of the bitmap. |
| Extents.SplitByAllocation | crates/fs-ntfs/src/scan.rs:2174-2218 | Cutting a run at allocation changes tiles it, gives every byte the meaning of its own cluster, and cuts nowhere else. |
| Extents.GroupPiece | crates/fs-ntfs/src/scan.rs:2194-2217 | All bytes of one group of equal bits mean what their clusters mean. |
| Extents.BuildMapped | crates/fs-ntfs/src/scan.rs:2101-2128 | The loop over the runs tiles the mapped part of the stream with its per-byte meaning, cut at runs and at changes of state only. |
| Extents.SplitAtInitializedSize | crates/fs-ntfs/src/scan.rs:2137-2171 | Clipping keeps the tiling, turns exactly the mapped bytes past the initialized size into sparse zeros, and adds one cut at most. |
| Extents.BuildExtents | crates/fs-ntfs/src/scan.rs:2047-2133 | The extents of a non-resident stream tile it, stay within the volume, mean at every byte what NTFS says, and are as many as the stream has cuts. |
| Extents.CutsCounted | crates/fs-ntfs/src/scan.rs:2101-2217 | Extents that tile a beginning of the stream and are cut where it is are as many as its cuts. |
| Extents.MappedInRun | crates/fs-ntfs/src/scan.rs:2101-2128 | A byte inside run i means that run's start plus its offset, or the reason it does not. |
| Plan.PlanBuilder.PushRead | crates/restore/src/plan.rs:100-139 | Grows the last segment exactly when it is a contiguous read of the same availability and appends otherwise, within the segment limit; either way the tiling and meaning are extended. |
| Plan.PlanBuilder.PushZero | crates/restore/src/plan.rs:141-185 | The same for zero fills, which grow a contiguous fill of the same reason; a non-sparse one is refused exactly under the complete-only policy. |
| Plan.GrowExtends | crates/restore/src/plan.rs:108-126 | Growing the last segment means the same as appending the new one. |
| Plan.ReadableMapping | crates/restore/src/plan.rs:310-342 | The mapping decision agrees with the extent's meaning and fails exactly on an unreadable physical range. |
| Plan.OrderedDisjoint | crates/restore/src/plan.rs:250-260 | Extents in order without overlap are pairwise disjoint in any arrangement. |
| Plan.PlanExtent | crates/restore/src/plan.rs:254-284 | One turn of the planning loop: the gap before the extent and the extent itself, segments still only where needed; a refusal names what the gap or the extent stands for. |
| Plan.PlanCandidate | crates/restore/src/plan.rs:208-303 | A plan tiles the file, reads within the source, starts a segment exactly where meaning or availability breaks, and explains every byte by its extent or as missing; the segment limit is reported only when the file needs more segments than allowed, unavailable content only when some byte of the file stands for that kind of zero. |
| Plan.MergedCuts | crates/restore/src/plan.rs:100-185 | Pushing or growing keeps the segments starting exactly where the extents require it, so their number is the number of such places. |
| Plan.FewestSegments | crates/restore/src/plan.rs:76-206 | No list of segments that says the same of every byte is shorter. |
| Plan.PrefixNeeds | crates/restore/src/plan.rs:252-292 | Segments needed by the extents planned so far are needed by the whole candidate, so giving up early is never wrong. |
| Recovery.DescribedIsPlannable | crates/restore/src/plan.rs:224-260 | Extents built from a stream always satisfy the planner's checks. |
| Recovery.PlanMeansStream | crates/restore/src/plan.rs:252-303 | The plan of a stream's extents means at every byte what NTFS says of that byte. |
| Recovery.SameNeeds | crates/restore/src/plan.rs:96-206 | The segments that a stream's extents need are the places where the meaning of its bytes breaks. |
| Recovery.ByteOfRun | crates/fs-ntfs/src/scan.rs:2101-2171 | Below the initialized size a mapped byte is its run's byte; past it, a sparse zero. |
| Recovery.PastInitialized | crates/fs-ntfs/src/scan.rs:2137-2171 | Past the initialized size a byte is a sparse zero exactly when a run maps it, and a missing extent exactly when none does. |
| Recovery.UnmappedTailIsMissing | crates/fs-ntfs/src/scan.rs:2137-2171 | A concrete stream whose second, unmapped cluster past the initialized size is missing rather than sparse. |
| Recovery.ReadsOnlyFreeClusters | crates/fs-ntfs/src/scan.rs:2191-2217 | Content is read only from clusters the bitmap proves free. |
| Recovery.PlanStream | crates/fs-ntfs/src/scan.rs:2047-2218 | From runlist bytes to plan: succeeds if and only if the runlist decodes, the stream has no more cuts than the planner takes extents, and its meaning breaks no more often than the segment ceiling; the plan then has one segment per break and NTFS's meaning at every byte. |
| Streaming.NormalizeBadRanges | crates/restore/src/stream.rs:303-351 | Accepts exactly the well-reported outcomes and returns the maximal ranges of the reported positions. |
| Streaming.MergeInPlace | crates/restore/src/stream.rs:327-345 | The merge that reuses the list it reads from preserves the union of the ranges. |
| Streaming.Preflight | crates/restore/src/stream.rs:183-274 | Accepts exactly the plans that tile the file with readable ranges and a usable buffer; a refusal names a segment or bound that really breaks the rule. |
| ZeroRanges.AppendKeeps | crates/restore/src/stream.rs:353-378 | Appending keeps the list maximal and adds exactly the new bytes. |
| ZeroRanges.MaximalUnique | crates/restore/src/stream.rs:353-378 | The maximal same-reason run list is determined by what it says of each byte, hence independent of chunking. |
| Transfers.Transfer.WriteCommitted | crates/restore/src/stream.rs:380-430 | Short writes and cancellations leave output, hash and counter on one prefix of the content, and a failure is the writer's or the probe's latest answer. |
| Transfers.Transfer.StreamZero | crates/restore/src/stream.rs:125-158 | A planned zero segment is written and recorded in full, or the stream stops on a prefix. |
| Transfers.Transfer.StreamChunk | crates/restore/src/stream.rs:62-123 | Whatever the reader leaves at unreadable positions, a read chunk is written with those zeroed and recorded, or the stream stops on a prefix with its cause. |
| Transfers.Transfer.RecordBad | crates/restore/src/stream.rs:78-109 | Clearing and recording the bad ranges turns the raw chunk into the source's bytes with zeros where unreadable, or the range limit is really exceeded. |
| Transfers.ChunkDone | crates/restore/src/stream.rs:78-109 | After a chunk's bad ranges are recorded the zero map says exactly what happened to every byte so far. |
| Transfers.ChunkOverfull | crates/restore/src/stream.rs:353-378 | The range limit is reported only when some beginning of the file, not past its end, really needs more ranges. |
| Transfers.ValidatePlannedZeros | crates/restore/src/stream.rs:276-301 | Accepts exactly the plans whose own zero ranges fit the limit. |
| Transfers.StreamCandidate | crates/restore/src/stream.rs:40-181 | Success appends exactly the planned content with the unique zero map; any failure leaves the prefix of the reported length (the whole content for a hash mismatch, nothing for a rejected plan) and has its cause in this run and inside the file: the latest check or write, the report of the chunk after that prefix, unreadable bytes in it, or a limit. |
| Extraction.ExtractCandidate | crates/core/src/extract.rs:23-96 | Whole-buffer extraction gives each byte what the reader left for its last extent, or zero, and lists exactly the uncovered and unreadable ranges. |
| Extraction.CopyExtent | crates/core/src/extract.rs:36-76 | One extent overwrites exactly its bytes and marks the readable ones. |
| Extraction.CollectUncovered | crates/core/src/extract.rs:78-94 | The missing ranges are the maximal runs of unmarked bytes. |
| Extraction.StreamRefinesExtract | crates/restore/src/stream.rs:40-181 | For free, resident and sparse extents the stream's non-sparse zeros are the extractor's missing ranges and all other bytes agree; with a zero-filling reader content and digest are equal. |
| Manifest.ReadableRanges | crates/restore/src/manifest.rs:399-422 | The readable ranges are the maximal runs of the bytes no zero range covers. |
| Manifest.BuildPartialSidecar | crates/restore/src/manifest.rs:286-337 | The sidecar carries the readable complement and the three reason lists of the outcome's zero map, and exists when the outcome needed best effort. |
| Manifest.OneList | crates/restore/src/manifest.rs:388-397 | Each zero-filled byte is in exactly one of the three reason lists. |
| Manifest.SidecarPartitions | crates/restore/src/manifest.rs:286-337 | For a well-formed zero map the readable ranges and the three lists partition the file. |
| Manifest.OutcomeZerosFit | crates/restore/src/stream.rs:353-378 | The zero map of every completed stream is maximal and inside the file. |
| Manifest.OutcomesAgree | crates/restore/src/stream.rs:40-181 | Two completed streams of one plan and source have equal outcomes, whatever the chunking and the writer. |
| Manifest.StreamSidecar | crates/restore/src/manifest.rs:286-337 | A completed stream has a sidecar exactly when some byte is zero-filled for a reason other than sparseness, and its lists partition the file by the plan's meaning of each byte. |
| Manifest.PartialIffLost | crates/restore/src/manifest.rs:112-120 | A completed item is partial exactly when its sidecar exists, hence exactly when some byte was lost. |
| MftRecord.ParseFileRecord | crates/fs-ntfs/src/record.rs:29-90 | Accepts exactly the plausible, untorn records whose restored header is in bounds, returns the raw record with the saved sector ends put back and its header, and names each other cause. |
| MftRecord.HeaderRoundTrip | crates/fs-ntfs/src/record.rs:36-78 | A header written field after field reads back as its fields. |
| MftRecord.AcceptedInBounds | crates/fs-ntfs/src/record.rs:67-82 | An intact record is accepted exactly when its restored header points inside it. |
| MftRecord.ApplyFixups | crates/fs-ntfs/src/record.rs:50-67 | The in-place loop succeeds exactly on intact records and restores every protected sector end and nothing else. |
| MftRecord.ProtectRecord | crates/fixture-builder/src/ntfs.rs:466-475 | The builder's loop saves every sector end and replaces it by the update sequence number. |
| MftRecord.FixupRoundTrip | crates/fixture-builder/src/ntfs.rs:466-475 | A protected record is intact, and restoring it gives the original back but for the array itself. |
| MftRecord.ProtectedAccepted | crates/fs-ntfs/src/record.rs:29-90 | A well-formed record, once protected, is accepted with its own header and its own bytes outside the array. |
| MftStream.PlacesAgree | crates/fs-ntfs/src/scan.rs:390-533 | The stream reader and the extents of the same runs agree on where each byte is. |
| MftStream.ReadStreamRange | crates/fs-ntfs/src/scan.rs:391-459 | Succeeds exactly when every byte asked for is mapped and readable and no run that starts before the request's end overflows 64 bits, and returns those bytes; ending early means asking past the runs. |
| MftStream.StreamPhysOffset | crates/fs-ntfs/src/scan.rs:462-474 | Returns the position at which the stream byte is stored, and nothing for holes and past the end. |
| MftStream.TrustedPrefixLen | crates/fs-ntfs/src/scan.rs:483-533 | Every byte of the prefix is on the source, and where it stops early the stream shows why. |
| MftStream.InsideTrusted | crates/fs-ntfs/src/scan.rs:391-533 | Inside the prefix a read never ends early or meets a hole; only an unreadable byte fails it, and each byte is the one at its physical offset. |
| MftStream.BatchHolds | crates/fs-ntfs/src/scan.rs:1405-1503 | A batch read is the concatenation of the single-record reads. |
| MftStream.ReadRecords | crates/fs-ntfs/src/scan.rs:1405-1503 | The records seen do not depend on the batch size or on falling back to single reads. |
| MftStream.AcceptedExpressible | crates/fs-ntfs/src/boot.rs:68-83 | Runs of a volume that lies inside the source never overflow the stream arithmetic. |
| Sweep.ClassifiedSegments | crates/core/src/score.rs:71-116 | The segments cover exactly the bytes some extent covers and give each the set of classes of the extents covering it. |
| Sweep.SweepEvents | crates/core/src/score.rs:90-115 | The same for any order of events at equal positions. |
| Sweep.NeverBelowZero | crates/core/src/score.rs:102-111 | When an end is taken its start has been counted, so the saturating decrement never saturates. |
| Recoverability.FromCandidate | crates/core/src/score.rs:121-178 | Each count is the number of bytes it claims to count, for any overlapping or duplicated extents. |
| Recoverability.HasMeans | crates/core/src/score.rs:58-70 | A class is set at a byte exactly when an extent of that availability covers it. |
| Recoverability.Conservation | crates/core/src/score.rs:121-178 | Readable kinds, blocked bytes and uncovered bytes add up to the file size. |
| Recoverability.SweepCoverage | crates/core/src/score.rs:166-173 | The sweep and the interval merge agree on how many bytes are covered. |
| Recoverability.CoveredLen | crates/core/src/candidate.rs:120-158 | The covered length counts each covered byte once. |
| Recoverability.HasMissingRanges | crates/core/src/candidate.rs:160-163 | True exactly when some byte has no extent. |
| Intervals.MergeRanges | crates/core/src/candidate.rs:135-149 | Sorting and merging gives the maximal ranges of the same set. |
| Intervals.NormalUnique | crates/core/src/candidate.rs:135-149 | A set of positions has one list of maximal ranges. |
| Jpeg.RunConcat | crates/carving/src/jpeg.rs:66-112 | Feeding a then b is feeding both at once. |
| Jpeg.AcceptedIsImage | crates/carving/src/jpeg.rs:118-245 | What the state machine accepts parses as marker segments, scans and entropy data. |
| Jpeg.ImageIsAccepted | crates/carving/src/jpeg.rs:118-245 | Every byte sequence of that grammar is accepted, at its last byte and not before. |
| Jpeg.AcceptedIffGrammar | crates/carving/src/jpeg.rs:118-276 | Acceptance and the declarative grammar coincide; the grammar has its own marker table and headers and uses none of the machine's tests. |
| Jpeg.MarkersAgree | crates/carving/src/jpeg.rs:202-252 | The machine's tests for frame headers, restarts and segments are the table of markers. |
| Jpeg.HeadersAgree | crates/carving/src/jpeg.rs:254-276 | Six captured bytes and the declared length decide exactly whether the whole payload is a frame or scan header. |
| JpegGrammar.FrameHeaderIff | crates/carving/src/jpeg.rs:254-265 | A payload is a written frame header exactly when its sizes and component count are positive and its length fits the count. |
| JpegGrammar.ScanHeaderIff | crates/carving/src/jpeg.rs:267-276 | The same for scan headers. |
| Jpeg.PrefixFree | crates/carving/src/jpeg.rs:66-112 | No accepted sequence is a proper prefix of another. |
| JpegValidators.JpegValidator.Consume | crates/carving/src/jpeg.rs:118-200 | The in-place step agrees with the step function for every state and byte. |
| JpegValidators.JpegValidator.Feed | crates/carving/src/jpeg.rs:66-112 | Consumes each byte once and lands where one run over all the bytes lands, however the input is cut. |
| CarveSpec.HitsInComplete | crates/carving/src/lib.rs:181-183 | The list of what is to be found holds exactly the images starting in the interval, once each, in order. |
| CarveSpec.NoImage | crates/carving/src/lib.rs:549-573 | A rejected prefix, or a run still open at the region's end, rules out any image at that offset. |
| Carving.NormalizeBadRanges | crates/carving/src/lib.rs:576-622 | Trusted outcomes give their maximal ranges; any other makes the whole request unreadable. |
| Carving.InspectPermitted | crates/carving/src/lib.rs:518-565 | The chunked validation loop reaches the verdict of the whole candidate, in reads inside the region. |
| Carving.ReadAndInspectCandidate | crates/carving/src/lib.rs:493-574 | A valid verdict is a real image with the digest of its bytes; an invalid or truncated one means there is none; limits are reported only when spent. |
| CarveScan.ProcessSignature | crates/carving/src/lib.rs:407-481 | One signature adds exactly the image there, or a count, and stopping always leaves a reason. |
| CarveScan.ScanChunk | crates/carving/src/lib.rs:379-392 | A chunk scan misses no image starting before its last byte unless the report is partial. |
| CarveScan.ScanRegion | crates/carving/src/lib.rs:314-405 | For every chunk size of two or more a region scan that is not partial reports exactly the region's images, across chunk boundaries. |
| CarveRequest.ValidateRegions | crates/carving/src/lib.rs:263-312 | Accepts exactly the bounded, in-source, pairwise disjoint requests; each error names a violated condition. |
| CarveRequest.CarveJpegs | crates/carving/src/lib.rs:183-218 | Budgets are never exceeded and given as reasons only when spent, read errors only after a suspicious outcome; every reported candidate is real and distinct, only the regions are read, and a report that is not partial is the full list. |
| CarveRequest.CarvedAllExact | crates/carving/src/lib.rs:181-183 | The full list is exactly the images wholly inside a region, nested ones included. |
| Admission.FreeByte | crates/fs-ntfs/src/scan.rs:365-373 | A byte of a free region belongs to a cluster the bitmap proves free. |
| Admission.AdmitRegions | crates/cli/src/deep.rs:147-220 | Admitted regions always pass the carver's checks and hold only free bytes; a limit is reported exactly when some free byte is left out, never without free space past the source's end or over a limit, and for separated regions always with it. |
| EvidenceMerge.ExactPhysicalRange | crates/cli/src/deep.rs:331-358 | Returns a range exactly when the extents are one unbroken run of source bytes as long as the file. |
| EvidenceMerge.TabulateOwners | crates/cli/src/deep.rs:231-259 | Rejects exactly duplicate ids and tells sole owners of a range from shared ranges. |
| EvidenceMerge.AssignId | crates/cli/src/deep.rs:287-313 | A range goes to its resolved or sole owner, or to a new candidate with an id above all others; fails exactly when it needs an id and none is left. |
| EvidenceMerge.MergeCarvedEvidence | crates/cli/src/deep.rs:222-329 | Inputs first and unchanged, distinct ids, one evidence item per range naming the right candidate; fails exactly on malformed input or when the unowned ranges need more ids than 64 bits leave. |
| DeepScan.ReportIsWellFormed | crates/cli/src/deep.rs:270-286 | What the carver reports is never malformed for the merge. |
| DeepScan.ScanDeep | crates/cli/src/deep.rs:30-114 | Only bytes of free clusters are read; all evidence is proven; fails only on duplicate ids or when the images found need more ids than are left; a region limit is reported exactly when the bitmap's own free runs are over it; complete exactly when bitmap, admission and carve were, and then every image inside a free run is listed. |
| Namespace.SimpleChain | crates/fs-ntfs/src/scan.rs:1052-1055 | Any chain of parent links has a cycle-free one with the same ends, so refusing revisits loses nothing. |
| Namespace.ExtendValid | crates/fs-ntfs/src/scan.rs:1110-1133 | Extending an upstream path keeps it validated, cycle-free, with exactly the state its links deserve and, for an orphan, the reason it ends. |
| Namespace.ExpandParentPaths | crates/fs-ntfs/src/scan.rs:1029-1147 | Every path is a chain of validated links whose state says exactly whether the root was reached and how (orphaned when it was not, incomplete over incomplete records or at the depth limit, never ambiguous); a complete expansion shows every directory at the end of a cycle-free chain, and everything reachable if all its paths are good; incompleteness shows in the result. |
| NamespaceIndex.BuildNamespace | crates/fs-ntfs/src/scan.rs:1149-1263 | The view describes the links truly within its budgets, is incomplete only if the scan was or a budget was met, and lists every directory. |
| NamespaceIndex.ViewStates | crates/fs-ntfs/src/scan.rs:72-84 | Each of the five states of a shown path holds exactly when its links deserve it, and an orphan has a missing, reused, cyclic, nameless or non-directory parent to show. |
| NamespaceIndex.NoMatchIff | crates/fs-ntfs/src/scan.rs:246-272 | On a complete view "no match" is answered exactly when the candidate has a path, every path of it reached the root over complete records, and it does not lie below. |
| NamespaceIndex.BuildIndex | crates/fs-ntfs/src/scan.rs:159-177 | The index holds exactly the offsets of each node's paths and is refused only above the path bound. |
| NamespaceIndex.ClassifyWithIndex | crates/fs-ntfs/src/scan.rs:246-272 | The indexed answer is the answer by looking at every path. |
| NamespaceIndex.ClassifyCandidate | crates/fs-ntfs/src/scan.rs:159-272 | Building the index and asking it gives the answer over all paths, or unknown above the path bound. |
| NamespaceIndex.MatchIsBelow | crates/fs-ntfs/src/scan.rs:246-259 | A match means a chain of validated parent links to the directory of that generation. |
| NamespaceIndex.NoMatchIsNotBelow | crates/fs-ntfs/src/scan.rs:260-272 | No match means no such chain exists, however long or cyclic. |
| NamespaceIndex.AnswerIsExact | crates/fs-ntfs/src/scan.rs:246-272 | Any answer but unknown is the truth about the links, for every display order of the paths. |
| NamespaceIndex.CompleteIsExact | crates/fs-ntfs/src/scan.rs:246-272 | On a complete view, for every candidate and directory, a match is reported exactly when the current generation lies below another, observed record, whatever the states of the paths. |
| BrokerMessages.PayloadInjective | crates/broker-protocol/src/codec.rs:249-289 | One payload belongs to one message of its opcode. |
| BrokerMessages.PayloadLayout | crates/broker-protocol/src/codec.rs:249-289 | Every valid message has its opcode number, and each field at its place and size. |
| BrokerMessages.ValidIsWellFormed | crates/broker-protocol/src/message.rs:151-260 | Validation accepts exactly the identifiers over the stated alphabet, the twelve sector sizes in order, and the stated bounds. |
| BrokerMessages.DecodePayload | crates/broker-protocol/src/codec.rs:291-338 | Decoding returns the one valid message with that payload, or there is none. |
| BrokerMessages.CodeFromNumber | crates/broker-protocol/src/message.rs:75-93 | Error codes convert back and forth without loss, and nothing else is a code. |
| BrokerWire.EncodeFrame | crates/broker-protocol/src/codec.rs:18-47 | Encodes exactly the valid messages with a nonzero sequence, within the frame bound. |
| BrokerWire.ReadExactBounded | crates/broker-protocol/src/codec.rs:205-247 | However the bytes arrive, the result is the next n of them; too few is a truncation with the exact count. |
| BrokerWire.ReadFrame | crates/broker-protocol/src/codec.rs:58-101 | Accepts a stream exactly when it starts with a valid frame and consumes just that frame. |
| BrokerWire.FrameLayout | crates/broker-protocol/src/codec.rs:18-47 | Magic, version, opcode, sequence and length lie at their offsets in the twenty header bytes, the payload behind them. |
| BrokerWire.OneFrame | crates/broker-protocol/src/codec.rs:58-101 | Frames are a prefix code. |
| BrokerWire.DecodeFrame | crates/broker-protocol/src/codec.rs:103-116 | Decoding and encoding are two-sided inverses: accepted bytes are exactly the encoding of the result. |
| BrokerWire.ReadFrames | crates/broker-protocol/src/codec.rs:58-101 | A concatenation of frames decodes to the same frames however it is fragmented or interrupted. |
| BrokerWire.SessionCodec.WriteMessage | crates/broker-protocol/src/codec.rs:154-165 | Sends one frame with the next sequence, or sends nothing and changes nothing. |
| BrokerWire.SessionCodec.ReadMessage | crates/broker-protocol/src/codec.rs:167-189 | Accepts exactly the next inbound sequence; replays and gaps are errors that change no sequence. |
| BrokerSessions.StepAnswers | crates/elevated-broker/src/lib.rs:209-321 | Every valid request but shutdown gets one valid reply that answers it, and read data is the source's own bytes. |
| BrokerSessions.StepReplies | crates/elevated-broker/src/lib.rs:209-321 | Which answer each request gets, by what is held, the handle it names, the range, and the first thing that fails. |
| BrokerSessions.StepLeaves | crates/elevated-broker/src/lib.rs:267-285 | A read loses the source exactly when its answer puts the identity in doubt, a close exactly when confirmed, an open gains one exactly when announced; nothing else touches it. |
| BrokerSessions.StepGreets | crates/elevated-broker/src/lib.rs:184-203 | The session starts, holding nothing, exactly after a greeting whose challenge is not all zeros, and echoes it. |
| BrokerSessions.Server.ServeOne | crates/elevated-broker/src/lib.rs:174-321 | One served request moves the server by its step, whose answers and states `StepReplies`, `StepLeaves` and `StepGreets` pin, sends at most one reply, and keeps the sequences. |
| BrokerClient.ProtocolReadSession.Exchange | crates/broker-client/src/lib.rs:168-187 | A request is delivered and answered by the server's step, or refused locally with nothing sent; both sides stay level. |
| BrokerClient.ProtocolReadSession.Open | crates/broker-client/src/lib.rs:212-236 | Succeeds only when nothing stands in the way and then always without transport failures; the server holds at most one source. |
| BrokerClient.ProtocolReadSession.Read | crates/broker-client/src/lib.rs:238-265 | Bytes come back only when the read is servable, and they are the held source's slice; a refusal names the first cause, and the source is lost exactly when its identity is in doubt, so a bad sector does not stop the next read. |
| BrokerClient.ProtocolReadSession.Close | crates/broker-client/src/lib.rs:267-279 | Closes exactly the held source under its own handle. |
| BrokerClient.ProtocolReadSession.SendShutdown | crates/broker-client/src/lib.rs:281-289 | Ends the server without a reply; repeating it changes nothing. |
| BrokerClient.Connect | crates/broker-client/src/lib.rs:147-166 | A nonzero challenge is echoed and establishes the session; a zero one sends nothing. |
| BrokerClient.RunCalls | crates/broker-client/src/lib.rs:208-290 | Any run of client calls keeps counters equal and one reply per request but shutdown. |
| BrokerClient.BrokerSourceReader.ReadExactAt | crates/broker-client/src/lib.rs:392-461 | Over any number of chunks the buffer becomes the source's slice; a failed chunk leaves zeros only; nothing fails when nothing stands in the way. |
| AlignedRead.PlanCovers | crates/io-windows/src/model.rs:747-779 | A plan reads whole sectors inside the source, as few as possible, and the request lies inside at the copy offset. |
| AlignedRead.RefusalNames | crates/io-windows/src/model.rs:718-779 | Each refusal names its cause: the sector size, the length bound, 64 bits, or the end of the source. |
| AlignedRead.NothingPlanned | crates/io-windows/src/model.rs:718-779 | A request for nothing reads nothing, and is refused only past the end or without a sector size. |
| AlignedRead.PlanExists | crates/io-windows/src/model.rs:718-779 | A plan exists exactly when the rounded range fits the source and the rounding does not overflow. |
| AlignedRead.WholeSectorsPlanned | crates/io-windows/src/model.rs:718-779 | On whole sectors an in-bounds request is planned exactly when rounding its end does not overflow. |
| AlignedRead.InBoundsAlwaysPlanned | crates/io-windows/src/model.rs:718-779 | With a sector size dividing 2^64 no in-bounds request is refused. |
| AlignedRead.OddSectorsRefused | crates/io-windows/src/model.rs:748-750 | A concrete in-bounds request that is refused. |
| Journal.HexRoundTrip | crates/restore/src/journal.rs:331-355 | Written hashes read back as the digest they encode. |
| Journal.TryDecodeHash | crates/restore/src/journal.rs:331-345 | The loop returns the digest of the pairs or nothing, and panics exactly when, after digits only, it has to cut inside a character. |
| Journal.SpellingNotUnique | crates/restore/src/journal.rs:331-345 | A 64-character digest text in small letters and one in capitals decode to the same digest. |
| Journal.SignNotUnique | crates/restore/src/journal.rs:331-345 | So do one with leading zeros and one with plus signs. |
| Journal.WrittenIffLower | crates/restore/src/journal.rs:331-355 | A decodable text is the one written for its digest if and only if every character is in 0-9 or a-f. |
| Journal.SpellingNotCommitted | crates/restore/src/journal.rs:186-294 | Two audited one-record journals with equal heads, no collision and different job texts, for any encoding in which a record without kind and payload fits on a line. |
| Journal.RespeltJournals | crates/restore/src/journal.rs:186-294 | So do any two spellings of one digest whose records fit on a line. |
| Journal.SpellingCommitment | crates/restore/src/journal.rs:182-329 | Beside a lower-case journal, an audited one with the same head has the same job texts exactly when its own are lower-case, or two records collide. |
| Journal.WrittenSpelling | crates/restore/src/journal.rs:49-132 | Every journal this code writes is in that spelling. |
| Journal.PreimageInjective | crates/restore/src/journal.rs:304-329 | Equal hash inputs come from equal fields. |
| Journal.AuditJournal | crates/restore/src/journal.rs:186-294 | Accepts exactly the files whose lines are whole records that continue each other, and panics exactly when the first record it cannot accept gets as far as a job text that the decoder panics on. |
| Journal.Commitment | crates/restore/src/journal.rs:182-329 | Two audited journals with one final hash, both empty or both not, agree in length and content or hold a collision. |
| Journal.EmptyException | crates/restore/src/journal.rs:201-204 | An empty journal shares its head exactly with journals whose last record hashes to zero. |
| Journal.EmptyExceptionExists | crates/restore/src/journal.rs:201-204 | For some hash functions there is such a journal. |
| Journal.JobJournal.Append | crates/restore/src/journal.rs:49-132 | One more audited record and a new head, or an error that counts nothing; nothing is added once poisoned. |
| Journal.RunAppends | crates/restore/src/journal.rs:49-140 | After any run of appends with faults the counted records audit and end in the reported head. |
| FatChain.Chain | crates/fs-fat/src/fat.rs:87-107 | A chain is duplicate-free, in range and linked, and every other such walk within the limit is a beginning of it; it is complete exactly when it ends in an end mark, and any path to one within the limit is this chain. |
| FatPacking.PackedReads | crates/fs-fat/src/fat.rs:31-53 | A table packed three bytes to two, two or four bytes an entry reads back as its entries at every cluster it holds, whatever the spare bits and what follows, and holds no others. |
| FatPacking.PackedMeans | crates/fs-fat/src/fat.rs:55-78 | Each packed value is free, reserved, bad, an end mark or the next cluster as the variant's ranges say. |
| FatPacking.LinkClusters | crates/fixture-builder/src/fat.rs:221-231 | Writing a file's clusters makes each name the next and the last the end mark, and touches no other entry. |
| FatPacking.WriteTable | crates/fixture-builder/src/fat.rs:311-324 | The writing loop produces the packed table and leaves the bytes behind it. |
| FatPacking.LinkedListEnds | crates/fs-fat/src/fat.rs:87-107 | A list linked in a table of any variant, ending in any end mark, is a path to the end, so `Chain` gives exactly it, complete. |
| FatChain.ChainUnique | crates/fs-fat/src/fat.rs:87-107 | The table alone decides the chain. |
| FatChain.AllVisited | crates/fs-fat/src/fat.rs:91-106 | A duplicate-free chain as long as the volume has visited every cluster. |
| FatChain.GroupClusters | crates/fs-fat/src/scan.rs:416-456 | Run-grouped extents map byte i to cluster i / size at offset i mod size, and are cut only where they must be. |
| FatChain.BuildFileExtents | crates/fs-fat/src/scan.rs:385-457 | The clusters are the longest retained chain within the size's limit, or consecutive ones after a cleared chain, or none, as the first entry says. |
| FatChain.ExtentBytes | crates/fs-fat/src/scan.rs:429-455 | Every byte is stored in its own cluster, counted from 2 at the data area; it is in conflict exactly when the chain is assumed and the entry not free. |
| FatChain.AssumedContiguous | crates/fs-fat/src/scan.rs:407-418 | An assumed file is one run of source bytes from its first cluster on. |
| FatDirectory.LfnChecksum | crates/fs-fat/src/dir.rs:32-38 | The checksum loop computes the specified rotation sum. |
| FatDirectory.ChecksumNoticesOneByte | crates/fs-fat/src/dir.rs:32-38 | A name with one byte changed never has the same checksum. |
| FatDirectory.ParseDirectory | crates/fs-fat/src/dir.rs:82-180 | The slot loop with its pending long name computes the specified entries. |
| FatDirectory.EncodeEntry | crates/fixture-builder/src/fat.rs:407-491 | Filling slots in place, with or without long-name slots, produces the specified bytes. |
| FatDirectory.UnitsRoundTrip | crates/fs-fat/src/dir.rs:69-77 | Units written little-endian read back as themselves. |
| FatDirectory.DirectoryRoundTrip | crates/fs-fat/src/dir.rs:82-180 | Parsing the encodings of any entries returns names, clusters, sizes and kinds in order; deletion costs only name certainty, and a name stored short only is shown in capitals and loses its first character. |
| FatShortNames.MakeShortName | crates/fixture-builder/src/fat.rs:417-437 | The copying loops give the two space-filled fields of the name. |
| FatShortNames.EightDotThreeIff | crates/fixture-builder/src/fat.rs:417-437 | The names so treated are exactly one to eight printable characters, alone or with a dot and up to three letters or digits. |
| FatShortNames.ShortNameShown | crates/fs-fat/src/dir.rs:40-66 | The short name made from an 8.3 name is shown as that name in capitals, deleted with an underscore for its first character. |

## Left out

- Resident streams: their extents point at raw record bytes and an empty one is rejected by the planner, so no meaning
  theorem covers them.
- Attribute parsing, `$Bitmap` loading, retention budgets and the zero-batch shortcut of the MFT scan: `MftStream` and
  `MftRecord` stop at single records.
- MftRecord.ProtectRecord: only the last loop of the builder, not the layout of attributes before it.
- Namespace.ExpandParentPaths: the branch for "no path after the names" is not modelled, because expansions are never
  empty.
- NamespaceIndex.BuildNamespace: the display sort of the paths and the warning text are not modelled; the theorems
  hold for every order.
- `resolve_active_directory` and component matching: display lookups, no part of the scope answer.
- Carving.NormalizeBadRanges: ranges come back merged; the carver's list of reported read issues and its length bound
  are not kept, only that reading failed.
- CarveScan.ScanRegion: on a partial report the count of scanned bytes is only bounded by the region, not tied to the
  readable positions.
- Carve progress, allocation failure branches, time stamps, display names and warning texts of candidates.
- EvidenceMerge.AssignId: the second duplicate-id check, which cannot fail, and the warning on shared ranges are not
  modelled.
- BrokerMessages.DecodePayload: the different payload errors (underflow, trailing bytes, text encoding, bounds) are
  one error.
- BrokerClient.ProtocolReadSession.Exchange: the server runs whenever the client waits; server-side transport failures
  and partial writes are not modelled, client-side read failures are.
- `BrokerSourceReader::open`, the session lock, revalidation cadence and elevation: the reader starts from an opened
  source.
- Journal.AuditJournal: the JSON encoding is abstract: a line is a whole canonical record or torn, and its length is
  an arbitrary function; a line that has the file refused at once (no line end, not UTF-8) is only marked as such.
- FatDirectory.ParseDirectory: time stamps and lossy text conversion of short-name bytes above 0x7F are not modelled.
- FatDirectory.EncodeEntry: the numbered short name beside a long one is a parameter, and an entry without long-name
  slots must have an 8.3 name, as the builder's comment requires.
- FatChain.BuildFileExtents: warnings on short chains are not modelled; directory walking is left out.
- Extraction.StreamRefinesExtract: for conflicting, unknown or already failed extents extractor and planner differ by
  design, so they are excluded.
- The float score and its caps, labels, GPT and MBR parsing, path-name rules, transactions and publication, the
  desktop application.
