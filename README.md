# facetrace decision logic in Dafny

facetrace is a face-recognition attendance system. This project models the
decision logic of its web application and proves properties about it:

- **Perceptual hash.** `calculatePHash` after the DCT, `hammingDistance` and
  `areImagesSimilar` (`web-app/src/utils/phash-utils.ts`). The copies in
  `web-app/scripts/test-phash.ts` are the same code, so the same members model
  them. The verdict of that test script is modelled separately (module
  `PHashTest`).
  - The DCT coefficient matrix is an input, and so is the MD5 digest used by
    the fallback.
  - The 63 low-frequency coefficients are cut at the median, and the bits are
    packed into 16 lower-case hex digits.
- **Identification.** `POST /api/identify` (`web-app/src/app/api/identify/route.ts`)
  classifies each detected face in four steps:
  1. a known employee (dot product above 0.5, with an attendance log);
  2. else an unassigned face of the request's pool (above 0.6);
  3. else a recent unassigned face with a similar perceptual hash (last 30 seconds);
  4. else a new unassigned face, with its image saved.
- **Cleanup.** `cleanupUnknownFaces` (`web-app/scripts/cleanup-unknown-faces.ts`):
  - deletes unassigned faces whose image is missing;
  - marks later near-duplicates in creation order (dot product above 0.7 within
    5 minutes);
  - deletes the marked faces and their image files.
- **Mapping.** `GET`, `POST` and `DELETE` of `web-app/src/app/api/mapping/route.ts`:
  - list the 50 newest unassigned faces;
  - move unassigned faces to an employee, optionally creating the employee
    with a generated email;
  - delete unassigned faces.

The database is the class `Database.Store`. It has one field per table, and
each write method states the new tables as a function of the old ones
(`Database.InsertUnassigned`, `Database.DeleteUnassigned`, …). The directory of
saved images is the class `Database.Disk`. Record ids are natural numbers from
a counter, and times are integers in milliseconds. Arithmetic on similarities
is exact (`real`). A dot product whose second vector is shorter than the first
is NaN in JavaScript. Here it is `None`, and every comparison with it is false.

Each imperative operation is a method proved against a specification function:
- `PHash.CalculatePHash` against `PHash.PHashOf`;
- `Identify.Identify` against `Identify.IdentifyAll`;
- `Cleanup.MarkDuplicates` against `Cleanup.Marked`;
- `Mapping.PostMapping` against `Mapping.Post`.

The properties are proved as lemmas about those functions.

Modules: `Wrappers`, `Sorting` (a stable insertion sort by a key),
`Text` (decimal rendering, last URL segment, image file names), `Similarity`,
`PHash`, `PHashTest`, `Database`, `Identify`, `Cleanup`, `Mapping`.

## Model

| member | source | states |
|---|---|---|
| PHash.NibbleValue | web-app/src/utils/phash-utils.ts:100 | `parseInt(c, 16)` gives a value below 16, and a non-hex character counts as 0 (NaN converted by `^`) |
| PHash.HexChar | web-app/src/utils/phash-utils.ts:53 | `v.toString(16)` is one lower-case hex digit whose value is `v` |
| PHash.Base2 | web-app/src/utils/phash-utils.ts:102 | `xor.toString(2)` is a non-empty string of binary digits |
| PHash.Base2Ones | web-app/src/utils/phash-utils.ts:102 | the number of '1's in `x.toString(2)` is the number of set bits of `x` |
| PHash.XorProperties | web-app/src/utils/phash-utils.ts:100 | `^` is symmetric, is zero exactly for equal operands, and keeps k-bit operands within k bits |
| PHash.NibbleDistance | web-app/src/utils/phash-utils.ts:100-102 | the per-position distance is the popcount of the XOR of the nibbles, at most 4, and zero exactly when the nibbles are equal |
| PHash.HammingDistance | web-app/src/utils/phash-utils.ts:93-106 | the loop computes the Hamming distance; the result is `Infinity` exactly when the lengths differ (the copy at web-app/scripts/test-phash.ts:84-97 is the same code) |
| PHash.DistanceSumBounds | web-app/src/utils/phash-utils.ts:98-105 | the summed distance over n positions is at most 4·n, symmetric, and zero exactly when every nibble agrees |
| PHash.HammingBounds | web-app/src/utils/phash-utils.ts:93-106 | for equal lengths the distance is finite, at most 4·length, symmetric, and zero exactly when all nibbles agree |
| PHash.HammingSelf | web-app/scripts/test-phash.ts:89-96 | every hash is at distance 0 from itself |
| PHash.HammingRecordedPair | web-app/scripts/check-distance.ts:3-6 | the two recorded hashes `07f240f1cccfc585` and `6fc240f148ce5d95` are 12 bits apart |
| PHash.SimilarityProperties | web-app/src/utils/phash-utils.ts:114-121 | `areImagesSimilar` holds exactly when the lengths agree and the distance is at most the threshold; it is symmetric and monotone in the threshold, never holds for different lengths, and holds for a hash and itself |
| PHash.RecordedPairDistance | web-app/scripts/check-distance.ts:3-6 | any two hashes whose digits have the values of the recorded pair are 12 bits apart |
| PHash.RecordedPairNotSimilar | web-app/src/utils/phash-utils.ts:114-121 | the recorded pair is not similar at the default threshold 10 |
| PHash.LowFrequency | web-app/src/utils/phash-utils.ts:30-37 | exactly 63 coefficients are selected |
| PHash.LowFrequencyCell | web-app/src/utils/phash-utils.ts:30-37 | coefficient (i, j) of the top-left 8×8 block, other than (0, 0), is at position 8·i + j − 1 (row-major order) |
| PHash.SelectCoefficients | web-app/src/utils/phash-utils.ts:30-37 | the nested loop with `continue` builds exactly the low-frequency coefficients |
| PHash.CountAbovePermutation | web-app/src/utils/phash-utils.ts:40 | sorting does not change how many values lie above a bound |
| PHash.CountAboveAtMost | web-app/src/utils/phash-utils.ts:43-47 | at most all values lie above a bound |
| PHash.MedianBound | web-app/src/utils/phash-utils.ts:39-41 | fewer than half of the values lie above `sorted[floor(n/2)]` |
| PHash.BitString | web-app/src/utils/phash-utils.ts:43-47 | the bit string has one binary digit per coefficient |
| PHash.Binarize | web-app/src/utils/phash-utils.ts:43-47 | bit k is '1' exactly when coefficient k is above the median |
| PHash.OnesCountAbove | web-app/src/utils/phash-utils.ts:43-47 | the number of '1' bits is the number of coefficients above the median |
| PHash.BinaryValue | web-app/src/utils/phash-utils.ts:52-53 | `parseInt(chunk, 2)` of a w-bit chunk is below 2^w |
| PHash.ChunkWidth | web-app/src/utils/phash-utils.ts:51-52 | `substr(i, 4)` takes between 1 and 4 bits while any are left |
| PHash.PackHex | web-app/src/utils/phash-utils.ts:49-54 | the loop appends one hex digit per 4-bit chunk |
| PHash.BinaryDigitsValue | web-app/src/utils/phash-utils.ts:52-53 | writing a chunk's value back in its width gives the chunk |
| PHash.PackRoundTrip | web-app/src/utils/phash-utils.ts:49-54 | packing gives ⌈n/4⌉ lower-case hex digits, and unpacking them recovers the bit string |
| PHash.PackLastDigit | web-app/src/utils/phash-utils.ts:49-54 | when the last chunk has 3 bits, the last hex digit is at most 7 |
| PHash.DctHashShape | web-app/src/utils/phash-utils.ts:30-56 | a DCT hash has 16 lower-case hex digits with the last at most 7; it unpacks to the 63-bit string of coefficients above the median, which has at most 31 ones |
| PHash.FallbackComparable | web-app/src/utils/phash-utils.ts:57-61 | the MD5 fallback has the length of a DCT hash, so the two compare at a finite distance of at most 64 |
| PHash.CalculatePHash | web-app/src/utils/phash-utils.ts:8-62 | returns the DCT hash, or on failure the first 16 characters of the MD5 digest; either way 16 characters (the copy at web-app/scripts/test-phash.ts:6-59 is the same code) |
| PHashTest.Verdict | web-app/scripts/test-phash.ts:164-178 | the script reports SUCCESS exactly when the base image is similar to its noisy copy and not to the other image |
| PHashTest.TestPassesProperties | web-app/scripts/test-phash.ts:164-178 | a pass needs the other image's hash to differ from both; comparing the base with itself fails; for equal lengths, a pass means distance ≤ 10 and distance > 10 |
| PHashTest.HashLength | web-app/scripts/test-phash.ts:6-59 | every hash the script computes has 16 characters |
| PHashTest.ComputedHashesComparable | web-app/scripts/test-phash.ts:156-173 | the script's three hashes always compare finitely, so the verdict depends only on the two bit distances |
| Similarity.DotProduct | web-app/src/app/api/identify/route.ts:169-171 | the sum runs over the indices of `a`; it is NaN exactly when `b` is shorter; for an empty `a` it is 0 |
| Similarity.DotProductProperties | web-app/src/app/api/identify/route.ts:169-171 | the dot product is symmetric for equal lengths, ignores `b`'s extra components, and is non-negative for a vector with itself |
| Similarity.Scan | web-app/src/app/api/identify/route.ts:39-49 | a scan that chooses a candidate chooses one of the scanned ones, with a score above −1 that is its similarity; with no choice the score stays −1 |
| Similarity.ScanFirstMaximum | web-app/src/app/api/identify/route.ts:43-49 | no candidate exceeds the final score, and every candidate before the chosen one is strictly below it |
| Similarity.ScanChoosesFirstMaximiser | web-app/src/app/api/identify/route.ts:39-49 | the chosen candidate is the first one of maximal similarity |
| Similarity.ScanThreshold | web-app/src/app/api/identify/route.ts:53 | for a threshold ≥ −1, `bestMatch && maxSim > t` holds exactly when some candidate's similarity exceeds t |
| Similarity.ScanBest | web-app/src/app/api/identify/route.ts:39-49 | the loop over candidates computes the scan |
| Text.Decimal | web-app/src/utils/image-storage.ts:12 | `String(n)` is a non-empty string of digits without a leading zero |
| Text.DecimalRoundTrip | web-app/src/utils/image-storage.ts:12 | parsing a decimal rendering gives the number back |
| Text.DecimalInjective | web-app/src/app/api/mapping/route.ts:38 | distinct numbers have distinct renderings |
| Text.LastSegment | web-app/scripts/cleanup-unknown-faces.ts:26 | `split('/').pop()` is the suffix after the last '/', and contains no '/' |
| Text.LastSegmentAfterSlash | web-app/scripts/cleanup-unknown-faces.ts:26 | the last segment of a directory ending in '/' plus a name without '/' is the name |
| Text.FaceFileName | web-app/src/utils/image-storage.ts:12 | `${faceId}.jpg` holds no '/' and is longer than the extension |
| Text.FaceImageUrlRoundTrip | web-app/src/utils/image-storage.ts:12-18 | the last segment of a saved image's URL is its non-empty file name, and distinct ids give distinct file names |
| Database.FindById | web-app/src/app/api/mapping/route.ts:52 | `findUnique` finds a record with that id exactly when the id exists |
| Database.FindEmployee | web-app/src/app/api/identify/route.ts:57-58 | the employee joined to a face embedding is found exactly when its id exists |
| Database.RemoveIds | web-app/src/app/api/mapping/route.ts:89-93 | `deleteMany` keeps exactly the records whose id is not listed |
| Database.RemoveIdsConcat | web-app/scripts/cleanup-unknown-faces.ts:32 | deleting by id acts on each part of a table separately |
| Database.RemoveIdsAbsent | web-app/scripts/cleanup-unknown-faces.ts:32 | deleting ids that do not occur changes nothing |
| Database.RemoveIdsTwice | web-app/scripts/cleanup-unknown-faces.ts:82-95 | two deletions by id are one deletion of both sets |
| Database.RemoveIdsUnique | web-app/src/app/api/mapping/route.ts:89-93 | deletion keeps ids unique and removes exactly the listed ids |
| Database.RemoveIdsCount | web-app/src/app/api/mapping/route.ts:89-93 | deletion removes one record per listed id that exists |
| Database.UniqueIdsPermutation | web-app/scripts/cleanup-unknown-faces.ts:45-47 | reordering a table keeps its ids unique |
| Database.SetImageUrl | web-app/src/app/api/identify/route.ts:137-140 | `update` sets the image URL of the record with that id only |
| Database.WritesPreserveWellFormed | web-app/src/app/api/identify/route.ts:63-69 | every write keeps ids unique, emails unique and face embeddings tied to existing employees, given the database's own checks |
| Database.Store.CreateUnassignedFace | web-app/src/app/api/identify/route.ts:124-130 | appends a face with a fresh id, no image URL and the pHash |
| Database.Store.UpdateUnassignedImageUrl | web-app/src/app/api/identify/route.ts:137-140 | sets the image URL of one face |
| Database.Store.DeleteUnassignedFaces | web-app/src/app/api/mapping/route.ts:89-93 | removes the faces with the listed ids |
| Database.Store.CreateEmployee | web-app/src/app/api/mapping/route.ts:31-41 | appends an employee with a fresh id and returns that id |
| Database.Store.CreateFaceEmbedding | web-app/src/app/api/mapping/route.ts:56-62 | appends a face embedding |
| Database.Store.CreateAttendanceLog | web-app/src/app/api/identify/route.ts:63-69 | appends an attendance log |
| Database.Disk.Write | web-app/src/utils/image-storage.ts:15 | the written file exists afterwards |
| Database.Disk.Unlink | web-app/scripts/cleanup-unknown-faces.ts:88-90 | an existing file is removed |
| Identify.KnownVectors | web-app/src/app/api/identify/route.ts:43-44 | the scan compares against each known embedding, in order |
| Identify.PoolVectors | web-app/src/app/api/identify/route.ts:76-77 | the scan compares against each face of the pool, in order |
| Identify.RecentFaces | web-app/src/app/api/identify/route.ts:96-105 | the recent faces are those created at or after now − 30 s that have a pHash |
| Identify.FirstSimilar | web-app/src/app/api/identify/route.ts:107-120 | finds the first recent face whose pHash is similar, and none when no face is |
| Identify.ClassifyKnown | web-app/src/app/api/identify/route.ts:39-69 | a face is KNOWN exactly when some known embedding exceeds 0.5; its employee is the first maximiser's; exactly one log with that employee and score is appended; nothing is logged for an unknown face |
| Identify.ClassifyKnownName | web-app/src/app/api/identify/route.ts:55-60 | a KNOWN result carries the name of an existing employee with that id |
| Identify.ClassifyPooled | web-app/src/app/api/identify/route.ts:73-90 | not known and some pool face above 0.6: UNKNOWN with the first maximiser's id and `maxUnknownSim`, and nothing changes |
| Identify.ClassifyReused | web-app/src/app/api/identify/route.ts:92-120 | otherwise, when a recent face's pHash is similar, the first one is reused with the known-gallery `maxSim` as score, and nothing changes |
| Identify.ClassifyCreated | web-app/src/app/api/identify/route.ts:122-151 | otherwise exactly one face is created with the embedding and pHash; its URL is set only when the image was saved (which writes the file the URL names); the pool grows by that face; the score is `maxSim` |
| Identify.IdentifyAllResults | web-app/src/app/api/identify/route.ts:38-158 | one result per detected face, in order, with its bbox |
| Identify.ClassifyLogs | web-app/src/app/api/identify/route.ts:63-69 | a face appends a log exactly when it is KNOWN |
| Identify.IdentifyAllLogs | web-app/src/app/api/identify/route.ts:38-158 | the request appends exactly the logs of its KNOWN results, in order |
| Identify.ClassifyWellFormed | web-app/src/app/api/identify/route.ts:53-151 | classifying a face keeps the tables well formed |
| Identify.IdentifyAllWellFormed | web-app/src/app/api/identify/route.ts:38-158 | a request keeps the tables well formed |
| Identify.ClassifyTwin | web-app/src/app/api/identify/route.ts:93-130 | a face creates at most one record, none when a recent record has the frame's hash, and a created record is such a record afterwards |
| Identify.IdentifyAllCreatesAtMostOne | web-app/src/app/api/identify/route.ts:93-130 | one frame creates at most one unassigned face |
| Identify.FindRecentDuplicate | web-app/src/app/api/identify/route.ts:107-120 | the loop with `break` stops at the first similar recent face |
| Identify.IdentifyFace | web-app/src/app/api/identify/route.ts:39-158 | the store, the files and the pool change as the classification of the face says |
| Identify.Identify | web-app/src/app/api/identify/route.ts:28-161 | the loop over faces produces the results and final tables of the specification |
| Cleanup.KeptFaces | web-app/scripts/cleanup-unknown-faces.ts:24-42 | phase 1 keeps exactly the faces with a URL whose last segment is empty or names an existing file |
| Cleanup.KeepsSavedImages | web-app/scripts/cleanup-unknown-faces.ts:25-41 | a face with a saved image survives exactly when its `<id>.jpg` exists; a face without a URL never does |
| Cleanup.KeptFacesUnique | web-app/scripts/cleanup-unknown-faces.ts:24-42 | the faces phase 1 keeps have unique ids |
| Cleanup.PurgeWellFormed | web-app/scripts/cleanup-unknown-faces.ts:24-42 | the tables after phase 1 are well formed |
| Cleanup.PurgeMissingImages | web-app/scripts/cleanup-unknown-faces.ts:20-42 | the loop deletes exactly the faces phase 1 does not keep and counts them |
| Cleanup.WithinMilliseconds | web-app/scripts/cleanup-unknown-faces.ts:65-66 | `timeDiffMinutes > 5` is a difference above 300000 ms |
| Cleanup.BeyondWindow | web-app/scripts/cleanup-unknown-faces.ts:64-68 | in creation order, after the first face past the window no face is a duplicate, so the `break` skips none |
| Cleanup.MarkedCharacterisation | web-app/scripts/cleanup-unknown-faces.ts:52-78 | no two survivors are near-duplicates; each marked face duplicates an earlier survivor; the earliest face is never marked |
| Cleanup.MarkDuplicates | web-app/scripts/cleanup-unknown-faces.ts:49-79 | the nested loops with `continue` and `break` mark exactly the faces the declarative definition marks |
| Cleanup.MarkedIdsExactly | web-app/scripts/cleanup-unknown-faces.ts:49 | a set of ids that marks the same faces is the set of marked ids |
| Cleanup.RemoveImage | web-app/scripts/cleanup-unknown-faces.ts:83-92 | a marked face's image file is removed only if it exists, and only when the face has a URL with a non-empty last segment |
| Cleanup.DeleteMarkedFace | web-app/scripts/cleanup-unknown-faces.ts:83-94 | one turn of the deletion loop removes the face's image file, when it has one, and its record |
| Cleanup.DeleteMarked | web-app/scripts/cleanup-unknown-faces.ts:81-95 | deletes exactly the marked ids, once each, removes their image files, and counts one per id |
| Cleanup.MarkedIdsWithin | web-app/scripts/cleanup-unknown-faces.ts:45-49 | every marked id belongs to a face that phase 1 left |
| Cleanup.TotalRemainingCounts | web-app/scripts/cleanup-unknown-faces.ts:100 | the corrected total is the number of faces left after both phases |
| Cleanup.SummaryCountsMissingTwice | web-app/scripts/cleanup-unknown-faces.ts:100 | the summary as written reports 0 remaining when one face remains |
| Cleanup.CleanupUnknownFaces | web-app/scripts/cleanup-unknown-faces.ts:16-107 | the tables lose exactly the phase-1 faces and then the marked faces; the marked faces' image files go; the counts and the (corrected) total are exact; the tables stay well formed |
| Mapping.ToLower | web-app/src/app/api/mapping/route.ts:38 | lower-casing leaves no upper-case ASCII letter and keeps other characters |
| Mapping.Slug | web-app/src/app/api/mapping/route.ts:38 | the slug has the length of the name |
| Mapping.SlugProperties | web-app/src/app/api/mapping/route.ts:38 | '.' exactly where the name has whitespace or '.', no whitespace or upper case left, other characters lower-cased |
| Mapping.EmailForProperties | web-app/src/app/api/mapping/route.ts:38 | the email starts with the slug and ends with `@example.com`; one name at two times gives two emails |
| Mapping.AssignedFaces | web-app/src/app/api/mapping/route.ts:56-62 | each moved face gives one face embedding for the target with its embedding and image URL |
| Mapping.MoveFacesOthers | web-app/src/app/api/mapping/route.ts:51-66 | moving faces leaves employees, logs and the id counter alone |
| Mapping.MoveFacesUnassigned | web-app/src/app/api/mapping/route.ts:51-66 | moving removes exactly the listed ids from the unassigned faces |
| Mapping.MoveFacesEmbeddings | web-app/src/app/api/mapping/route.ts:51-66 | moving appends one embedding per selected face, in order |
| Mapping.MoveFacesEffect | web-app/src/app/api/mapping/route.ts:51-66 | the loop's whole effect on the tables |
| Mapping.SelectedFaces | web-app/src/app/api/mapping/route.ts:52-53 | the moved faces are exactly the listed faces that exist, one per distinct listed id |
| Mapping.NotFoundKeeps | web-app/src/app/api/mapping/route.ts:53 | when no listed id exists nothing changes |
| Mapping.MoveFacesKeeps | web-app/src/app/api/mapping/route.ts:51-66 | moving never adds unassigned ids |
| Mapping.PostMapping | web-app/src/app/api/mapping/route.ts:18-74 | the handler's tables and response are those of the specification |
| Mapping.MoveListed | web-app/src/app/api/mapping/route.ts:51-68 | the loop moves the listed faces, or fails with 500 at the first existing face when the target is not an employee |
| Mapping.PostProperties | web-app/src/app/api/mapping/route.ts:18-74 | 400 with no change without faces or without a target; a new name overrides `employeeId` and its employee is appended; on success exactly the listed faces move to the target; the tables stay well formed |
| Mapping.EmbeddingsForEmployee | web-app/src/app/api/mapping/route.ts:56-62 | embeddings for an existing employee keep the foreign key |
| Mapping.MoveFacesWellFormed | web-app/src/app/api/mapping/route.ts:51-66 | moving to an existing employee keeps the tables well formed |
| Mapping.DeleteMapping | web-app/src/app/api/mapping/route.ts:76-101 | the handler's tables and response are those of the specification |
| Mapping.DeleteProperties | web-app/src/app/api/mapping/route.ts:76-101 | success exactly when faces are listed; exactly the listed ids that exist go; every other table is unchanged and well formed |
| Mapping.Take | web-app/src/app/api/mapping/route.ts:10 | `take: n` returns n records, or all when there are fewer |
| Mapping.GetMapping | web-app/src/app/api/mapping/route.ts:6-16 | returns the page of newest faces |
| Mapping.NewestOrder | web-app/src/app/api/mapping/route.ts:8-11 | at most 50 faces, all of them unassigned, newest first |
| Mapping.NewestTop | web-app/src/app/api/mapping/route.ts:8-11 | no face left off the page is newer than one on it |
| Sorting.SortBy | web-app/src/utils/phash-utils.ts:40 | the result is sorted by the key and is a permutation of the input |

## Left out

- The DCT, image decoding, resizing and grey-scaling (Jimp, `Math.cos`, `Math.sqrt`) are not modelled. The coefficient matrix is an input, and a failure of that stage is `None`.
- MD5 is not modelled: the 32-character hex digest is an input of `PHash.CalculatePHash`.
- Floating point is not modelled: dot products, thresholds and coefficients are exact reals, and the sort compares exact values.
- `toLowerCase` is modelled on ASCII letters only. Other characters are kept as they are, while JavaScript applies full Unicode case mapping.
- I/O is left out: Prisma, `fs`, `path.join`, Next.js request parsing and JSON responses, and the AI engine with its client.
  - The store and the file set are abstract state.
  - Whether `saveFaceImage` succeeds is the oracle `saves`.
  - `Date.now()` is the parameter `now`, read once per request.
  - A request body that is not JSON, or `faceIds` elements that are not ids, give errors that are not modelled.
- Path resolution is simplified: a last URL segment of "." or ".." (which `path.join` resolves to a directory) is treated as an ordinary file name.
- Ties in `createdAt` are ordered by the stable sort, while the database leaves their order unspecified. This affects which of two equally old near-duplicates `Cleanup.MarkDuplicates` keeps and which faces `Mapping.GetMapping` returns.
- Record ids are natural numbers from a counter, not database-generated strings. `employeeId` and `newEmployeeName` are `None` when missing or empty. A falsy numeric id is not modelled.
- Database refusals are limited to two: a taken email and a face embedding for a missing employee. Both give 500 and leave the earlier writes in place.
- `Identify.Identify` computes the perceptual hash of the uploaded frame once per request. The route computes it again for every face that reaches that step, with the same result.
- The random images and the statistical outcome of `web-app/scripts/test-phash.ts` (lines 110-184) are not modelled. The three hashes are inputs of `PHashTest.Verdict`.
- Concurrent requests and races between the routes and the cleanup script are not modelled.
- `MIN_DETECTION_SCORE` (`web-app/scripts/cleanup-unknown-faces.ts:10`) is not used by the script and is not modelled.
- The doc comment of `calculatePHash` says the hash has 64 characters. The code returns 16, and the model follows the code.

## Findings

| source | as written | input that shows it | evidently intended | confidence | as-written member | corrected member |
|---|---|---|---|---|---|---|
| web-app/scripts/cleanup-unknown-faces.ts:100 | `remainingFaces.length - toDelete.size - deletedMissing` subtracts the phase-1 deletions from a list read after them | one face without an image URL and one face whose saved image is on disk: it reports 0, while one face remains | `remainingFaces.length - toDelete.size`, the number of faces left | not executed | Cleanup.SummaryCountsMissingTwice | Cleanup.TotalRemainingCounts |
