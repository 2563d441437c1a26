# Smart Attendance backend — a Dafny model of its bookkeeping

The Smart Attendance backend (`backend.py`) enrols students from five face
images, recognises a face against the stored face embeddings, and keeps an
attendance ledger. This project models what the handlers do to the data once
the image processing and the file I/O are taken away:

- **Student catalog**: two keyed stores, `students.json` (roll → student
  record) and `embeddings.json` (roll → name and embeddings). A Python dict
  is modelled as `Dicts.Dict`, which holds the entries and the order in
  which the keys were inserted. Recognition iterates in that order, and its
  tie-break depends on it.
- **Roll allocation** (`get_next_roll`) and the **roll sanitiser**
  (`sanitize_roll`). The sanitiser is defined in `backend.py` but no handler
  calls it.
- **Best-match selection and threshold decision** of `/recognize`. An
  embedding is an opaque value. The cosine distance is a function parameter
  `dist` that returns a `real`. The face-detection result for the query
  image is an `Option`.
- **Attendance ledger**: automatic and manual marks, delete by id, delete
  all, and the newest-first listing.
- **Validation guards** of each endpoint, as `Records.Error` tags.

The three stores are the fields of the class `Backend.DataDir`. Each handler
is a method or function of that class. The handlers read a store, change it
in memory and write it back, so reading a store gives the value last written
to it. The loops of the source are methods with loop invariants:
`DataDir.NextRoll`, `CollectEmbeddings` (the per-image loop of enrolment) and
`ScanBestMatch` (the nested scan of recognition). Each of them is proved
equal to a specification function (`NextRollOf`, `Extracted`/`FirstMissing`,
`BestOf`), and the lemmas state what those functions guarantee. The
comprehensions and `sorted(...)` calls of the source are functions
(`Seqs.Filter`, `Listing.Sort`).

Clock readings and the random six-character id suffix are parameters. The
`ADMIN_KEY` and `THRESHOLD` environment settings are optional constructor
arguments. When one is unset the constructor falls back to the source's
default: `"changeme"` (`Backend.DefaultAdminKey`) or 0.60
(`Recognition.DefaultThreshold`).

Rolls can be reused. `get_next_roll` looks only at the students currently on
file. Two lemmas show the consequences:
- `Rolls.DeletedRollIsReissued`: when the student enrolled last is deleted
  with no other enrolment or deletion in between, that student's roll is the
  next one issued.
- `Rolls.DeletingTopRoll`: after the holder of the highest all-digit roll is
  deleted, the next roll is never above the deleted one. It equals the
  deleted roll in value when the highest remaining roll is one below it.

## Model

| member | source | states |
|---|---|---|
| Text.Format03 | backend.py:355-356 | `f"{n:03d}"` is all digits and reads back as `n`; it is exactly three characters, or longer with no leading zero. Together these fix the string, so 2 gives "002" |
| Text.DecimalValue | backend.py:356 | the decimal numeral of `n` reads back as `n` |
| Text.ZerosIgnored | backend.py:349-350 | leading zeros do not change the value `int()` gives a digit string |
| Text.Strip | backend.py:400-401 | `strip()` result has no whitespace at either end. It is empty exactly when the input is blank, and is the input itself when the input has no whitespace |
| Text.StripIsMiddle | backend.py:400-401 | what `strip()` keeps is a contiguous slice of the input; everything cut off before and after it is whitespace |
| Rolls.SanitizeRoll | backend.py:161-163 | every character of the sanitised roll is alphanumeric, `-` or `_` |
| Rolls.SanitizeIsFilter | backend.py:161-163 | the final `strip()` of `sanitize_roll` never changes anything: the result is exactly the character filter |
| Rolls.SanitizeKeepsRollChars | backend.py:161-163 | the sanitised roll is an order-preserving subsequence of the input that keeps every occurrence of every allowed character and no other character |
| Rolls.SanitizeIdempotent | backend.py:161-163 | sanitising twice gives the same result as sanitising once |
| Rolls.MaxOf | backend.py:355 | `max` returns an element of the list that is at least every element |
| Rolls.NumericRollsMembers | backend.py:346-350 | a value is collected exactly when some student's roll is all digits with that value |
| Rolls.NextRollAboveAll | backend.py:340-356 | the next roll is all digits, at least 3 long, and greater in value than every all-digit roll on file; its value is one more than such a roll's value, or 1 when there is none; with no all-digit roll it is "001" |
| Rolls.NextRollIsFresh | backend.py:340-356 | when every student is filed under its own roll, the next roll is not yet a key, so enrolment never overwrites a student |
| Rolls.DeletedRollIsReissued | backend.py:340-356 | after the student holding the next roll is added and then deleted, the same roll is allocated again |
| Rolls.DeletingTopRoll | backend.py:340-356 | with the highest all-digit roll on file held by one student, the next roll is one above it. After that student is deleted, the next roll is at most the deleted roll in value, and equal to it when some remaining roll is one below it |
| Seqs.FilterCounts | backend.py:587 | a filtering comprehension keeps every occurrence of each element that passes and drops the others |
| Seqs.FilterIsSubsequence | backend.py:587 | a filtering comprehension keeps the original order |
| Seqs.FilterDropsNothing | backend.py:586-590 | the filtered list has the original length exactly when nothing fails the condition, and is then the original list |
| Dicts.PutThenRemove | backend.py:438-445 | inserting a new key into a dict and deleting it again gives back the original dict, key order included |
| Dicts.RemoveAbsent | backend.py:677-680 | deleting a key that is absent changes nothing |
| Records.ParseStatus | backend.py:543-544 | a status is accepted exactly when it is "present", "absent" or "excused", and the accepted status has that name |
| Records.StatusRoundTrip | backend.py:543-544 | each status is accepted under its own name |
| Recognition.CandidatesOf | backend.py:477-485 | recognition has candidates unless both `embeddings.json` and `students.json` are empty. They are the `embeddings.json` entries in key order, or, when that store is empty, the `students.json` entries in key order, each with its key, name and embeddings |
| Recognition.FirstMinimum | backend.py:487-496 | the scan settles on the first position holding the smallest distance: it is at most every distance and strictly below every earlier one; there is none only when there is no distance |
| Recognition.BestOfStep | backend.py:494-496 | one scan step replaces the best match exactly when the new distance is strictly smaller (or there is no best yet) |
| Recognition.RecognitionOutcomes | backend.py:466-508 | the answer is `no_face` exactly when the image gives no embedding, "No students enrolled" exactly when both stores are empty, and recognized exactly when some stored embedding of some candidate is closer than the threshold |
| Recognition.DecisionWithin | backend.py:487-508 | over a fixed list of candidates, the scan and the threshold decision recognize a face exactly when some stored embedding is closer than the threshold |
| Recognition.RecognizedIsNearest | backend.py:487-508 | a recognized distance is below the threshold, is at most the distance to every stored embedding of every candidate, and belongs to one of the recognized candidate's embeddings |
| Recognition.TieGoesToFirstVisited | backend.py:490-496 | every embedding visited before the chosen one is strictly farther, so among equal distances the first in iteration order wins |
| Recognition.RecognizedRollIsEnrolled | backend.py:477-496 | the recognized roll is a key of `students.json` whenever the keys of `embeddings.json` are among them |
| Recognition.StoredEmbeddingIsRecognized | backend.py:487-508 | a query equal to a stored embedding is recognized at distance 0, when the distance is never negative, is 0 from a vector to itself, and the threshold is positive |
| Listing.Sort | backend.py:576 | `sorted` returns a permutation of its input ordered by key, ascending or descending |
| Listing.SortIsStable | backend.py:576 | for every key, the elements with that key keep their input order, also with `reverse=True` |
| Ledger.WithoutIdRemovesExactly | backend.py:586-590 | delete-by-id drops every record with the id and no other record and keeps the order; the ledger keeps its length exactly when no record has the id |
| Ledger.NewestFirst | backend.py:576 | the listing is a permutation of the ledger with non-increasing timestamps |
| Ledger.NewestFirstIsStable | backend.py:576 | records with the same timestamp are listed in the order they were appended |
| Backend.FirstMissing | backend.py:408-418 | finds the first image with no face: every image before it has one, and when there is none every image has a face |
| Backend.TrackedStep | backend.py:494-496 | one step of the scan keeps `best_match` and `best_distance` equal to the best match of the embeddings visited so far, whether or not it replaces them |
| Backend.CollectEmbeddings | backend.py:408-434 | the per-image loop fails on the first image without a face, numbering images from 1; otherwise it returns one embedding per image, in order, and the path for each saved image |
| Backend.ScanCandidate | backend.py:491-496 | the inner loop over one candidate's stored embeddings leaves the best match of everything visited before followed by that candidate's embeddings, in order |
| Backend.ScanBestMatch | backend.py:487-496 | the nested scan ends with the best match of all stored embeddings in iteration order; no match exactly when no distance was below infinity |
| Backend.PutKeepsConsistent | backend.py:437-454 | filing a new student under its own roll with five embeddings in both stores keeps the stores consistent |
| Backend.RemoveKeepsConsistent | backend.py:672-680 | removing a roll from both stores keeps them consistent |
| Backend.UnsetAdminKeyChecksNothing | backend.py:640-642 | with the admin key left at its `"changeme"` default, or set empty, no admin key header is checked |
| Backend.DataDir.constructor | backend.py:40-41 | starts on empty, consistent stores, with the admin key and threshold as configured, or `"changeme"` and 0.60 when unset |
| Backend.DataDir.NextRoll | backend.py:340-356 | `get_next_roll` computes the allocation rule `NextRollOf` on the students on file |
| Backend.DataDir.Enroll | backend.py:392-462 | rejects a count other than 5 images, then a blank name, then the first image without a face, and changes neither store when it rejects; on success files the stripped name and the 5 embeddings under the next roll in both stores, appends that roll to both key orders, leaves every other entry and the ledger alone, and keeps the stores consistent |
| Backend.DataDir.File | backend.py:437-454 | files the student under the allocated roll in `students.json` and its projection in `embeddings.json`; the roll was not yet a key, it is appended to the key order, nothing else changes, and the stores stay consistent |
| Backend.DataDir.RecognizeFace | backend.py:465-508 | `/recognize` answers `RecognitionOf` for the stores on file, the threshold and the distance |
| Backend.DataDir.MarkAttendance | backend.py:512-537 | an unknown roll is rejected with the ledger unchanged; otherwise exactly one automatic "present" record with the student's name is appended |
| Backend.DataDir.ManualAttendance | backend.py:540-569 | a status outside the three allowed ones is rejected first, then an unknown roll, with the ledger unchanged; otherwise exactly one manual record with the given status is appended, stamped with the given timestamp or, when none or an empty one is given, the clock |
| Backend.DataDir.GetAttendance | backend.py:572-576 | every record, newest first; records with equal timestamps stay in ledger order |
| Backend.DataDir.DeleteAttendanceRecord | backend.py:579-601 | with no record of the id it fails and changes nothing; otherwise it removes exactly the records with that id |
| Backend.DataDir.DeleteAllAttendance | backend.py:604-616 | leaves the ledger empty and the catalog unchanged |
| Backend.DataDir.GetStudents | backend.py:619-625 | every student on file, ordered by roll ascending; students with the same roll field keep their insertion order |
| Backend.DataDir.DeleteStudent | backend.py:628-684 | rejects, in this order, a missing or empty roll, a missing confirmation, a wrong admin key (checked only when a key other than "changeme" is configured) and a roll not on file, and changes nothing when it rejects; otherwise removes the roll from both stores, leaves the other entries, their order and the ledger alone, and keeps the stores consistent |

## Left out

- File I/O in `atomic_read_json` and `atomic_write_json` (retries, sleeps, backups of corrupted files, temp-file rename). Each store is in memory, and a write followed by a read returns the written value.
- Face detection, face-region extraction, embedding generation, base64 and image decoding, and the numpy arithmetic of `cosine_distance`. These are OpenCV/numpy calls on floating point. The detector's result per image is an `Option<Embedding>` input, and the distance is the parameter `dist`.
- Recognition.RecognitionOf: distances are exact reals, so the NaN and infinite distances that numpy floats can produce are not modelled. The reported distance is not rounded to 4 decimals as the response does.
- Saving the enrolment images to disk, including the files already saved when a later image fails. Also left out: the "Failed to save image" error (HTTP 500) and moving a deleted student's images and `student_data.json` into the trash directory. These are filesystem side effects.
- Clocks and randomness. `created_at`, the attendance timestamps and the six-character id suffix are parameters. Nothing constrains the suffix to the six lower-case letters and digits the handler draws.
- Text.IsDigit and Text.IsAlnum: these model `str.isdigit` and `str.isalnum` on ASCII only. Python also accepts other Unicode letters and digits. Rolls issued by the backend are ASCII digits.
- The analytics endpoints (`/analysis/...`). They use float percentages, random numbers, hard-coded department data and an outbound HTTP call.
- HTTP wiring: status codes are modelled only as error tags. Also left out: CORS, environment loading and route order. Because `/attendance/{record_id}` is declared first, it also matches `DELETE /attendance/all`; the model keeps the two handlers apart.
- Fields a JSON file could lack (`get("embeddings", [])`, `get("name", "Unknown")`, `get("roll", "")`) are always present in the records.
- Concurrency. The handlers do not lock, and read-modify-write races between requests are outside a sequential model.
- Backend.DataDir.DeleteStudent: the request body of `/delete_student` is untyped JSON. The model takes the roll as an optional string and the confirmation as a boolean. It leaves out Python truthiness of other JSON values, such as a numeric roll or a `"confirm": "yes"` string.
- Backend.DataDir.constructor: takes `THRESHOLD` as an already parsed number. The `float(...)` conversion of the environment string, and the start-up failure on a malformed one, are not modelled.
