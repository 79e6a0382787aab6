# Face recognition attendance: a Dafny model of the recognition core

This project models the logic of a browser face-recognition attendance app.
Each camera frame runs through four steps. The detector's landmarks and
probability become a descriptor. The descriptor is compared with an enrolled
gallery by Euclidean distance. The nearest entry gets a confidence score and
is accepted below a distance of 0.6. A small session state machine throttles
frames to one per 300 ms, debounces the announced student and confidence, and
resets to "unidentified" when no face is seen.

The model also covers two smaller pure pieces:

- the enrolment script, which derives student names from photo file names
  and stores one descriptor per photo with a detected face;
- the CSV export of attendance records.

Modules:

- `Options` (options.dfy): `Option`, for JavaScript's `string | null`.
- `Detector` (detector.dfy): what the detector reports for one face, and the
  interleaved descriptor that both the app and the enrolment script build.
- `Recognition` (recognition.dfy): the NaN filter, `calculateDistance` (a
  loop, proved against `Distance`), the best-match scan (a loop, proved
  against `BestOf`), the confidence clamp, the threshold and
  `getConfidenceClass`.
- `Sessions` (session.dfy): `Step`, one tick of `detectFaces` as a function
  of the three closure variables, and the class `Session` with those three
  fields, whose `Tick` method does the same work step by step.
- `Enrolment` (enrolment.dfy): `src/train.js`.
- `AttendanceCsv` (attendance_csv.dfy): `csvContent` in `exportRecords`,
  plus `Split` as the reading side.

Numbers are Dafny `real`s. A JavaScript number in detector output is
`Num = Fin(real) | NaN`; `undefined` counts as NaN, because the app's filter
drops both. `Math.sqrt` is a parameter `sqrt: real -> real`. Lemmas that
depend on what it computes require `IsSqrt(sqrt)`: non-negative, squaring
back to its argument, and 0 at 0. The detector, the clock and the file
system are inputs:

- a frame is what the detector reported;
- `now` is `Date.now()`;
- enrolment receives the directory listing and a per-file detection result.

Notable behaviours of the code, which the model reproduces:

- A gallery descriptor shorter than the query gives a NaN distance. The
  loop runs over the query's length and reads `undefined` past the end of
  the entry (src/App.tsx:66-67). NaN never passes the strict `<` of the scan
  (src/App.tsx:242), so that entry never becomes the best match.
  `Recognition.PartialSum` and `Recognition.DistanceSymmetry` state this.
  Distance symmetry therefore holds only for descriptors of equal length.
- A face with no usable number gives an empty query (src/App.tsx:235). An
  example is no landmarks with a NaN probability. The empty query is at
  distance 0 from every entry, because the loop runs zero times
  (src/App.tsx:66). So the first gallery entry wins (src/App.tsx:242) and is
  accepted with confidence 100 (src/App.tsx:247, 254).
  `Sessions.EmptyQueryMatchesFirstEntry` and `Sessions.BlankFaceIsIdentified`
  state this.
- A detector error only clears the canvas (src/App.tsx:277-279).
  `lastDetectedStudent` and `lastConfidence` keep their values, and only the
  timestamp moves (`Sessions.FailedDetection`).
- The filter drops only NaN and non-numbers (src/App.tsx:235), so `Infinity`
  would pass (see "Left out").
- An accepted frame is announced once (`Sessions.AcceptedMatchEmitsOnce`).
  A rejected frame is re-announced on every admitted tick
  (`Sessions.RejectedMatchAlwaysReemits`). The comparison is against the
  best name (src/App.tsx:250), but a rejection stores `null`
  (src/App.tsx:259-260).

## Model

| member | source | states |
|---|---|---|
| `Detector.Flatten` | src/App.tsx:233 | the flattened landmarks have length 2·n; slot k is landmark k/2's x when k is even and its y when k is odd |
| `Detector.RawDescriptor` | src/App.tsx:232-234 | the unfiltered descriptor has length 2·n+1, landmark i fills slots 2i and 2i+1, and the probability is last; the enrolment script stores this same descriptor (src/train.js:85-88) |
| `Recognition.FiniteOnly` | src/App.tsx:235 | the filter never lengthens; it keeps the full length exactly when nothing is NaN; a value is kept exactly when it occurs as a number in the input |
| `Recognition.FiniteOnlyAppend` | src/App.tsx:235 | the filter distributes over concatenation, so kept values stay in their original order |
| `Recognition.FiniteOnlyAllFinite` | src/App.tsx:235 | with no NaN, the filter returns the values position by position |
| `Recognition.BuildDescriptor` | src/App.tsx:230-235 | the query descriptor has at most 2·n+1 values, and they are exactly the numeric values among the coordinates and the probability |
| `Recognition.BuildDescriptorComplete` | src/App.tsx:230-235 | with no NaN, the descriptor has length exactly 2·n+1: x, y per landmark in order, then the probability |
| `Recognition.BuildDescriptorOrder` | src/App.tsx:230-235 | the query descriptor is the numeric coordinates in landmark order, followed by the probability when it is a number |
| `Recognition.BuildDescriptorShrinks` | src/App.tsx:230-235 | a single NaN makes the descriptor shorter than 2·n+1 |
| `Recognition.Square` | src/App.tsx:67 | `Math.pow(d, 2)` is never negative |
| `Recognition.PartialSum` | src/App.tsx:64-68 | after n iterations the sum is a number exactly when the second descriptor has at least n values, and then it is non-negative |
| `Recognition.Distance` | src/App.tsx:64-70 | `calculateDistance`: the square root of the summed squared differences over the first argument's indices. DistanceDefined, DistanceToSelf and DistanceSymmetry state its properties, and CalculateDistance is proved to compute it |
| `Recognition.DistanceDefined` | src/App.tsx:64-70 | the distance is a number exactly when the second argument is at least as long as the first, and it is then non-negative |
| `Recognition.DistanceToSelf` | src/App.tsx:64-70 | the distance from a descriptor to itself is 0 |
| `Recognition.DistanceSymmetry` | src/App.tsx:64-70 | for any square-root function, descriptors of equal length are symmetric in distance; when the second is shorter, only the reversed direction is a number |
| `Recognition.CalculateDistance` | src/App.tsx:64-70 | the accumulation loop computes `Distance`, including NaN for a short second argument |
| `Recognition.Improve` | src/App.tsx:241-244 | one step of the scan: the entry replaces the best match only when its distance is a number strictly below the best distance. BestOfIsFirstMinimum states the result of repeating it |
| `Recognition.BestOf` | src/App.tsx:238-245 | the best match after scanning the gallery in order from `{'', Infinity}`. BestOfIsFirstMinimum, BestOfWellFormedGallery and BestOfNamesAnEntry state its properties, and FindBestMatch is proved to compute it |
| `Recognition.BestOfIsFirstMinimum` | src/App.tsx:238-245 | the scan ends at the earliest entry with minimum distance, since ties keep the earlier entry; it stays at `{'', Infinity}` exactly when every distance is NaN |
| `Recognition.BestOfWellFormedGallery` | src/App.tsx:237-245 | a non-empty gallery whose descriptors are all at least as long as the query yields a finite, non-negative best distance |
| `Recognition.BestOfNamesAnEntry` | src/App.tsx:238-245 | a finite best match carries the name of a gallery entry |
| `Recognition.FindBestMatch` | src/App.tsx:238-245 | the best-match loop computes `BestOf` |
| `Recognition.Confidence` | src/App.tsx:247 | the score always lies in [0, 100] |
| `Recognition.ConfidenceScale` | src/App.tsx:247 | distance 0 scores 100; distance 1 or more scores 0; in between the score is 100 − 100·d |
| `Recognition.Accepted` | src/App.tsx:254 | a match is accepted exactly when its distance is a number below 0.6. AcceptedConfidence, RejectedConfidence and ThresholdOnSquares relate it to the score and to the sum of squares |
| `Recognition.AcceptedConfidence` | src/App.tsx:247-254 | a match under the 0.6 threshold scores above 40 |
| `Recognition.RejectedConfidence` | src/App.tsx:247-258 | a match at or over the threshold, or no match, scores at most 40 |
| `Recognition.ThresholdOnSquares` | src/App.tsx:254 | distance < 0.6 holds exactly when the sum of squares is < 0.36 |
| `Recognition.ConfidenceClass` | src/App.tsx:300-304 | `getConfidenceClass`. ConfidenceClassBands and ConfidenceClassMonotone state its bands and its monotonicity |
| `Recognition.ConfidenceClassBands` | src/App.tsx:300-304 | `high` exactly when score ≥ 80, `medium` exactly when 50 ≤ score < 80, `low` exactly when score < 50 |
| `Recognition.ConfidenceClassMonotone` | src/App.tsx:300-304 | a higher score never gets a lower class |
| `Sessions.Detect` | src/App.tsx:221-274 | the detection work of an admitted tick, from the predictions to the new student and confidence. AdmittedTick, UpdateFollowsThreshold, UnchangedMatchIsSuppressed, EmptyGalleryIsInert and NoFaceResets state its cases |
| `Sessions.Step` | src/App.tsx:213-283 | one run of `detectFaces`: the guards, the throttle, then `Detect`. DroppedTick, AdmittedTick, FailedDetection, UpdateFollowsThreshold, StepPreservesConsistency and ThrottleWindow state its properties, and Session.Tick is proved to compute it |
| `Sessions.DroppedTick` | src/App.tsx:214-217 | a tick with no video dimensions, or within 300 ms of the last admitted tick, changes nothing and emits nothing |
| `Sessions.AdmittedTick` | src/App.tsx:216-220 | an admitted tick sets `lastDetectionTime` to `now` whatever follows; an emission reports the new student and confidence; a silent tick changes nothing else |
| `Sessions.FailedDetection` | src/App.tsx:277-282 | a detector error moves only the timestamp |
| `Sessions.UpdateFollowsThreshold` | src/App.tsx:250-262 | a tick emits exactly when the best name or the score differs from the stored pair; an emission stores the score, and the best name when its distance is < 0.6, none otherwise |
| `Sessions.UnchangedMatchIsSuppressed` | src/App.tsx:250 | the same best name with the same score moves only the timestamp and emits nothing |
| `Sessions.EmptyGalleryIsInert` | src/App.tsx:237 | with an empty gallery a face changes only the timestamp |
| `Sessions.NoFaceResets` | src/App.tsx:265-273 | no face resets a detected student to (none, 0) and announces it; with no student detected, nothing is emitted |
| `Sessions.StepPreservesConsistency` | src/App.tsx:247-273 | every tick keeps the confidence in [0, 100] and keeps the stored student an enrolled name that scored above 40 |
| `Sessions.ThrottleWindow` | src/App.tsx:216-220 | after an admitted tick, any tick less than 300 ms later is dropped |
| `Sessions.FailureDoesNotWedge` | src/App.tsx:216-282 | a tick 300 ms after a detector error behaves as it would have without the error |
| `Sessions.AcceptedMatchEmitsOnce` | src/App.tsx:250-257 | repeating a frame whose match is accepted emits nothing on any later tick, whether the throttle drops it or it is admitted |
| `Sessions.RejectedMatchAlwaysReemits` | src/App.tsx:250-261 | a frame whose match is rejected is re-emitted as (none, score) on every admitted tick |
| `Sessions.ExactMatchIsIdentified` | src/App.tsx:226-257 | with gallery A=(0,0,0), B=(1,1,1), the query (0,0,0) matches A at distance 0, and a fresh session announces (A, 100) |
| `Sessions.FarQueryIsUnidentified` | src/App.tsx:226-261 | with the same gallery, the query (10,10,10) is nearest B, but a fresh session announces (none, 0) |
| `Sessions.EmptyQueryMatchesFirstEntry` | src/App.tsx:235-256 | a face with no numeric value gives an empty query, which is at distance 0 from every entry, so a fresh session announces the first entry with confidence 100 |
| `Sessions.BlankFaceIsIdentified` | src/App.tsx:230-256 | a face with no landmarks and a NaN probability is identified as A, the first entry of the example gallery, with confidence 100 |
| `Sessions.Session.constructor` | src/App.tsx:137-139 | a new session starts at (0, null, 0) over its gallery |
| `Sessions.Session.Tick` | src/App.tsx:213-283 | one run of `detectFaces` leaves the three fields and the emission exactly as `Step` says, and keeps the session consistent |
| `Enrolment.ImageFiles` | src/train.js:49-50 | a file is kept exactly when it is listed and ends in `.jpg` or `.png`; the result is no longer than the listing |
| `Enrolment.ImageFilesAppend` | src/train.js:49-50 | the filter keeps the listing's order |
| `Enrolment.StudentName` | src/train.js:58 | the student name: the file name without a final `.jpg` or `.png`. StudentNameStripsExtension and StudentNameSplitsFile state what it removes and what it keeps |
| `Enrolment.StudentNameStripsExtension` | src/train.js:58 | appending `.jpg` or `.png` to any stem and deriving the name gives the stem back, so an earlier `.png` inside the name stays |
| `Enrolment.StudentNameSplitsFile` | src/train.js:58 | an image file is its name plus its 4-character extension; other names are unchanged |
| `Enrolment.UsableFiles` | src/train.js:80 | the files whose photo was read and showed a face, never more than were processed; UsableFilesAppend adds that they keep the listing's order |
| `Enrolment.UsableFilesAppend` | src/train.js:57-80 | the usable files keep the listing's order, because the filter distributes over concatenation |
| `Enrolment.Enrol` | src/train.js:57-104 | `studentDescriptors` after the loop has processed some files. EnrolIsUsableFiles and EnrolSkipsUnusable state its properties, and Train is proved to compute it |
| `Enrolment.EnrolIsUsableFiles` | src/train.js:57-104 | the accumulated entries are one per usable photo in order, each named after its file and built from the first prediction |
| `Enrolment.EnrolSkipsUnusable` | src/train.js:61-103 | a photo that failed or showed no face is skipped without changing the other entries |
| `Enrolment.Train` | src/train.js:49-111 | the loop and the output mapping produce exactly the entries of `Enrol` over the filtered listing |
| `Enrolment.TrainOutputBounds` | src/train.js:54-111 | there are at most as many entries as image files, and each is named after a listed image file |
| `AttendanceCsv.StatusLabel` | src/components/AttendanceRecord.tsx:35 | the status column. StatusLabels states its two cases |
| `AttendanceCsv.StatusLabels` | src/components/AttendanceRecord.tsx:35 | `present` is labelled `出席`; every other status is labelled `缺席` |
| `AttendanceCsv.Join` | src/components/AttendanceRecord.tsx:37 | `Array.prototype.join`: the parts separated by one separator each, with none at either end. JoinThree, JoinEnd and SplitJoin state its properties |
| `AttendanceCsv.CsvContent` | src/components/AttendanceRecord.tsx:30-37 | `csvContent`: the header and one row per record, joined by line feeds. CsvStartsWithHeader, CsvRow, CsvLines and CsvNoTrailingNewline state its properties |
| `AttendanceCsv.Lines` | src/components/AttendanceRecord.tsx:30-37 | there are exactly one header row and one row per record |
| `AttendanceCsv.CsvStartsWithHeader` | src/components/AttendanceRecord.tsx:31 | the text starts with `学生姓名,时间,状态`, and with no records it is only that |
| `AttendanceCsv.CsvRow` | src/components/AttendanceRecord.tsx:32-37 | row i+1 is `name,timestamp,label` for record i |
| `AttendanceCsv.CsvLines` | src/components/AttendanceRecord.tsx:30-37 | when no field holds a line feed, splitting the text at line feeds gives back exactly the header and the rows in order |
| `AttendanceCsv.CsvNoTrailingNewline` | src/components/AttendanceRecord.tsx:37 | the text is never empty and never ends with a line feed |
| `AttendanceCsv.RowFields` | src/components/AttendanceRecord.tsx:37 | a row splits at commas into 3 fields plus one per comma in the name and timestamp, since nothing is quoted; with no commas, it splits back into its fields |
| `AttendanceCsv.SplitJoin` | src/components/AttendanceRecord.tsx:37 | splitting undoes joining when no part contains the separator |

## Left out

- src/download-models.ts: directory creation and shell `curl` calls are I/O only.
- The blazeface detector and TensorFlow tensors: a frame's predictions and an enrolment photo's predictions are inputs.
- Bounding boxes and all canvas drawing (`drawFaceBox`, `clearRect`): presentation only.
- Camera start-up and teardown, the 100 ms `setInterval`, and async/await: the model is one `Tick` per timer firing.
- The `isDetecting` guard: it reads React state captured when the effect started, so it does not serialise runs, and it concerns concurrency.
- `fetch` and JSON parsing of the gallery and of attendance records, `fs`, `loadImage`, `writeFileSync`, Blob, URL and link download: I/O only. The gallery is the `Session`'s constructor argument. The enrolment output is the return value of `Enrolment.Train`.
- JSON serialisation of NaN: `JSON.stringify` writes it as `null`, and the app would later read that as 0 in arithmetic. Enrolment keeps NaN as `NaN`, and the app's gallery holds only numbers.
- IEEE floating point: rounding, `Math.pow`, and float equality in the debounce are exact real operations, and `Math.sqrt` is the parameter `sqrt`.
- `Infinity` or `-Infinity` among detector values: `Num` has no such value; the app's filter would keep it.
- React state setters: modelled as the `Emission` a tick returns, and as the three fields of `Session`.
