# AgriTrack: a Dafny model of the video worker, the job record, the dataset utilities and the range-serving route

This project models the logic of the AgriTrack sheep-tracking application.

- **Video worker** (`backend/app/workers/video_worker.py`). It is a `Worker` class with four pieces of state:
  - the committed `processing_queue` rows;
  - the rows as the database session sees them;
  - the history of the global tracker's updates;
  - a ghost trace of side effects.

  One pass of the endless loop works like this:
  - It selects the first `QUEUED` job and commits `PROCESSING`.
  - It runs the frame loop. Each frame goes through detection, the 0.97 score filter and anchoring at the box centre. The tracker is then updated once, the ids go into `unique_ids`, each object gets its fallback box if it needs one, and `frame_index` is counted.
  - It commits `COMPLETED`.

  An exception after the first commit is caught and rolled back. The rollback cannot undo the committed write, so the job stays `PROCESSING` forever; this is proved as `VideoWorker.StuckForever` and `VideoWorker.CrashedJobStuck`.
- **Job record** (`backend/app/models/processing_queue.py`): the three-valued `StatusEnum`, and the `ProcessingQueue` row with its nullable columns and its autoincrement key.
- **Rotation augmentation** (`model_training/dataset_utilities/dataset_augmentation.py`):
  - `rotate_box` and its algebra;
  - `update_annotation`, which rewrites an array of `bndbox` texts in place;
  - the naming loop of `augment_and_save`.
- **Frame sampling** (`model_training/dataset_utilities/extract_frames.py`): the `while True` loop that seeks to 0, k, 2k, …, saves `frame_00000.jpg`, `frame_00001.jpg`, …, and stops.
- **Routes** (`backend/app/__init__.py`):
  - the `serve_frontend` fallback to `index.html`;
  - the `video` route's handling of `Range: bytes=a-b` (section 2.1 of RFC 7233), down to Python's `str.replace`, `str.split` and `int()`;
  - the `Content-Range` value it adds and the length it reads and adds as a second `Content-Length` header (section 4.2 of RFC 7233);
  - the 500 that follows when `seek` or `read` refuses the parsed bounds, which lie outside the `try`.

Modules: `Wrappers` (Option) and `Decimal` (`str(int)`, `f"{n:05d}"`, the value of a digit run) are shared helpers. The other modules follow the source files: `ProcessingQueueModel`, `VideoWorker`, `DatasetAugmentation`, `ExtractFrames` and `AppRoutes`.

Points where the code behaves otherwise than its names or comments suggest; the model follows the code:
- **No `FAILED` state.** The code has none. A capture that fails to open is not caught: provided the `VideoWriter` still opens, the job goes through with zero frames and is marked `COMPLETED` (`VideoWorker.UnopenedCaptureCompletes`).
- **`COMPLETED` versus `COMPLETE`.** The worker writes `COMPLETED`, but the enum's member is `COMPLETE`.
- **One fixed video.** The worker always reads `videos/uploads/video_02.mp4` and overwrites `videos/processed/video_02.mp4` (backend/app/workers/video_worker.py:98-99), whatever the job's `file_name` says. The model's per-pass input stands for whatever that file holds at the time.
- **No metrics stored.** The worker writes no metric column: no progress, no frame count, no object count and no confidence.
- **Column types.** `duration_seconds` and `processing_time` are integer columns, and `size` is nullable.
- **Score threshold.** The threshold is exactly 0.97, and the test is strict.

## Model

| member | source | states |
|---|---|---|
| ProcessingQueueModel.StatusFromValue | backend/app/models/processing_queue.py:5-8 | `StatusEnum(v)` finds a member exactly when `v` is one of the three stored values, and the member found has that value |
| ProcessingQueueModel.StatusRoundTrip | backend/app/models/processing_queue.py:5-8 | every enum member is read back from its own value |
| ProcessingQueueModel.ExactlyThreeStatuses | backend/app/models/processing_queue.py:5-8 | the enum has exactly QUEUED, PROCESSING and COMPLETE, with three distinct values; there is no failure state |
| ProcessingQueueModel.EmptyTable | backend/app/models/processing_queue.py:14 | the empty table satisfies the key invariant |
| ProcessingQueueModel.Insert | backend/app/models/processing_queue.py:14-26 | an insert keeps the old rows and the key invariant. It gives the new row a fresh autoincremented id, the four non-null fields, `upload_timestamp` defaulting to the creation time, and all eight metric columns NULL |
| ProcessingQueueModel.CompletedIsNotAStatus | backend/app/models/processing_queue.py:17 | `COMPLETED` is not an enum value, yet a row holding it is inserted into a valid table |
| VideoWorker.Centre | backend/app/workers/video_worker.py:150-151 | the anchor point is equally far from both sides of the box on each axis |
| VideoWorker.KeptDetections | backend/app/workers/video_worker.py:145-152 | the filter yields at most one detection per candidate; which ones is stated by KeptDetectionsMembers |
| VideoWorker.KeptDetectionsMembers | backend/app/workers/video_worker.py:145-152 | every kept detection scores strictly above 0.97 and is anchored at its box centre. Each one comes from a candidate above the threshold, and every such candidate is kept |
| VideoWorker.KeptDetectionsAppend | backend/app/workers/video_worker.py:146-152 | filtering is candidate by candidate, so detector order is kept |
| VideoWorker.AllKeptWhenAllAbove | backend/app/workers/video_worker.py:146-152 | when every score clears the threshold, the i-th detection is built from the i-th candidate |
| VideoWorker.BuildDetections | backend/app/workers/video_worker.py:145-152 | the `zip` loop builds exactly the filtered and anchored list |
| VideoWorker.DrawnBox | backend/app/workers/video_worker.py:160-168 | an object with detection data is drawn with that data's box. An object without it gets a 40-by-40 box whose centre is its estimate |
| VideoWorker.MarkOf | backend/app/workers/video_worker.py:160-170 | the mark carries the object's id. With detection data it is that data's box, labelled at the box's centre; without, both the box's centre and the label point are the object's estimate |
| VideoWorker.DrawObjects | backend/app/workers/video_worker.py:158-170 | the per-object loop adds exactly the reported ids to `unique_ids` and draws one mark per object, in order |
| VideoWorker.SeenIdsCharacterized | backend/app/workers/video_worker.py:127-159 | an id is in the set gathered over n frames exactly when some object reported on one of those frames has it |
| VideoWorker.SeenIdsGrow | backend/app/workers/video_worker.py:158-159 | the set of ids only grows from frame to frame |
| VideoWorker.FirstQueued | backend/app/workers/video_worker.py:93 | the selected job is QUEUED and no earlier job is; no job is selected only when none is QUEUED |
| VideoWorker.NextRows | backend/app/workers/video_worker.py:93-186 | a pass changes only the status column, and only of the first queued job, to PROCESSING or COMPLETED. With no queued job it changes nothing |
| VideoWorker.StuckForever | backend/app/workers/video_worker.py:93-95 | selection matches only QUEUED, so a PROCESSING job is untouched by any number of later passes |
| VideoWorker.CrashedJobStuck | backend/app/workers/video_worker.py:111-195 | after a crash that follows the PROCESSING commit, the job stays PROCESSING and is never selected again |
| VideoWorker.NextRowsDequeuesOne | backend/app/workers/video_worker.py:93-112 | each pass that finds a queued job takes exactly one job off the queue |
| VideoWorker.QueueDrains | backend/app/workers/video_worker.py:90-95 | after k passes, max(0, queued - k) jobs are still queued. After as many passes as there were queued jobs, none is selected |
| VideoWorker.WrittenStatuses | backend/app/workers/video_worker.py:111-186 | a crashed job ends with an enum value (PROCESSING); a completed one ends with a string that the enum does not read back |
| VideoWorker.NextRowsKeepsTableValid | backend/app/workers/video_worker.py:111-186 | a pass keeps the table's primary keys distinct and below the sequence |
| VideoWorker.Processed | backend/app/workers/video_worker.py:131-135 | no frame is processed without an opened capture. Without a detector fault every frame is processed |
| VideoWorker.PassOrder | backend/app/workers/video_worker.py:103-186 | PROCESSING is committed first, before the writer opens and before any read. COMPLETED is committed only as the last event of a pass without a crash. A crashed pass ends with a rollback |
| VideoWorker.PassCommitsNextRows | backend/app/workers/video_worker.py:111-195 | the last rows a pass commits are the rows of NextRows |
| VideoWorker.UnopenedCaptureCompletes | backend/app/workers/video_worker.py:103-135 | nothing checks the capture: when the writer opens, a job whose capture did not open is COMPLETED with no frame processed |
| VideoWorker.Worker.SetStatus | backend/app/workers/video_worker.py:111 | the session's copy of the row gets the new status; nothing else changes |
| VideoWorker.Worker.Commit | backend/app/workers/video_worker.py:112 | the session's rows become the committed rows |
| VideoWorker.Worker.Rollback | backend/app/workers/video_worker.py:194 | uncommitted changes are dropped; committed ones stay |
| VideoWorker.Worker.TrackerUpdate | backend/app/workers/video_worker.py:155 | the global tracker's history gets exactly one more entry |
| VideoWorker.Worker.ProcessFrames | backend/app/workers/video_worker.py:127-177 | the frame loop. `frame_index` counts the processed frames, and the tracker gets one list per frame, empty lists included. Frame j is written once, with the marks of that frame's objects. `unique_ids` is the union of the reported ids. The loop ends at the first failed read or at the detector fault |
| VideoWorker.Worker.ProcessFrame | backend/app/workers/video_worker.py:137-174 | one frame read: the tracker is fed exactly that frame's filtered list, the ids it reports join the running set, and the frame gets one mark per reported object |
| VideoWorker.Worker.Claim | backend/app/workers/video_worker.py:111-112 | the selected row is set to PROCESSING in the session and committed at once, and nothing else changes |
| VideoWorker.Worker.Abandon | backend/app/workers/video_worker.py:192-195 | a rollback, which leaves the committed rows as they are, then a sleep; the pass counts as crashed |
| VideoWorker.Worker.RunJob | backend/app/workers/video_worker.py:127-186 | after the claim: the frame loop, then COMPLETED is committed unless the detector raised, in which case the job stays PROCESSING. The tracker keeps everything it was fed either way |
| VideoWorker.Worker.HandleJob | backend/app/workers/video_worker.py:95-195 | a selected job is claimed first. A writer that fails to open crashes the pass before any frame is read; otherwise the job runs. The rows and events end as NextRows and PassEvents say |
| VideoWorker.Worker.Pass | backend/app/workers/video_worker.py:91-195 | one pass moves the committed rows to NextRows, yields the events of PassEvents, and keeps the session equal to the committed rows. The tracker history grows by PassLog: nothing when it sleeps or the writer fails, else the lists of the frames it processed. With no queued job it is idle; otherwise it completes or crashes according to the fault. A completed pass reports the frame count, the ids and the written frames (together: PassAgrees) |
| VideoWorker.Worker.Run | backend/app/workers/video_worker.py:67-195 | after the passes, the committed rows are RowsAfter, which is equal to RunPasses over the crash flags. The one module-level tracker has grown by TrackerAfter: each pass adds the lists of the frames it processed, and nothing is reset between jobs. The trace has grown by EventsAfter, the events of each pass in order. There is one outcome per pass, and RunAgrees ties each one to its pass |
| VideoWorker.Worker.RunPass | backend/app/workers/video_worker.py:90-195 | one turn of `while True`: the rows, the tracker history and the trace each grow by exactly that pass, and its outcome is added to those that agree with their passes |
| VideoWorker.RunAgreesAt | backend/app/workers/video_worker.py:67-195 | the outcome of pass q is whatever that pass reports. The pass starts from the rows the earlier passes committed and from the tracker history they left behind. It is idle iff nothing is queued. It crashed iff the first queued job raised after its claim. Otherwise it completed that job, with a frame count, ids and frames computed from the history that includes every earlier job |
| VideoWorker.RunAgreesAppend | backend/app/workers/video_worker.py:90-195 | a later outcome does not change what the earlier outcomes are said to agree with |
| VideoWorker.RunAgreesStep | backend/app/workers/video_worker.py:90-195 | an outcome that agrees with the next pass extends a run whose outcomes agree with theirs |
| VideoWorker.RowsAfterRunPasses | backend/app/workers/video_worker.py:90-195 | the rows after p passes are those the first p crash flags lead to through NextRows |
| VideoWorker.RowsAfterAll | backend/app/workers/video_worker.py:90-195 | after every pass of a run, the rows are RunPasses over all its crash flags |
| DatasetAugmentation.RotateBox | model_training/dataset_utilities/dataset_augmentation.py:34-42 | min ≤ max is kept on both axes. 90 and 270 swap width and height; other angles keep them. A box inside w×h lands inside h×w for 90/270 and inside w×h otherwise |
| DatasetAugmentation.RotateByOtherAngleIsIdentity | model_training/dataset_utilities/dataset_augmentation.py:34-42 | 0, and every angle other than 90, 180 and 270, leaves the box unchanged |
| DatasetAugmentation.Rotate180Involution | model_training/dataset_utilities/dataset_augmentation.py:38-39 | rotating by 180 twice in the same image gives the box back |
| DatasetAugmentation.Rotate90Then270 | model_training/dataset_utilities/dataset_augmentation.py:36-41 | 270 in the rotated h×w image undoes 90, and 90 undoes 270 |
| DatasetAugmentation.Rotate90Twice | model_training/dataset_utilities/dataset_augmentation.py:36-41 | two quarter turns, the second with the dimensions swapped, equal one half turn |
| DatasetAugmentation.ToTextInjective | model_training/dataset_utilities/dataset_augmentation.py:49-52 | the four `str()` texts determine the box |
| DatasetAugmentation.UpdateAnnotation | model_training/dataset_utilities/dataset_augmentation.py:45-53 | afterwards slot i holds the texts of `rotate_box(boxes[i])`. This is computed from the original boxes, whatever the tree held before, and the object count is kept |
| DatasetAugmentation.RotatedName | model_training/dataset_utilities/dataset_augmentation.py:66-67 | a rotated file keeps the original's stem in front and its extension at the end, with the angle between |
| DatasetAugmentation.RotatedNameShape | model_training/dataset_utilities/dataset_augmentation.py:66-67 | a name is `{base}_rot`, then the angle's `str()` text, then its extension |
| DatasetAugmentation.RotatedNameInjective | model_training/dataset_utilities/dataset_augmentation.py:66-67 | a name determines its angle |
| DatasetAugmentation.AugmentAndSave | model_training/dataset_utilities/dataset_augmentation.py:56-76 | one (jpg, xml) name pair per rotation, in order (RotationNames). Rotation k writes the boxes rotated by that angle, so rotations do not compound. The tree is left at the 270 rotation |
| DatasetAugmentation.AugmentedNamesDistinct | model_training/dataset_utilities/dataset_augmentation.py:64-76 | no two rotations share a file name, and each pair shares its stem |
| ExtractFrames.FrameFileName | model_training/dataset_utilities/extract_frames.py:37 | a saved frame's name starts with `frame_`, ends with `.jpg` and holds at least five characters between |
| ExtractFrames.FrameFileNameShape | model_training/dataset_utilities/extract_frames.py:37 | `frame_`, at least five digits that denote the save count, then `.jpg` |
| ExtractFrames.FrameFileNameInjective | model_training/dataset_utilities/extract_frames.py:37-40 | distinct save counts give distinct names |
| Decimal.ZeroPadded | model_training/dataset_utilities/extract_frames.py:37 | `{n:05d}` is all digits, five long or as long as `str(n)` when that is longer: it pads but never cuts |
| Decimal.ZeroPaddedRoundTrip | model_training/dataset_utilities/extract_frames.py:37 | the zero-padded text still denotes its number |
| Decimal.NatToStringRoundTrip | model_training/dataset_utilities/dataset_augmentation.py:49-52 | reading back a non-negative `str(n)` gives n |
| Decimal.NatToStringLength | backend/app/__init__.py:60-61 | a number below 10^k has at most k digits, so no byte offset below 2^64 reaches the 4300-digit limit of `int()` |
| Decimal.IntToString | model_training/dataset_utilities/dataset_augmentation.py:49-52 | `str(i)` is never empty and starts with `-` exactly when i is negative |
| Decimal.IntToStringInjective | model_training/dataset_utilities/dataset_augmentation.py:49-52 | distinct integers have distinct `str()` texts |
| ExtractFrames.PositiveIntervalTerminates | model_training/dataset_utilities/extract_frames.py:29-45 | with an interval of at least 1 the loop always ends |
| ExtractFrames.ZeroIntervalNeverEnds | model_training/dataset_utilities/extract_frames.py:25-45 | with an interval of 0, a non-empty video and a readable first frame, the loop never ends |
| ExtractFrames.ExtractFrames | model_training/dataset_utilities/extract_frames.py:8-45 | if the video does not open, nothing happens. Otherwise the positions sought are exactly 0, k, 2k, … (Positions). No iteration before the last ends the loop (NoneEnds); the last one meets a failed read or reaches the frame count. Every saved frame was read, and the i-th saved file is `frame_{i:05d}.jpg` (SavedNames). With reads succeeding exactly below N, ⌈N/k⌉ frames are saved |
| ExtractFrames.SoughtBelowCount | model_training/dataset_utilities/extract_frames.py:43-44 | every position sought after the first lies below the frame count |
| ExtractFrames.SavedCountIsCeil | model_training/dataset_utilities/extract_frames.py:29-45 | when reads succeed exactly below N and the interval is k ≥ 1, the loop saves ⌈N/k⌉ frames |
| AppRoutes.ServeFrontend | backend/app/__init__.py:41-45 | a non-empty path that exists is served itself; the empty path, or a path that does not exist, gets `index.html`. Nothing else is ever served, and when `index.html` exists the served file always does |
| AppRoutes.RemoveAll | backend/app/__init__.py:59 | `replace` never lengthens the text, invents no character, and leaves a text without the pattern alone |
| AppRoutes.RemoveAllInside | backend/app/__init__.py:59 | `replace` drops `bytes=` wherever it stands in a text of digits and dashes, not only at the front |
| AppRoutes.Split | backend/app/__init__.py:59 | `split('-')` gives one more part than there are dashes, none with a dash, and joining them gives the text back |
| AppRoutes.SplitTwo | backend/app/__init__.py:59 | two dash-free texts around one dash split back into those two |
| AppRoutes.SkipSpaces | backend/app/__init__.py:60 | the whitespace that `int()` skips at the front (space, tab, line feed, vertical tab, form feed, carriage return) ends at the first other character |
| AppRoutes.DropTrailingSpaces | backend/app/__init__.py:60 | the same whitespace, dropped at the back, starts after the last other character |
| AppRoutes.Strip | backend/app/__init__.py:60 | the stripping `int()` does keeps a contiguous middle of the text that starts and ends with a non-space and holds every non-space character |
| AppRoutes.PyInt | backend/app/__init__.py:60-61 | a run of at most 4300 digits reads as its value, a longer one is refused, and a text without `-` never reads as a negative number |
| AppRoutes.PyIntAccepts | backend/app/__init__.py:60-61 | `int()` accepts whitespace, an optional `+` or `-`, a run of 1 to 4300 digits and whitespace, with the value of the digits under that sign |
| AppRoutes.TooManyDigitsRejected | backend/app/__init__.py:60-63 | the same shape with more than 4300 digits, leading zeros included, is refused |
| AppRoutes.PyIntShape | backend/app/__init__.py:60-61 | conversely, every text `int()` accepts is of that shape with at most 4300 digits, and its value is the signed digits' |
| AppRoutes.StrayCharRejected | backend/app/__init__.py:60 | a character other than a digit, a space or a sign makes `int()` fail |
| AppRoutes.NoDigitRejected | backend/app/__init__.py:60 | a text with no digit, the empty text included, makes `int()` fail |
| AppRoutes.RangeParts | backend/app/__init__.py:59 | a header always gives at least one part, and no part contains `-` |
| AppRoutes.RangeAnswer | backend/app/__init__.py:59-69 | the answer is 206, 400 or 500, and anything other than exactly two parts gives 400 |
| AppRoutes.BoundsAnswer | backend/app/__init__.py:60-77 | a non-integer start, or a non-empty non-integer end, gives 400. Otherwise the bytes are served from the start to the end, or to file_size − 1 when the end is empty (Served). On 206 both bytes are non-negative except that fallback, the length is byte2 − byte1 + 1 and the Content-Range is `bytes {byte1}-{byte2}/{file_size}` |
| AppRoutes.Served | backend/app/__init__.py:65-77 | once parsed, a start below 0 or of 2^63 or more, or a length below −1 or of 2^63 or more, makes `seek` or `read` raise outside the `try`: a 500. Every other range is a 206 with that start, end, length and Content-Range |
| AppRoutes.ContentRangeInjective | backend/app/__init__.py:75 | for non-negative bounds and size, the `Content-Range` value `bytes {byte1}-{byte2}/{file_size}` names exactly one range and one size |
| AppRoutes.ParseRange | backend/app/__init__.py:58-69 | a non-empty header is answered 206, 400 or 500; 400 unless it splits into exactly two parts; on 206 byte1 is `int()` of the first part and the length byte2 − byte1 + 1 |
| AppRoutes.Video | backend/app/__init__.py:49-81 | a missing file is 404 before any parsing; no header or an empty one serves the whole file; otherwise the range answer |
| AppRoutes.NeverRangeNotSatisfiable | backend/app/__init__.py:51-81 | the route answers only 200, 206, 400, 404 or 500, never 416 |
| AppRoutes.DigitPartsSplit | backend/app/__init__.py:59 | `bytes=a-b` with digit runs a and b splits into exactly [a, b] |
| AppRoutes.ClosedAnswer | backend/app/__init__.py:60-77 | an integer start a and a non-empty integer end b are served from a to b as Served says |
| AppRoutes.OpenAnswer | backend/app/__init__.py:60-77 | an integer start a and an empty end are served from a to file_size − 1 as Served says |
| AppRoutes.ClosedRangeParsed | backend/app/__init__.py:59-77 | `bytes=a-b` is served from a to b as Served says, unless a or b has more than 4300 digits, which is a 400 |
| AppRoutes.ClosedRangeServed | backend/app/__init__.py:59-77 | `bytes=a-b` gets a 206 for bytes a to b, with length b − a + 1 and the matching Content-Range, exactly when a < 2^63 and −1 ≤ b − a + 1 < 2^63. With a < 2^63 and b < 2^64 the other cases are 500 |
| AppRoutes.OpenRangeParsed | backend/app/__init__.py:59-77 | `bytes=a-` is served from a to file_size − 1 as Served says, unless a has more than 4300 digits, which is a 400 |
| AppRoutes.SuffixRangeRejected | backend/app/__init__.py:58-63 | the suffix form `bytes=-n` gets 400 |
| AppRoutes.PrefixOptional | backend/app/__init__.py:59 | a header without `bytes=` is answered exactly as the same header with it |
| AppRoutes.InteriorPrefixIgnored | backend/app/__init__.py:58-63 | a header of digits and dashes with `bytes=` inside it is answered exactly as the header without it |
| AppRoutes.InteriorPrefixExample | backend/app/__init__.py:58-77 | so `0-bytes=10` is served as bytes 0 through 10 |
| AppRoutes.InvertedRangeAnswer | backend/app/__init__.py:65-78 | for `bytes=a-b` with a > b the answer is 206 exactly when a < 2^63 and a − b ≤ 2, and then the length is 0 or −1; with a < 2^63 and a − b ≥ 3 it is 500, never 416 |
| AppRoutes.RangePastEndAccepted | backend/app/__init__.py:61-78 | a last byte at or past the end gets 206 exactly when the start and the length are below 2^63, and the length then exceeds the bytes the file has from a on |
| AppRoutes.OpenRangeOnEmptyFile | backend/app/__init__.py:61-77 | on an empty file `bytes=a-` gets 206 exactly when a ≤ 1, with last byte −1, written `-1` in Content-Range, and a length of 0 or −1. A start of 2 or more, below 2^63, gives a 500 |

## Left out

- The detection model is left out: its definition, weight loading, the gdown download, tensors and the CUDA device (backend/app/workers/video_worker.py:16-85). The detector is a total function from a frame to `(box, score, label)` rows.
- The norfair tracker is left out: its matching, `custom_distance`, and its miss-tolerance and confirmation constants. The tracker is a function from the whole history of `update` calls to the objects the latest call reports. It is global, and the model never resets it between jobs.
- OpenCV I/O is left out: opening the capture, its properties (fps, size, frame count), `cvtColor`, the writer's output file, `rectangle`/`putText` pixels, the `int()` rounding of drawn coordinates and the label's 10-pixel offset. A capture is whether it opened plus the frames its reads yield. A written frame is the frame with its marks.
- Faults: an exception is modelled only at opening the writer or in the detector on a given frame. Exceptions in the query itself, in the tracker or in the writer's `write` are not modelled separately. Logging (`print`) and `time.sleep` are not modelled, except for a `Slept` event in the trace.
- SQLAlchemy is left out beyond this: commit makes the session's rows durable, and rollback drops uncommitted changes. The query's `first()` is taken in table order. The upload timestamp's clock is a parameter.
- The daemon thread, Flask/CORS/Migrate setup, `send_file` and `send_from_directory` are left out. So are the bytes a 206 carries: what `seek` and `read` return, including `read(-1)` returning the rest of the file. werkzeug's `Response` also sets a `Content-Length` of its own from the body, so a 206 carries two. The model represents only the one line 77 adds, not the duplicate header.
- AppRoutes.Video: only the limits that hold everywhere are modelled: `seek` refuses starts of 2^63 and more, and `read` lengths below −1 or of 2^63 and more. Limits set by the file system or by memory are not: `seek` also fails, with an `OSError`, past the file system's largest file size (16 TiB on ext4 with 4 KiB blocks), and `read` of a length that cannot be allocated raises `MemoryError`. Both are 500s the model answers as 206.
- AppRoutes.BoundsAnswer: the same file-system and memory limits are not modelled, for the same reason.
- AppRoutes.Served, AppRoutes.ClosedRangeServed, AppRoutes.RangePastEndAccepted, AppRoutes.InvertedRangeAnswer, AppRoutes.OpenRangeOnEmptyFile: the same file-system and memory limits are not modelled, for the same reason. Their "206 exactly when … < 2^63" holds in the model. In CPython a `seek` past the file system's limit or a `read` too large to allocate is a 500 too.
- AppRoutes.PyInt: only ASCII text is modelled: the whitespace `int()` strips is space and tab through carriage return. `int()` would also take underscores between digits, non-ASCII digits and non-ASCII whitespace such as U+0085 and U+00A0; the model rejects them. The digit limit is the default, 4300; a different limit set through `PYTHONINTMAXSTRDIGITS` or `sys.set_int_max_str_digits` is not modelled.
- AppRoutes.SkipSpaces: skips ASCII whitespace only, not the non-ASCII whitespace `int()` also skips.
- AppRoutes.DropTrailingSpaces: drops ASCII whitespace only, for the same reason.
- AppRoutes.Strip: strips ASCII whitespace only, for the same reason.
- Numbers in the worker are exact: scores, box coordinates and estimates are `real`, so float rounding is not modelled.
- `parse_annotation` is left out: parsing floats from XML, PIL image rotation and saving, and XML writing. Boxes enter as integer tuples, and file writes are recorded as the texts written.
- `split_and_save` is left out, because it depends on random shuffling, scikit-learn and file moves.
- `int(fps * interval_seconds)` is left out because it is float arithmetic; `frame_interval` is an integer input. So is `total_frames / fps` (model_training/dataset_utilities/extract_frames.py:21), which raises when the frame rate is zero.
- VideoWorker.UnopenedCaptureCompletes: whether the writer opens is a free input of the pass (`PassInput.fault`), not tied to the capture. The size and rate of an unopened capture (backend/app/workers/video_worker.py:104-106) and whether `VideoWriter` opens with them (line 118) are not modelled, so the lemma assumes the writer opened.
- ExtractFrames.ExtractFrames: the model covers only runs whose loop ends (the `Terminates` precondition). With a zero or negative interval and reads that never fail, the source loops forever; `ZeroIntervalNeverEnds` shows such a run.
- The frontend, `backend/app.py`, `backend/__init__.py` and `backend/app/routes/api.py` are not part of this model.
