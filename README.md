# FileUploader worker core, in Dafny

This project models the job-processing core of FileUploader. The upload API stages a posted file in its Inbox folder. It then LPUSHes an `UploadJob` onto the broker list `upload:jobs` and publishes a Queued `UploadUpdate` on the channel `upload:updates`. A background worker RPOPs jobs one at a time and copies each staged file into its Uploads folder through a 256 KiB buffer. It publishes an InProgress percentage after every chunk, then reports Completed, requeues its attempt number, or dead-letters it to `upload:jobs:dlq`.

Modules, one per component:

- `Contracts`: the two records shared by both processes, `UploadJob` and `UploadUpdate`, with their constructors, `Equals` and `ToString`. Their properties are get-only, so they are immutable datatypes.
- `Text`, `Guids` and `Paths`: the pieces of the .NET library the core depends on.
  - `Text`: decimal rendering of integers.
  - `Guids`: the `Guid` "D" format.
  - `Paths`: `Path.GetFileName` and `Path.Combine` under Windows rules.
- `Queues`: the broker lists as sequences. Index 0 is the left end, where LPUSH inserts; the last index is the right end, where RPOP removes. A list entry is a serialized job, a serialized bare number, or anything else.
- `Storage`: the external state, meaning the two lists, the channel (every update ever published, in order), the Inbox and the Uploads folder. `State` is the value; `Store` is the same state as mutable fields.
- `WorkerSpec`: what one iteration of the worker loop does to that state, as a function. The file system's behaviour is a parameter `Io`:
  - a fault opening the streams;
  - how many bytes each read returns;
  - a fault part-way through the copy or at the flush;
  - a failing delete.
- `Worker`: the worker as a class whose methods update the `Store` in place (`ExecuteAsync`, `ProcessJob`, `CopyWithProgress`, `Publish`). Each method is proved to have exactly the effect `WorkerSpec` gives it.
- `WorkerProperties`: what an iteration guarantees, proved of the specification. This covers pop order, the outcome updates, requeue and dead-letter routing, progress bounds and monotonicity, and concrete scenarios.
- `Api`: the upload endpoint. This is a class method proved against a function, plus lemmas, including two that run an upload through the worker.

Some of what the code does is easy to miss on a first reading. The model keeps each of these behaviours as the code has it:

- **Requeued jobs are lost.** A failed job below its third attempt is requeued as `JsonSerializer.Serialize(job.Attempt)`: a bare number, not the job. The next pop of that entry fails to deserialize as a job, and the loop's catch-all swallows the fault. So a job that fails before attempt 3 is never retried, never dead-lettered and never completed (`RetriedJobIsLost`). Only a job that already has attempt 3 or more when it fails reaches the dead-letter list. The record's `Attempt` property is get-only, so `job.Attempt++` is taken to mean attempt + 1. That value is the requeued number and the n of "Retry n/3".
- **One InProgress update per chunk.** Progress is published after every chunk. A 100-byte file therefore produces three updates: InProgress 0, InProgress 100 and Completed 100 (`HundredByteFile`).
- **Two failure updates.** A failed attempt publishes the executor's own Failed update before the loop's Queued or Failed one. For example, a missing staged file on attempt 3 produces InProgress 0, "Staged file missing" and "Max retries exceeded" (`MissingFileOnLastAttempt`).
- **No record of completed jobs.** A completed job leaves no trace other than its Completed update and its copy in the Uploads folder.
- **Percentages past the recorded size.** While no more than the recorded size has been copied, the percentages of one copy lie in 0..100 and never decrease (`ProgressNonDecreasing`). A file that holds more than its recorded size can report more than 100: 101 bytes against a recorded 100 report 101. Once `total * 100 / size` leaves the `int` range, the unchecked cast wraps, and the value is negative exactly when bit 31 of the quotient is set (`PercentCast`, `PercentWrapsPastRecordedSize`).
- **The staged file survives on Windows.** `File.Delete(job.TempPath)` runs while the source stream opened at WorkerService.cs line 90 is still open. A `using var` lives to the end of the try block, and the stream shares only reading. Windows refuses to delete a file that is open without delete sharing, and the empty `catch` swallows the refusal. On Windows the staged file therefore stays in the Inbox after every successful transfer, and the job is still reported Completed. Platforms that allow deleting an open file (Linux, macOS) remove it. The model leaves this to the `deleteFails` flag of `Io`, and every lemma about a successful transfer states both outcomes (`ExecuteCopiesWholeFile`, `SucceededJobCompletes`, `HundredByteFile`). The path functions follow Windows rules.

## Model

| member | source | states |
|---|---|---|
| `Contracts.JobConstructorStoresArguments` | Source/FileUploader.Contracts/UploadJob.cs:14-22 | The constructor stores its six arguments unchanged, and `attempt` defaults to 0. |
| `Contracts.UploadJob.Equals` | Source/FileUploader.Contracts/UploadJob.cs:29-41 | True exactly when the other object is an `UploadJob` with the same six field values; false for null and for other types. |
| `Contracts.JobEqualsIsEquivalence` | Source/FileUploader.Contracts/UploadJob.cs:29-41 | Job equality is reflexive, symmetric and transitive, and never holds for null or an object of another type. |
| `Contracts.JobToStringDistinguishes` | Source/FileUploader.Contracts/UploadJob.cs:24-27 | For two jobs with the same file name, "{FileName} ({FileSize} bytes), Attempt: {Attempt}" is the same text exactly when size and attempt are the same. |
| `Contracts.UploadJob.ToString` | Source/FileUploader.Contracts/UploadJob.cs:24-27 | "{FileName} ({FileSize} bytes), Attempt: {Attempt}". JobToStringDistinguishes states what the text preserves. |
| `Contracts.UpdateConstructorStoresArguments` | Source/FileUploader.Contracts/UploadUpdate.cs:14-22 | The constructor stores its six arguments unchanged, and `error` defaults to null. |
| `Contracts.UploadUpdate.Equals` | Source/FileUploader.Contracts/UploadUpdate.cs:29-41 | True exactly when the other object is an `UploadUpdate` with the same six field values; two null errors count as equal. |
| `Contracts.UpdateEqualsIsEquivalence` | Source/FileUploader.Contracts/UploadUpdate.cs:29-41 | Update equality is an equivalence, and never holds for null, a job or another type. |
| `Contracts.UploadStatusKind.Name` | Source/FileUploader.Contracts/UploadUpdate.cs:26 | An enum value interpolates as its member name. |
| `Contracts.IsNullOrEmpty` | Source/FileUploader.Contracts/UploadUpdate.cs:26 | `string.IsNullOrEmpty`: null or "". |
| `Contracts.UploadUpdate.Summary` | Source/FileUploader.Contracts/UploadUpdate.cs:26 | The part of the text before the error: "{FileName} ({ProgressPercent}%): {Status}". |
| `Contracts.UploadUpdate.ToString` | Source/FileUploader.Contracts/UploadUpdate.cs:24-27 | The summary, then " - Error: {Error}" unless the error is null or empty. UpdateToStringSuffix and UpdateToStringShowsError state what this text shows. |
| `Contracts.UpdateToStringSuffix` | Source/FileUploader.Contracts/UploadUpdate.cs:24-27 | The text starts with "{FileName} ({ProgressPercent}%): {Status}". It is longer than that exactly when the error is neither null nor empty, and then the rest is " - Error: {Error}". |
| `Contracts.UpdateToStringShowsError` | Source/FileUploader.Contracts/UploadUpdate.cs:26 | Changing only the error leaves the text unchanged exactly when both errors are null-or-empty or the two errors are equal. |
| `Text.ParseIntToString` | Source/FileUploader.Contracts/UploadJob.cs:26 | The decimal rendering of any integer reads back as that integer. |
| `Text.IntToStringInjective` | Source/FileUploader.Contracts/UploadJob.cs:26 | Two integers render the same exactly when they are equal. |
| `Text.NumeralPrefixUnique` | Source/FileUploader.Contracts/UploadJob.cs:26 | A rendered integer followed by text that starts with a non-numeral character splits back uniquely into the integer and the text. |
| `Text.IntToString` | Source/FileUploader.Contracts/UploadJob.cs:26 | An interpolated integer is non-empty and made of digits and '-' only. ParseIntToString and IntToStringInjective show that it determines the integer. |
| `Wrappers.Option.GetOr` | Source/FileUploader.API/UploadController.cs:38 | `??`: the value when there is one, otherwise the default. |
| `Guids.Format` | Source/FileUploader.Worker/WorkerService.cs:88 | A Guid renders in the "D" layout: 36 characters, each a lower-case hex digit or a hyphen, with hyphens at positions 8, 13, 18 and 23. FormatLayout adds that every other position is a hex digit. |
| `Guids.FormatLayout` | Source/FileUploader.Worker/WorkerService.cs:88 | In the "D" layout every position other than 8, 13, 18 and 23 holds a lower-case hex digit. |
| `Guids.DigitsOfFormat` | Source/FileUploader.API/UploadController.cs:39 | Removing the hyphens from the rendering leaves the Guid's 32 hex digits. |
| `Guids.FormatInjective` | Source/FileUploader.Worker/WorkerService.cs:88 | Two Guids render the same exactly when they are equal. |
| `Guids.ParseHexOfHex` | Source/FileUploader.API/UploadController.cs:39 | A value written as fixed-width hex reads back as that value. |
| `Paths.GetFileName` | Source/FileUploader.API/UploadController.cs:39 | The file name is a suffix of the path that holds no separator. GetFileNameLongest shows that it is the longest separator-free suffix that does not reach into a leading "X:" drive. |
| `Paths.GetFileNameLongest` | Source/FileUploader.API/UploadController.cs:39 | The file name never reaches into a leading "X:" drive, and it cannot be extended to the left: the character before it is a separator, or it starts right after the drive. |
| `Paths.Combine` | Source/FileUploader.API/UploadController.cs:40 | An empty name gives the directory, and a rooted name, or any name after an empty directory, gives the name alone. Otherwise the result is the directory, then a backslash unless the directory already ends with a separator, then the name. |
| `Paths.GetFileNameOfCombine` | Source/FileUploader.API/UploadController.cs:39-40 | Combining a directory with a plain, non-rooted, non-empty name and taking the file name gives back that name. |
| `Queues.Deserialize` | Source/FileUploader.Worker/WorkerService.cs:44 | An entry deserializes to a job exactly when it holds a serialized job, and then to that job. |
| `Queues.RightEnd` | Source/FileUploader.Worker/WorkerService.cs:37 | The entry RPOP returns: the one at the right end. Front and Fifo state what the pop leaves and in which order entries come out. |
| `Queues.LeftPush` | Source/FileUploader.Worker/WorkerService.cs:59 | LPUSH puts the entry at the left end and keeps the rest of the list behind it. |
| `Queues.Front` | Source/FileUploader.Worker/WorkerService.cs:37 | RPOP leaves the list minus its right end: the old list is what remains plus the popped entry. |
| `Queues.Fifo` | Source/FileUploader.Worker/WorkerService.cs:36-37 | Entries LPUSHed one after another come out of repeated RPOPs after everything already in the list, in the order they were pushed. |
| `WorkerSpec.ToInt32` | Source/FileUploader.Worker/WorkerService.cs:115 | The unchecked `(int)` cast gives the 32-bit value congruent to its argument modulo 2^32, which is the argument itself when that is in range. |
| `WorkerSpec.AtLeastOne` | Source/FileUploader.Worker/WorkerService.cs:115 | `Math.Max(1, FileSize)`: the file size when that is at least 1, and 1 otherwise. |
| `WorkerSpec.Percent` | Source/FileUploader.Worker/WorkerService.cs:115 | `(int)(total * 100 / Math.Max(1, FileSize))`. PercentCast, PercentBounded, PercentMonotone and PercentOfWholeFile state its values. |
| `WorkerSpec.ReadCount` | Source/FileUploader.Worker/WorkerService.cs:111 | A read returns 0 bytes exactly at the end of the data. Otherwise it returns at least one byte, and no more than the bytes left or the buffer size. |
| `WorkerSpec.Chunks` | Source/FileUploader.Worker/WorkerService.cs:108-117 | The reads that return data together return exactly the bytes of the file. |
| `WorkerSpec.ChunksWithinBuffer` | Source/FileUploader.Worker/WorkerService.cs:108-111 | Every read that returns data returns between one byte and 256 KiB. |
| `WorkerSpec.Progress` | Source/FileUploader.Worker/WorkerService.cs:114-116 | The copy publishes exactly one InProgress update per chunk read. |
| `WorkerSpec.ProgressAt` | Source/FileUploader.Worker/WorkerService.cs:114-116 | The k-th InProgress update reports the percentage of the bytes in the first k+1 chunks. |
| `WorkerSpec.PlanCopy` | Source/FileUploader.Worker/WorkerService.cs:106-119 | A copy gets through a prefix of the chunks the file splits into, and through all of them when nothing throws. |
| `WorkerSpec.UpdateFor` | Source/FileUploader.Worker/WorkerService.cs:46 | Every update built for a job carries that job's JobId, FileId and FileName. |
| `WorkerSpec.DestName` | Source/FileUploader.Worker/WorkerService.cs:88 | `{FileId}_{FileName}`: the 36-character file id, an underscore, then the file name unchanged. DestNameInjective states what the name determines. |
| `WorkerSpec.Execute` | Source/FileUploader.Worker/WorkerService.cs:78-104 | The executor reports success exactly when the transfer succeeds. It never touches either list, and on failure it keeps the staged file. ExecuteOutcome, ExecuteCopiesWholeFile and InterruptedCopyKeepsPrefix state the rest. |
| `WorkerSpec.RetryMessage` | Source/FileUploader.Worker/WorkerService.cs:60 | "Retry {n}/3", from which the attempt number n reads back. |
| `WorkerSpec.Iterate` | Source/FileUploader.Worker/WorkerService.cs:34-74 | One turn of the loop. QueueNeverGrows and the lemmas from EmptyQueueWaits to ExhaustedJobDeadLettered characterise it case by case. |
| `Worker.WorkerService.ExecuteAsync` | Source/FileUploader.Worker/WorkerService.cs:25-76 | Running the loop once per `Io` leaves the state that iterating the specification gives. |
| `Worker.WorkerService.RunIteration` | Source/FileUploader.Worker/WorkerService.cs:34-74 | One turn of the loop, including its catch-all, has the specified effect on the queue, the dead-letter list, the channel, the Inbox and the Uploads folder. |
| `Worker.WorkerService.ProcessJob` | Source/FileUploader.Worker/WorkerService.cs:78-104 | The executor's new state and success flag are those of the specification. |
| `Worker.WorkerService.CopyWithProgress` | Source/FileUploader.Worker/WorkerService.cs:106-119 | The destination holds the bytes of the chunks copied, one InProgress update per chunk is published, and the result is the fault that stopped the copy, if any. The lists and the Inbox are unchanged. |
| `Worker.WorkerService.NextChunk` | Source/FileUploader.Worker/WorkerService.cs:111-117 | One turn of the copy loop advances the copy by exactly the chunk the read returned, keeping the destination and the published updates in step with the chunks read. |
| `Worker.WorkerService.CopyChunk` | Source/FileUploader.Worker/WorkerService.cs:113-116 | Writing a chunk extends the destination by exactly the next bytes of the source and publishes the new percentage. |
| `Worker.WorkerService.Publish` | Source/FileUploader.Worker/WorkerService.cs:121-122 | Publishing appends the update to the channel and changes nothing else. |
| `WorkerProperties.QuotientIsDivision` | Source/FileUploader.Worker/WorkerService.cs:115 | The quotient used for percentages is integer division. |
| `WorkerProperties.CastNegative` | Source/FileUploader.Worker/WorkerService.cs:115 | The cast of a non-negative quotient is negative exactly when bit 31 of the quotient is set. |
| `WorkerProperties.PercentCast` | Source/FileUploader.Worker/WorkerService.cs:115 | The percentage is `total * 100 / Math.Max(1, FileSize)` while that fits an `int`, and negative exactly when bit 31 of that quotient is set. |
| `WorkerProperties.PercentBounded` | Source/FileUploader.Worker/WorkerService.cs:115 | While no more than the recorded size has been copied, the percentage is between 0 and 100. |
| `WorkerProperties.PercentOfWholeFile` | Source/FileUploader.Worker/WorkerService.cs:115 | Copying exactly the recorded, non-zero size reports 100. |
| `WorkerProperties.PercentMonotone` | Source/FileUploader.Worker/WorkerService.cs:115 | Within the recorded size, copying more bytes never reports a smaller percentage. |
| `WorkerProperties.PercentWrapsPastRecordedSize` | Source/FileUploader.Worker/WorkerService.cs:115 | Two instances past the recorded size: 101 bytes against a recorded 100 report 101, and 21,474,837 bytes against a recorded 1 report a negative percentage. |
| `WorkerProperties.ProgressNonDecreasing` | Source/FileUploader.Worker/WorkerService.cs:111-117 | The InProgress updates of one copy never decrease and stay within 0..100, provided the file does not exceed its recorded size. |
| `WorkerProperties.ProgressEndsAtHundred` | Source/FileUploader.Worker/WorkerService.cs:111-117 | A complete copy of a non-empty file of the recorded size ends with an InProgress 100 update. |
| `WorkerProperties.ProgressUpdatesAboutJob` | Source/FileUploader.Worker/WorkerService.cs:116 | Every progress update names the job being copied and has status InProgress. |
| `WorkerProperties.ExecuteOutcome` | Source/FileUploader.Worker/WorkerService.cs:78-104 | The executor succeeds exactly when the staged file exists, the streams open and the copy runs through. It leaves both lists alone and only appends updates about the job, never Completed or Queued ones. On failure it keeps the staged file, and its last update is Failed with the exception's message. |
| `WorkerProperties.ExecuteCopiesWholeFile` | Source/FileUploader.Worker/WorkerService.cs:82-97 | On success, `{FileId}_{FileName}` holds exactly the staged bytes. The staged file is deleted unless deleting it throws, and the outcome is success either way. |
| `WorkerProperties.InterruptedCopyKeepsPrefix` | Source/FileUploader.Worker/WorkerService.cs:90-103 | An interrupted copy leaves a prefix of the staged bytes at the destination, keeps the staged file and reports failure. |
| `WorkerProperties.DestNameInjective` | Source/FileUploader.Worker/WorkerService.cs:88 | Two jobs get the same destination name exactly when their file ids and file names are equal. |
| `WorkerProperties.EmptyQueueWaits` | Source/FileUploader.Worker/WorkerService.cs:37-42 | With nothing to pop, an iteration changes nothing. |
| `WorkerProperties.NonJobEntryDropped` | Source/FileUploader.Worker/WorkerService.cs:44-74 | An entry that is not a job is popped and lost, and nothing else changes. |
| `WorkerProperties.QueueNeverGrows` | Source/FileUploader.Worker/WorkerService.cs:37-66 | An iteration never lengthens the queue. The dead-letter list only grows, by at most one entry at the left, and keeps its old entries. |
| `WorkerProperties.IterationPopsRightEnd` | Source/FileUploader.Worker/WorkerService.cs:36-59 | An iteration removes the right end of the queue and keeps every other entry in place. At most one entry is added at the left end, and that entry is a bare attempt number. |
| `WorkerProperties.JobIterationReports` | Source/FileUploader.Worker/WorkerService.cs:46-66 | A popped job is announced with InProgress 0, and every update of the iteration is about that job. All but the last are InProgress or Failed; the last reports the outcome, never progress. |
| `WorkerProperties.SucceededJobCompletes` | Source/FileUploader.Worker/WorkerService.cs:48-53 | A job whose transfer succeeds leaves the queue for good, is not dead-lettered, is copied exactly, and is reported Completed at 100. Its staged file is removed exactly when the delete does not throw. |
| `WorkerProperties.FailedJobRequeuedAsAttemptOnly` | Source/FileUploader.Worker/WorkerService.cs:54-61 | A failed job below attempt 3 is requeued on the left as its bare incremented attempt number, and the staged file stays. The last two updates are the executor's Failed and Queued "Retry n/3". |
| `WorkerProperties.ExhaustedJobDeadLettered` | Source/FileUploader.Worker/WorkerService.cs:62-66 | A failed job at attempt 3 or more is LPUSHed once onto the dead-letter list and never put back on the queue. The last two updates are the executor's Failed and Failed "Max retries exceeded". |
| `WorkerProperties.HundredByteFile` | Source/FileUploader.Worker/WorkerService.cs:37-53 | A 100-byte file copied with full reads and no faults publishes exactly InProgress 0, InProgress 100 and Completed 100 and leaves the queue empty. The staged file remains exactly when its delete is refused. |
| `WorkerProperties.MissingFileOnLastAttempt` | Source/FileUploader.Worker/WorkerService.cs:44-83 | Attempt 3 with its staged file gone is dead-lettered after InProgress 0, Failed "Staged file missing" and Failed "Max retries exceeded". |
| `WorkerProperties.RetriedJobIsLost` | Source/FileUploader.Worker/WorkerService.cs:44-74 | A lone job that fails below attempt 3 leaves, two iterations later, an empty queue and an unchanged dead-letter list, and no update in between reports Completed. |
| `Api.UploadController.constructor` | Source/FileUploader.API/UploadController.cs:17-22 | The Inbox is `{base directory}\Inbox`. |
| `Api.StagedName` | Source/FileUploader.API/UploadController.cs:39 | `{jobId}_{Path.GetFileName(fileName)}`. StagedNameIsPlain shows that it is a plain file name. |
| `Api.NewJob` | Source/FileUploader.API/UploadController.cs:38-52 | The job for an accepted file. StagedFileNamedAfterJob and AcceptedUploadQueuesOneJob state its fields. |
| `Api.UploadEffect` | Source/FileUploader.API/UploadController.cs:31-65 | What the endpoint does to the state and what it answers. RejectsExactlyMissingFiles and AcceptedUploadQueuesOneJob characterise both outcomes. |
| `Api.UploadController.Upload` | Source/FileUploader.API/UploadController.cs:31-65 | The endpoint leaves the state and returns the response that `UploadEffect` gives. |
| `Api.RejectsExactlyMissingFiles` | Source/FileUploader.API/UploadController.cs:33-34 | The request is refused with "file missing" exactly when the file is null or empty, and a refusal changes nothing. |
| `Api.AcceptedUploadQueuesOneJob` | Source/FileUploader.API/UploadController.cs:36-64 | An accepted file is staged with its bytes and every other staged file is unchanged. Exactly one job is LPUSHed for it, with attempt 0, the staged size and the name or "upload.bin". Exactly one Queued 0 update is published, the dead-letter list and the Uploads folder are untouched, and the response echoes the ids, the name and the size. |
| `Api.StagedNameIsPlain` | Source/FileUploader.API/UploadController.cs:39 | `{jobId}_{GetFileName(fileName)}` is non-empty, holds no separator and is not rooted. |
| `Api.StagedFileNamedAfterJob` | Source/FileUploader.API/UploadController.cs:38-40 | The staged path is the Inbox joined with `{jobId}_{name without directories}`: the name alone for an empty Inbox path, appended directly after a trailing separator, and after one added separator otherwise. Its file name is that staged name, whatever directories the client's name carried. |
| `Api.StagedPathsDiffer` | Source/FileUploader.API/UploadController.cs:36-40 | Uploads with different job ids are staged at different paths. |
| `Api.UploadThenProcess` | Source/FileUploader.API/UploadController.cs:52-62 | Suppose an accepted upload is the only queued entry and the transfer meets no fault. Then the worker's next iteration empties the queue, copies exactly the posted bytes and reports Completed at 100, whether or not the staged file can be deleted. |
| `Api.UploadsServedInOrder` | Source/FileUploader.API/UploadController.cs:57 | After two accepted uploads, the worker pops the earlier entries first, then the first upload's job, then the second's. |

## Left out

- Redis itself (connections, database handles, blocking, delivery to subscribers) is not modelled. The lists are sequences and the channel is an append-only sequence of updates.
- JSON serialization is not modelled. A list entry is classified by what it holds: a job, a bare number, or something else, including null and invalid text.
- Async execution, `CancellationToken`, `TaskCanceledException` and the `Task.Delay` waits of 500 ms and 1000 ms are left out. The loop runs once per `Io` value; cancellation ends the sequence, and cancellation during a transfer surfaces as one of the `Io` faults.
- The Polly policy built in the worker's constructor is left out. It is never applied to anything.
- Logging and `GetHashCode` are left out.
- The file system is reduced to two maps. Faults and read sizes come from the `Io` parameter rather than from disk. The Inbox map is keyed by full path; the Uploads map is keyed by `{FileId}_{FileName}`, with `AppContext.BaseDirectory` and `Directory.CreateDirectory` left out.
- Destination paths are keyed by the unnormalised string `{FileId}_{FileName}`, and the client's raw file name is kept in the job. A name with separators either fails to open, when a directory is missing, or names a different file through `..` segments, which `FileStream` resolves by text alone, possibly outside Uploads. Neither case is modelled beyond the `Io` open fault, so `DestNameInjective` is a fact about the name string, not about the file that is written.
- A fault raised by a `Publish` or a push inside the loop, which the catch-all would swallow, is left out.
- `Guid.NewGuid()` is a parameter of `Upload`. A failure of `CopyToAsync` when staging the file, and the `Health` endpoint, are left out.
- Path rules are those of Windows, for drive-letter and separator forms. UNC paths, invalid characters and other platforms' separators are left out.
- Percent: the `long` multiplication `total * 100` is taken on unbounded integers. Its overflow, past about 92 PB copied, is left out; the 32-bit cast after the division is modelled.
- Several worker instances sharing the queue, and a crash between pop and requeue, are left out. One iteration is atomic here.
- A null `FileName` or `TempPath` in a job is left out: both are non-null strings here. C# would store a null, `Equals` would treat two nulls as equal, and interpolation would render a null as "". Only a producer outside this code can build such a job, since `Upload` always sets both.
- Integers are rendered with '-' as the negative sign. Interpolation uses the current culture, whose negative sign can differ; this matters only for a negative FileSize, Attempt or percentage.
- The `UploadStatusKind` enum's source file is not part of this model. Its four members are taken from their uses.
