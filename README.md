# FastScribe parallel transcription: a Dafny model of its coordination rules

FastScribe transcribes a long video by splitting it into N chunks with `ffmpeg`, transcribing
each chunk in its own worker process with Whisper, showing the workers' progress in a
separate monitor thread, and joining the chunk transcripts into one text file. All of that
lives in `scripts/transcribe_parallel.py`. The tools, the model, the pools and the threads
around it are plumbing. This project models the small rules inside that plumbing and proves
what they guarantee:

- `progress.dfy` (module `Progress`): the progress record, the percent rule shared by both
  writers, the worker's `write_progress`, the progress file (overwritten whole on every
  write), and `TqdmProgressCapture` as a class whose counter `n` is clamped at `total`.
- `chunk_plan.dfy` (module `ChunkPlan`): the chunk plan of `split_video_into_chunks` and
  `create_chunk`, using real numbers. It also models the two checks that decide whether the
  split succeeded.
- `stagger.dfy` (module `Stagger`): the start-up gate. The worker for chunk k > 1 waits
  until chunk k-1's file shows at least 2%.
- `monitor.dfy` (module `ProgressMonitor`): one poll of `monitor_progress`, as a class over
  two arrays: `last_percent` and the bars' counters. It also models the polling loop and
  its exit condition.
- `transcript.dfy` (module `Transcript`): Python's `str.strip()`, the chunk file a worker
  writes from Whisper's segments, the `results` map built in completion order, and the final
  merge in index order.
- `wrappers.dfy` (module `Wrappers`): `Option` and `Result`.

Reading a progress file is modelled as an `Observation`: `Missing`, `Unreadable`, or
`Seen(percent, status)`. The reader's defaults for absent fields are already applied: 0 for
`percent` and `running` for `status`. Whatever the monitor actually reads arrives as a
parameter: one observation per chunk per poll, and the stop flag at each poll. The same
holds for the stagger loop's successive reads.

Points about the code as written, all of which the model keeps:

- When every worker returns its `(chunk, success, error)` tuple, the merged file is written
  even if some chunks failed. A failed chunk gives only a warning, and a missing chunk
  transcript is skipped (`Transcript.ProcessVideo`,
  `Transcript.FailedChunkSkipped`).
- Every non-empty segment text is written stripped, followed by `"\n"`. So two chunks
  holding "Hello world. " and "Goodbye now." merge to `"Hello world.\nGoodbye now.\n"`
  (`Transcript.TwoChunkScenario`), not to the two texts run together.
- No writer ever writes a `failed` status. A worker that raises leaves its last record in
  place.
- An unreadable progress file does not hold up the monitor's exit. A read finds the file
  unreadable when it comes after the truncation by `open(..., 'w')` and before the `with`
  block closes and flushes the file. It is also unreadable when the file vanishes between
  `exists()` and `open()`, or when a failed write left it empty or partial.
- The failure lines are printed in the order of the `failed` dict, which is the order in which
  chunks first arrived in `results` (`Transcript.FailuresInArrivalOrder`).

Two consequences of the code follow from the proved contracts:

- Before its model is loaded, a worker writes only 0% records
  (`Stagger.LoadingKeepsSuccessorWaiting`). The gate stays shut while no read opens it
  (`Stagger.AwaitPredecessor`). So if worker k-1 fails before reaching 2%, worker k waits
  for as long as it keeps polling.
- The monitor exits only on a poll where every chunk is settled
  (`ProgressMonitor.BlockingChunk`, `ProgressMonitor.Monitor.Run`). So it does not exit
  while a failed chunk's record is not `complete`. The orchestrator stops waiting for it
  after `join(timeout=2)`.

tqdm's `total` is modelled as `Option<int>`. The code only asks whether it is truthy, so
`None` and `0` behave alike (`Progress.HasTotal`).

## Model

| member | source | states |
|---|---|---|
| Progress.Percent | scripts/transcribe_parallel.py:100 | 0 when total <= 0. Otherwise the quotient truncated toward zero: p*total <= 100*current < (p+1)*total for current >= 0. It lies in 0..100 when 0 <= current <= total |
| Progress.PercentMonotone | scripts/transcribe_parallel.py:60 | for a fixed total, a larger count never gives a smaller percent |
| Progress.PercentAtLeastTwo | scripts/transcribe_parallel.py:123 | for total > 0, the percent is at least 2 exactly when 50*current >= total |
| Progress.Advance | scripts/transcribe_parallel.py:42 | with a truthy total the new counter is min(n+k, total): at most total, at most n+k, and equal to one of them. Without one it is n+k. It stays non-negative for non-negative inputs |
| Progress.AdvanceAllSaturates | scripts/transcribe_parallel.py:39-45 | non-negative updates from a count within the total give min(n + sum, total) however the increments are split, or n + sum with no total |
| Progress.Snapshot | scripts/transcribe_parallel.py:56-62 | the counter's record carries the chunk number, the count, the total, the percent rule's value and status `transcribing` |
| Progress.SnapshotPercentInRange | scripts/transcribe_parallel.py:55-62 | from a count in 0..total, the counter's record has a percent in 0..100 |
| Progress.WorkerRecord | scripts/transcribe_parallel.py:96-102 | the worker's record carries its arguments and the percent rule's value |
| Progress.WorkerMilestones | scripts/transcribe_parallel.py:109-170 | the starting, loading_model and model_loaded records show 0%; the transcribed and complete records show 100% |
| Progress.ProgressFile.Overwrite | scripts/transcribe_parallel.py:64-65 | a write replaces the whole file with the new record |
| Progress.ProgressFile.Observe | scripts/transcribe_parallel.py:375-380 | a read between writes: missing before the first write, and afterwards the percent and status of the last record written. The three methods below use it to connect writes to reads |
| Progress.WriteWorkerProgress | scripts/transcribe_parallel.py:93-107 | writes the worker's record when there is a progress file, and nothing otherwise |
| Progress.ProgressCapture.constructor | scripts/transcribe_parallel.py:29-37 | the counter starts at 0 and the initial record is written only with a file and a truthy total |
| Progress.ProgressCapture.WriteProgress | scripts/transcribe_parallel.py:53-67 | with a file and a truthy total the file holds the counter's record; otherwise it is unchanged |
| Progress.ProgressCapture.Update | scripts/transcribe_parallel.py:39-45 | `update(n=1)`, with the same default: the counter becomes Advance(n, k, total) and never passes a truthy total. The record is rewritten as in WriteProgress, and the result is true |
| Progress.ProgressCapture.Close | scripts/transcribe_parallel.py:47-51 | the counter is unchanged and the record is written again |
| ChunkPlan.CreateChunk | scripts/transcribe_parallel.py:265-285 | chunk i starts at (i-1)*D/N. It has duration D/N unless i == N, and the last chunk has no duration |
| ChunkPlan.Plan | scripts/transcribe_parallel.py:245-251 | an unknown duration, N == 0 and N < 0 each give their own error. Otherwise the plan has exactly N chunks, numbered 1..N, and it is the plan `Chunks(D, N)` that the lemmas below describe |
| ChunkPlan.OnlyLastIsOpenEnded | scripts/transcribe_parallel.py:270-285 | only the last chunk is open-ended |
| ChunkPlan.StartsNonDecreasing | scripts/transcribe_parallel.py:267 | for D >= 0 the start offsets never decrease with the index |
| ChunkPlan.ChunksAreContiguous | scripts/transcribe_parallel.py:267-285 | each bounded chunk ends where the next one starts |
| ChunkPlan.BoundedDurationsReachLastStart | scripts/transcribe_parallel.py:251-295 | the bounded durations add up to the last chunk's start |
| ChunkPlan.LastChunkReachesEnd | scripts/transcribe_parallel.py:251-277 | the last chunk's start plus D/N is D, so the open-ended chunk covers the rest of the source |
| ChunkPlan.SplitVideo | scripts/transcribe_parallel.py:243-320 | an unknown duration returns false. A zero or negative count raises the plan's error before any chunk is made. With a known duration and N >= 1 chunks, it takes one creation result and one existence check per chunk and returns a boolean: true exactly when every creation succeeded and every chunk file exists |
| ChunkPlan.SplitSucceeded | scripts/transcribe_parallel.py:294-316 | the split succeeds exactly when every chunk creation succeeded and every chunk file exists |
| Stagger.AwaitPredecessor | scripts/transcribe_parallel.py:111-127 | chunk 1, or a worker with no progress directory, proceeds with no read. Otherwise the worker proceeds right after the first read showing a record with percent >= 2, and at no earlier read. It keeps waiting exactly when no read opens the gate; missing and unreadable files never do |
| Stagger.LoadingKeepsSuccessorWaiting | scripts/transcribe_parallel.py:109-132 | the records a worker writes before and while loading its model never open its successor's gate |
| Stagger.StartWritesKeepGateShut | scripts/transcribe_parallel.py:93-132 | after the worker writes one of its (0, 1) records, its successor reads that record as 0% with the written status, and the gate stays shut |
| Stagger.UpdateOpensGate | scripts/transcribe_parallel.py:39-65 | after `update(k)` on a counter with a file and a truthy total, the file holds the new record. For a positive total and non-negative counts, the successor's read opens the gate exactly when 50*n >= total; for a negative total it never does |
| Stagger.CaptureOpensAtFiftieth | scripts/transcribe_parallel.py:119-124 | a counter record opens the gate exactly when at least a fiftieth of the predecessor's frames are done |
| ProgressMonitor.NextPercent | scripts/transcribe_parallel.py:383-386 | the new last_percent is never smaller than the old one. A read record yields the larger of the old value and the read percent; otherwise the value is unchanged |
| ProgressMonitor.ReplayMonotone | scripts/transcribe_parallel.py:366-386 | over any run of polls, last_percent[i] never decreases |
| ProgressMonitor.ReplayCoversObserved | scripts/transcribe_parallel.py:369-386 | last_percent[i] is at least every percent read for chunk i |
| ProgressMonitor.ReplayAttained | scripts/transcribe_parallel.py:383-386 | last_percent[i] is its initial value or a percent actually read; with the two lemmas above, it is the maximum of those |
| ProgressMonitor.ReplayAtMostHundred | scripts/transcribe_parallel.py:355-386 | if no record read exceeds 100%, neither does any bar |
| ProgressMonitor.BlockingChunk | scripts/transcribe_parallel.py:370-393 | a missing file or a record that is not complete makes all_done false. An unreadable file never does |
| ProgressMonitor.CompleteWriteSettles | scripts/transcribe_parallel.py:170 | after the worker's final `complete` write, the monitor reads 100% and `complete`, so the chunk is settled |
| ProgressMonitor.Monitor.constructor | scripts/transcribe_parallel.py:355-366 | every bar and every last_percent starts at 0 |
| ProgressMonitor.Monitor.Poll | scripts/transcribe_parallel.py:370-393 | last_percent[i] becomes NextPercent of the old value and chunk i's observation. Each bar moves by exactly that change, so it always equals last_percent. all_done holds exactly when every chunk is settled |
| ProgressMonitor.Monitor.Run | scripts/transcribe_parallel.py:369-399 | the loop exits at the first poll where the stop flag is set and all_done holds, and at no other. The bars reflect every poll made |
| Transcript.TrimStartSpec | scripts/transcribe_parallel.py:166 | trimming the start drops only a whitespace prefix and stops at a non-whitespace character |
| Transcript.TrimEndSpec | scripts/transcribe_parallel.py:166 | trimming the end drops only a whitespace suffix and stops at a non-whitespace character |
| Transcript.Strip | scripts/transcribe_parallel.py:166 | `str.strip()`: the result is never longer than the text, and when it is non-empty it neither starts nor ends with whitespace |
| Transcript.StripSpec | scripts/transcribe_parallel.py:166 | stripping gives "" exactly for all-whitespace text |
| Transcript.StripPadded | scripts/transcribe_parallel.py:166 | stripping removes exactly the whitespace around a text that has no whitespace at either end |
| Transcript.StripIdempotent | scripts/transcribe_parallel.py:166 | stripping twice is the same as stripping once |
| Transcript.WriteChunkTranscript | scripts/transcribe_parallel.py:162-168 | the file holds, in segment order, each non-empty stripped segment text followed by "\n" |
| Transcript.LinesAppend | scripts/transcribe_parallel.py:164-168 | the lines of a concatenated list are the lines of its parts, in order |
| Transcript.ChunkTextAppend | scripts/transcribe_parallel.py:164-168 | transcribing segments in two runs gives the two chunk texts one after the other |
| Transcript.ChunkTextEmpty | scripts/transcribe_parallel.py:166-168 | a chunk file is empty exactly when every segment text strips to "" |
| Transcript.LinesEndWithNewline | scripts/transcribe_parallel.py:168 | a non-empty chunk file ends with "\n" |
| Transcript.CombineTranscripts | scripts/transcribe_parallel.py:472-481 | the output is the existing chunk transcripts for 1..N in index order. The warnings list the missing chunks in index order |
| Transcript.MergedPrefix | scripts/transcribe_parallel.py:475-479 | the merge of chunks 1..m is a prefix of the merge of chunks 1..n for m <= n |
| Transcript.MergedPlacesChunk | scripts/transcribe_parallel.py:475-479 | an existing chunk k's text comes right after the merge of chunks 1..k-1 |
| Transcript.MergedAllPresent | scripts/transcribe_parallel.py:474-479 | with every transcript present, the output is their concatenation in order 1..N |
| Transcript.MergedReadsOnlyChunks | scripts/transcribe_parallel.py:475-476 | entries outside 1..N change neither the output nor the warnings |
| Transcript.MissingChunksExact | scripts/transcribe_parallel.py:477-481 | a chunk is warned about exactly when it is in 1..N and has no transcript |
| Transcript.CollectResults | scripts/transcribe_parallel.py:429-431 | the loop builds `results` from the completions in arrival order |
| Transcript.CollectContents | scripts/transcribe_parallel.py:429-431 | with one completion per chunk, `results` holds exactly the completed chunks, each with its own outcome |
| Transcript.CollectSameElements | scripts/transcribe_parallel.py:429-431 | `results` depends only on which completions arrived |
| Transcript.CollectOrderIrrelevant | scripts/transcribe_parallel.py:429-431 | two arrival orders of the same completions give the same `results` |
| Transcript.Failed | scripts/transcribe_parallel.py:461 | `failed` holds exactly the unsuccessful chunks, each with its error |
| Transcript.KeyOrder | scripts/transcribe_parallel.py:431 | the insertion order of `results`: every key of `results` appears, exactly once |
| Transcript.KeyOrderArrival | scripts/transcribe_parallel.py:429-431 | with one completion per chunk, the dict order of `results` is the arrival order |
| Transcript.FailureReport | scripts/transcribe_parallel.py:462-466 | the failure lines in the order of `failed`: a (chunk, error) line is printed exactly when that chunk is in `failed` with that error |
| Transcript.FailuresInArrivalOrder | scripts/transcribe_parallel.py:429-466 | chunk 3 failing before chunk 1 is printed first |
| Transcript.ProcessVideo | scripts/transcribe_parallel.py:337-481 | a failed split produces nothing. Otherwise the file is written with the in-order merge, whatever failed. The failures are reported in the dict order of `failed`, and the missing chunks in index order |
| Transcript.ProcessVideoAfterSplit | scripts/transcribe_parallel.py:337-339 | the video is transcribed and merged exactly when the split returned true: known duration, positive count, every chunk made and found |
| Transcript.ProcessVideoOrderIrrelevant | scripts/transcribe_parallel.py:429-481 | the order in which chunks complete changes neither the written file, nor the missing-chunk warnings, nor which chunks are reported failed with which error. Only the order of the failure lines follows it |
| Transcript.TwoChunkMerge | scripts/transcribe_parallel.py:429-481 | two chunks where chunk 2 completes first give chunk 1's text and then chunk 2's |
| Transcript.TwoChunkScenario | scripts/transcribe_parallel.py:164-481 | from the segments "Hello world. " and "Goodbye now." the file is "Hello world.\nGoodbye now.\n" |
| Transcript.FailedChunkSkipped | scripts/transcribe_parallel.py:461-481 | a failed chunk 2 with no transcript is reported and skipped, and chunks 1 and 3 are still merged |

## Left out

- Calling `ffprobe` and `ffmpeg` (scripts/transcribe_parallel.py:220-241, 288): these are external tools. The probed duration and each creation's success are parameters.
- Whisper: loading the model, `transcribe`, the `lang_code == "auto"` mapping, and the patching of `tqdm`, `sys.stdout` and `sys.stderr`. This is a foreign library plus global hook swapping. Whisper's segments and its `update(k)` calls are inputs.
- Concurrency: the thread and process pools, `as_completed`, `threading.Event`, the daemon thread, `sleep`, `join` timeouts, and the `KeyboardInterrupt` shutdown and cleanup. One poll, one gate check and one loop over a finite series of observations are modelled instead.
- `VideoTranscriber.run` (scripts/transcribe_parallel.py:500-542): it hands `process_video` for every input video to a pool of `max_threads` threads (525-537), which is 2 under `--default` (566). Every call shares one `temp_dir` (198), which the split deletes (258-259) and the cleanup deletes again (490-491). The chunk, progress and transcript file names are the same for every video. So with two or more threads, concurrent videos can delete or overwrite each other's chunks, progress files and transcripts. The model covers one `process_video` at a time. Its observations and `transcripts` are whatever the shared files hold, and it does not capture this interference.
- Filesystem and rendering: JSON parsing, directory creation, `shutil.rmtree` and drawing the bars. The model treats every write as succeeding.
- Failed progress writes: the source swallows them (63-67, 103-107). If `open(..., 'w')` itself fails, the file keeps its previous record. If the write fails after the truncation, for example when the buffer is flushed on close, the file is left empty or partial and reads as `Unreadable`.
- Failed chunk-transcript writes: an exception while writing `chunk_i.txt` (164-168) goes to the worker's handler (178-191). It leaves a partial `chunk_i.txt`, which the merge still reads, and the worker returns `(i, False, str(e))`. The model's `transcripts` is whatever the chunk file holds.
- Failed merge writes: an exception while writing the final file (474-479) propagates out of `process_video` and leaves the output partial. This is not modelled.
- Transcript.ProcessVideo: a split that raises (a zero or negative chunk count) propagates out of `process_video`. `ProcessVideo` has no outcome for it, which is why `ProcessVideoAfterSplit` takes only a split that returned.
- Transcript.ProcessVideo: assumes that every worker returns `(i, success, error)`. A worker process that dies makes `future.result()` raise, for example `BrokenProcessPool` (430). That exception leaves `process_video` after the `finally` (452-454). Then `stop_monitor` is never set (457), no failure report is printed and nothing is merged (461-481), and nothing is cleaned up (487-492). `run` catches the exception (536-537). `Completion` cannot express such a worker, so the model does not capture a video aborted with no output.
- Progress.Percent: models `int(current / total * 100)` exactly over integers. The source computes it in floating point, which can give one less for some inputs (29 of 100 gives 28).
- ChunkPlan.CreateChunk: uses real arithmetic, not floats, and does not model how offsets are formatted as `ffmpeg` arguments.
- ProgressMonitor.Monitor.Run: runs over a finite schedule of polls. It reports when the schedule runs out before the exit condition; it does not model polling forever.
- Stagger.AwaitPredecessor: runs over a finite series of reads. It reports when none of them opens the gate, rather than polling forever.
- `main`, the interactive menus and `argparse` (scripts/transcribe_parallel.py:544-650): user I/O that selects the thread count, the model size and the language.
- `setup.py` and `transcribe.py`: environment provisioning and a subprocess launcher, not part of this model.
